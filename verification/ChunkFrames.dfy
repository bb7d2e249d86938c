/** Chunked frames: one meta frame and Base64 slices of the UTF-8 payload
    (gdr/serialize.py). The digest is a parameter. */
module ChunkFrames {
  import opened Common
  import opened Utf8
  import Base64

  const CHUNK_SIZE: nat := 128
  const INLINE_LIMIT: nat := 2048

  type Digest = string

  /** A frame as the plugin receives it; `OutOfRange` is the error document. */
  datatype Frame =
    | Meta(total: int, chunkSize: nat, sha256: Digest)
    | Slice(text: string)
    | OutOfRange(index: int, total: int)

  datatype ReassemblyError = NotMeta | BadBase64 | BadUtf8 | ChecksumMismatch

  /** `encoded` in pieces of `size`, the last one possibly shorter. */
  function Slices(encoded: string, size: nat): seq<string>
    requires size > 0
    decreases |encoded|
  {
    if encoded == "" then []
    else if |encoded| <= size then [encoded]
    else [encoded[..size]] + Slices(encoded[size..], size)
  }

  function Joined(slices: seq<string>): string {
    if slices == [] then "" else slices[0] + Joined(slices[1..])
  }

  /** The slices lose nothing. */
  lemma {:induction false} SlicesJoin(encoded: string, size: nat)
    requires size > 0
    ensures Joined(Slices(encoded, size)) == encoded
    decreases |encoded|
  {
    if |encoded| > size {
      SlicesJoin(encoded[size..], size);
      var first, rest := encoded[..size], Slices(encoded[size..], size);
      assert ([first] + rest)[1..] == rest;
      assert first + encoded[size..] == encoded;
    } else if encoded != "" {
      assert [encoded][1..] == [];
      assert encoded + "" == encoded;
    }
  }

  ghost predicate Full(slices: seq<string>, size: nat) {
    && (forall i :: 0 <= i < |slices| ==> 0 < |slices[i]| <= size)
    && (forall i :: 0 <= i < |slices| - 1 ==> |slices[i]| == size)
  }

  lemma FullPrepend(first: string, rest: seq<string>, size: nat)
    requires |first| == size > 0 && Full(rest, size)
    ensures Full([first] + rest, size)
  {
    var all := [first] + rest;
    assert forall i :: 1 <= i < |all| ==> all[i] == rest[i - 1];
  }

  /** Every slice but the last is full, and the last one is not empty. */
  lemma {:induction false} SlicesFull(encoded: string, size: nat)
    requires size > 0
    ensures Full(Slices(encoded, size), size)
    decreases |encoded|
  {
    if |encoded| > size {
      SlicesFull(encoded[size..], size);
      FullPrepend(encoded[..size], Slices(encoded[size..], size), size);
    }
  }

  function ChunkPayload(sha: seq<Byte> -> Digest, payload: string, size: nat): (frames: seq<Frame>)
    requires size > 0
    ensures |frames| >= 1 && frames[0].Meta?
  {
    var bytes := Encode(payload);
    var slices := Slices(Base64.Encode(bytes), size);
    [Meta(|slices|, size, sha(bytes))] + seq(|slices|, i requires 0 <= i < |slices| => Slice(slices[i]))
  }

  function Reassemble(sha: seq<Byte> -> Digest, meta: Frame, slices: seq<string>): Result<string, ReassemblyError> {
    if !meta.Meta? then Err(NotMeta)
    else
      var bytes := Base64.Decode(Joined(slices));
      if bytes.None? then Err(BadBase64)
      else
        var payload := Decode(bytes.value);
        if payload.None? then Err(BadUtf8)
        else if sha(Encode(payload.value)) != meta.sha256 then Err(ChecksumMismatch)
        else Ok(payload.value)
  }

  lemma FramesAreSlices(sha: seq<Byte> -> Digest, payload: string, size: nat)
    requires size > 0
    ensures var frames := ChunkPayload(sha, payload, size);
            var slices := Slices(Base64.Encode(Encode(payload)), size);
            && frames[0] == Meta(|slices|, size, sha(Encode(payload))) && |frames| == |slices| + 1
            && forall i :: 1 <= i < |frames| ==> frames[i] == Slice(slices[i - 1])
  {}

  /** Pulling every frame and putting the slices together gives the payload back,
      for every payload, chunk size and digest function. */
  lemma ReassembleUndoesChunk(sha: seq<Byte> -> Digest, payload: string, size: nat, texts: seq<string>)
    requires size > 0
    requires var frames := ChunkPayload(sha, payload, size);
             |texts| == |frames| - 1 && forall i :: 0 <= i < |texts| ==> frames[i + 1] == Slice(texts[i])
    ensures Reassemble(sha, ChunkPayload(sha, payload, size)[0], texts) == Ok(payload)
  {
    var frames := ChunkPayload(sha, payload, size);
    var slices := Slices(Base64.Encode(Encode(payload)), size);
    FramesAreSlices(sha, payload, size);
    forall i | 0 <= i < |texts| ensures texts[i] == slices[i] {
      assert frames[i + 1] == Slice(texts[i]);
    }
    assert texts == slices;
    SlicesJoin(Base64.Encode(Encode(payload)), size);
    Base64.DecodeUndoesEncode(Encode(payload));
    DecodeUndoesEncode(payload);
  }

  /** Reassembly succeeds exactly when the joined slices are the Base64 of the
      payload's own bytes and those have the announced digest; it fails for the
      first of the four reasons that applies. */
  lemma ReassembleIff(sha: seq<Byte> -> Digest, meta: Frame, slices: seq<string>, payload: string)
    ensures var bytes := Base64.Decode(Joined(slices));
            && (Reassemble(sha, meta, slices) == Ok(payload) <==>
                  meta.Meta? && bytes == Some(Encode(payload)) && sha(Encode(payload)) == meta.sha256)
            && (Reassemble(sha, meta, slices) == Err(NotMeta) <==> !meta.Meta?)
            && (Reassemble(sha, meta, slices) == Err(BadBase64) <==> meta.Meta? && bytes.None?)
            && (Reassemble(sha, meta, slices) == Err(BadUtf8) <==>
                  meta.Meta? && bytes.Some? && forall text :: Encode(text) != bytes.value)
            && (Reassemble(sha, meta, slices) == Err(ChecksumMismatch) <==>
                  && meta.Meta? && bytes.Some? && (exists text :: Encode(text) == bytes.value)
                  && sha(bytes.value) != meta.sha256)
  {
    var bytes := Base64.Decode(Joined(slices));
    if bytes.Some? {
      forall text | Encode(text) == bytes.value ensures Decode(bytes.value) == Some(text) {
        DecodeUndoesEncode(text);
      }
      if Decode(bytes.value).Some? {
        EncodeUndoesDecode(bytes.value);
      }
    }
  }

  ghost predicate CollisionFree(sha: seq<Byte> -> Digest) {
    forall a, b :: sha(a) == sha(b) ==> a == b
  }

  /** Whatever slices are put under a payload's meta frame, reassembly gives that
      payload or fails: lost, repeated, swapped or foreign slices never pass. */
  lemma ReassembleNeverMixes(sha: seq<Byte> -> Digest, payload: string, size: nat, texts: seq<string>)
    requires size > 0 && CollisionFree(sha)
    ensures var r := Reassemble(sha, ChunkPayload(sha, payload, size)[0], texts);
            r.Ok? ==> r.value == payload
  {
    FramesAreSlices(sha, payload, size);
    var r := Reassemble(sha, ChunkPayload(sha, payload, size)[0], texts);
    if r.Ok? {
      EncodeInjective(r.value, payload);
    }
  }

  /** No frame needs escaping: slices hold printable characters, no quotes. */
  lemma SlicesPrintable(sha: seq<Byte> -> Digest, payload: string, size: nat)
    requires size > 0
    ensures forall i, k :: var frames := ChunkPayload(sha, payload, size);
              1 <= i < |frames| && 0 <= k < |frames[i].text| ==>
                ' ' < frames[i].text[k] <= '~' && frames[i].text[k] != '"' && frames[i].text[k] != '\\'
  {
    FramesAreSlices(sha, payload, size);
    var encoded := Base64.Encode(Encode(payload));
    Base64.EncodedShape(Encode(payload));
    SlicesWithin(encoded, size);
  }

  lemma {:induction false} SlicesWithin(encoded: string, size: nat)
    requires size > 0
    ensures forall i, k :: 0 <= i < |Slices(encoded, size)| && 0 <= k < |Slices(encoded, size)[i]| ==>
      Slices(encoded, size)[i][k] in encoded
    decreases |encoded|
  {
    if |encoded| > size {
      SlicesWithin(encoded[size..], size);
    }
  }

  datatype Plan = Inline(body: string) | Chunked(meta: Frame)

  function TransportPlan(sha: seq<Byte> -> Digest, payload: string): Plan {
    if |payload| <= INLINE_LIMIT then Inline(payload) else Chunked(ChunkPayload(sha, payload, CHUNK_SIZE)[0])
  }
}
