/** Base64 with padding (section 4 of RFC 4648), and the lenient streaming decoder
    of the Python standard library. */
module Base64 {
  import opened Common
  import opened Utf8

  type Sextet = x: int | 0 <= x < 64

  const PAD := '='

  function CharOf(v: Sextet): (c: char)
    ensures c != PAD && ' ' < c <= '~' && c != '"' && c != '\'' && c != '\\'
  {
    if v < 26 then ('A' as int + v) as char
    else if v < 52 then ('a' as int + (v - 26)) as char
    else if v < 62 then ('0' as int + (v - 52)) as char
    else if v == 62 then '+' else '/'
  }

  /** The value of a data character; nothing for any other character. */
  function ValueOf(c: char): (v: Option<Sextet>)
    ensures v.Some? ==> CharOf(v.value) == c
  {
    if 'A' <= c <= 'Z' then Some(c as int - 'A' as int)
    else if 'a' <= c <= 'z' then Some(c as int - 'a' as int + 26)
    else if '0' <= c <= '9' then Some(c as int - '0' as int + 52)
    else if c == '+' then Some(62) else if c == '/' then Some(63) else None
  }

  lemma ValueOfChar(v: Sextet)
    ensures ValueOf(CharOf(v)) == Some(v)
  {}

  function Encode(bytes: seq<Byte>): string {
    if bytes == [] then ""
    else if |bytes| == 1 then [CharOf(bytes[0] / 4), CharOf(bytes[0] % 4 * 16), PAD, PAD]
    else if |bytes| == 2 then
      [CharOf(bytes[0] / 4), CharOf(bytes[0] % 4 * 16 + bytes[1] / 16), CharOf(bytes[1] % 16 * 4), PAD]
    else
      [CharOf(bytes[0] / 4), CharOf(bytes[0] % 4 * 16 + bytes[1] / 16),
       CharOf(bytes[1] % 16 * 4 + bytes[2] / 64), CharOf(bytes[2] % 64)] + Encode(bytes[3..])
  }

  /** Four characters for every started group of three bytes, all of them
      printable and none a quote or a backslash. */
  lemma {:induction false} EncodedShape(bytes: seq<Byte>)
    ensures |Encode(bytes)| == 4 * ((|bytes| + 2) / 3)
    ensures forall c :: c in Encode(bytes) ==> ' ' < c <= '~' && c != '"' && c != '\'' && c != '\\'
  {
    if |bytes| >= 3 {
      EncodedShape(bytes[3..]);
      var quad, rest := Encode(bytes)[..4], Encode(bytes[3..]);
      assert Encode(bytes) == quad + rest;
      assert (|bytes| + 2) / 3 == (|bytes[3..]| + 2) / 3 + 1;
      forall c | c in Encode(bytes) ensures ' ' < c <= '~' && c != '"' && c != '\'' && c != '\\' {
        assert c in quad || c in rest;
      }
    }
  }

  /** Where the decoder stands: its place in the quad, the bits not yet given out,
      the run of pads just read, and the bytes given out. */
  datatype Decoder = Reading(place: nat, left: int, pads: nat, output: seq<Byte>) | Finished(output: seq<Byte>)

  function LeftBound(place: nat): nat {
    if place == 0 then 1 else if place == 1 then 64 else if place == 2 then 16 else 4
  }

  ghost predicate Sound(d: Decoder) {
    d.Finished? || (d.place < 4 && 0 <= d.left < LeftBound(d.place))
  }

  /** One character: a pad ends the input once it completes the quad and counts
      for nothing before that, other non-data characters are skipped. */
  function Feed(d: Decoder, c: char): (r: Decoder)
    requires Sound(d)
    ensures Sound(r)
  {
    if d.Finished? then d
    else if c == PAD then
      if d.place >= 2 && d.place + d.pads + 1 >= 4 then Finished(d.output)
      else if d.place >= 2 then d.(pads := d.pads + 1) else d
    else
      var v := ValueOf(c);
      if v.None? then d
      else if d.place == 0 then Reading(1, v.value, 0, d.output)
      else if d.place == 1 then Reading(2, v.value % 16, 0, d.output + [d.left * 4 + v.value / 16])
      else if d.place == 2 then Reading(3, v.value % 4, 0, d.output + [d.left * 16 + v.value / 4])
      else Reading(0, 0, 0, d.output + [d.left * 64 + v.value])
  }

  function FeedAll(d: Decoder, text: string): (r: Decoder)
    requires Sound(d)
    ensures Sound(r)
    decreases |text|
  {
    if text == "" then d else FeedAll(Feed(d, text[0]), text[1..])
  }

  /** Nothing when the input stops inside a quad. */
  function Decode(text: string): Option<seq<Byte>> {
    var d := FeedAll(Reading(0, 0, 0, []), text);
    if d.Finished? || d.place == 0 then Some(d.output) else None
  }

  lemma FeedNext(d: Decoder, c: char, rest: string)
    requires Sound(d)
    ensures FeedAll(d, [c] + rest) == FeedAll(Feed(d, c), rest)
  {
    assert ([c] + rest)[1..] == rest;
  }

  lemma {:induction false} FeedConcat(d: Decoder, a: string, b: string)
    requires Sound(d)
    ensures FeedAll(d, a + b) == FeedAll(FeedAll(d, a), b)
    decreases |a|
  {
    if a == "" {
      assert a + b == b;
    } else {
      FeedConcat(Feed(d, a[0]), a[1..], b);
      assert (a + b)[1..] == a[1..] + b;
    }
  }

  /** Neither a data character nor a pad. */
  predicate Foreign(c: char) {
    !('A' <= c <= 'Z' || 'a' <= c <= 'z' || '0' <= c <= '9' || c == '+' || c == '/' || c == '=')
  }

  /** Foreign characters are skipped wherever they stand. */
  lemma ForeignSkipped(a: string, c: char, b: string)
    requires Foreign(c)
    ensures Decode(a + [c] + b) == Decode(a + b)
  {
    var start := Reading(0, 0, 0, []);
    assert a + [c] + b == a + ([c] + b);
    FeedConcat(start, a, [c] + b);
    FeedConcat(start, a, b);
    FeedNext(FeedAll(start, a), c, b);
  }

  lemma FeedFour(d: Decoder, a: char, b: char, c: char, e: char, rest: string)
    requires Sound(d)
    ensures FeedAll(d, [a, b, c, e] + rest) == FeedAll(Feed(Feed(Feed(Feed(d, a), b), c), e), rest)
  {
    assert [a, b, c, e] + rest == [a] + ([b] + ([c] + ([e] + rest)));
    FeedNext(d, a, [b] + ([c] + ([e] + rest)));
    FeedNext(Feed(d, a), b, [c] + ([e] + rest));
    FeedNext(Feed(Feed(d, a), b), c, [e] + rest);
    FeedNext(Feed(Feed(Feed(d, a), b), c), e, rest);
  }

  /** Two data characters give out the byte they were cut from. */
  lemma FeedTwo(output: seq<Byte>, x: Byte, low: nat)
    requires low < 16
    ensures Feed(Feed(Reading(0, 0, 0, output), CharOf(x / 4)), CharOf(x % 4 * 16 + low))
              == Reading(2, low, 0, output + [x])
  {
    ValueOfChar(x / 4);
    ValueOfChar(x % 4 * 16 + low);
  }

  lemma FeedThird(output: seq<Byte>, y: Byte, low: nat)
    requires low < 4
    ensures Feed(Reading(2, y / 16, 0, output), CharOf(y % 16 * 4 + low)) == Reading(3, low, 0, output + [y])
  {
    ValueOfChar(y % 16 * 4 + low);
  }

  lemma FeedFourth(output: seq<Byte>, z: Byte)
    ensures Feed(Reading(3, z / 64, 0, output), CharOf(z % 64)) == Reading(0, 0, 0, output + [z])
  {
    ValueOfChar(z % 64);
  }

  lemma {:induction false} FedEncoding(bytes: seq<Byte>, output: seq<Byte>)
    ensures var d := FeedAll(Reading(0, 0, 0, output), Encode(bytes));
            d.output == output + bytes && (d.Finished? || d.place == 0)
  {
    hide Feed, CharOf;
    if |bytes| == 0 {
    } else if |bytes| == 1 {
      FedOne(bytes[0], output);
      assert bytes == [bytes[0]];
    } else if |bytes| == 2 {
      FedPair(bytes[0], bytes[1], output);
      assert bytes == [bytes[0], bytes[1]];
    } else {
      var rest := Encode(bytes[3..]);
      EncodeUnfold(bytes);
      FirstThree(bytes, output);
      FedText(Encode(bytes), bytes[0], bytes[1], bytes[2], rest, output, output + bytes[..3]);
      FedEncoding(bytes[3..], output + bytes[..3]);
      assert output + bytes[..3] + bytes[3..] == output + bytes;
    }
  }

  lemma FedOne(x: Byte, output: seq<Byte>)
    ensures FeedAll(Reading(0, 0, 0, output), Encode([x])) == Finished(output + [x])
  {
    FeedTwo(output, x, 0);
    FeedFour(Reading(0, 0, 0, output), CharOf(x / 4), CharOf(x % 4 * 16), PAD, PAD, "");
    assert Encode([x]) == Encode([x]) + "";
  }

  lemma FedPair(x: Byte, y: Byte, output: seq<Byte>)
    ensures FeedAll(Reading(0, 0, 0, output), Encode([x, y])) == Finished(output + [x, y])
  {
    FeedTwo(output, x, y / 16);
    FeedThird(output + [x], y, 0);
    FeedFour(Reading(0, 0, 0, output), CharOf(x / 4), CharOf(x % 4 * 16 + y / 16), CharOf(y % 16 * 4), PAD, "");
    assert Encode([x, y]) == Encode([x, y]) + "";
    assert output + [x] + [y] == output + [x, y];
  }

  lemma FedThree(x: Byte, y: Byte, z: Byte, output: seq<Byte>, rest: string)
    ensures FeedAll(Reading(0, 0, 0, output),
                    [CharOf(x / 4), CharOf(x % 4 * 16 + y / 16), CharOf(y % 16 * 4 + z / 64), CharOf(z % 64)] + rest)
         == FeedAll(Reading(0, 0, 0, output + [x] + [y] + [z]), rest)
  {
    FeedTwo(output, x, y / 16);
    FeedThird(output + [x], y, z / 64);
    FeedFourth(output + [x] + [y], z);
    FeedFour(Reading(0, 0, 0, output), CharOf(x / 4), CharOf(x % 4 * 16 + y / 16), CharOf(y % 16 * 4 + z / 64),
             CharOf(z % 64), rest);
  }

  lemma FedText(text: string, x: Byte, y: Byte, z: Byte, rest: string, output: seq<Byte>, longer: seq<Byte>)
    requires text == [CharOf(x / 4), CharOf(x % 4 * 16 + y / 16), CharOf(y % 16 * 4 + z / 64), CharOf(z % 64)] + rest
    requires longer == output + [x] + [y] + [z]
    ensures FeedAll(Reading(0, 0, 0, output), text) == FeedAll(Reading(0, 0, 0, longer), rest)
  {
    FedThree(x, y, z, output, rest);
  }

  lemma EncodeUnfold(bytes: seq<Byte>)
    requires |bytes| >= 3
    ensures Encode(bytes) ==
      [CharOf(bytes[0] / 4), CharOf(bytes[0] % 4 * 16 + bytes[1] / 16),
       CharOf(bytes[1] % 16 * 4 + bytes[2] / 64), CharOf(bytes[2] % 64)] + Encode(bytes[3..])
  {}

  lemma FirstThree(bytes: seq<Byte>, output: seq<Byte>)
    requires |bytes| >= 3
    ensures output + bytes[..3] == output + [bytes[0]] + [bytes[1]] + [bytes[2]]
  {}

  /** A pad that comes before the second data character of a quad is skipped, too. */
  lemma EarlyPadSkipped(bytes: seq<Byte>, x: char, rest: string)
    ensures Decode(Encode(bytes) + "=" + rest) == Decode(Encode(bytes) + rest)
    ensures ValueOf(x).Some? ==> Decode(Encode(bytes) + [x] + "=" + rest) == Decode(Encode(bytes) + [x] + rest)
  {
    var start, text := Reading(0, 0, 0, []), Encode(bytes);
    FedEncoding(bytes, []);
    var d := FeedAll(start, text);
    assert text + "=" + rest == text + (['='] + rest);
    FeedConcat(start, text, ['='] + rest);
    FeedConcat(start, text, rest);
    FeedNext(d, '=', rest);
    if ValueOf(x).Some? {
      assert text + [x] + "=" + rest == text + ([x] + (['='] + rest));
      assert text + [x] + rest == text + ([x] + rest);
      FeedConcat(start, text, [x] + (['='] + rest));
      FeedConcat(start, text, [x] + rest);
      FeedNext(d, x, ['='] + rest);
      FeedNext(d, x, rest);
      FeedNext(Feed(d, x), '=', rest);
    }
  }

  /** Decoding undoes encoding, for every byte string. */
  lemma DecodeUndoesEncode(bytes: seq<Byte>)
    ensures Decode(Encode(bytes)) == Some(bytes)
  {
    FedEncoding(bytes, []);
    assert [] + bytes == bytes;
  }
}
