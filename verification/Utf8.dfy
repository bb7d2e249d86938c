/** UTF-8 as the transport uses it, in the strict form of section 3 of RFC 3629. */
module Utf8 {
  import opened Common

  function EncodeChar(c: char): (r: seq<Byte>)
    ensures 1 <= |r| <= 4
  {
    var v := c as int;
    if v < 0x80 then [v]
    else if v < 0x800 then [0xC0 + v / 64, 0x80 + v % 64]
    else if v < 0x10000 then [0xE0 + v / 4096, 0x80 + v / 64 % 64, 0x80 + v % 64]
    else [0xF0 + v / 262144, 0x80 + v / 4096 % 64, 0x80 + v / 64 % 64, 0x80 + v % 64]
  }

  function Encode(text: string): seq<Byte> {
    if text == "" then [] else EncodeChar(text[0]) + Encode(text[1..])
  }

  predicate Continuation(b: Byte) {
    0x80 <= b < 0xC0
  }

  /** How many bytes the sequence led by `b` takes; 0 when nothing may start with it. */
  function LengthOf(b: Byte): nat {
    if b < 0x80 then 1
    else if b < 0xC0 then 0
    else if b < 0xE0 then 2
    else if b < 0xF0 then 3
    else if b < 0xF8 then 4
    else 0
  }

  /** The numbers that two, three and four bytes of the right shape spell. */
  function Spell2(a: int, b: int): int {
    (a - 0xC0) * 64 + (b - 0x80)
  }

  function Spell3(a: int, b: int, c: int): int {
    (a - 0xE0) * 4096 + (b - 0x80) * 64 + (c - 0x80)
  }

  function Spell4(a: int, b: int, c: int, d: int): int {
    (a - 0xF0) * 262144 + (b - 0x80) * 4096 + (c - 0x80) * 64 + (d - 0x80)
  }

  /** The smallest number that needs `n` bytes. */
  function LeastOf(n: nat): int {
    if n <= 1 then 0 else if n == 2 then 0x80 else if n == 3 then 0x800 else 0x10000
  }

  predicate Scalar(v: int) {
    0 <= v < 0xD800 || 0xE000 <= v < 0x110000
  }

  function Accept(v: int, n: nat): (r: Option<(char, nat)>)
    ensures r.Some? ==> r.value.1 == n && r.value.0 as int == v && v >= LeastOf(n)
  {
    if v < LeastOf(n) || !Scalar(v) then None else Some((v as char, n))
  }

  /** The first character and how many bytes it took, or nothing when the bytes
      start no character: cut short, overlong, a surrogate or out of range. */
  function DecodeChar(bytes: seq<Byte>): (r: Option<(char, nat)>)
    requires bytes != []
    ensures r.Some? ==> 1 <= r.value.1 <= |bytes|
  {
    var n := LengthOf(bytes[0]);
    if n == 0 || n > |bytes| then None
    else if n == 1 then Accept(bytes[0], 1)
    else if !Continuation(bytes[1]) then None
    else if n == 2 then Accept(Spell2(bytes[0], bytes[1]), 2)
    else if !Continuation(bytes[2]) then None
    else if n == 3 then Accept(Spell3(bytes[0], bytes[1], bytes[2]), 3)
    else if !Continuation(bytes[3]) then None
    else Accept(Spell4(bytes[0], bytes[1], bytes[2], bytes[3]), 4)
  }

  function Decode(bytes: seq<Byte>): Option<string>
    decreases |bytes|
  {
    if bytes == [] then Some("")
    else
      var first := DecodeChar(bytes);
      if first.None? then None
      else
        var rest := Decode(bytes[first.value.1..]);
        if rest.None? then None else Some([first.value.0] + rest.value)
  }

  lemma Split2(v: int)
    requires 0 <= v < 0x800
    ensures Spell2(0xC0 + v / 64, 0x80 + v % 64) == v && 0 <= v / 64 < 32
  {}

  lemma Split3(v: int)
    requires 0 <= v < 0x10000
    ensures Spell3(0xE0 + v / 4096, 0x80 + v / 64 % 64, 0x80 + v % 64) == v && 0 <= v / 4096 < 16
  {}

  lemma Split4(v: int)
    requires 0 <= v < 0x200000
    ensures Spell4(0xF0 + v / 262144, 0x80 + v / 4096 % 64, 0x80 + v / 64 % 64, 0x80 + v % 64) == v
              && 0 <= v / 262144 < 8
  {
    Nested64(v);
    assert v == 64 * (v / 64) + v % 64;
    assert v / 64 == 64 * (v / 4096) + v / 64 % 64;
    assert v / 4096 == 64 * (v / 262144) + v / 4096 % 64;
  }

  lemma Join2(a: int, b: int)
    requires 0xC0 <= a && 0x80 <= b < 0xC0
    ensures var v := Spell2(a, b); v / 64 == a - 0xC0 && v % 64 == b - 0x80
  {}

  lemma Digit64(q: int, r: int)
    requires 0 <= r < 64
    ensures (q * 64 + r) / 64 == q && (q * 64 + r) % 64 == r
  {}

  lemma Nested64(v: int)
    ensures v / 4096 == v / 64 / 64 && v / 262144 == v / 64 / 64 / 64
  {}

  lemma Join3(a: int, b: int, c: int)
    requires 0xE0 <= a && 0x80 <= b < 0xC0 && 0x80 <= c < 0xC0
    ensures var v := Spell3(a, b, c); v / 4096 == a - 0xE0 && v / 64 % 64 == b - 0x80 && v % 64 == c - 0x80
  {
    Nested64(Spell3(a, b, c));
    Digit64((a - 0xE0) * 64 + (b - 0x80), c - 0x80);
    Digit64(a - 0xE0, b - 0x80);
  }

  lemma Join4(a: int, b: int, c: int, d: int)
    requires 0xF0 <= a && 0x80 <= b < 0xC0 && 0x80 <= c < 0xC0 && 0x80 <= d < 0xC0
    ensures var v := Spell4(a, b, c, d);
            && v / 262144 == a - 0xF0 && v / 4096 % 64 == b - 0x80
            && v / 64 % 64 == c - 0x80 && v % 64 == d - 0x80
  {
    Nested64(Spell4(a, b, c, d));
    Digit64(((a - 0xF0) * 64 + (b - 0x80)) * 64 + (c - 0x80), d - 0x80);
    Digit64((a - 0xF0) * 64 + (b - 0x80), c - 0x80);
    Digit64(a - 0xF0, b - 0x80);
  }

  lemma DecodeEncodedChar(c: char, rest: seq<Byte>)
    ensures DecodeChar(EncodeChar(c) + rest) == Some((c, |EncodeChar(c)|))
  {
    var v := c as int;
    var e := EncodeChar(c);
    var whole := e + rest;
    if v < 0x80 {
      assert whole[0] == v;
    } else if v < 0x800 {
      Split2(v);
      assert whole[0] == 0xC0 + v / 64 && whole[1] == 0x80 + v % 64;
    } else if v < 0x10000 {
      Split3(v);
      assert whole[0] == 0xE0 + v / 4096 && whole[1] == 0x80 + v / 64 % 64 && whole[2] == 0x80 + v % 64;
    } else {
      Split4(v);
      assert whole[0] == 0xF0 + v / 262144 && whole[1] == 0x80 + v / 4096 % 64;
      assert whole[2] == 0x80 + v / 64 % 64 && whole[3] == 0x80 + v % 64;
    }
  }

  lemma EncodeDecodedChar(bytes: seq<Byte>)
    requires bytes != []
    ensures var first := DecodeChar(bytes);
            first.Some? ==> EncodeChar(first.value.0) == bytes[..first.value.1]
  {
    var first := DecodeChar(bytes);
    if first.Some? {
      var n := first.value.1;
      if n == 1 {
        assert bytes[..1] == [bytes[0]];
      } else if n == 2 {
        Join2(bytes[0], bytes[1]);
        assert bytes[..2] == [bytes[0], bytes[1]];
      } else if n == 3 {
        Join3(bytes[0], bytes[1], bytes[2]);
        assert bytes[..3] == [bytes[0], bytes[1], bytes[2]];
      } else {
        Join4(bytes[0], bytes[1], bytes[2], bytes[3]);
        assert bytes[..4] == [bytes[0], bytes[1], bytes[2], bytes[3]];
      }
    }
  }

  /** Decoding undoes encoding, for every text. */
  lemma {:induction false} DecodeUndoesEncode(text: string)
    ensures Decode(Encode(text)) == Some(text)
  {
    if text != "" {
      var e := EncodeChar(text[0]);
      DecodeUndoesEncode(text[1..]);
      DecodeEncodedChar(text[0], Encode(text[1..]));
      assert (e + Encode(text[1..]))[|e|..] == Encode(text[1..]);
      assert [text[0]] + text[1..] == text;
    }
  }

  /** Only encodings decode: no two byte strings mean the same text. */
  lemma {:induction false} EncodeUndoesDecode(bytes: seq<Byte>)
    ensures Decode(bytes).Some? ==> Encode(Decode(bytes).value) == bytes
    decreases |bytes|
  {
    hide DecodeChar, EncodeChar;
    if bytes != [] && DecodeChar(bytes).Some? {
      var (c, n) := DecodeChar(bytes).value;
      EncodeDecodedChar(bytes);
      EncodeUndoesDecode(bytes[n..]);
      if Decode(bytes[n..]).Some? {
        var rest := Decode(bytes[n..]).value;
        assert ([c] + rest)[1..] == rest;
        assert bytes == bytes[..n] + bytes[n..];
      }
    }
  }

  lemma EncodeInjective(a: string, b: string)
    requires Encode(a) == Encode(b)
    ensures a == b
  {
    DecodeUndoesEncode(a);
    DecodeUndoesEncode(b);
  }
}
