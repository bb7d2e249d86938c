/** The ARM build-attribute section: ULEB128 tags and the CPU name
    (freertos/stackpc.py). */
module BuildAttributes {
  import opened Common
  import Arith

  // ---- ULEB128 ------------------------------------------------------------------------

  const ULEB_BYTES: nat := 6

  /** The number spelled at `index` by at most `left` bytes, and the index past it. */
  function Uleb(data: seq<Byte>, index: nat, left: nat): (r: Option<(nat, nat)>)
    ensures r.Some? ==> index < r.value.1 <= |data| && r.value.1 <= index + left
    decreases left
  {
    if index >= |data| || left == 0 then None
    else if data[index] < 128 then Some((data[index], index + 1))
    else
      var rest := Uleb(data, index + 1, left - 1);
      if rest.None? then None else Some((data[index] - 128 + 128 * rest.value.0, rest.value.1))
  }

  function Shifted(value: nat, scale: nat, rest: Option<(nat, nat)>): Option<(nat, nat)> {
    if rest.None? then None else Some((value + scale * rest.value.0, rest.value.1))
  }

  function Power128(n: nat): nat {
    if n == 0 then 1 else 128 * Power128(n - 1)
  }

  lemma ShiftOnce(value: nat, scale: nat, digit: nat, rest: Option<(nat, nat)>)
    ensures Shifted(value, scale, Shifted(digit, 128, rest)) == Shifted(value + digit * scale, scale * 128, rest)
  {
    if rest.Some? {
      var v := rest.value.0;
      assert scale * (digit + 128 * v) == scale * digit + scale * (128 * v);
      assert scale * (128 * v) == scale * 128 * v;
    }
  }

  /** One byte of the loop: what is left to decode shrinks, what is decoded grows. */
  lemma UlebStep(whole: Option<(nat, nat)>, data: seq<Byte>, index: nat, left: nat, value: nat, scale: nat)
    requires index < |data| && left > 0 && whole == Shifted(value, scale, Uleb(data, index, left))
    ensures data[index] < 128 ==> whole == Some((value + data[index] % 128 * scale, index + 1))
    ensures data[index] >= 128 ==>
      whole == Shifted(value + data[index] % 128 * scale, scale * 128, Uleb(data, index + 1, left - 1))
  {
    ShiftOnce(value, scale, data[index] % 128, Uleb(data, index + 1, left - 1));
  }

  lemma ProductNonNegative(a: int, b: int)
    requires a >= 0 && b >= 0
    ensures a * b >= 0
  {}

  /** The loop: seven bits a byte, given up after the sixth. `scale` is one shifted
      left by `shift`. */
  method Uleb128(data: seq<Byte>, start: nat) returns (decoded: Option<(nat, nat)>)
    ensures decoded == Uleb(data, start, ULEB_BYTES)
  {
    var value: nat, shift, scale: nat, index := 0, 0, 1, start;
    ghost var whole := Uleb(data, start, ULEB_BYTES);
    ghost var left: nat := ULEB_BYTES;
    while index < |data|
      invariant index >= start && 0 < left && shift == 7 * (ULEB_BYTES - left)
      invariant whole == Shifted(value, scale, Uleb(data, index, left))
      decreases |data| - index
    {
      var byte := data[index];
      UlebStep(whole, data, index, left, value, scale);
      ProductNonNegative(byte % 128, scale);
      index := index + 1;
      value := value + byte % 128 * scale;
      if byte < 128 {
        return Some((value, index));
      }
      shift, scale := shift + 7, scale * 128;
      left := left - 1;
      if shift > 35 {
        return None;
      }
    }
    decoded := None;
  }

  /** The shortest ULEB128 spelling (section 7.6 of DWARF Version 5). */
  function EncodeUleb(value: nat): (bytes: seq<Byte>)
    ensures |bytes| >= 1
  {
    if value < 128 then [value] else [value % 128 + 128] + EncodeUleb(value / 128)
  }

  lemma DivBelow(value: nat, bound: nat)
    ensures value < 128 * bound <==> value / 128 < bound
  {}

  /** `piece` stands in the data at `index`. */
  ghost predicate At(data: seq<Byte>, index: nat, piece: seq<Byte>)
    ensures At(data, index, piece) ==> index + |piece| <= |data|
    decreases |piece|
  {
    if piece == [] then index <= |data|
    else index < |data| && data[index] == piece[0] && At(data, index + 1, piece[1..])
  }

  /** Which is to say, that slice of the data is the piece. */
  lemma {:induction false} AtSlice(data: seq<Byte>, index: nat, piece: seq<Byte>)
    ensures At(data, index, piece) <==> index + |piece| <= |data| && data[index..index + |piece|] == piece
    decreases |piece|
  {
    if piece != [] && index < |data| {
      AtSlice(data, index + 1, piece[1..]);
      if index + |piece| <= |data| {
        assert data[index..index + |piece|] == [data[index]] + data[index + 1..index + |piece|];
        assert piece == [piece[0]] + piece[1..];
      }
    }
  }

  lemma {:induction false} AtParts(data: seq<Byte>, index: nat, a: seq<Byte>, b: seq<Byte>)
    ensures At(data, index, a + b) <==> At(data, index, a) && At(data, index + |a|, b)
    decreases |a|
  {
    if a == [] {
      assert a + b == b;
    } else if index < |data| {
      assert (a + b)[1..] == a[1..] + b;
      AtParts(data, index + 1, a[1..], b);
    }
  }

  lemma AtByte(data: seq<Byte>, index: nat, b: Byte)
    ensures At(data, index, [b]) <==> index < |data| && data[index] == b
  {
    assert [b][1..] == [];
  }

  /** At any offset and whatever follows, decoding a spelling gives the number
      back when it fits the decoder's bits, and nothing when it does not. */
  lemma {:induction false} UlebIffFits(data: seq<Byte>, index: nat, value: nat, left: nat)
    requires At(data, index, EncodeUleb(value))
    ensures value < Power128(left) && left > 0 ==> Uleb(data, index, left) == Some((value, index + |EncodeUleb(value)|))
    ensures value >= Power128(left) ==> Uleb(data, index, left).None?
    decreases left
  {
    if left > 0 {
      DivBelow(value, Power128(left - 1));
      if value < 128 {
        AtByte(data, index, value);
        PowerPositive(left - 1);
      } else {
        AtParts(data, index, [value % 128 + 128], EncodeUleb(value / 128));
        AtByte(data, index, value % 128 + 128);
        UlebIffFits(data, index + 1, value / 128, left - 1);
        if left == 1 {
          assert Power128(1) == 128 by { assert Power128(0) == 1; }
        }
      }
    }
  }

  lemma {:induction false} PowerPositive(n: nat)
    ensures Power128(n) >= 1
  {
    if n > 0 {
      PowerPositive(n - 1);
    }
  }

  lemma SixDigits()
    ensures Power128(ULEB_BYTES) == 0x400_0000_0000
  {
    assert Power128(1) == 128 && Power128(2) == 0x4000 && Power128(3) == 0x20_0000;
    assert Power128(4) == 0x1000_0000 && Power128(5) == 0x8_0000_0000;
  }

  lemma AtMiddle(blob: seq<Byte>, a: seq<Byte>, b: seq<Byte>, c: seq<Byte>)
    requires blob == a + b + c
    ensures At(blob, |a|, b)
  {
    assert blob[|a|..|a| + |b|] == b;
    AtSlice(blob, |a|, b);
  }

  /** The decoder inverts ULEB128 exactly below two to the 42nd. */
  lemma UlebInverse(prefix: seq<Byte>, value: nat, suffix: seq<Byte>)
    ensures var data := prefix + EncodeUleb(value) + suffix;
            Uleb(data, |prefix|, ULEB_BYTES) ==
              if value < 0x400_0000_0000 then Some((value, |prefix| + |EncodeUleb(value)|)) else None
  {
    hide EncodeUleb, Uleb;
    var data := prefix + EncodeUleb(value) + suffix;
    AtMiddle(data, prefix, EncodeUleb(value), suffix);
    SixDigits();
    UlebIffFits(data, |prefix|, value, ULEB_BYTES);
  }

  // ---- the section ------------------------------------------------------------------------

  /** The first zero byte in `[start, end)`. */
  function FindNul(blob: seq<Byte>, start: nat, end: nat): (r: Option<nat>)
    requires end <= |blob|
    ensures r.Some? ==> start <= r.value < end && blob[r.value] == 0
    decreases end - start
  {
    if start >= end then None else if blob[start] == 0 then Some(start) else FindNul(blob, start + 1, end)
  }

  function ReadLength(bytes: seq<Byte>): nat
    requires |bytes| == 4
  {
    Word4(bytes[0], bytes[1], bytes[2], bytes[3])
  }

  function Word4(a: nat, b: nat, c: nat, d: nat): nat {
    a + 0x100 * b + 0x10000 * c + 0x1000000 * d
  }

  const AEABI: seq<Byte> := [0x61, 0x65, 0x61, 0x62, 0x69]
  const TAG_FILE := 1
  const TAG_CPU_NAME := 5

  function AsciiChar(b: Byte): char {
    if b < 128 then b as char else '\U{FFFD}'
  }

  function Ascii(bytes: seq<Byte>): (text: string)
    ensures |text| == |bytes| && forall i :: 0 <= i < |text| ==> text[i] == AsciiChar(bytes[i])
  {
    seq(|bytes|, i requires 0 <= i < |bytes| => AsciiChar(bytes[i]))
  }

  datatype Scan = Found(name: string) | Failed | Exhausted

  /** The attributes of one sub-section: file headers are stepped over, a CPU name
      ends the search, any other tag gives it up. */
  function ScanAttributes(blob: seq<Byte>, cursor: nat, end: nat): Scan
    requires end <= |blob|
    decreases end - cursor
  {
    if cursor >= end then Exhausted
    else
      var decoded := Uleb(blob, cursor, ULEB_BYTES);
      if decoded.None? then Failed
      else
        var (tag, next) := decoded.value;
        if tag == TAG_FILE then ScanAttributes(blob, next + 4, end)
        else if tag == TAG_CPU_NAME then
          var nameEnd := FindNul(blob, next, end);
          if nameEnd.None? then Failed else Found(Ascii(blob[next..nameEnd.value]))
        else Failed
  }

  /** One turn of the sub-section loop: an answer, or where the next one begins. */
  datatype Turn = Answer(name: Option<string>) | Next(index: nat)

  function ReadSection(blob: seq<Byte>, index: nat): (turn: Turn)
    ensures turn.Next? ==> index + 5 <= turn.index <= |blob|
  {
    if index + 4 > |blob| then Answer(None)
    else
      var end := index + ReadLength(blob[index..index + 4]);
      if end < index + 5 || end > |blob| then Answer(None)
      else
        var vendorEnd := FindNul(blob, index + 4, end);
        if vendorEnd.None? then Answer(None)
        else if blob[index + 4..vendorEnd.value] == AEABI then
          match ScanAttributes(blob, vendorEnd.value + 1, end)
          case Found(name) => Answer(Some(name))
          case Failed => Answer(None)
          case Exhausted => Next(end)
        else Next(end)
  }

  function ScanSections(blob: seq<Byte>, index: nat): Option<string>
    decreases |blob| - index
  {
    match ReadSection(blob, index)
    case Answer(name) => name
    case Next(end) => ScanSections(blob, end)
  }

  function CpuName(blob: seq<Byte>): Option<string> {
    if |blob| < 5 || blob[0] != 0x41 then None else ScanSections(blob, 1)
  }

  /** The inner cursor loop, over one sub-section's attributes. */
  method ScanTags(blob: seq<Byte>, body: nat, end: nat) returns (found: Scan)
    requires end <= |blob|
    ensures found == ScanAttributes(blob, body, end)
  {
    var cursor := body;
    while cursor < end
      invariant ScanAttributes(blob, body, end) == ScanAttributes(blob, cursor, end)
      decreases end - cursor
    {
      var decoded := Uleb128(blob, cursor);
      if decoded.None? {
        return Failed;
      }
      var (tag, next) := decoded.value;
      if tag == TAG_FILE {
        cursor := next + 4;
        continue;
      }
      if tag == TAG_CPU_NAME {
        var nameEnd := FindNul(blob, next, end);
        if nameEnd.None? {
          return Failed;
        }
        return Found(Ascii(blob[next..nameEnd.value]));
      }
      return Failed;
    }
    found := Exhausted;
  }

  /** The body of the cursor loop over sub-sections. */
  method TakeSection(blob: seq<Byte>, index: nat) returns (turn: Turn)
    requires index + 4 <= |blob|
    ensures turn == ReadSection(blob, index)
  {
    var length := ReadLength(blob[index..index + 4]);
    var end := index + length;
    if length < 5 || end > |blob| {
      return Answer(None);
    }
    var vendorEnd := FindNul(blob, index + 4, end);
    if vendorEnd.None? {
      return Answer(None);
    }
    if blob[index + 4..vendorEnd.value] == AEABI {
      var found := ScanTags(blob, vendorEnd.value + 1, end);
      if found.Failed? {
        return Answer(None);
      }
      if found.Found? {
        return Answer(Some(found.name));
      }
    }
    turn := Next(end);
  }

  /** The cursor loop itself, ending on every byte string. */
  method CpuNameFromAttributes(blob: seq<Byte>) returns (name: Option<string>)
    ensures name == CpuName(blob)
  {
    if |blob| < 5 || blob[0] != 0x41 {
      return None;
    }
    var index: nat := 1;
    while index + 4 <= |blob|
      invariant ScanSections(blob, 1) == ScanSections(blob, index)
      decreases |blob| - index
    {
      var turn := TakeSection(blob, index);
      if turn.Answer? {
        return turn.name;
      }
      index := turn.index;
    }
    name := None;
  }

  // ---- the printer ---------------------------------------------------------------------------

  function FourBytes(n: nat): (bytes: seq<Byte>)
    ensures |bytes| == 4
  {
    [n % 0x100, n / 0x100 % 0x100, n / 0x10000 % 0x100, n / 0x1000000 % 0x100]
  }

  lemma FourBytesWord(n: nat)
    requires n < 0x1_0000_0000
    ensures ReadLength(FourBytes(n)) == n
  {
    DivideTwice(n);
    Arith.DivMod(n, 0x100);
    Arith.DivMod(n / 0x100, 0x100);
    Arith.DivMod(n / 0x10000, 0x100);
  }

  lemma DivideTwice(n: nat)
    requires n < 0x1_0000_0000
    ensures n / 0x100 / 0x100 == n / 0x10000 && n / 0x10000 / 0x100 == n / 0x1000000 < 0x100
  {}

  datatype Section = Section(vendor: seq<Byte>, body: seq<Byte>)

  /** A length covering itself, the vendor's name with its zero, and the body. */
  function Print(s: Section): (bytes: seq<Byte>)
    ensures |bytes| == 5 + |s.vendor| + |s.body|
  {
    FourBytes(5 + |s.vendor| + |s.body|) + (s.vendor + ([0] + s.body))
  }

  function PrintAll(sections: seq<Section>): seq<Byte> {
    if sections == [] then [] else Print(sections[0]) + PrintAll(sections[1..])
  }

  /** File headers, each a tag and four bytes of length. */
  function PrintHeaders(lengths: seq<nat>): seq<Byte> {
    if lengths == [] then [] else [TAG_FILE] + (FourBytes(lengths[0]) + PrintHeaders(lengths[1..]))
  }

  ghost predicate NulFree(bytes: seq<Byte>) {
    forall i :: 0 <= i < |bytes| ==> bytes[i] != 0
  }

  ghost predicate Printable(s: Section) {
    NulFree(s.vendor) && 5 + |s.vendor| + |s.body| < 0x1_0000_0000
  }

  lemma {:induction false} FindsNulAfter(blob: seq<Byte>, start: nat, text: seq<Byte>, end: nat)
    requires NulFree(text) && At(blob, start, text) && start + |text| < end <= |blob| && blob[start + |text|] == 0
    ensures FindNul(blob, start, end) == Some(start + |text|)
    decreases |text|
  {
    if text != [] {
      FindsNulAfter(blob, start + 1, text[1..], end);
    }
  }

  /** The fixed parts of a printed sub-section, as the parser reads them. */
  lemma SectionRead(blob: seq<Byte>, index: nat, s: Section)
    requires Printable(s) && At(blob, index, Print(s))
    ensures index + 4 <= |blob| && ReadLength(blob[index..index + 4]) == |Print(s)|
    ensures index + |Print(s)| <= |blob| && FindNul(blob, index + 4, index + |Print(s)|) == Some(index + 4 + |s.vendor|)
    ensures blob[index + 4..index + 4 + |s.vendor|] == s.vendor
    ensures At(blob, index + 5 + |s.vendor|, s.body)
  {
    hide FindNul, ReadLength, Word4, NulFree;
    var n := |Print(s)|;
    FourBytesWord(n);
    AtParts(blob, index, FourBytes(n), s.vendor + ([0] + s.body));
    AtParts(blob, index + 4, s.vendor, [0] + s.body);
    AtParts(blob, index + 4 + |s.vendor|, [0], s.body);
    AtByte(blob, index + 4 + |s.vendor|, 0);
    AtSlice(blob, index, FourBytes(n));
    AtSlice(blob, index + 4, s.vendor);
    FindsNulAfter(blob, index + 4, s.vendor, index + n);
  }

  lemma {:induction false} HeadersSkipped(blob: seq<Byte>, cursor: nat, lengths: seq<nat>, end: nat)
    requires At(blob, cursor, PrintHeaders(lengths)) && cursor + |PrintHeaders(lengths)| <= end <= |blob|
    ensures ScanAttributes(blob, cursor, end) == ScanAttributes(blob, cursor + |PrintHeaders(lengths)|, end)
    decreases |lengths|
  {
    if lengths != [] {
      var rest := PrintHeaders(lengths[1..]);
      AtParts(blob, cursor, [TAG_FILE], FourBytes(lengths[0]) + rest);
      AtParts(blob, cursor + 1, FourBytes(lengths[0]), rest);
      AtByte(blob, cursor, TAG_FILE);
      assert Uleb(blob, cursor, ULEB_BYTES) == Some((TAG_FILE, cursor + 1));
      HeadersSkipped(blob, cursor + 5, lengths[1..], end);
    }
  }

  lemma NameFound(blob: seq<Byte>, cursor: nat, name: seq<Byte>, end: nat)
    requires NulFree(name) && At(blob, cursor, [TAG_CPU_NAME] + (name + [0])) && cursor + 2 + |name| <= end <= |blob|
    ensures ScanAttributes(blob, cursor, end) == Found(Ascii(name))
  {
    AtParts(blob, cursor, [TAG_CPU_NAME], name + [0]);
    AtByte(blob, cursor, TAG_CPU_NAME);
    assert Uleb(blob, cursor, ULEB_BYTES) == Some((TAG_CPU_NAME, cursor + 1));
    AtParts(blob, cursor + 1, name, [0]);
    AtByte(blob, cursor + 1 + |name|, 0);
    AtSlice(blob, cursor + 1, name);
    FindsNulAfter(blob, cursor + 1, name, end);
  }

  ghost predicate Foreign(s: Section) {
    Printable(s) && s.vendor != AEABI
  }

  lemma {:induction false} ForeignSkipped(blob: seq<Byte>, index: nat, sections: seq<Section>)
    requires At(blob, index, PrintAll(sections)) && forall i :: 0 <= i < |sections| ==> Foreign(sections[i])
    ensures ScanSections(blob, index) == ScanSections(blob, index + |PrintAll(sections)|)
    decreases |sections|
  {
    hide ScanSections, Print;
    if sections != [] {
      var piece := Print(sections[0]);
      assert Foreign(sections[0]);
      AtParts(blob, index, piece, PrintAll(sections[1..]));
      SectionPassed(blob, index, sections[0]);
      ForeignSkipped(blob, index + |piece|, sections[1..]);
    }
  }

  lemma SectionPassed(blob: seq<Byte>, index: nat, s: Section)
    requires Foreign(s) && At(blob, index, Print(s))
    ensures ScanSections(blob, index) == ScanSections(blob, index + |Print(s)|)
  {
    SectionSkipped(blob, index, s);
  }

  lemma SectionSkipped(blob: seq<Byte>, index: nat, s: Section)
    requires Foreign(s) && At(blob, index, Print(s))
    ensures ReadSection(blob, index) == Next(index + |Print(s)|)
  {
    SectionRead(blob, index, s);
  }

  /** A sub-section of the known vendor is scanned from its body to its end. */
  lemma SectionScanned(blob: seq<Byte>, index: nat, s: Section, name: string)
    requires Printable(s) && s.vendor == AEABI && At(blob, index, Print(s)) && index + |Print(s)| <= |blob|
    requires ScanAttributes(blob, index + 5 + |s.vendor|, index + |Print(s)|) == Found(name)
    ensures ReadSection(blob, index) == Answer(Some(name))
  {
    hide At, Print, Printable, FindNul, ScanAttributes, ReadLength;
    SectionRead(blob, index, s);
  }

  /** The attributes sub-section that names the CPU. */
  function NamingSection(lengths: seq<nat>, name: seq<Byte>, rest: seq<Byte>): Section {
    Section(AEABI, PrintHeaders(lengths) + ([TAG_CPU_NAME] + (name + [0]) + rest))
  }

  lemma NameBehindHeaders(blob: seq<Byte>, body: nat, lengths: seq<nat>, name: seq<Byte>, rest: seq<Byte>, end: nat)
    requires NulFree(name) && At(blob, body, PrintHeaders(lengths) + ([TAG_CPU_NAME] + (name + [0]) + rest))
    requires body + |PrintHeaders(lengths) + ([TAG_CPU_NAME] + (name + [0]) + rest)| == end <= |blob|
    ensures ScanAttributes(blob, body, end) == Found(Ascii(name))
  {
    var headers := PrintHeaders(lengths);
    AtParts(blob, body, headers, [TAG_CPU_NAME] + (name + [0]) + rest);
    AtParts(blob, body + |headers|, [TAG_CPU_NAME] + (name + [0]), rest);
    HeadersSkipped(blob, body, lengths, end);
    NameFound(blob, body + |headers|, name, end);
  }

  lemma BodyScanned(blob: seq<Byte>, index: nat, body: seq<Byte>, text: string)
    requires Printable(Section(AEABI, body)) && At(blob, index, Print(Section(AEABI, body)))
    requires forall start: nat :: At(blob, start, body) ==> ScanAttributes(blob, start, start + |body|) == Found(text)
    ensures ScanSections(blob, index) == Some(text)
  {
    var s := Section(AEABI, body);
    SectionRead(blob, index, s);
    assert At(blob, index + 5 + |AEABI|, body);
    SectionScanned(blob, index, s, text);
  }

  lemma NamingSectionRead(blob: seq<Byte>, index: nat, lengths: seq<nat>, name: seq<Byte>, rest: seq<Byte>)
    requires NulFree(name) && Printable(NamingSection(lengths, name, rest))
    requires At(blob, index, Print(NamingSection(lengths, name, rest)))
    ensures ScanSections(blob, index) == Some(Ascii(name))
  {
    var body := NamingSection(lengths, name, rest).body;
    forall start: nat | At(blob, start, body)
      ensures ScanAttributes(blob, start, start + |body|) == Found(Ascii(name))
    {
      NameBehindHeaders(blob, start, lengths, name, rest, start + |body|);
    }
    BodyScanned(blob, index, body, Ascii(name));
  }

  /** Whatever foreign sub-sections come first, however many file headers, and
      whatever follows: the parser returns exactly the name written. */
  lemma NameSurvives(foreign: seq<Section>, lengths: seq<nat>, name: seq<Byte>, rest: seq<Byte>, trailing: seq<Byte>)
    requires forall i :: 0 <= i < |foreign| ==> Foreign(foreign[i])
    requires NulFree(name) && Printable(NamingSection(lengths, name, rest))
    ensures CpuName([0x41] + (PrintAll(foreign) + (Print(NamingSection(lengths, name, rest)) + trailing)))
              == Some(Ascii(name))
  {
    hide CpuName, ScanSections, Print, PrintAll, NamingSection, At;
    var naming := Print(NamingSection(lengths, name, rest));
    Placed(PrintAll(foreign), naming, trailing);
    Named([0x41] + (PrintAll(foreign) + (naming + trailing)), foreign, lengths, name, rest);
  }

  lemma Named(blob: seq<Byte>, foreign: seq<Section>, lengths: seq<nat>, name: seq<Byte>, rest: seq<Byte>)
    requires forall i :: 0 <= i < |foreign| ==> Foreign(foreign[i])
    requires NulFree(name) && Printable(NamingSection(lengths, name, rest))
    requires |blob| > 0 && blob[0] == 0x41 && At(blob, 1, PrintAll(foreign))
    requires At(blob, 1 + |PrintAll(foreign)|, Print(NamingSection(lengths, name, rest)))
    ensures CpuName(blob) == Some(Ascii(name))
  {
    hide CpuName, ScanSections, Print, PrintAll, NamingSection, At;
    ForeignSkipped(blob, 1, foreign);
    NamingSectionRead(blob, 1 + |PrintAll(foreign)|, lengths, name, rest);
    ScansFromOne(blob);
  }

  lemma ScansFromOne(blob: seq<Byte>)
    requires |blob| >= 5 && blob[0] == 0x41
    ensures CpuName(blob) == ScanSections(blob, 1)
  {
    hide ScanSections;
  }

  lemma Placed(before: seq<Byte>, naming: seq<Byte>, trailing: seq<Byte>)
    ensures var blob := [0x41] + (before + (naming + trailing));
            blob[0] == 0x41 && At(blob, 1, before) && At(blob, 1 + |before|, naming)
  {
    var blob := [0x41] + (before + (naming + trailing));
    assert blob == [0x41] + before + (naming + trailing);
    assert blob == ([0x41] + before) + naming + trailing;
    AtMiddle(blob, [0x41], before, naming + trailing);
    AtMiddle(blob, [0x41] + before, naming, trailing);
  }

  /** The seven-bit bytes read as themselves, all others as the replacement character. */
  lemma AsciiMeans(bytes: seq<Byte>, i: nat)
    requires i < |bytes|
    ensures bytes[i] <= 127 ==> Ascii(bytes)[i] as int == bytes[i]
    ensures bytes[i] >= 128 ==> Ascii(bytes)[i] == '\U{FFFD}'
  {}

  /** For ASCII names nothing is lost: different names read differently. */
  lemma AsciiInjective(a: seq<Byte>, b: seq<Byte>)
    requires (forall i :: 0 <= i < |a| ==> a[i] < 128) && (forall i :: 0 <= i < |b| ==> b[i] < 128)
    requires Ascii(a) == Ascii(b)
    ensures a == b
  {
    forall i | 0 <= i < |a| ensures a[i] == b[i] {
      assert Ascii(a)[i] as int == a[i] && Ascii(b)[i] as int == b[i];
    }
  }
}
