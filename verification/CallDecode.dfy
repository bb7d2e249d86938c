/** Saved-PC recovery for RT-Thread threads: words in both byte orders, call
    instructions, and the proof a decoded PC must pass (rtthread/stackpc.py). */
module CallDecode {
  import opened Common
  import Arith

  datatype Endian = Little | Big

  // ---- words in memory -------------------------------------------------------------------

  /** The number `bytes` spell, least significant byte first. */
  function LittleWord(bytes: seq<Byte>): (v: int)
    ensures v >= 0
  {
    if bytes == [] then 0 else bytes[0] + 256 * LittleWord(bytes[1..])
  }

  function Reversed(bytes: seq<Byte>): (r: seq<Byte>)
    ensures |r| == |bytes|
  {
    if bytes == [] then [] else Reversed(bytes[1..]) + [bytes[0]]
  }

  function Word(bytes: seq<Byte>, endian: Endian): (v: int)
    ensures v >= 0
  {
    LittleWord(if endian.Little? then bytes else Reversed(bytes))
  }

  function LittleBytes(value: nat, width: nat): (bytes: seq<Byte>)
    ensures |bytes| == width
  {
    if width == 0 then [] else [value % 256] + LittleBytes(value / 256, width - 1)
  }

  function PackWord(value: nat, width: nat, endian: Endian): (bytes: seq<Byte>)
    ensures |bytes| == width
  {
    var little := LittleBytes(value, width);
    if endian.Little? then little else Reversed(little)
  }

  function Power256(width: nat): nat {
    if width == 0 then 1 else 256 * Power256(width - 1)
  }

  lemma DivBelow(value: nat, bound: nat)
    requires value < 256 * bound
    ensures value / 256 < bound
  {}

  lemma {:induction false} LittleRoundTrip(value: nat, width: nat)
    requires value < Power256(width)
    ensures LittleWord(LittleBytes(value, width)) == value
  {
    if width > 0 {
      DivBelow(value, Power256(width - 1));
      LittleRoundTrip(value / 256, width - 1);
      assert LittleBytes(value, width)[1..] == LittleBytes(value / 256, width - 1);
    }
  }

  lemma {:induction false} LittleBytesOfWord(bytes: seq<Byte>)
    ensures LittleBytes(LittleWord(bytes), |bytes|) == bytes
    ensures LittleWord(bytes) < Power256(|bytes|)
  {
    if bytes != [] {
      LittleBytesOfWord(bytes[1..]);
      assert bytes == [bytes[0]] + bytes[1..];
    }
  }

  lemma {:induction false} ReversedAppend(a: seq<Byte>, b: seq<Byte>)
    ensures Reversed(a + b) == Reversed(b) + Reversed(a)
  {
    if a == [] {
      assert a + b == b;
    } else {
      ReversedAppend(a[1..], b);
      assert (a + b)[1..] == a[1..] + b;
    }
  }

  lemma {:induction false} ReversedTwice(bytes: seq<Byte>)
    ensures Reversed(Reversed(bytes)) == bytes
  {
    if bytes != [] {
      ReversedTwice(bytes[1..]);
      ReversedAppend(Reversed(bytes[1..]), [bytes[0]]);
    }
  }

  /** Packing and reading a word undo each other, in both byte orders and at
      every width. */
  lemma PackRoundTrip(value: nat, width: nat, endian: Endian)
    requires value < Power256(width)
    ensures Word(PackWord(value, width, endian), endian) == value
  {
    LittleRoundTrip(value, width);
    ReversedTwice(LittleBytes(value, width));
  }

  lemma WordRoundTrip(bytes: seq<Byte>, endian: Endian)
    ensures PackWord(Word(bytes, endian), |bytes|, endian) == bytes
    ensures Word(bytes, endian) < Power256(|bytes|)
  {
    LittleBytesOfWord(bytes);
    LittleBytesOfWord(Reversed(bytes));
    ReversedTwice(bytes);
  }

  lemma DivDiv(v: nat, p: nat)
    requires p > 0
    ensures v / (256 * p) == v / 256 / p
  {
    var low, mid, high := v % 256, v / 256 % p, v / 256 / p;
    assert v == 256 * (p * high + mid) + low;
    Arith.Distribute(256, p * high, mid);
    assert 256 * (p * high) == 256 * p * high;
    assert 256 * mid + low < 256 * p by { Arith.MulMonotone(mid, p - 1, 256); Arith.DistributeMinus(256, p, 1); }
    Arith.DivModUnique(v, 256 * p, high, 256 * mid + low);
  }

  lemma PowerPositive(width: nat)
    ensures Power256(width) > 0
  {}

  lemma {:induction false} ReversedAt(bytes: seq<Byte>, i: nat)
    requires i < |bytes|
    ensures Reversed(bytes)[i] == bytes[|bytes| - 1 - i]
  {
    if i < |bytes| - 1 {
      ReversedAt(bytes[1..], i);
    }
  }

  lemma {:induction false} LittleDigit(bytes: seq<Byte>, i: nat)
    requires i < |bytes|
    ensures Power256(i) > 0 && LittleWord(bytes) / Power256(i) % 256 == bytes[i]
  {
    if i > 0 {
      LittleDigit(bytes[1..], i - 1);
      DivDiv(LittleWord(bytes), Power256(i - 1));
      assert LittleWord(bytes) / 256 == LittleWord(bytes[1..]);
    }
  }

  /** The word's digits to the base 256 are its bytes: from the least significant
      on in little-endian order, from the most significant on in big-endian order. */
  lemma WordDigits(bytes: seq<Byte>, endian: Endian, i: nat)
    requires i < |bytes|
    ensures Power256(i) > 0
    ensures Word(bytes, Little) / Power256(i) % 256 == bytes[i]
    ensures Word(bytes, Big) / Power256(i) % 256 == bytes[|bytes| - 1 - i]
    ensures Word(bytes, endian) < Power256(|bytes|)
  {
    LittleDigit(bytes, i);
    LittleDigit(Reversed(bytes), i);
    ReversedAt(bytes, i);
    WordRoundTrip(bytes, endian);
  }

  // ---- call instructions --------------------------------------------------------------------

  datatype Call = ArmBl | Rv64Jal

  /** The value of the field of `size` values that stands `unit` up in the word. */
  function Field(word: nat, unit: nat, size: nat): (v: nat)
    requires unit > 0 && size > 0
    ensures v < size
  {
    word / unit % size
  }

  /** A field read as a two's complement number. */
  function Signed(field: int, size: int): int {
    if field >= size / 2 then field - size else field
  }

  function ArmTarget(word: nat, address: int): int {
    address + 8 + 4 * Signed(Field(word, 1, 0x1000000), 0x1000000)
  }

  /** The scattered displacement field of a RISC-V jal, reassembled. */
  function JalField(word: nat): nat {
    Field(word, 0x80000000, 2) * 0x100000 + Field(word, 0x1000, 0x100) * 0x1000
    + Field(word, 0x100000, 2) * 0x800 + Field(word, 0x200000, 0x400) * 2
  }

  predicate CallsSwitch(call: Call, insn: seq<Byte>, address: int, switchAddress: int, endian: Endian) {
    && |insn| == 4
    && var word := Word(insn, endian);
       match call
       case ArmBl =>
         && word / 0x10000000 != 0xF && Field(word, 0x2000000, 8) == 5 && Field(word, 0x1000000, 2) == 1
         && ArmTarget(word, address) == switchAddress
       case Rv64Jal =>
         && Field(word, 1, 0x80) == 0x6F && Field(word, 0x80, 0x20) == 1
         && address + Signed(JalField(word), 0x200000) == switchAddress
  }

  // ---- the encodings ----------------------------------------------------------------------------

  /** The BL encoding of the ARM architecture (section A8.8.25 of the ARMv7-A/R
      Architecture Reference Manual): condition, 1011, signed word displacement. */
  function EncodeBl(cond: nat, displacement: int): nat {
    cond * 0x10000000 + 0xB000000 + displacement / 4 % 0x1000000
  }

  predicate BlReaches(displacement: int) {
    -0x2000000 <= displacement < 0x2000000 && displacement % 4 == 0
  }

  /** The JAL encoding with rd = ra (section 2.5 of the RISC-V Unprivileged ISA):
      imm[20], imm[10:1], imm[11], imm[19:12], rd, opcode. */
  function EncodeJal(displacement: int): nat {
    var imm := displacement % 0x200000;
    Field(imm, 0x100000, 2) * 0x80000000 + Field(imm, 2, 0x400) * 0x200000 + Field(imm, 0x800, 2) * 0x100000
    + Field(imm, 0x1000, 0x100) * 0x1000 + 1 * 0x80 + 0x6F
  }

  predicate JalReaches(displacement: int) {
    -0x100000 <= displacement < 0x100000 && displacement % 2 == 0
  }

  lemma BlFields(cond: nat, low: nat)
    requires cond < 16 && low < 0x1000000
    ensures var w := cond * 0x10000000 + 0xB000000 + low;
            && w / 0x10000000 == cond && Field(w, 0x2000000, 8) == 5 && Field(w, 0x1000000, 2) == 1
            && Field(w, 1, 0x1000000) == low
  {}

  lemma BlSplit(w: nat)
    requires w < 0x1_0000_0000 && Field(w, 0x2000000, 8) == 5 && Field(w, 0x1000000, 2) == 1
    ensures w / 0x10000000 < 16 && w == w / 0x10000000 * 0x10000000 + 0xB000000 + Field(w, 1, 0x1000000)
  {}

  /** Truncating to a field and sign-extending it undo each other in range. */
  lemma SignedInverse24(x: int)
    ensures -0x800000 <= x < 0x800000 ==> Signed(x % 0x1000000, 0x1000000) == x
    ensures 0 <= x < 0x1000000 ==> Signed(x, 0x1000000) % 0x1000000 == x && -0x800000 <= Signed(x, 0x1000000) < 0x800000
  {}

  lemma SignedInverse21(x: int)
    ensures -0x100000 <= x < 0x100000 ==> Signed(x % 0x200000, 0x200000) == x
    ensures 0 <= x < 0x200000 ==> Signed(x, 0x200000) % 0x200000 == x && -0x100000 <= Signed(x, 0x200000) < 0x100000
  {}

  /** A word is a BL to an address exactly when it is the encoding, under some
      condition, of the displacement from the instruction's pipeline address. */
  lemma BlIffEncoded(word: nat, address: int, switchAddress: int, endian: Endian)
    requires word < 0x1_0000_0000
    ensures CallsSwitch(ArmBl, PackWord(word, 4, endian), address, switchAddress, endian) <==>
      var displacement := switchAddress - address - 8;
      BlReaches(displacement) && exists cond: nat :: cond < 15 && word == EncodeBl(cond, displacement)
  {
    assert Power256(4) == 0x1_0000_0000;
    PackRoundTrip(word, 4, endian);
    var displacement := switchAddress - address - 8;
    if CallsSwitch(ArmBl, PackWord(word, 4, endian), address, switchAddress, endian) {
      var low := Field(word, 1, 0x1000000);
      BlSplit(word);
      SignedInverse24(low);
      assert displacement == 4 * Signed(low, 0x1000000);
      Quarter(Signed(low, 0x1000000));
      assert word == EncodeBl(word / 0x10000000, displacement);
    }
    if cond: nat :| BlReaches(displacement) && cond < 15 && word == EncodeBl(cond, displacement) {
      SignedInverse24(displacement / 4);
      BlFields(cond, displacement / 4 % 0x1000000);
    }
  }

  lemma Quarter(x: int)
    ensures 4 * x / 4 == x && 4 * x % 4 == 0
  {}

  /** The word with the given jal fields, from the opcode up. */
  function JalWord(f8: nat, b11: nat, f10: nat, b20: nat): nat {
    b20 * 0x80000000 + f10 * 0x200000 + b11 * 0x100000 + f8 * 0x1000 + 1 * 0x80 + 0x6F
  }

  function JalImmediate(f8: nat, b11: nat, f10: nat, b20: nat): nat {
    b20 * 0x100000 + f8 * 0x1000 + b11 * 0x800 + f10 * 2
  }

  /** A field is what stands between the parts below and above it. */
  lemma FieldAt(word: nat, unit: nat, size: nat, above: nat, field: nat, below: nat)
    requires unit > 0 && field < size && below < unit && word == unit * (size * above + field) + below
    ensures Field(word, unit, size) == field
  {
    Arith.DivModUnique(word, unit, size * above + field, below);
    Arith.DivModUnique(size * above + field, size, above, field);
  }

  lemma JalWordFields(f8: nat, b11: nat, f10: nat, b20: nat)
    requires f8 < 0x100 && b11 < 2 && f10 < 0x400 && b20 < 2
    ensures var w := JalWord(f8, b11, f10, b20);
            && Field(w, 1, 0x80) == 0x6F && Field(w, 0x80, 0x20) == 1 && Field(w, 0x1000, 0x100) == f8
            && Field(w, 0x100000, 2) == b11 && Field(w, 0x200000, 0x400) == f10 && Field(w, 0x80000000, 2) == b20
  {
    var w := JalWord(f8, b11, f10, b20);
    var q10 := b20 * 0x400 + f10;
    var q11 := q10 * 2 + b11;
    var q8 := q11 * 0x100 + f8;
    FieldAt(w, 1, 0x80, q8 * 0x20 + 1, 0x6F, 0);
    FieldAt(w, 0x80, 0x20, q8, 1, 0x6F);
    FieldAt(w, 0x1000, 0x100, q11, f8, 0xEF);
    FieldAt(w, 0x100000, 2, q10, b11, f8 * 0x1000 + 0xEF);
    FieldAt(w, 0x200000, 0x400, b20, f10, b11 * 0x100000 + f8 * 0x1000 + 0xEF);
    FieldAt(w, 0x80000000, 2, 0, b20, f10 * 0x200000 + b11 * 0x100000 + f8 * 0x1000 + 0xEF);
  }

  lemma JalWordSplit(w: nat)
    requires w < 0x1_0000_0000 && Field(w, 1, 0x80) == 0x6F && Field(w, 0x80, 0x20) == 1
    ensures w == JalWord(Field(w, 0x1000, 0x100), Field(w, 0x100000, 2), Field(w, 0x200000, 0x400),
              Field(w, 0x80000000, 2))
  {
    DivideTwice(w);
    var q := w / 0x1000;
    var r := w / 0x100000;
    var s := w / 0x200000;
    assert w == q * 0x1000 + 0x80 + 0x6F;
    assert q == r * 0x100 + Field(w, 0x1000, 0x100);
    assert r == s * 2 + Field(w, 0x100000, 2);
    assert s == Field(w, 0x80000000, 2) * 0x400 + Field(w, 0x200000, 0x400);
  }

  lemma DivideTwice(w: nat)
    ensures w / 0x80 / 0x20 == w / 0x1000 && w / 0x1000 / 0x100 == w / 0x100000
    ensures w / 0x100000 / 2 == w / 0x200000 && w / 0x200000 / 0x400 == w / 0x80000000
  {}

  lemma JalImmediateFields(f8: nat, b11: nat, f10: nat, b20: nat)
    requires f8 < 0x100 && b11 < 2 && f10 < 0x400 && b20 < 2
    ensures var imm := JalImmediate(f8, b11, f10, b20);
            && imm < 0x200000 && imm % 2 == 0 && Field(imm, 0x1000, 0x100) == f8 && Field(imm, 0x800, 2) == b11
            && Field(imm, 2, 0x400) == f10 && Field(imm, 0x100000, 2) == b20
  {
    var imm := JalImmediate(f8, b11, f10, b20);
    var q8 := b20 * 0x100 + f8;
    var q11 := q8 * 2 + b11;
    FieldAt(imm, 1, 2, q11 * 0x400 + f10, 0, 0);
    FieldAt(imm, 2, 0x400, q11, f10, 0);
    FieldAt(imm, 0x800, 2, q8, b11, f10 * 2);
    FieldAt(imm, 0x1000, 0x100, b20, f8, b11 * 0x800 + f10 * 2);
    FieldAt(imm, 0x100000, 2, 0, b20, f8 * 0x1000 + b11 * 0x800 + f10 * 2);
  }

  lemma JalImmediateSplit(imm: nat)
    requires imm < 0x200000 && imm % 2 == 0
    ensures imm == JalImmediate(Field(imm, 0x1000, 0x100), Field(imm, 0x800, 2), Field(imm, 2, 0x400),
              Field(imm, 0x100000, 2))
  {
    DivideTwiceMore(imm);
    var q := imm / 0x800;
    var r := imm / 0x1000;
    assert imm == q * 0x800 + Field(imm, 2, 0x400) * 2;
    assert q == r * 2 + Field(imm, 0x800, 2);
    assert r == Field(imm, 0x100000, 2) * 0x100 + Field(imm, 0x1000, 0x100);
  }

  lemma DivideTwiceMore(imm: nat)
    ensures imm / 2 / 0x400 == imm / 0x800 && imm / 0x800 / 2 == imm / 0x1000 && imm / 0x1000 / 0x100 == imm / 0x100000
  {}

  lemma JalEncodes(word: nat, displacement: int)
    requires word < 0x1_0000_0000
    requires Field(word, 1, 0x80) == 0x6F && Field(word, 0x80, 0x20) == 1
              && displacement == Signed(JalField(word), 0x200000)
    ensures JalReaches(displacement) && word == EncodeJal(displacement)
  {
    JalWordSplit(word);
    JalImmediateFields(Field(word, 0x1000, 0x100), Field(word, 0x100000, 2), Field(word, 0x200000, 0x400),
        Field(word, 0x80000000, 2));
    SignedInverse21(JalField(word));
    EvenParts(displacement, JalField(word));
  }

  lemma JalDecodes(displacement: int)
    requires JalReaches(displacement)
    ensures var word := EncodeJal(displacement);
            && word < 0x1_0000_0000 && Field(word, 1, 0x80) == 0x6F && Field(word, 0x80, 0x20) == 1
            && displacement == Signed(JalField(word), 0x200000)
  {
    var imm := displacement % 0x200000;
    EvenParts(displacement, imm);
    JalImmediateSplit(imm);
    JalWordFields(Field(imm, 0x1000, 0x100), Field(imm, 0x800, 2), Field(imm, 2, 0x400), Field(imm, 0x100000, 2));
    SignedInverse21(displacement);
  }

  /** The same for RISC-V: a jal through ra reaches an address exactly when it is
      the encoding of the displacement, fields scattered as the ISA says. */
  lemma JalIffEncoded(word: nat, address: int, switchAddress: int, endian: Endian)
    requires word < 0x1_0000_0000
    ensures CallsSwitch(Rv64Jal, PackWord(word, 4, endian), address, switchAddress, endian) <==>
      var displacement := switchAddress - address;
      JalReaches(displacement) && word == EncodeJal(displacement)
  {
    assert Power256(4) == 0x1_0000_0000;
    PackRoundTrip(word, 4, endian);
    var displacement := switchAddress - address;
    if CallsSwitch(Rv64Jal, PackWord(word, 4, endian), address, switchAddress, endian) {
      JalEncodes(word, displacement);
    }
    if JalReaches(displacement) {
      JalDecodes(displacement);
    }
  }

  lemma EvenParts(x: int, imm: int)
    requires x % 0x200000 == imm
    ensures x % 2 == imm % 2
  {
    var k := x / 0x200000;
    assert x == 2 * (k * 0x100000) + imm;
    EvenAdded(k * 0x100000, imm);
  }

  lemma EvenAdded(k: int, imm: int)
    ensures (2 * k + imm) % 2 == imm % 2
  {}

  // ---- the saved PC ---------------------------------------------------------------------------------

  datatype How = Started | Switch | Interrupt

  datatype SavedPc = SavedPc(pc: int, how: How)

  datatype SavedPcLayout = SavedPcLayout(offset: int, width: nat, call: Call)

  /** What the decoder may ask of the target. */
  datatype Target = Target(read: (int, nat) -> Option<seq<Byte>>, switchAddress: Option<int>, symbolised: int -> bool,
                           endian: Endian)

  predicate ReadsCall(t: Target, layout: SavedPcLayout, pc: int) {
    t.switchAddress.Some?
    && t.read(pc - 4, 4).Some? && CallsSwitch(layout.call, t.read(pc - 4, 4).value, pc - 4, t.switchAddress.value,
        t.endian)
  }

  function DecodeSavedPc(sp: int, entry: int, layout: SavedPcLayout, t: Target): Option<SavedPc> {
    if sp == 0 then None
    else
      var raw := t.read(sp + layout.offset, layout.width);
      if raw.None? || |raw.value| != layout.width then None
      else
        var pc := Word(raw.value, t.endian);
        if pc == 0 then None
        else if entry != 0 && pc == entry then Some(SavedPc(pc, Started))
        else if ReadsCall(t, layout, pc) then Some(SavedPc(pc, Switch))
        else if t.symbolised(pc - pc % 2) then Some(SavedPc(pc, Interrupt))
        else None
  }

  /** A PC shown is never zero, is what the slot holds, and carries its proof:
      the entry, the encoding of a call to the switch routine just before it, or
      a symbol. */
  lemma ShownPcIsProven(sp: int, entry: int, layout: SavedPcLayout, t: Target)
    ensures var shown := DecodeSavedPc(sp, entry, layout, t);
            shown.Some? ==>
              var pc := shown.value.pc;
              && pc != 0 && t.read(sp + layout.offset, layout.width) == Some(PackWord(pc, layout.width, t.endian))
              && (shown.value.how.Started? ==> pc == entry)
              && (shown.value.how.Switch? ==> ReadsCall(t, layout, pc))
              && (shown.value.how.Interrupt? ==> t.symbolised(pc - pc % 2))
  {
    var raw := t.read(sp + layout.offset, layout.width);
    if raw.Some? {
      WordRoundTrip(raw.value, t.endian);
    }
  }

  /** The word encodes a call from `address` to `target`. */
  ghost predicate EncodesCall(call: Call, word: nat, address: int, target: int) {
    match call
    case ArmBl =>
      var displacement := target - address - 8;
      BlReaches(displacement) && exists cond: nat :: cond < 15 && word == EncodeBl(cond, displacement)
    case Rv64Jal => JalReaches(target - address) && word == EncodeJal(target - address)
  }

  /** Just before `pc` memory holds a call to the switch routine. */
  ghost predicate CallBefore(t: Target, layout: SavedPcLayout, pc: int) {
    && t.switchAddress.Some?
    && exists word: nat :: word < 0x1_0000_0000 && t.read(pc - 4, 4) == Some(PackWord(word, 4, t.endian))
                           && EncodesCall(layout.call, word, pc - 4, t.switchAddress.value)
  }

  lemma CallsIff(call: Call, word: nat, address: int, target: int, endian: Endian)
    requires word < 0x1_0000_0000
    ensures CallsSwitch(call, PackWord(word, 4, endian), address, target, endian)
       <==> EncodesCall(call, word, address, target)
  {
    hide CallsSwitch;
    match call
    case ArmBl => BlIffEncoded(word, address, target, endian);
    case Rv64Jal => JalIffEncoded(word, address, target, endian);
  }

  lemma ReadsCallIff(t: Target, layout: SavedPcLayout, pc: int)
    ensures ReadsCall(t, layout, pc) <==> CallBefore(t, layout, pc)
  {
    hide EncodesCall, Word, PackWord;
    assert Power256(4) == 0x1_0000_0000;
    if t.switchAddress.Some? {
      if ReadsCall(t, layout, pc) {
        var bytes := t.read(pc - 4, 4).value;
        WordRoundTrip(bytes, t.endian);
        CallsIff(layout.call, Word(bytes, t.endian), pc - 4, t.switchAddress.value, t.endian);
      }
      if CallBefore(t, layout, pc) {
        var word: nat :| word < 0x1_0000_0000 && t.read(pc - 4, 4) == Some(PackWord(word, 4, t.endian))
                         && EncodesCall(layout.call, word, pc - 4, t.switchAddress.value);
        CallsIff(layout.call, word, pc - 4, t.switchAddress.value, t.endian);
      }
    }
  }

  /** What makes a PC believable, the strongest reason first. */
  ghost predicate Proves(t: Target, layout: SavedPcLayout, entry: int, pc: int, how: How) {
    match how
    case Started => pc == entry
    case Switch => pc != entry && CallBefore(t, layout, pc)
    case Interrupt => pc != entry && !CallBefore(t, layout, pc) && t.symbolised(pc - pc % 2)
  }

  /** Which PC is shown, and as what: exactly the non-zero word in the slot of a
      thread that has a stack, when something proves it. */
  lemma SavedPcIff(sp: int, entry: int, layout: SavedPcLayout, t: Target, pc: nat, how: How)
    ensures DecodeSavedPc(sp, entry, layout, t) == Some(SavedPc(pc, how)) <==>
      && sp != 0 && pc != 0 && pc < Power256(layout.width)
      && t.read(sp + layout.offset, layout.width) == Some(PackWord(pc, layout.width, t.endian))
      && Proves(t, layout, entry, pc, how)
  {
    hide CallBefore, ReadsCall, PackWord, Word, Power256;
    ReadsCallIff(t, layout, pc);
    var raw := t.read(sp + layout.offset, layout.width);
    if raw.Some? {
      WordRoundTrip(raw.value, t.endian);
    }
    if pc < Power256(layout.width) {
      PackRoundTrip(pc, layout.width, t.endian);
    }
  }

  /** The word of a call from `address` to `target`: under condition `cond` on ARM. */
  function CallWord(call: Call, cond: nat, address: int, target: int): nat {
    if call.ArmBl? then EncodeBl(cond, target - address - 8) else EncodeJal(target - address)
  }

  predicate CallReaches(call: Call, cond: nat, address: int, target: int) {
    if call.ArmBl? then cond < 15 && BlReaches(target - address - 8) else JalReaches(target - address)
  }

  lemma CallWordCalls(call: Call, cond: nat, address: int, target: int, endian: Endian)
    requires CallReaches(call, cond, address, target)
    ensures CallsSwitch(call, PackWord(CallWord(call, cond, address, target), 4, endian), address, target, endian)
  {
    if call.ArmBl? {
      BlIffEncoded(EncodeBl(cond, target - address - 8), address, target, endian);
    } else {
      JalDecodes(target - address);
      JalIffEncoded(EncodeJal(target - address), address, target, endian);
    }
  }

  /** A thread that left through a call to the switch routine, return address in
      its slot, is decoded as exactly that: both instruction sets, both byte orders. */
  lemma CooperativeSwitchDecodes(sp: int, entry: int, layout: SavedPcLayout, t: Target, pc: nat, cond: nat)
    requires sp != 0 && pc != 0 && pc != entry && pc < Power256(layout.width) && t.switchAddress.Some?
    requires t.read(sp + layout.offset, layout.width) == Some(PackWord(pc, layout.width, t.endian))
    requires CallReaches(layout.call, cond, pc - 4, t.switchAddress.value)
    requires t.read(pc - 4, 4) == Some(PackWord(CallWord(layout.call, cond, pc - 4, t.switchAddress.value), 4,
              t.endian))
    ensures DecodeSavedPc(sp, entry, layout, t) == Some(SavedPc(pc, Switch))
  {
    hide CallWord, CallReaches, CallsSwitch, PackWord, Word, Power256;
    PackRoundTrip(pc, layout.width, t.endian);
    CallWordCalls(layout.call, cond, pc - 4, t.switchAddress.value, t.endian);
  }
}
