/** Wrapping, planning and painting the colour key beside the bitmap
    (gdr/bitmapfont.py). */
module Legend {
  import opened Arith
  import opened Common
  import opened Pixels

  const CHAR_ADVANCE := 12
  const FONT_SCALE := 2
  const LINE_STEP := 20
  const SWATCH_W := 12
  const SWATCH_H := 14
  const LEGEND_PAD := 8
  const BITMAP_LEGEND_GAP := 12
  const LEGEND_CHROME := 36
  const WRAP_MIN_LINES := 8
  const MIN_LINE_CHARS := 24
  const STRIP_PAD := 4
  const STRIP_H := 22
  const TEXT_OFFSET := 20
  const INK := Rgb(32, 32, 32)

  // ---- wrapping -----------------------------------------------------------

  /** What a label says apart from its spacing: everything but spaces and commas. */
  function Ink(text: string): string {
    if text == "" then ""
    else
      var c := text[|text| - 1];
      Ink(text[..|text| - 1]) + (if c == ' ' || c == ',' then "" else [c])
  }

  lemma Reassociate<T>(a: seq<T>, b: seq<T>, c: seq<T>)
    ensures a + (b + c) == a + b + c
  {}

  lemma {:induction false} InkConcat(a: string, b: string)
    ensures Ink(a + b) == Ink(a) + Ink(b)
  {
    if b == "" {
      assert a + b == a;
    } else {
      assert (a + b)[..|a + b| - 1] == a + b[..|b| - 1];
      InkConcat(a, b[..|b| - 1]);
    }
  }

  /** Every other character is kept, as often as it stands there. */
  lemma {:induction false} InkKeeps(text: string, c: char)
    ensures multiset(Ink(text))[c] == if c == ' ' || c == ',' then 0 else multiset(text)[c]
  {
    if text != "" {
      InkKeeps(text[..|text| - 1], c);
      assert text == text[..|text| - 1] + [text[|text| - 1]];
    }
  }

  lemma InkSplit(text: string, cut: nat)
    requires cut <= |text|
    ensures Ink(text) == Ink(text[..cut]) + Ink(text[cut..])
  {
    assert text == text[..cut] + text[cut..];
    InkConcat(text[..cut], text[cut..]);
  }

  function InkAll(lines: seq<string>): string {
    if lines == [] then "" else InkAll(lines[..|lines| - 1]) + Ink(lines[|lines| - 1])
  }

  lemma InkAppend(lines: seq<string>, line: string)
    ensures InkAll(lines + [line]) == InkAll(lines) + Ink(line)
  {
    assert (lines + [line])[..|lines|] == lines;
  }

  /** `text.split(", ")`. */
  function Fields(text: string): (fields: seq<string>)
    ensures fields != []
    ensures InkAll(fields) == Ink(text)
    decreases |text|
  {
    FieldsFrom(text, 0)
  }

  /** The fields of `text` when the first separator starts at `from` or later. */
  function FieldsFrom(text: string, from: nat): (fields: seq<string>)
    requires from <= |text|
    ensures fields != []
    ensures InkAll(fields) == Ink(text)
    decreases |text|, |text| - from
  {
    if from + 2 > |text| then
      assert InkAll([text]) == Ink(text) by { InkAppend([], text); assert [] + [text] == [text]; }
      [text]
    else if text[from] == ',' && text[from + 1] == ' ' then
      var rest := FieldsFrom(text[from + 2..], 0);
      assert InkAll([text[..from]] + rest) == Ink(text) by {
        InkPrepend(text[..from], rest);
        InkSplit(text, from);
        InkSplit(text[from..], 2);
        assert text[from..][..2] == ", ";
        assert text[from..][2..] == text[from + 2..];
        assert Ink(", ") == "" by { assert ", "[..1] == ","; assert ","[..0] == ""; }
      }
      [text[..from]] + rest
    else FieldsFrom(text, from + 1)
  }

  lemma {:induction false} InkPrepend(line: string, lines: seq<string>)
    ensures InkAll([line] + lines) == Ink(line) + InkAll(lines)
  {
    hide Ink;
    if lines == [] {
      assert [line] + lines == [] + [line];
      InkAppend([], line);
    } else {
      var front := lines[..|lines| - 1];
      assert ([line] + lines)[..|lines|] == [line] + front;
      InkPrepend(line, front);
    }
  }

  /** `text.rfind(" ", 0, limit)`: the last space before `limit`, or -1. */
  function LastSpace(text: string, limit: nat): (i: int)
    requires limit <= |text|
    ensures -1 <= i < limit
    ensures i >= 0 ==> text[i] == ' '
    ensures forall k :: i < k < limit ==> text[k] != ' '
  {
    if limit == 0 then -1 else if text[limit - 1] == ' ' then limit - 1 else LastSpace(text, limit - 1)
  }

  function TrimLeft(text: string): (t: string)
    ensures |t| <= |text| && Ink(t) == Ink(text)
  {
    if text != "" && text[0] == ' ' then
      assert Ink(text) == Ink(text[1..]) by {
        InkSplit(text, 1);
        assert text[..1][..0] == "";
      }
      TrimLeft(text[1..])
    else text
  }

  ghost predicate StandsAt(part: string, line: string, i: int) {
    0 <= i <= |line| - |part| && line[i..i + |part|] == part
  }

  ghost predicate Within(part: string, line: string) {
    exists i :: StandsAt(part, line, i)
  }

  lemma WithinLonger(part: string, line: string, more: string)
    requires Within(part, line)
    ensures Within(part, line + more)
  {
    var i :| StandsAt(part, line, i);
    assert (line + more)[i..i + |part|] == line[i..i + |part|];
    assert StandsAt(part, line + more, i);
  }

  lemma WithinEnd(before: string, part: string)
    ensures Within(part, before + part)
  {
    assert StandsAt(part, before + part, |before|);
  }

  /** A part that stands unbroken on some line, or on the line still being filled. */
  ghost predicate Unbroken(part: string, lines: seq<string>, current: string) {
    Within(part, current) || exists k :: 0 <= k < |lines| && Within(part, lines[k])
  }

  ghost predicate AllFit(lines: seq<string>, capacity: nat) {
    forall k :: 0 <= k < |lines| ==> |lines[k]| <= capacity
  }

  /** Where an over-long field is cut: at its last space that leaves a line that
      fits, or at the capacity. */
  function CutAt(field: string, capacity: nat): (at: nat)
    requires |field| > capacity >= 1
    ensures 1 <= at <= capacity
  {
    var space := LastSpace(field, capacity + 1);
    if space > 0 then space else capacity
  }

  /** The full lines cut off an over-long field, and what is left of it. */
  function CutLines(field: string, capacity: nat): (seq<string>, string)
    requires capacity >= 1
    decreases |field|
  {
    if |field| <= capacity then ([], field)
    else
      var at := CutAt(field, capacity);
      var (more, rest) := CutLines(TrimLeft(field[at..]), capacity);
      ([field[..at]] + more, rest)
  }

  /** One cut: its text, and the line it makes when put behind those cut before. */
  lemma CutStep(cut: seq<string>, rest: string, capacity: nat)
    requires |rest| > capacity >= 1
    ensures var at := CutAt(rest, capacity);
            var next := TrimLeft(rest[at..]);
            && CutLines(rest, capacity).1 == CutLines(next, capacity).1
            && cut + CutLines(rest, capacity).0 == cut + [rest[..at]] + CutLines(next, capacity).0
            && |next| < |rest|
            && InkAll(cut + [rest[..at]]) + Ink(next) == InkAll(cut) + Ink(rest)
  {
    hide CutLines, Ink, InkAll, TrimLeft, LastSpace, CutAt;
    var at := CutAt(rest, capacity);
    InkSplit(rest, at);
    InkAppend(cut, rest[..at]);
    CutUnfold(rest, capacity);
    assert cut + ([rest[..at]] + CutLines(TrimLeft(rest[at..]), capacity).0)
        == cut + [rest[..at]] + CutLines(TrimLeft(rest[at..]), capacity).0;
  }

  lemma CutUnfold(rest: string, capacity: nat)
    requires |rest| > capacity >= 1
    ensures var at := CutAt(rest, capacity);
            var next := TrimLeft(rest[at..]);
            CutLines(rest, capacity) == ([rest[..at]] + CutLines(next, capacity).0, CutLines(next, capacity).1)
  {
    hide Ink, TrimLeft, LastSpace, CutAt;
  }

  lemma NothingToCut(cut: seq<string>, rest: string, capacity: nat)
    requires |rest| <= capacity && capacity >= 1
    ensures cut + CutLines(rest, capacity).0 == cut && CutLines(rest, capacity).1 == rest
  {}

  /** Cuts an over-long field, at a space where there is one, until the rest fits. */
  method CutField(field: string, capacity: nat, lines: seq<string>) returns (cut: seq<string>, rest: string)
    requires capacity >= 1 && AllFit(lines, capacity)
    ensures AllFit(cut, capacity) && |rest| <= capacity && lines <= cut
    ensures InkAll(cut) + Ink(rest) == InkAll(lines) + Ink(field)
    ensures |field| <= capacity ==> cut == lines && rest == field
    ensures cut == lines + CutLines(field, capacity).0 && rest == CutLines(field, capacity).1
  {
    hide CutLines, Ink, InkAll, TrimLeft, LastSpace;
    cut, rest := lines, field;
    while |rest| > capacity
      invariant cut + CutLines(rest, capacity).0 == lines + CutLines(field, capacity).0
      invariant CutLines(rest, capacity).1 == CutLines(field, capacity).1
      invariant AllFit(cut, capacity) && lines <= cut
      invariant InkAll(cut) + Ink(rest) == InkAll(lines) + Ink(field)
      invariant |field| <= capacity ==> cut == lines && rest == field
      decreases |rest|
    {
      var at := LastSpace(rest, capacity + 1);
      if at <= 0 {
        at := capacity;
      }
      CutStep(cut, rest, capacity);
      cut := cut + [rest[..at]];
      rest := TrimLeft(rest[at..]);
    }
    NothingToCut(cut, rest, capacity);
  }

  lemma InkSeparator()
    ensures Ink(", ") == ""
  {
    assert ", "[..1] == ",";
    assert ","[..0] == "";
  }

  lemma InkJoin(current: string, field: string)
    ensures Ink(current + ", " + field) == Ink(current) + Ink(field)
  {
    InkSeparator();
    var led := current + ", ";
    InkConcat(current, ", ");
    assert Ink(led) == Ink(current);
    InkConcat(led, field);
  }

  /** What wrapping has to preserve after the first `f` fields. */
  ghost predicate Wrapped(fields: seq<string>, f: nat, lines: seq<string>, current: string, capacity: nat)
    requires f <= |fields|
  {
    && |current| <= capacity && AllFit(lines, capacity)
    && InkAll(lines) + Ink(current) == InkAll(fields[..f])
    && FieldsWhole(fields, f, lines, current, capacity)
  }

  ghost predicate FieldsWhole(fields: seq<string>, f: nat, lines: seq<string>, current: string, capacity: nat)
    requires f <= |fields|
  {
    forall j :: 0 <= j < f && |fields[j]| <= capacity ==> Unbroken(fields[j], lines, current)
  }

  /** A wrapped label: every line fits, only separators were lost, short fields are whole. */
  ghost predicate WrappedLabel(text: string, capacity: nat, lines: seq<string>) {
    && lines != [] && AllFit(lines, capacity)
    && InkAll(lines) == Ink(text)
    && forall j :: 0 <= j < |Fields(text)| && |Fields(text)[j]| <= capacity ==>
         exists k :: 0 <= k < |lines| && Within(Fields(text)[j], lines[k])
  }

  /** The line being filled once `field` joins it. */
  function Joined(current: string, field: string): string {
    if current == "" then field else current + ", " + field
  }

  lemma JoinedKeeps(current: string, field: string)
    ensures Ink(Joined(current, field)) == Ink(current) + Ink(field)
    ensures Within(field, Joined(current, field))
    ensures forall part :: Within(part, current) ==> Within(part, Joined(current, field))
  {
    if current == "" {
      assert StandsAt(field, field, 0);
      forall part | Within(part, current) ensures Within(part, field) {
        assert StandsAt(part, field, 0);
      }
    } else {
      InkJoin(current, field);
      WithinEnd(current + ", ", field);
      forall part | Within(part, current) ensures Within(part, Joined(current, field)) {
        WithinLonger(part, current, ", ");
        WithinLonger(part, current + ", ", field);
      }
    }
  }

  lemma JoinKeeps(fields: seq<string>, f: nat, lines: seq<string>, current: string, capacity: nat)
    requires f < |fields| && Wrapped(fields, f, lines, current, capacity)
    requires |Joined(current, fields[f])| <= capacity
    ensures Wrapped(fields, f + 1, lines, Joined(current, fields[f]), capacity)
  {
    hide Ink, InkAll, Within, Joined, AllFit;
    assert fields[..f + 1] == fields[..f] + [fields[f]];
    InkAppend(fields[..f], fields[f]);
    JoinedKeeps(current, fields[f]);
    Reassociate(InkAll(lines), Ink(current), Ink(fields[f]));
  }

  /** `lines` with the line being filled closed, if it holds anything. */
  function Closed(lines: seq<string>, current: string): seq<string> {
    if current == "" then lines else lines + [current]
  }

  lemma ClosedKeeps(lines: seq<string>, current: string, capacity: nat)
    requires AllFit(lines, capacity) && |current| <= capacity
    ensures AllFit(Closed(lines, current), capacity)
    ensures InkAll(Closed(lines, current)) == InkAll(lines) + Ink(current)
    ensures forall part :: Unbroken(part, lines, current) ==>
              part == "" || exists k :: 0 <= k < |Closed(lines, current)| && Within(part, Closed(lines, current)[k])
  {
    assert Ink("") == "" && InkAll(lines) + "" == InkAll(lines);
    assert Within("", "") by { assert StandsAt("", "", 0); }
    hide Ink, InkAll, StandsAt;
    InkAppend(lines, current);
    forall part | Unbroken(part, lines, current) && part != ""
      ensures exists k :: 0 <= k < |Closed(lines, current)| && Within(part, Closed(lines, current)[k])
    {
      if k :| 0 <= k < |lines| && Within(part, lines[k]) {
        assert Closed(lines, current)[k] == lines[k];
      } else {
        assert current != "";
        assert Closed(lines, current)[|lines|] == current;
      }
    }
  }

  lemma BreakKeepsFields(fields: seq<string>, f: nat, lines: seq<string>, current: string, capacity: nat,
                         cut: seq<string>, rest: string)
    requires f < |fields| && |current| <= capacity && AllFit(lines, capacity)
    requires FieldsWhole(fields, f, lines, current, capacity)
    requires Closed(lines, current) <= cut && (|fields[f]| <= capacity ==> rest == fields[f])
    ensures FieldsWhole(fields, f + 1, cut, rest, capacity)
  {
    hide Ink, InkAll, AllFit;
    ClosedKeeps(lines, current, capacity);
    assert |fields[f]| <= capacity ==> StandsAt(fields[f], rest, 0);
    var closed := Closed(lines, current);
    forall j | 0 <= j < f && |fields[j]| <= capacity ensures Unbroken(fields[j], cut, rest) {
      if fields[j] == "" {
        assert StandsAt("", rest, 0);
      } else {
        var k :| 0 <= k < |closed| && Within(fields[j], closed[k]);
        assert cut[k] == closed[k];
      }
    }
  }

  lemma BreakKeeps(fields: seq<string>, f: nat, lines: seq<string>, current: string, capacity: nat,
                   cut: seq<string>, rest: string)
    requires f < |fields| && Wrapped(fields, f, lines, current, capacity)
    requires AllFit(cut, capacity) && |rest| <= capacity && Closed(lines, current) <= cut
    requires InkAll(cut) + Ink(rest) == InkAll(Closed(lines, current)) + Ink(fields[f])
    requires |fields[f]| <= capacity ==> rest == fields[f]
    ensures Wrapped(fields, f + 1, cut, rest, capacity)
  {
    hide FieldsWhole, AllFit, Ink, InkAll, Closed;
    BreakKeepsFields(fields, f, lines, current, capacity, cut, rest);
    assert InkAll(cut) + Ink(rest) == InkAll(fields[..f + 1]) by {
      ClosedKeeps(lines, current, capacity);
      assert fields[..f + 1] == fields[..f] + [fields[f]];
      InkAppend(fields[..f], fields[f]);
    }
  }

  /** One field's turn: it joins the line being filled when it fits, else that
      line closes and the field is cut to fit. */
  function TakeField(lines: seq<string>, current: string, field: string, capacity: nat): (seq<string>, string)
    requires capacity >= 1
  {
    if |Joined(current, field)| <= capacity then (lines, Joined(current, field))
    else (Closed(lines, current) + CutLines(field, capacity).0, CutLines(field, capacity).1)
  }

  function WrapFields(fields: seq<string>, capacity: nat): (seq<string>, string)
    requires capacity >= 1
  {
    if fields == [] then ([], "")
    else
      var (lines, current) := WrapFields(fields[..|fields| - 1], capacity);
      TakeField(lines, current, fields[|fields| - 1], capacity)
  }

  /** The wrapped label as a function of its text. */
  function WrapOf(text: string, capacity: nat): seq<string>
    requires capacity >= 1
  {
    var (lines, current) := WrapFields(Fields(text), capacity);
    if current != "" || lines == [] then lines + [current] else lines
  }

  lemma WrapFieldsNext(fields: seq<string>, f: nat, capacity: nat)
    requires f < |fields| && capacity >= 1
    ensures var (lines, current) := WrapFields(fields[..f], capacity);
            WrapFields(fields[..f + 1], capacity) == TakeField(lines, current, fields[f], capacity)
  {
    assert fields[..f + 1][..f] == fields[..f];
  }

  /** Folds a label to lines of at most `capacity` characters. Only spaces and
      commas are ever lost and the rest keeps its order, and a field that fits
      a line is never cut. */
  method WrapLabel(text: string, capacity: nat) returns (lines: seq<string>)
    requires capacity >= 1
    ensures WrappedLabel(text, capacity, lines) && lines == WrapOf(text, capacity)
  {
    hide CutLines, Fields, WrappedLabel, AllFit;
    var fields := Fields(text);
    lines := [];
    var current := "";
    WrapStarts(fields, capacity);
    for f := 0 to |fields|
      invariant Wrapped(fields, f, lines, current, capacity)
      invariant WrapFields(fields[..f], capacity) == (lines, current)
    {
      WrapFieldsNext(fields, f, capacity);
      var field := fields[f];
      var candidate := Joined(current, field);
      if |candidate| <= capacity {
        JoinKeeps(fields, f, lines, current, capacity);
        current := candidate;
      } else {
        ghost var before, filling := lines, current;
        ClosedKeeps(lines, current, capacity);
        lines := Closed(lines, current);
        lines, current := CutField(field, capacity, lines);
        BreakKeeps(fields, f, before, filling, capacity, lines, current);
      }
    }
    WrapEnds(text, capacity, lines, current);
    assert fields[..|fields|] == fields;
    if current != "" || lines == [] {
      lines := lines + [current];
    }
  }

  lemma WrapStarts(fields: seq<string>, capacity: nat)
    requires capacity >= 1
    ensures Wrapped(fields, 0, [], "", capacity) && WrapFields(fields[..0], capacity) == ([], "")
  {}

  lemma WrapEnds(text: string, capacity: nat, lines: seq<string>, current: string)
    requires Wrapped(Fields(text), |Fields(text)|, lines, current, capacity)
    ensures WrappedLabel(text, capacity, if current != "" || lines == [] then lines + [current] else lines)
  {
    hide Fields, Ink, InkAll;
    var fields := Fields(text);
    assert fields[..|fields|] == fields;
    ClosedKeeps(lines, current, capacity);
    InkAppend(lines, current);
    var all := if current != "" || lines == [] then lines + [current] else lines;
    forall j | 0 <= j < |fields| && |fields[j]| <= capacity
      ensures exists k :: 0 <= k < |all| && Within(fields[j], all[k])
    {
      if fields[j] == "" {
        assert StandsAt("", all[0], 0);
      } else {
        assert Unbroken(fields[j], lines, current);
      }
    }
  }

  // ---- planning -----------------------------------------------------------

  function Capacity(bitmapWidth: int, maxPx: int): (c: int)
    ensures c >= 1
    ensures c > MIN_LINE_CHARS ==> bitmapWidth + BITMAP_LEGEND_GAP + LEGEND_CHROME + c * CHAR_ADVANCE <= maxPx
  {
    Min(Max(1, (maxPx - LEGEND_CHROME) / CHAR_ADVANCE),
        Max(MIN_LINE_CHARS, (maxPx - bitmapWidth - BITMAP_LEGEND_GAP - LEGEND_CHROME) / CHAR_ADVANCE))
  }

  /** A line of `c` characters fits the image's width on its own, and beside the
      bitmap or in the least the legend takes there. */
  predicate RoomForLine(c: int, bitmapWidth: int, maxPx: int) {
    && (c <= 1 || LEGEND_CHROME + c * CHAR_ADVANCE <= maxPx)
    && (c <= MIN_LINE_CHARS || bitmapWidth + BITMAP_LEGEND_GAP + LEGEND_CHROME + c * CHAR_ADVANCE <= maxPx)
  }

  /** The capacity is the longest line there is room for. */
  lemma CapacityLongest(bitmapWidth: int, maxPx: int)
    ensures RoomForLine(Capacity(bitmapWidth, maxPx), bitmapWidth, maxPx)
    ensures forall c :: RoomForLine(c, bitmapWidth, maxPx) ==> c <= Capacity(bitmapWidth, maxPx)
  {}

  datatype Entry = Entry(colour: Rgb, text: string)

  function Texts(lines: seq<Entry>): (t: seq<string>)
    ensures |t| == |lines|
  {
    seq(|lines|, i requires 0 <= i < |lines| => lines[i].text)
  }

  function Longest(lines: seq<Entry>): (m: nat)
    ensures forall k :: 0 <= k < |lines| ==> |lines[k].text| <= m
    ensures lines != [] ==> exists k :: 0 <= k < |lines| && |lines[k].text| == m
  {
    if lines == [] then 0
    else
      var front := lines[..|lines| - 1];
      var m := Longest(front);
      var last := |lines[|lines| - 1].text|;
      assert forall k :: 0 <= k < |front| ==> lines[k] == front[k];
      if front == [] || m < last then last else m
  }

  /** Where wrapped lines go: `columns` lanes of `perColumn` lines each. */
  datatype Plan = Plan(lines: seq<Entry>, columns: int, perColumn: int,
                       columnWidth: int, width: int, height: int) {
    ghost predicate Valid() {
      && (columns == 1 || columns == 2)
      && 0 <= |lines| <= columns * perColumn
      && (lines != [] ==> perColumn >= 1 && (perColumn - 1) * columns < |lines|)
      && (lines == [] ==> perColumn == 0)
      && columnWidth == (if lines == [] then 0 else LEGEND_CHROME + Longest(lines) * CHAR_ADVANCE)
      && width == columns * columnWidth + (columns - 1) * BITMAP_LEGEND_GAP
      && height == LEGEND_PAD + 4 + perColumn * LINE_STEP
    }

    function Lane(i: int): int
      requires perColumn > 0
    {
      i / perColumn
    }

    function Rank(i: int): int
      requires perColumn > 0
    {
      i % perColumn
    }

    /** Left edge of the lane that holds line `i`. */
    function LaneX(bitmapWidth: int, i: int): int
      requires perColumn > 0
    {
      bitmapWidth + BITMAP_LEGEND_GAP + Lane(i) * (columnWidth + BITMAP_LEGEND_GAP)
    }

    function LineY(i: int): int
      requires perColumn > 0
    {
      LEGEND_PAD + Rank(i) * LINE_STEP
    }

    /** The pixels line `i` may paint: its swatch and its text. */
    predicate InBox(bitmapWidth: int, i: int, x: int, y: int)
      requires perColumn > 0 && 0 <= i < |lines|
    {
      && LaneX(bitmapWidth, i) + LEGEND_PAD <= x
      && x < LaneX(bitmapWidth, i) + LEGEND_PAD + TEXT_OFFSET + |lines[i].text| * CHAR_ADVANCE
      && LineY(i) <= y < LineY(i) + SWATCH_H
    }
  }

  lemma TextsAppend(lines: seq<Entry>, entry: Entry)
    ensures Texts(lines + [entry]) == Texts(lines) + [entry.text]
    ensures InkAll(Texts(lines + [entry])) == InkAll(Texts(lines)) + Ink(entry.text)
  {
    InkAppend(Texts(lines), entry.text);
  }

  ghost predicate LinesFit(lines: seq<Entry>, capacity: nat) {
    forall k :: 0 <= k < |lines| ==> |lines[k].text| <= capacity
  }

  lemma PartAdded(lines: seq<Entry>, all: seq<Entry>, colour: Rgb, parts: seq<string>, p: nat)
    requires p < |parts| && InkAll(Texts(all)) == InkAll(Texts(lines)) + InkAll(parts[..p])
    ensures InkAll(Texts(all + [Entry(colour, parts[p])])) == InkAll(Texts(lines)) + InkAll(parts[..p + 1])
  {
    assert parts[..p + 1] == parts[..p] + [parts[p]];
    InkAppend(parts[..p], parts[p]);
    TextsAppend(all, Entry(colour, parts[p]));
    Reassociate(InkAll(Texts(lines)), InkAll(parts[..p]), Ink(parts[p]));
  }

  /** The wrapped parts of one entry, all in its colour. */
  method ColourParts(lines: seq<Entry>, colour: Rgb, parts: seq<string>, ghost capacity: nat) returns (all: seq<Entry>)
    requires LinesFit(lines, capacity) && AllFit(parts, capacity)
    ensures LinesFit(all, capacity) && |all| == |lines| + |parts| && lines <= all
    ensures all == lines + Coloured(colour, parts)
    ensures InkAll(Texts(all)) == InkAll(Texts(lines)) + InkAll(parts)
  {
    all := lines;
    assert InkAll(parts[..0]) == "" && InkAll(Texts(lines)) + "" == InkAll(Texts(lines));
    hide Ink, InkAll, Texts;
    for p := 0 to |parts|
      invariant |all| == |lines| + p && lines <= all && LinesFit(all, capacity)
      invariant forall k :: 0 <= k < p ==> all[|lines| + k] == Entry(colour, parts[k])
      invariant InkAll(Texts(all)) == InkAll(Texts(lines)) + InkAll(parts[..p])
    {
      PartAdded(lines, all, colour, parts, p);
      all := all + [Entry(colour, parts[p])];
    }
    assert parts[..|parts|] == parts;
    assert all == lines + Coloured(colour, parts);
  }

  lemma WrappedFits(text: string, capacity: nat, parts: seq<string>)
    requires WrappedLabel(text, capacity, parts)
    ensures parts != [] && AllFit(parts, capacity) && InkAll(parts) == Ink(text)
  {}

  /** All wrapped parts in order, each in its entry's colour. */
  function WrapAll(entries: seq<Entry>, capacity: nat): seq<Entry>
    requires capacity >= 1
  {
    if entries == [] then []
    else
      var last := entries[|entries| - 1];
      WrapAll(entries[..|entries| - 1], capacity) + Coloured(last.colour, WrapOf(last.text, capacity))
  }

  function Coloured(colour: Rgb, parts: seq<string>): (r: seq<Entry>)
    ensures |r| == |parts| && forall k :: 0 <= k < |r| ==> r[k] == Entry(colour, parts[k])
  {
    seq(|parts|, k requires 0 <= k < |parts| => Entry(colour, parts[k]))
  }

  lemma WrapAllNext(entries: seq<Entry>, entry: Entry, capacity: nat)
    requires capacity >= 1
    ensures WrapAll(entries + [entry], capacity)
         == WrapAll(entries, capacity) + Coloured(entry.colour, WrapOf(entry.text, capacity))
  {
    hide WrapOf, Coloured;
    assert (entries + [entry])[..|entries|] == entries;
  }

  lemma NothingWrapped(capacity: nat)
    requires capacity >= 1
    ensures WrapAll([], capacity) == [] && LinesFit([], capacity) && InkAll(Texts([])) == ""
  {}

  method WrapEntries(entries: seq<Entry>, capacity: nat) returns (lines: seq<Entry>)
    requires capacity >= 1
    ensures lines == WrapAll(entries, capacity)
    ensures LinesFit(lines, capacity) && |lines| >= |entries|
    ensures InkAll(Texts(lines)) == InkAll(Texts(entries))
    ensures entries == [] ==> lines == []
  {
    hide WrapOf, InkAll, Texts, Ink, Coloured, WrappedLabel, LinesFit, WrapAll;
    lines := [];
    NothingWrapped(capacity);
    for e := 0 to |entries|
      invariant LinesFit(lines, capacity) && |lines| >= e && (e == 0 ==> lines == [])
      invariant InkAll(Texts(lines)) == InkAll(Texts(entries[..e]))
      invariant lines == WrapAll(entries[..e], capacity)
    {
      var parts := WrapLabel(entries[e].text, capacity);
      WrappedFits(entries[e].text, capacity, parts);
      lines := ColourParts(lines, entries[e].colour, parts, capacity);
      WrapAllNext(entries[..e], entries[e], capacity);
      assert entries[..e + 1] == entries[..e] + [entries[e]];
      TextsAppend(entries[..e], entries[e]);
    }
    assert entries[..|entries|] == entries;
  }

  /** The plan as a function of its inputs: `plan.Valid()` says that its lanes are
      just long enough and its sizes just large enough for its lines. */
  function PlanOf(entries: seq<Entry>, bitmapWidth: int, usedHeight: int, maxPx: int): Plan {
    var lines := WrapAll(entries, Capacity(bitmapWidth, maxPx));
    var columns := if |lines| > WRAP_MIN_LINES && LEGEND_PAD + 4 + |lines| * LINE_STEP > 2 * usedHeight then 2 else 1;
    var perColumn := (|lines| + columns - 1) / columns;
    var columnWidth := if lines == [] then 0 else LEGEND_CHROME + Longest(lines) * CHAR_ADVANCE;
    Plan(lines, columns, perColumn, columnWidth,
         columns * columnWidth + (columns - 1) * BITMAP_LEGEND_GAP, LEGEND_PAD + 4 + perColumn * LINE_STEP)
  }

  lemma {:induction false} LinesOfTexts(a: seq<Entry>, b: seq<Entry>, capacity: nat)
    requires capacity >= 1 && Texts(a) == Texts(b)
    ensures |WrapAll(a, capacity)| == |WrapAll(b, capacity)|
  {
    hide WrapOf;
    assert |a| == |Texts(a)| == |Texts(b)| == |b|;
    if a != [] {
      var n := |a| - 1;
      assert Texts(a)[n] == Texts(b)[n];
      assert Texts(a[..n]) == Texts(a)[..n] == Texts(b)[..n] == Texts(b[..n]);
      LinesOfTexts(a[..n], b[..n], capacity);
    }
  }

  /** Colours do not matter to a plan's height. */
  lemma HeightOfTexts(a: seq<Entry>, b: seq<Entry>, bitmapWidth: int, usedHeight: int, maxPx: int)
    requires Texts(a) == Texts(b)
    ensures PlanOf(a, bitmapWidth, usedHeight, maxPx).height == PlanOf(b, bitmapWidth, usedHeight, maxPx).height
  {
    hide WrapAll, Capacity, Texts, Longest;
    LinesOfTexts(a, b, Capacity(bitmapWidth, maxPx));
  }

  method MakePlan(entries: seq<Entry>, bitmapWidth: int, usedHeight: int, maxPx: int) returns (plan: Plan)
    ensures plan == PlanOf(entries, bitmapWidth, usedHeight, maxPx)
    ensures plan.Valid()
    ensures LinesFit(plan.lines, Capacity(bitmapWidth, maxPx))
    ensures InkAll(Texts(plan.lines)) == InkAll(Texts(entries))
    ensures |plan.lines| >= |entries| && (entries == [] ==> plan.lines == [])
    ensures plan.columns == 2 <==>
      |plan.lines| > WRAP_MIN_LINES && LEGEND_PAD + 4 + |plan.lines| * LINE_STEP > 2 * usedHeight
  {
    hide WrapAll, LinesFit, InkAll, Texts, Longest, Capacity;
    var lines := WrapEntries(entries, Capacity(bitmapWidth, maxPx));
    var budget := 2 * usedHeight;
    var oneColumn := LEGEND_PAD + 4 + |lines| * LINE_STEP;
    var columns := if |lines| > WRAP_MIN_LINES && oneColumn > budget then 2 else 1;
    var perColumn := if lines == [] then 0 else CeilDiv(|lines|, columns);
    var columnWidth := if lines == [] then 0 else LEGEND_CHROME + Longest(lines) * CHAR_ADVANCE;
    plan := Plan(lines, columns, perColumn, columnWidth,
                 columns * columnWidth + (columns - 1) * BITMAP_LEGEND_GAP,
                 LEGEND_PAD + 4 + perColumn * LINE_STEP);
  }

  /** Every line's box lies right of the bitmap, inside its lane and inside the legend's height. */
  lemma BoxInside(plan: Plan, bitmapWidth: int, i: int)
    requires plan.Valid() && 0 <= i < |plan.lines|
    ensures plan.perColumn > 0
    ensures 0 <= plan.Lane(i) < plan.columns && 0 <= plan.Rank(i) < plan.perColumn
    ensures bitmapWidth + BITMAP_LEGEND_GAP <= plan.LaneX(bitmapWidth, i)
    ensures plan.LaneX(bitmapWidth, i) + plan.columnWidth <= bitmapWidth + BITMAP_LEGEND_GAP + plan.width
    ensures LEGEND_PAD + TEXT_OFFSET + |plan.lines[i].text| * CHAR_ADVANCE + LEGEND_PAD <= plan.columnWidth
    ensures LEGEND_PAD <= plan.LineY(i) && plan.LineY(i) + SWATCH_H <= plan.height
  {
    LaneRank(i, plan.perColumn, plan.columns);
  }

  lemma LaneRank(i: int, perColumn: int, columns: int)
    requires 0 <= i < columns * perColumn && perColumn >= 1 && (columns == 1 || columns == 2)
    ensures 0 <= i / perColumn < columns && 0 <= i % perColumn < perColumn
    ensures i == i / perColumn * perColumn + i % perColumn
  {
    DivMod(i, perColumn);
    var lane := i / perColumn;
    if lane >= columns {
      MulMonotone(columns, lane, perColumn);
    } else if lane < 0 {
      MulMonotone(lane, -1, perColumn);
    }
  }

  /** Different lines never share a pixel. */
  lemma BoxesDisjoint(plan: Plan, bitmapWidth: int, i: int, j: int, x: int, y: int)
    requires plan.Valid() && 0 <= i < |plan.lines| && 0 <= j < |plan.lines|
    requires plan.perColumn > 0
    requires plan.InBox(bitmapWidth, i, x, y) && plan.InBox(bitmapWidth, j, x, y)
    ensures i == j
  {
    BoxSlots(plan, bitmapWidth, i, x, y);
    BoxSlots(plan, bitmapWidth, j, x, y);
    SameSlot(plan.Lane(i), plan.Lane(j), plan.columnWidth + BITMAP_LEGEND_GAP, x - bitmapWidth - BITMAP_LEGEND_GAP);
    SameSlot(plan.Rank(i), plan.Rank(j), LINE_STEP, y - LEGEND_PAD);
    LaneRank(i, plan.perColumn, plan.columns);
    LaneRank(j, plan.perColumn, plan.columns);
  }

  /** The slots of lanes and ranks a box keeps to. */
  lemma BoxSlots(plan: Plan, bitmapWidth: int, i: int, x: int, y: int)
    requires plan.Valid() && 0 <= i < |plan.lines| && plan.perColumn > 0 && plan.InBox(bitmapWidth, i, x, y)
    ensures InSlot(plan.Lane(i), plan.columnWidth + BITMAP_LEGEND_GAP, x - bitmapWidth - BITMAP_LEGEND_GAP)
    ensures InSlot(plan.Rank(i), LINE_STEP, y - LEGEND_PAD)
  {
    BoxInside(plan, bitmapWidth, i);
  }

  predicate InSlot(slot: int, step: int, at: int) {
    slot * step <= at < slot * step + step
  }

  lemma SameSlot(a: int, b: int, step: int, at: int)
    requires InSlot(a, step, at) && InSlot(b, step, at)
    ensures a == b
  {
    Distribute(step, a, 1);
    Distribute(step, b, 1);
    if a < b {
      MulMonotone(a + 1, b, step);
    } else if b < a {
      MulMonotone(b + 1, a, step);
    }
  }

  // ---- painting -----------------------------------------------------------

  /** The 5x7 font: whether `bit` of `row` of a character's pattern is inked. */
  type Font = (char, int, int) -> bool

  /** Whether a character inks the pixel `(dx, dy)` away from its top-left corner. */
  predicate GlyphLit(font: Font, c: char, dx: int, dy: int) {
    && 0 <= dx < 5 * FONT_SCALE && 0 <= dy < 7 * FONT_SCALE
    && font(c, dy / FONT_SCALE, dx / FONT_SCALE)
  }

  /** Whether a text inks the pixel `(dx, dy)` away from its top-left corner. */
  predicate Lit(font: Font, text: string, dx: int, dy: int) {
    && 0 <= dx < |text| * CHAR_ADVANCE
    && GlyphLit(font, text[dx / CHAR_ADVANCE], dx % CHAR_ADVANCE, dy)
  }

  method DrawGlyphRow(pixels: array<Rgb>, width: int, height: int, x: int, y: int, c: char, row: int, font: Font,
                      ghost picture: (int, int) -> Rgb)
    returns (ghost shown: (int, int) -> Rgb)
    requires Shows(pixels[..], width, height, picture)
    requires 0 <= x && x + 5 * FONT_SCALE <= width && 0 <= y && y + FONT_SCALE <= height
    modifies pixels
    ensures Shows(pixels[..], width, height, shown)
    ensures forall u, v :: shown(u, v) ==
              if InRectangle(x, y, 5 * FONT_SCALE, FONT_SCALE, u, v) && font(c, row, (u - x) / FONT_SCALE)
              then INK else picture(u, v)
  {
    shown := picture;
    for bit := 0 to 5
      invariant Shows(pixels[..], width, height, shown)
      invariant forall u, v :: shown(u, v) ==
                  if InRectangle(x, y, bit * FONT_SCALE, FONT_SCALE, u, v) && font(c, row, (u - x) / FONT_SCALE)
                  then INK else picture(u, v)
    {
      ghost var before := shown;
      if font(c, row, bit) {
        shown := Rectangle(pixels, width, height, x + bit * FONT_SCALE, y, FONT_SCALE, FONT_SCALE, INK, shown);
      }
      forall u, v
        ensures shown(u, v) ==
                  if InRectangle(x, y, (bit + 1) * FONT_SCALE, FONT_SCALE, u, v) && font(c, row, (u - x) / FONT_SCALE)
                  then INK else picture(u, v)
      {
        if InRectangle(x + bit * FONT_SCALE, y, FONT_SCALE, FONT_SCALE, u, v) {
          assert (u - x) / FONT_SCALE == bit;
        }
      }
    }
  }

  /** A glyph's ink above row `row` and in it. */
  lemma LitRow(font: Font, c: char, row: nat, x: int, y: int, u: int, v: int)
    requires row < 7
    ensures v - y < (row + 1) * FONT_SCALE && GlyphLit(font, c, u - x, v - y) <==>
      || (v - y < row * FONT_SCALE && GlyphLit(font, c, u - x, v - y))
      || (InRectangle(x, y + row * FONT_SCALE, 5 * FONT_SCALE, FONT_SCALE, u, v) && font(c, row, (u - x) / FONT_SCALE))
  {}

  method DrawGlyph(pixels: array<Rgb>, width: int, height: int, x: int, y: int, c: char, font: Font,
                   ghost picture: (int, int) -> Rgb)
    returns (ghost shown: (int, int) -> Rgb)
    requires Shows(pixels[..], width, height, picture)
    requires 0 <= x && x + 5 * FONT_SCALE <= width && 0 <= y && y + 7 * FONT_SCALE <= height
    modifies pixels
    ensures Shows(pixels[..], width, height, shown)
    ensures forall u, v :: shown(u, v) == if GlyphLit(font, c, u - x, v - y) then INK else picture(u, v)
  {
    shown := picture;
    for row := 0 to 7
      invariant Shows(pixels[..], width, height, shown)
      invariant forall u, v :: shown(u, v) ==
                  if v - y < row * FONT_SCALE && GlyphLit(font, c, u - x, v - y) then INK else picture(u, v)
    {
      ghost var before := shown;
      shown := DrawGlyphRow(pixels, width, height, x, y + row * FONT_SCALE, c, row, font, shown);
      forall u, v
        ensures shown(u, v) ==
                  if v - y < (row + 1) * FONT_SCALE && GlyphLit(font, c, u - x, v - y) then INK else picture(u, v)
      {
        LitRow(font, c, row, x, y, u, v);
      }
    }
  }

  lemma LitInside(font: Font, text: string, dx: int, dy: int)
    ensures Lit(font, text, dx, dy) ==> 0 <= dx < |text| * CHAR_ADVANCE
  {}

  /** A text's ink up to column `column` and in it. */
  lemma LitColumn(font: Font, text: string, column: nat, dx: int, dy: int)
    requires column < |text|
    ensures dx < (column + 1) * CHAR_ADVANCE && Lit(font, text, dx, dy) <==>
      || (dx < column * CHAR_ADVANCE && Lit(font, text, dx, dy))
      || GlyphLit(font, text[column], dx - column * CHAR_ADVANCE, dy)
  {
    if column * CHAR_ADVANCE <= dx < (column + 1) * CHAR_ADVANCE {
      DivModUnique(dx, CHAR_ADVANCE, column, dx - column * CHAR_ADVANCE);
    }
  }

  method DrawText(pixels: array<Rgb>, width: int, height: int, x: int, y: int, text: string, font: Font,
                  ghost picture: (int, int) -> Rgb)
    returns (ghost shown: (int, int) -> Rgb)
    requires Shows(pixels[..], width, height, picture)
    requires 0 <= x && x + |text| * CHAR_ADVANCE <= width && 0 <= y && y + 7 * FONT_SCALE <= height
    modifies pixels
    ensures Shows(pixels[..], width, height, shown)
    ensures forall u, v :: shown(u, v) == if Lit(font, text, u - x, v - y) then INK else picture(u, v)
  {
    hide Lit, GlyphLit;
    shown := picture;
    forall u, v
      ensures picture(u, v) == if u - x < 0 && Lit(font, text, u - x, v - y) then INK else picture(u, v)
    {
      LitInside(font, text, u - x, v - y);
    }
    for column := 0 to |text|
      invariant Shows(pixels[..], width, height, shown)
      invariant forall u, v :: shown(u, v) ==
                  if u - x < column * CHAR_ADVANCE && Lit(font, text, u - x, v - y) then INK else picture(u, v)
    {
      ghost var before := shown;
      shown := DrawGlyph(pixels, width, height, x + column * CHAR_ADVANCE, y, text[column], font, shown);
      forall u, v
        ensures shown(u, v) ==
                  if u - x < (column + 1) * CHAR_ADVANCE && Lit(font, text, u - x, v - y) then INK else picture(u, v)
      {
        LitColumn(font, text, column, u - x, v - y);
        assert u - (x + column * CHAR_ADVANCE) == u - x - column * CHAR_ADVANCE;
      }
    }
    forall u, v ensures shown(u, v) == if Lit(font, text, u - x, v - y) then INK else picture(u, v) {
      LitInside(font, text, u - x, v - y);
    }
  }

  /** The bitmap a painter starts from. */
  ghost predicate IsBitmap(rgb: seq<Rgb>, width: int, height: int) {
    width >= 0 && height >= 0 && |rgb| == width * height
  }

  /** One row of the bitmap, copied to row `row + top` of the canvas. */
  method BlitRow(pixels: array<Rgb>, outWidth: int, outHeight: int, rgb: seq<Rgb>, width: int, height: int, row: int,
                 top: int, ghost before: (int, int) -> Rgb)
    returns (ghost picture: (int, int) -> Rgb)
    requires IsBitmap(rgb, width, height) && width <= outWidth && 0 <= row < height && 0 <= row + top < outHeight
    requires Shows(pixels[..], outWidth, outHeight, before)
    modifies pixels
    ensures Shows(pixels[..], outWidth, outHeight, picture)
    ensures forall u, v :: picture(u, v) ==
              if v == row + top && 0 <= u < width && 0 <= At(width, u, row) < |rgb| then rgb[At(width, u, row)]
              else before(u, v)
  {
    hide Shows;
    forall x | 0 <= x < width ensures 0 <= At(width, x, row) < |rgb| {
      AtInRange(width, height, x, row);
    }
    picture := before;
    for x := 0 to width
      invariant Shows(pixels[..], outWidth, outHeight, picture)
      invariant forall u, v :: picture(u, v) ==
                  if v == row + top && 0 <= u < x && 0 <= At(width, u, row) < |rgb| then rgb[At(width, u, row)]
                  else before(u, v)
    {
      picture := FillRow(pixels, outWidth, outHeight, x, row + top, 1, rgb[At(width, x, row)], picture);
    }
  }

  /** A white canvas with the bitmap blitted at row `top`, left aligned. */
  method Blit(rgb: seq<Rgb>, width: int, height: int, outWidth: int, outHeight: int, top: int)
    returns (pixels: array<Rgb>, ghost picture: (int, int) -> Rgb)
    requires IsBitmap(rgb, width, height) && width <= outWidth && 0 <= top && top + height <= outHeight
    ensures fresh(pixels)
    ensures Shows(pixels[..], outWidth, outHeight, picture)
    ensures forall x, y :: Inside(width, height, x, y) ==>
              0 <= At(width, x, y) < |rgb| && picture(x, y + top) == rgb[At(width, x, y)]
    ensures forall x, y :: !Inside(width, height, x, y - top) ==> picture(x, y) == WHITE
  {
    MulNonNegative(outWidth, outHeight);
    var size := outWidth * outHeight;
    pixels := new Rgb[size](_ => WHITE);
    picture := (x, y) => WHITE;
    forall x, y | Inside(outWidth, outHeight, x, y) ensures 0 <= At(outWidth, x, y) < size {
      AtInRange(outWidth, outHeight, x, y);
    }
    assert Shows(pixels[..], outWidth, outHeight, picture);
    hide Shows, At;
    for row := 0 to height
      invariant Shows(pixels[..], outWidth, outHeight, picture)
      invariant forall x, y :: Inside(width, row, x, y) ==>
                  0 <= At(width, x, y) < |rgb| && picture(x, y + top) == rgb[At(width, x, y)]
      invariant forall x, y :: !Inside(width, row, x, y - top) ==> picture(x, y) == WHITE
    {
      forall x | 0 <= x < width ensures 0 <= At(width, x, row) < |rgb| {
        AtInRange(width, height, x, row);
      }
      picture := BlitRow(pixels, outWidth, outHeight, rgb, width, height, row, top, picture);
    }
  }

  /** What the canvas must show in line `i`'s box. */
  function BoxPixel(plan: Plan, font: Font, bitmapWidth: int, i: int, x: int, y: int): Rgb
    requires plan.perColumn > 0 && 0 <= i < |plan.lines|
  {
    var dx, dy := x - plan.LaneX(bitmapWidth, i) - LEGEND_PAD, y - plan.LineY(i);
    if dx < SWATCH_W then plan.lines[i].colour
    else if Lit(font, plan.lines[i].text, dx - TEXT_OFFSET, dy) then INK
    else WHITE
  }

  ghost predicate InBoxes(plan: Plan, width: int, painted: int, x: int, y: int)
    requires 0 <= painted <= |plan.lines| && (painted > 0 ==> plan.perColumn > 0)
  {
    exists i :: 0 <= i < painted && plan.InBox(width, i, x, y)
  }

  /** The finished canvas: the bitmap top left, each line in its own box, white elsewhere. */
  ghost predicate LegendPicture(picture: (int, int) -> Rgb, plan: Plan, font: Font,
                                rgb: seq<Rgb>, width: int, height: int, painted: int)
    requires 0 <= painted <= |plan.lines|
  {
    && (painted > 0 ==> plan.perColumn > 0)
    && (forall x, y :: Inside(width, height, x, y) ==>
          0 <= At(width, x, y) < |rgb| && picture(x, y) == rgb[At(width, x, y)])
    && (forall i, x, y :: 0 <= i < painted && plan.InBox(width, i, x, y) ==>
          picture(x, y) == BoxPixel(plan, font, width, i, x, y))
    && (forall x, y :: !Inside(width, height, x, y) && !InBoxes(plan, width, painted, x, y) ==>
          picture(x, y) == WHITE)
  }

  method DrawLine(pixels: array<Rgb>, outWidth: int, outHeight: int, width: int, ghost height: int,
                  plan: Plan, i: int, font: Font, ghost rgb: seq<Rgb>, ghost picture: (int, int) -> Rgb)
    returns (ghost shown: (int, int) -> Rgb)
    requires plan.Valid() && 0 <= i < |plan.lines| && width >= 0
    requires outWidth == width + BITMAP_LEGEND_GAP + plan.width && outHeight >= plan.height
    requires Shows(pixels[..], outWidth, outHeight, picture)
    requires LegendPicture(picture, plan, font, rgb, width, height, i)
    modifies pixels
    ensures Shows(pixels[..], outWidth, outHeight, shown)
    ensures LegendPicture(shown, plan, font, rgb, width, height, i + 1)
  {
    BoxInside(plan, width, i);
    var lane, rank := i / plan.perColumn, i % plan.perColumn;
    var baseX := width + BITMAP_LEGEND_GAP + lane * (plan.columnWidth + BITMAP_LEGEND_GAP);
    var y := LEGEND_PAD + rank * LINE_STEP;
    var entry := plan.lines[i];
    shown := Rectangle(pixels, outWidth, outHeight, baseX + LEGEND_PAD, y, SWATCH_W, SWATCH_H, entry.colour, picture);
    shown := DrawText(pixels, outWidth, outHeight, baseX + LEGEND_PAD + TEXT_OFFSET, y, entry.text, font, shown);
    LineAdded(plan, font, rgb, width, height, i, picture, shown);
  }

  method AppendLegend(rgb: seq<Rgb>, width: int, height: int, entries: seq<Entry>,
                      usedHeight: Option<int>, maxPx: int, font: Font)
    returns (out: seq<Rgb>, outWidth: int, outHeight: int, plan: Plan, ghost picture: (int, int) -> Rgb)
    requires IsBitmap(rgb, width, height)
    ensures entries == [] ==> out == rgb && outWidth == width && outHeight == height
    ensures entries != [] ==>
      && plan.Valid() && InkAll(Texts(plan.lines)) == InkAll(Texts(entries))
      && plan == PlanOf(entries, width, if usedHeight.None? then height else usedHeight.value, maxPx)
      && outWidth == width + BITMAP_LEGEND_GAP + plan.width && outHeight == Max(height, plan.height)
      && Shows(out, outWidth, outHeight, picture)
      && LegendPicture(picture, plan, font, rgb, width, height, |plan.lines|)
  {
    hide PlanOf, InkAll, Texts;
    plan := Plan([], 1, 0, 0, 0, 0);
    picture := (x, y) => WHITE;
    if entries == [] {
      return rgb, width, height, plan, picture;
    }
    var used := if usedHeight.None? then height else usedHeight.value;
    plan := MakePlan(entries, width, used, maxPx);
    outWidth := width + BITMAP_LEGEND_GAP + plan.width;
    outHeight := Max(height, plan.height);
    var pixels: array<Rgb>;
    pixels, picture := Blit(rgb, width, height, outWidth, outHeight, 0);
    assert forall x, y :: Inside(width, height, x, y) ==> picture(x, y + 0) == picture(x, y);
    for i := 0 to |plan.lines|
      invariant Shows(pixels[..], outWidth, outHeight, picture)
      invariant LegendPicture(picture, plan, font, rgb, width, height, i)
    {
      picture := DrawLine(pixels, outWidth, outHeight, width, height, plan, i, font, rgb, picture);
    }
    out := pixels[..];
  }

  /** Painting one line extends the picture by exactly its box. */
  lemma LineAdded(plan: Plan, font: Font, rgb: seq<Rgb>, width: int, height: int, i: int,
                  before: (int, int) -> Rgb, after: (int, int) -> Rgb)
    requires plan.Valid() && 0 <= i < |plan.lines| && plan.perColumn > 0
    requires LegendPicture(before, plan, font, rgb, width, height, i)
    requires var x0, y0 := plan.LaneX(width, i) + LEGEND_PAD, plan.LineY(i);
             forall u, v :: after(u, v) ==
               if Lit(font, plan.lines[i].text, u - (x0 + TEXT_OFFSET), v - y0) then INK
               else if InRectangle(x0, y0, SWATCH_W, SWATCH_H, u, v) then plan.lines[i].colour
               else before(u, v)
    ensures LegendPicture(after, plan, font, rgb, width, height, i + 1)
  {
    BoxInside(plan, width, i);
    assert forall u, v :: !plan.InBox(width, i, u, v) ==> after(u, v) == before(u, v);
    forall x, y | plan.InBox(width, i, x, y) ensures after(x, y) == BoxPixel(plan, font, width, i, x, y) {
      if InBoxes(plan, width, i, x, y) {
        var j :| 0 <= j < i && plan.InBox(width, j, x, y);
        BoxesDisjoint(plan, width, i, j, x, y);
      }
      assert before(x, y) == WHITE;
    }
    forall j, x, y | 0 <= j < i && plan.InBox(width, j, x, y)
      ensures after(x, y) == BoxPixel(plan, font, width, j, x, y)
    {
      if plan.InBox(width, i, x, y) {
        BoxesDisjoint(plan, width, i, j, x, y);
      }
    }
    forall x, y | !Inside(width, height, x, y) && !InBoxes(plan, width, i + 1, x, y) ensures after(x, y) == WHITE {
      assert !plan.InBox(width, i, x, y);
      assert !InBoxes(plan, width, i, x, y);
    }
  }

  /** Both endpoint labels over the strips, the bitmap between them. */
  ghost predicate EndpointPicture(picture: (int, int) -> Rgb, rgb: seq<Rgb>, width: int, height: int,
                                  start: string, end: string, font: Font) {
    && (forall x, y :: Inside(width, height, x, y) ==>
          0 <= At(width, x, y) < |rgb| && picture(x, y + STRIP_H) == rgb[At(width, x, y)])
    && (forall x, y :: !Inside(width, height, x, y - STRIP_H) ==>
          picture(x, y) == if Lit(font, end, x - LEGEND_PAD, y - (STRIP_H + height + STRIP_PAD))
                           || Lit(font, start, x - LEGEND_PAD, y - STRIP_PAD) then INK else WHITE)
  }

  lemma LabelsAdded(blitted: (int, int) -> Rgb, labelled: (int, int) -> Rgb, picture: (int, int) -> Rgb,
                    rgb: seq<Rgb>, width: int, height: int, start: string, end: string, font: Font)
    requires height > 0
    requires forall x, y :: Inside(width, height, x, y) ==>
               0 <= At(width, x, y) < |rgb| && blitted(x, y + STRIP_H) == rgb[At(width, x, y)]
    requires forall x, y :: !Inside(width, height, x, y - STRIP_H) ==> blitted(x, y) == WHITE
    requires forall u, v :: labelled(u, v) ==
               if Lit(font, start, u - LEGEND_PAD, v - STRIP_PAD) then INK else blitted(u, v)
    requires forall u, v :: picture(u, v) ==
               if Lit(font, end, u - LEGEND_PAD, v - (STRIP_H + height + STRIP_PAD)) then INK else labelled(u, v)
    ensures EndpointPicture(picture, rgb, width, height, start, end, font)
  {}

  /** Endpoint labels in strips above and below: the bitmap survives one strip
      down, both labels are fully inside the widened canvas. */
  method AppendEndpointLabels(rgb: seq<Rgb>, width: int, height: int, start: string, end: string, font: Font)
    returns (out: seq<Rgb>, outWidth: int, outHeight: int, ghost picture: (int, int) -> Rgb)
    requires width >= 0 && (height > 0 ==> IsBitmap(rgb, width, height))
    ensures height <= 0 ==> out == rgb && outWidth == width && outHeight == height
    ensures height > 0 ==>
      && outHeight == height + 2 * STRIP_H
      && outWidth == Max(width, LEGEND_PAD + Max(|start|, |end|) * CHAR_ADVANCE + LEGEND_PAD)
      && Shows(out, outWidth, outHeight, picture)
      && EndpointPicture(picture, rgb, width, height, start, end, font)
  {
    picture := (x, y) => WHITE;
    if height <= 0 {
      return rgb, width, height, picture;
    }
    outWidth := Max(width, LEGEND_PAD + Max(|start|, |end|) * CHAR_ADVANCE + LEGEND_PAD);
    outHeight := height + 2 * STRIP_H;
    var pixels: array<Rgb>;
    ghost var blitted, labelled;
    pixels, blitted := Blit(rgb, width, height, outWidth, outHeight, STRIP_H);
    labelled := DrawText(pixels, outWidth, outHeight, LEGEND_PAD, STRIP_PAD, start, font, blitted);
    picture := DrawText(pixels, outWidth, outHeight, LEGEND_PAD, STRIP_H + height + STRIP_PAD, end, font, labelled);
    LabelsAdded(blitted, labelled, picture, rgb, width, height, start, end, font);
    out := pixels[..];
  }
}
