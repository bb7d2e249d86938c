/** Fixed-width tables: natural widths, greedy shrinking of elastic columns, and
    the rendered lines (gdr/formatting.py). */
module TableFit {
  import opened Arith
  import opened Common

  const COLUMN_GAP := 2
  const MIN_ELASTIC_COLUMN_WIDTH := 5
  const TRUNCATION_SUFFIX := ".."

  function TotalWidth(widths: seq<int>): int {
    Sum(widths) + COLUMN_GAP * (|widths| - 1)
  }

  // ---- natural widths -----------------------------------------------------------------

  function Lengths(headers: seq<string>): (r: seq<int>)
    ensures |r| == |headers| && forall i :: 0 <= i < |r| ==> r[i] == |headers[i]|
  {
    seq(|headers|, i requires 0 <= i < |headers| => |headers[i]|)
  }

  /** Each column is as wide as its header and every cell under it, and no wider.
      Cells past the last header have no column. */
  ghost predicate IsNatural(widths: seq<int>, rows: seq<seq<string>>, headers: seq<string>) {
    && |widths| == |headers|
    && (forall i :: 0 <= i < |widths| ==> widths[i] >= |headers[i]|)
    && (forall r, i :: 0 <= r < |rows| && 0 <= i < |rows[r]| && i < |widths| ==> widths[i] >= |rows[r][i]|)
    && (forall i :: 0 <= i < |widths| ==> Attained(widths[i], rows, headers[i], i))
  }

  ghost predicate Attained(width: int, rows: seq<seq<string>>, header: string, i: nat) {
    width == |header| || exists r :: 0 <= r < |rows| && i < |rows[r]| && |rows[r][i]| == width
  }

  lemma AttainedGrows(width: int, rows: seq<seq<string>>, n: nat, header: string, i: nat)
    requires n < |rows| && Attained(width, rows[..n], header, i)
    ensures Attained(width, rows[..n + 1], header, i)
  {
    if width != |header| {
      var r :| 0 <= r < n && i < |rows[r]| && |rows[r][i]| == width;
      assert rows[..n + 1][r] == rows[r];
    }
  }

  method NaturalWidths(rows: seq<seq<string>>, headers: seq<string>) returns (widths: seq<int>)
    ensures IsNatural(widths, rows, headers)
  {
    widths := Lengths(headers);
    for r := 0 to |rows|
      invariant IsNatural(widths, rows[..r], headers)
    {
      ghost var before := widths;
      for index := 0 to |rows[r]|
        invariant |widths| == |headers|
        invariant forall i :: 0 <= i < |widths| ==> widths[i] >= before[i]
        invariant forall i :: 0 <= i < index && i < |widths| ==> widths[i] >= |rows[r][i]|
        invariant forall i :: 0 <= i < |widths| ==>
          widths[i] == before[i] || (i < |rows[r]| && |rows[r][i]| == widths[i])
      {
        if index < |widths| {
          widths := widths[index := Max(widths[index], |rows[r][index]|)];
        }
      }
      forall i | 0 <= i < |widths| ensures Attained(widths[i], rows[..r + 1], headers[i], i) {
        if widths[i] == before[i] {
          AttainedGrows(before[i], rows, r, headers[i], i);
        } else {
          assert rows[..r + 1][r] == rows[r];
        }
      }
      assert rows[..r + 1] == rows[..r] + [rows[r]];
    }
    assert rows[..|rows|] == rows;
  }

  // ---- the columns as the shrinker sees them -----------------------------------------------

  datatype Column = Rigid(natural: int) | Elastic(natural: int, minimum: int, priority: nat)

  /** Where `header` first stands in `elastic`, or its length when it does not. */
  function IndexOf(elastic: seq<string>, header: string): (i: nat)
    ensures i <= |elastic| && (i < |elastic| <==> header in elastic)
    ensures i < |elastic| ==> elastic[i] == header
  {
    if elastic == [] then 0 else if elastic[0] == header then 0 else 1 + IndexOf(elastic[1..], header)
  }

  function ColumnOf(natural: int, header: string, elastic: seq<string>): Column {
    if header in elastic then Elastic(natural, Max(|header|, MIN_ELASTIC_COLUMN_WIDTH), IndexOf(elastic, header))
    else Rigid(natural)
  }

  function Columns(natural: seq<int>, headers: seq<string>, elastic: seq<string>): (columns: seq<Column>)
    requires |natural| == |headers|
    ensures |columns| == |natural|
    ensures forall i :: 0 <= i < |columns| ==> columns[i] == ColumnOf(natural[i], headers[i], elastic)
  {
    seq(|natural|, i requires 0 <= i < |natural| => ColumnOf(natural[i], headers[i], elastic))
  }

  function Slack(column: Column): (r: int)
    ensures r >= 0
  {
    if column.Rigid? then 0 else Max(0, column.natural - column.minimum)
  }

  /** Room left above a column's minimum at its present width. */
  predicate Eligible(column: Column, width: int) {
    column.Elastic? && width > column.minimum
  }

  predicate GaveWay(column: Column, width: int) {
    column.Elastic? && width < column.natural
  }

  function MinimumWidths(columns: seq<Column>): (r: seq<int>)
    ensures |r| == |columns|
    ensures forall i :: 0 <= i < |r| ==> r[i] == columns[i].natural - Slack(columns[i])
  {
    seq(|columns|, i requires 0 <= i < |columns| =>
      if columns[i].Rigid? then columns[i].natural else Min(columns[i].natural, columns[i].minimum))
  }

  function Naturals(columns: seq<Column>): (r: seq<int>)
    ensures |r| == |columns|
    ensures forall i :: 0 <= i < |r| ==> r[i] == columns[i].natural
  {
    seq(|columns|, i requires 0 <= i < |columns| => columns[i].natural)
  }

  // ---- the shrink order ----------------------------------------------------------------------

  /** Column `i` is shrunk before column `j`: earlier in the elastic list, then
      wider, then further left. */
  predicate Before(columns: seq<Column>, widths: seq<int>, i: nat, j: nat)
    requires i < |columns| == |widths| && j < |columns| && columns[i].Elastic? && columns[j].Elastic?
  {
    || columns[i].priority < columns[j].priority
    || (columns[i].priority == columns[j].priority
        && (widths[i] > widths[j] || (widths[i] == widths[j] && i < j)))
  }

  function NextAmong(columns: seq<Column>, widths: seq<int>, n: nat): (next: Option<nat>)
    requires n <= |columns| == |widths|
    ensures next.Some? ==> next.value < n && Eligible(columns[next.value], widths[next.value])
  {
    if n == 0 then None
    else
      var best := NextAmong(columns, widths, n - 1);
      if !Eligible(columns[n - 1], widths[n - 1]) then best
      else if best.Some? && Before(columns, widths, best.value, n - 1) then best
      else Some(n - 1)
  }

  function NextShrink(columns: seq<Column>, widths: seq<int>): Option<nat>
    requires |columns| == |widths|
  {
    NextAmong(columns, widths, |columns|)
  }

  lemma {:induction false} NextAmongMeans(columns: seq<Column>, widths: seq<int>, n: nat)
    requires n <= |columns| == |widths|
    ensures var next := NextAmong(columns, widths, n);
            forall j :: 0 <= j < n && Eligible(columns[j], widths[j]) ==>
              next.Some? && (j == next.value || Before(columns, widths, next.value, j))
  {
    if n > 0 {
      NextAmongMeans(columns, widths, n - 1);
    }
  }

  /** The chosen column comes before every other one that can still give way, and
      none is chosen only when none can. */
  lemma NextShrinkMeans(columns: seq<Column>, widths: seq<int>)
    requires |columns| == |widths|
    ensures var next := NextShrink(columns, widths);
            forall j :: 0 <= j < |columns| && Eligible(columns[j], widths[j]) ==>
              next.Some? && (j == next.value || Before(columns, widths, next.value, j))
  {
    NextAmongMeans(columns, widths, |columns|);
  }

  // ---- the greedy loop -------------------------------------------------------------------------

  ghost predicate WithinLimits(columns: seq<Column>, widths: seq<int>) {
    && |columns| == |widths|
    && forall i :: 0 <= i < |columns| ==> columns[i].natural - Slack(columns[i]) <= widths[i] <= columns[i].natural
  }

  /** A column gives way only once every column earlier in the elastic list is
      at its minimum. */
  ghost predicate EarlierFirst(columns: seq<Column>, widths: seq<int>)
    requires |columns| == |widths|
  {
    forall i, j :: 0 <= i < |columns| && 0 <= j < |columns| && GaveWay(columns[i], widths[i])
                   && columns[j].Elastic? && columns[j].priority < columns[i].priority ==>
      !Eligible(columns[j], widths[j])
  }

  /** Columns sharing a place in the list are levelled from the widest down,
      left to right. */
  ghost predicate Levelled(columns: seq<Column>, widths: seq<int>)
    requires |columns| == |widths|
  {
    forall i, j :: 0 <= i < |columns| && 0 <= j < |columns| && GaveWay(columns[i], widths[i])
                   && Eligible(columns[j], widths[j]) && columns[j].priority == columns[i].priority ==>
      widths[j] <= widths[i] + (if j < i then 0 else 1)
  }

  ghost predicate GreedyState(columns: seq<Column>, widths: seq<int>) {
    WithinLimits(columns, widths) && EarlierFirst(columns, widths) && Levelled(columns, widths)
  }

  lemma ShrinkKeepsLimits(columns: seq<Column>, widths: seq<int>, next: nat)
    requires WithinLimits(columns, widths) && next < |columns| && Eligible(columns[next], widths[next])
    ensures WithinLimits(columns, widths[next := widths[next] - 1])
  {}

  lemma ShrinkKeepsOrder(columns: seq<Column>, widths: seq<int>, next: nat)
    requires GreedyState(columns, widths) && NextShrink(columns, widths) == Some(next)
    ensures EarlierFirst(columns, widths[next := widths[next] - 1])
  {
    NextShrinkMeans(columns, widths);
  }

  lemma ShrinkKeepsLevel(columns: seq<Column>, widths: seq<int>, next: nat)
    requires GreedyState(columns, widths) && NextShrink(columns, widths) == Some(next)
    ensures Levelled(columns, widths[next := widths[next] - 1])
  {
    NextShrinkMeans(columns, widths);
  }

  lemma {:induction false} SumOfEqual(s: seq<int>, t: seq<int>)
    requires |s| == |t| && forall i :: 0 <= i < |s| ==> s[i] == t[i]
    ensures Sum(s) == Sum(t)
  {
    assert s == t;
  }

  /** Nothing can give way only when every column is at its minimum. */
  lemma NoneEligibleIsMinimum(columns: seq<Column>, widths: seq<int>)
    requires WithinLimits(columns, widths) && NextShrink(columns, widths).None?
    ensures TotalWidth(widths) == TotalWidth(MinimumWidths(columns))
  {
    NextShrinkMeans(columns, widths);
    forall i | 0 <= i < |columns| ensures widths[i] == MinimumWidths(columns)[i] {
      assert !Eligible(columns[i], widths[i]);
    }
    SumOfEqual(widths, MinimumWidths(columns));
  }

  lemma NaturalIsGreedy(natural: seq<int>, headers: seq<string>, elastic: seq<string>)
    requires |natural| == |headers|
    ensures GreedyState(Columns(natural, headers, elastic), natural)
  {}

  lemma ShrinkStep(columns: seq<Column>, widths: seq<int>, next: nat)
    requires GreedyState(columns, widths) && NextShrink(columns, widths) == Some(next)
    ensures GreedyState(columns, widths[next := widths[next] - 1])
    ensures TotalWidth(widths[next := widths[next] - 1]) == TotalWidth(widths) - 1
  {
    ShrinkKeepsLimits(columns, widths, next);
    ShrinkKeepsOrder(columns, widths, next);
    ShrinkKeepsLevel(columns, widths, next);
    SumUpdate(widths, next, widths[next] - 1);
  }

  /** Shrinks the elastic columns until the table fits. Refused exactly when the
      minimum widths do not fit; otherwise the widths come down to the target
      exactly, or stay natural when those already fit. */
  method ShrinkToFit(natural: seq<int>, headers: seq<string>, elastic: seq<string>, width: int)
    returns (fitted: Option<seq<int>>)
    requires |natural| == |headers|
    ensures fitted.None? <==> TotalWidth(MinimumWidths(Columns(natural, headers, elastic))) > width
    ensures fitted.Some? ==> GreedyState(Columns(natural, headers, elastic), fitted.value)
    ensures fitted.Some? && TotalWidth(natural) <= width ==> fitted.value == natural
    ensures fitted.Some? && TotalWidth(natural) > width ==> TotalWidth(fitted.value) == width
  {
    var columns := Columns(natural, headers, elastic);
    var widths := natural;
    var minimum := TotalWidth(MinimumWidths(columns));
    if minimum > width {
      return None;
    }
    NaturalIsGreedy(natural, headers, elastic);
    while TotalWidth(widths) > width
      invariant GreedyState(columns, widths)
      invariant widths == natural || TotalWidth(widths) >= width
      invariant TotalWidth(natural) <= width ==> widths == natural
      decreases TotalWidth(widths) - width
    {
      var next := NextShrink(columns, widths);
      if next.None? {
        NoneEligibleIsMinimum(columns, widths);
        assert false;
      }
      ShrinkStep(columns, widths, next.value);
      widths := widths[next.value := widths[next.value] - 1];
    }
    fitted := Some(widths);
  }

  // ---- the closed form ---------------------------------------------------------------------------

  /** What the columns before place `p` of the elastic list can give at most. */
  function SlackBelow(columns: seq<Column>, p: int): (r: int)
    ensures r >= 0
  {
    if columns == [] then 0
    else
      var last := columns[|columns| - 1];
      SlackBelow(columns[..|columns| - 1], p) + (if last.Elastic? && last.priority < p then Slack(last) else 0)
  }

  /** What they did give. */
  function LostBelow(columns: seq<Column>, widths: seq<int>, p: int): int
    requires |columns| == |widths|
  {
    if columns == [] then 0
    else
      var n := |columns| - 1;
      var last := columns[n];
      LostBelow(columns[..n], widths[..n], p)
      + (if last.Elastic? && last.priority < p then last.natural - widths[n] else 0)
  }

  ghost predicate ExhaustedBelow(columns: seq<Column>, widths: seq<int>, p: int)
    requires |columns| == |widths|
  {
    forall i :: 0 <= i < |columns| && columns[i].Elastic? && columns[i].priority < p ==>
        !Eligible(columns[i], widths[i])
  }

  ghost predicate UntouchedFrom(columns: seq<Column>, widths: seq<int>, p: int)
    requires |columns| == |widths|
  {
    forall i :: 0 <= i < |columns| && columns[i].Elastic? && columns[i].priority >= p ==>
        widths[i] == columns[i].natural
  }

  lemma {:induction false} LostWithinSlack(columns: seq<Column>, widths: seq<int>, p: int)
    requires WithinLimits(columns, widths)
    ensures 0 <= LostBelow(columns, widths, p) <= SlackBelow(columns, p)
    ensures LostBelow(columns, widths, p) <= Sum(Naturals(columns)) - Sum(widths)
    ensures ExhaustedBelow(columns, widths, p) ==> LostBelow(columns, widths, p) == SlackBelow(columns, p)
    ensures UntouchedFrom(columns, widths, p) ==> LostBelow(columns, widths, p) == Sum(Naturals(columns)) - Sum(widths)
  {
    if columns != [] {
      var n := |columns| - 1;
      LostWithinSlack(columns[..n], widths[..n], p);
      assert Naturals(columns)[..n] == Naturals(columns[..n]);
    }
  }

  /** At every cut through the elastic list, the columns before it give all they
      have before any column after it gives anything. */
  lemma LostBeforeCut(columns: seq<Column>, widths: seq<int>, p: int)
    requires GreedyState(columns, widths)
    ensures LostBelow(columns, widths, p) == Min(Sum(Naturals(columns)) - Sum(widths), SlackBelow(columns, p))
  {
    hide LostBelow, SlackBelow, Sum, Naturals, ExhaustedBelow, UntouchedFrom;
    LostWithinSlack(columns, widths, p);
    EarlierExhausted(columns, widths, p);
  }

  lemma EarlierExhausted(columns: seq<Column>, widths: seq<int>, p: int)
    requires WithinLimits(columns, widths) && EarlierFirst(columns, widths)
    ensures ExhaustedBelow(columns, widths, p) || UntouchedFrom(columns, widths, p)
  {
    hide Slack;
    if !ExhaustedBelow(columns, widths, p) {
      var j :| 0 <= j < |columns| && columns[j].Elastic? && columns[j].priority < p && Eligible(columns[j], widths[j]);
      forall i | 0 <= i < |columns| && columns[i].Elastic? && columns[i].priority >= p
        ensures widths[i] == columns[i].natural
      {
        assert columns[j].priority < columns[i].priority;
      }
    }
  }

  ghost predicate DistinctPriorities(columns: seq<Column>) {
    forall i, j :: 0 <= i < j < |columns| && columns[i].Elastic? && columns[j].Elastic? ==>
      columns[i].priority != columns[j].priority
  }

  lemma {:induction false} OnePriorityStep(columns: seq<Column>, widths: seq<int>, c: nat)
    requires |columns| == |widths| && c < |columns| && columns[c].Elastic? && DistinctPriorities(columns)
    ensures var p := columns[c].priority;
            && SlackBelow(columns, p + 1) == SlackBelow(columns, p) + Slack(columns[c])
            && LostBelow(columns, widths, p + 1) == LostBelow(columns, widths, p) + columns[c].natural - widths[c]
  {
    var n := |columns| - 1;
    if c == n {
      NoSuchPriority(columns[..n], widths[..n], columns[c].priority);
    } else {
      OnePriorityStep(columns[..n], widths[..n], c);
    }
  }

  lemma {:induction false} NoSuchPriority(columns: seq<Column>, widths: seq<int>, p: nat)
    requires |columns| == |widths|
    requires forall i :: 0 <= i < |columns| && columns[i].Elastic? ==> columns[i].priority != p
    ensures SlackBelow(columns, p + 1) == SlackBelow(columns, p)
    ensures LostBelow(columns, widths, p + 1) == LostBelow(columns, widths, p)
  {
    if columns != [] {
      var n := |columns| - 1;
      NoSuchPriority(columns[..n], widths[..n], p);
    }
  }

  function Clamp(x: int, lo: int, hi: int): int {
    if x < lo then lo else if x > hi then hi else x
  }

  lemma HeadersGivePriorities(natural: seq<int>, headers: seq<string>, elastic: seq<string>)
    requires |natural| == |headers|
    requires forall i, j :: 0 <= i < j < |headers| ==> headers[i] != headers[j]
    ensures DistinctPriorities(Columns(natural, headers, elastic))
  {}

  /** With distinct headers the greedy loop has a closed form: each elastic column
      loses what of the deficit the columns before it could not absorb, up to its
      own slack; the other columns lose nothing. */
  lemma GreedyClosedForm(natural: seq<int>, headers: seq<string>, elastic: seq<string>, width: int, widths: seq<int>,
                         c: nat)
    requires |natural| == |headers| && c < |headers|
    requires forall i, j :: 0 <= i < j < |headers| ==> headers[i] != headers[j]
    requires GreedyState(Columns(natural, headers, elastic), widths)
    requires TotalWidth(natural) > width && TotalWidth(widths) == width
    ensures var columns := Columns(natural, headers, elastic);
            var deficit := TotalWidth(natural) - width;
            widths[c] == natural[c] -
              if headers[c] in elastic
              then Clamp(deficit - SlackBelow(columns, IndexOf(elastic, headers[c])), 0, Slack(columns[c]))
              else 0
  {
    hide Sum, SlackBelow;
    var columns := Columns(natural, headers, elastic);
    assert Naturals(columns) == natural;
    if headers[c] in elastic {
      var p := columns[c].priority;
      HeadersGivePriorities(natural, headers, elastic);
      OnePriorityStep(columns, widths, c);
      LostBeforeCut(columns, widths, p);
      LostBeforeCut(columns, widths, p + 1);
    }
  }

  // ---- rendering ------------------------------------------------------------------------------------

  function Repeat(c: char, n: int): (r: string)
    ensures |r| == Max(0, n) && forall i :: 0 <= i < |r| ==> r[i] == c
  {
    if n <= 0 then "" else seq(n, i => c)
  }

  /** `{:<width}`: left-aligned and padded, never cut. */
  function Pad(text: string, width: int): (r: string)
    ensures |r| == Max(|text|, width) && text <= r
    ensures forall i :: |text| <= i < |r| ==> r[i] == ' '
  {
    text + Repeat(' ', width - |text|)
  }

  function Prefix(text: string, end: int): (r: string)
    ensures end >= 0 ==> r == text[..Min(end, |text|)]
  {
    if end >= 0 then text[..Min(end, |text|)] else text[..Max(0, |text| + end)]
  }

  function TruncateCell(text: string, width: int): (r: string)
    ensures |text| <= width ==> r == text
    ensures |text| > width >= |TRUNCATION_SUFFIX| ==>
      |r| == width && r == text[..width - |TRUNCATION_SUFFIX|] + TRUNCATION_SUFFIX
  {
    if |text| <= width then text else Prefix(text, width - |TRUNCATION_SUFFIX|) + TRUNCATION_SUFFIX
  }

  /** One line: the padded cells with a gap between neighbours. */
  function LineOf(cells: seq<string>, widths: seq<int>): string
    requires |cells| == |widths|
  {
    if cells == [] then ""
    else
      var n := |cells| - 1;
      (if n == 0 then "" else LineOf(cells[..n], widths[..n]) + Repeat(' ', COLUMN_GAP)) + Pad(cells[n], widths[n])
  }

  /** Where column `c` begins on every line. */
  function ColumnStart(widths: seq<int>, c: nat): int
    requires c <= |widths|
  {
    Sum(widths[..c]) + COLUMN_GAP * c
  }

  /** Every cell stands in its own column, whatever the other cells say. */
  ghost predicate LaidOut(line: string, cells: seq<string>, widths: seq<int>)
    requires |cells| == |widths|
  {
    && |line| == TotalWidth(widths)
    && forall c :: 0 <= c < |cells| ==> ShowsCell(line, cells[c], ColumnStart(widths, c), widths[c])
  }

  ghost predicate Fits(cells: seq<string>, widths: seq<int>) {
    |cells| == |widths| && forall c :: 0 <= c < |cells| ==> |cells[c]| <= widths[c]
  }

  ghost predicate ShowsCell(line: string, cell: string, start: int, width: int) {
    0 <= start && 0 <= width && start + width <= |line| && line[start..start + width] == Pad(cell, width)
  }

  lemma {:induction false} LineLaidOut(cells: seq<string>, widths: seq<int>)
    requires Fits(cells, widths) && cells != []
    ensures LaidOut(LineOf(cells, widths), cells, widths)
  {
    var n := |cells| - 1;
    if n == 0 {
      assert LineOf(cells, widths) == Pad(cells[0], widths[0]);
      assert Pad(cells[0], widths[0])[0..widths[0]] == Pad(cells[0], widths[0]);
      assert widths[..0] == [];
    } else {
      LineLaidOut(cells[..n], widths[..n]);
      LineGrows(LineOf(cells[..n], widths[..n]), cells, widths);
    }
  }

  lemma LastCellShown(before: string, cell: string, width: int)
    requires |cell| <= width
    ensures |before + Pad(cell, width)| == |before| + width
    ensures ShowsCell(before + Pad(cell, width), cell, |before|, width)
  {
    assert (before + Pad(cell, width))[|before|..] == Pad(cell, width);
  }

  lemma LineGrows(front: string, cells: seq<string>, widths: seq<int>)
    requires |cells| == |widths| > 1 && |cells[|cells| - 1]| <= widths[|cells| - 1]
    requires LaidOut(front, cells[..|cells| - 1], widths[..|cells| - 1])
    ensures LaidOut(front + Repeat(' ', COLUMN_GAP) + Pad(cells[|cells| - 1], widths[|cells| - 1]), cells, widths)
  {
    hide Repeat, Pad, ShowsCell;
    var n := |cells| - 1;
    var gap, last := Repeat(' ', COLUMN_GAP), Pad(cells[n], widths[n]);
    assert front + gap + last == front + (gap + last);
    LastCellShown(front + gap, cells[n], widths[n]);
    assert |front + gap| == ColumnStart(widths, n);
    forall c | 0 <= c < n ensures ShowsCell(front + (gap + last), cells[c], ColumnStart(widths, c), widths[c]) {
      EarlierCellShown(front, gap + last, cells, widths, c);
    }
  }

  lemma EarlierCellShown(front: string, tail: string, cells: seq<string>, widths: seq<int>, c: nat)
    requires |cells| == |widths| > 1 && c < |cells| - 1
    requires LaidOut(front, cells[..|cells| - 1], widths[..|cells| - 1])
    ensures ShowsCell(front + tail, cells[c], ColumnStart(widths, c), widths[c])
  {
    var n := |cells| - 1;
    assert widths[..n][..c] == widths[..c];
    assert ShowsCell(front, cells[..n][c], ColumnStart(widths[..n], c), widths[..n][c]);
    ShownStill(front, tail, cells[c], ColumnStart(widths, c), widths[c]);
  }

  lemma ShownStill(front: string, rest: string, cell: string, start: int, width: int)
    requires ShowsCell(front, cell, start, width)
    ensures ShowsCell(front + rest, cell, start, width)
  {
    assert (front + rest)[start..start + width] == front[start..start + width];
  }

  /** The cells a row shows: short rows are filled with blanks, elastic columns
      are cut to their width, cells past the last header are ignored. */
  function ShownCells(row: seq<string>, headers: seq<string>, widths: seq<int>, elastic: seq<string>): (r: seq<string>)
    requires |widths| == |headers|
    ensures |r| == |headers|
  {
    seq(|headers|, i requires 0 <= i < |headers| =>
      var cell := if i < |row| then row[i] else "";
      if headers[i] in elastic then TruncateCell(cell, widths[i]) else cell)
  }

  function Rules(widths: seq<int>): (r: seq<string>)
    ensures |r| == |widths|
    ensures forall i :: 0 <= i < |r| ==> |r[i]| == Max(0, widths[i])
  {
    seq(|widths|, i requires 0 <= i < |widths| => Repeat('-', widths[i]))
  }

  /** Header line, rule line, then one line per row. */
  function TableLines(rows: seq<seq<string>>, headers: seq<string>, widths: seq<int>,
                      elastic: seq<string>): (r: seq<string>)
    requires |widths| == |headers|
    ensures |r| == 2 + |rows|
  {
    if rows == [] then [LineOf(headers, widths), LineOf(Rules(widths), widths)]
    else
      var n := |rows| - 1;
      TableLines(rows[..n], headers, widths, elastic) + [LineOf(ShownCells(rows[n], headers, widths, elastic), widths)]
  }

  function Terminated(lines: seq<string>): string {
    if lines == [] then "" else Terminated(lines[..|lines| - 1]) + lines[|lines| - 1] + "\n"
  }

  lemma TerminatedAppend(lines: seq<string>, line: string)
    ensures Terminated(lines + [line]) == Terminated(lines) + line + "\n"
  {
    assert (lines + [line])[..|lines|] == lines;
  }

  method RenderTable(rows: seq<seq<string>>, headers: seq<string>, widths: seq<int>, elastic: seq<string>)
    returns (output: string)
    requires |widths| == |headers|
    ensures output == Terminated(TableLines(rows, headers, widths, elastic))
  {
    output := LineOf(headers, widths) + "\n";
    output := output + LineOf(Rules(widths), widths) + "\n";
    TwoLines(LineOf(headers, widths), LineOf(Rules(widths), widths));
    for r := 0 to |rows|
      invariant output == Terminated(TableLines(rows[..r], headers, widths, elastic))
    {
      ghost var before := TableLines(rows[..r], headers, widths, elastic);
      var line := LineOf(ShownCells(rows[r], headers, widths, elastic), widths);
      output := output + line + "\n";
      assert rows[..r + 1][..r] == rows[..r];
      TerminatedAppend(before, line);
    }
    assert rows[..|rows|] == rows;
  }

  lemma TwoLines(first: string, second: string)
    ensures Terminated([first, second]) == first + "\n" + second + "\n"
  {
    TerminatedAppend([], first);
    TerminatedAppend([first], second);
    assert [] + [first] == [first] && [first] + [second] == [first, second];
  }

  // ---- the whole table ---------------------------------------------------------------------------------

  /** The widths hold the natural contents or, in an elastic column that gave
      way, leave room for a cut cell. */
  ghost predicate RoomFor(widths: seq<int>, natural: seq<int>, headers: seq<string>, elastic: seq<string>) {
    && |widths| == |natural| == |headers|
    && forall i :: 0 <= i < |widths| ==>
         widths[i] == natural[i] || (headers[i] in elastic && Max(|headers[i]|, MIN_ELASTIC_COLUMN_WIDTH) <= widths[i])
  }

  lemma ShrunkHasRoom(natural: seq<int>, headers: seq<string>, elastic: seq<string>, widths: seq<int>)
    requires |natural| == |headers| && WithinLimits(Columns(natural, headers, elastic), widths)
    ensures RoomFor(widths, natural, headers, elastic)
  {}

  lemma ShownCellsFit(row: seq<string>, rows: seq<seq<string>>, headers: seq<string>, natural: seq<int>,
                      widths: seq<int>, elastic: seq<string>)
    requires row in rows && IsNatural(natural, rows, headers) && RoomFor(widths, natural, headers, elastic)
    ensures Fits(ShownCells(row, headers, widths, elastic), widths)
  {}

  ghost predicate RowsFit(rows: seq<seq<string>>, headers: seq<string>, widths: seq<int>, elastic: seq<string>)
    requires |widths| == |headers|
  {
    forall r :: 0 <= r < |rows| ==> Fits(ShownCells(rows[r], headers, widths, elastic), widths)
  }

  lemma AllFits(rows: seq<seq<string>>, headers: seq<string>, natural: seq<int>, widths: seq<int>, elastic: seq<string>)
    requires IsNatural(natural, rows, headers) && RoomFor(widths, natural, headers, elastic)
    ensures Fits(headers, widths) && RowsFit(rows, headers, widths, elastic)
  {
    forall r | 0 <= r < |rows| ensures Fits(ShownCells(rows[r], headers, widths, elastic), widths) {
      ShownCellsFit(rows[r], rows, headers, natural, widths, elastic);
    }
  }

  /** Every line of the table has the same length and shows every cell in its
      own column. */
  ghost predicate Aligned(lines: seq<string>, rows: seq<seq<string>>, headers: seq<string>, widths: seq<int>,
                          elastic: seq<string>)
    requires |widths| == |headers| && |lines| == 2 + |rows|
  {
    && LaidOut(lines[0], headers, widths)
    && LaidOut(lines[1], Rules(widths), widths)
    && forall r :: 0 <= r < |rows| ==> LaidOut(lines[2 + r], ShownCells(rows[r], headers, widths, elastic), widths)
  }

  lemma {:induction false} LinesAligned(rows: seq<seq<string>>, headers: seq<string>, widths: seq<int>,
                                        elastic: seq<string>)
    requires |widths| == |headers| && headers != []
    requires Fits(headers, widths) && RowsFit(rows, headers, widths, elastic)
    ensures Aligned(TableLines(rows, headers, widths, elastic), rows, headers, widths, elastic)
  {
    hide Aligned, TableLines, LaidOut, LineOf, ShownCells, Fits;
    if rows == [] {
      NoneAligned(headers, widths, elastic);
    } else {
      var front, row := rows[..|rows| - 1], rows[|rows| - 1];
      LinesAligned(front, headers, widths, elastic);
      assert Fits(ShownCells(row, headers, widths, elastic), widths);
      LineLaidOut(ShownCells(row, headers, widths, elastic), widths);
      AlignedAppend(front, row, headers, widths, elastic);
      assert rows == front + [row];
    }
  }

  lemma NoneAligned(headers: seq<string>, widths: seq<int>, elastic: seq<string>)
    requires Fits(headers, widths) && headers != []
    ensures Aligned(TableLines([], headers, widths, elastic), [], headers, widths, elastic)
  {
    LineLaidOut(headers, widths);
    assert Fits(Rules(widths), widths);
    LineLaidOut(Rules(widths), widths);
  }

  lemma AlignedAppend(rows: seq<seq<string>>, row: seq<string>, headers: seq<string>, widths: seq<int>,
                      elastic: seq<string>)
    requires |widths| == |headers|
    requires Aligned(TableLines(rows, headers, widths, elastic), rows, headers, widths, elastic)
    requires var cells := ShownCells(row, headers, widths, elastic); LaidOut(LineOf(cells, widths), cells, widths)
    ensures Aligned(TableLines(rows + [row], headers, widths, elastic), rows + [row], headers, widths, elastic)
  {
    assert (rows + [row])[..|rows|] == rows;
  }

  lemma AlignedLengths(lines: seq<string>, rows: seq<seq<string>>, headers: seq<string>, widths: seq<int>,
                       elastic: seq<string>)
    requires |widths| == |headers| && |lines| == 2 + |rows| && Aligned(lines, rows, headers, widths, elastic)
    ensures forall line :: line in lines ==> |line| == TotalWidth(widths)
  {
    hide ShownCells, Rules;
    forall i | 0 <= i < |lines| ensures |lines[i]| == TotalWidth(widths) {
      if i >= 2 {
        assert LaidOut(lines[2 + (i - 2)], ShownCells(rows[i - 2], headers, widths, elastic), widths);
      }
    }
  }

  // ---- the characters of the table --------------------------------------------------------------------

  /** `text`, then blanks, fill the columns `[start, start + width)` of the line. */
  ghost predicate Holds(line: string, start: int, width: int, text: string) {
    && 0 <= start && |text| <= width && start + width <= |line|
    && line[start..start + |text|] == text
    && forall i :: start + |text| <= i < start + width ==> line[i] == ' '
  }

  /** A cell that fits its column stands there whole; only in an elastic column
      may one be longer, and it keeps what fits in front of two dots. */
  ghost predicate HoldsCell(line: string, start: int, width: int, cell: string, mayGive: bool) {
    if |cell| <= width then Holds(line, start, width, cell)
    else mayGive && width >= 2 && Holds(line, start, width, cell[..width - 2] + "..")
  }

  /** Two blanks follow column `c`. */
  ghost predicate GapAfter(line: string, widths: seq<int>, c: int)
    requires 0 <= c < |widths|
  {
    var at := ColumnStart(widths, c) + widths[c];
    0 <= at && at + 2 <= |line| && line[at] == line[at + 1] == ' '
  }

  /** Neighbouring columns stand two blanks apart. */
  ghost predicate Gapped(line: string, widths: seq<int>) {
    forall c :: 0 <= c < |widths| - 1 ==> GapAfter(line, widths, c)
  }

  /** A body line: each of the row's cells in its column, blanks past the row's end. */
  ghost predicate BodyLine(line: string, row: seq<string>, headers: seq<string>, widths: seq<int>, elastic: seq<string>)
    requires |widths| == |headers|
  {
    && Gapped(line, widths)
    && forall c :: 0 <= c < |headers| ==>
         HoldsCell(line, ColumnStart(widths, c), widths[c], if c < |row| then row[c] else "", headers[c] in elastic)
  }

  ghost predicate HeaderLine(line: string, headers: seq<string>, widths: seq<int>)
    requires |widths| == |headers|
  {
    && Gapped(line, widths)
    && forall c :: 0 <= c < |headers| ==> Holds(line, ColumnStart(widths, c), widths[c], headers[c])
  }

  ghost predicate Dashes(line: string, start: int, width: int) {
    0 <= start && start + width <= |line| && forall i :: start <= i < start + width ==> line[i] == '-'
  }

  ghost predicate RuleLine(line: string, widths: seq<int>) {
    && Gapped(line, widths)
    && forall c :: 0 <= c < |widths| ==> Dashes(line, ColumnStart(widths, c), widths[c])
  }

  /** Line `k` of a text whose lines are all `width` characters long. */
  ghost predicate IsLine(text: string, width: nat, k: nat, line: string) {
    && |line| == width && 0 <= k * (width + 1) && k * (width + 1) + width < |text|
    && text[k * (width + 1)..k * (width + 1) + width] == line && text[k * (width + 1) + width] == '\n'
  }

  /** The text is the header, the rule and the rows, line by line, and no more. */
  ghost predicate Tabulates(text: string, lines: seq<string>, rows: seq<seq<string>>, headers: seq<string>,
                            widths: seq<int>, elastic: seq<string>)
    requires |widths| == |headers|
  {
    var width := TotalWidth(widths);
    && width >= 0 && |lines| == 2 + |rows| && |text| == |lines| * (width + 1)
    && (forall k :: 0 <= k < |lines| ==> IsLine(text, width, k, lines[k]))
    && HeaderLine(lines[0], headers, widths) && RuleLine(lines[1], widths)
    && forall r :: 0 <= r < |rows| ==> BodyLine(lines[2 + r], rows[r], headers, widths, elastic)
  }

  lemma ShownHolds(line: string, cell: string, start: int, width: int)
    requires ShowsCell(line, cell, start, width) && |cell| <= width
    ensures Holds(line, start, width, cell)
  {
    var shown := Pad(cell, width);
    assert line[start..start + |cell|] == shown[..|cell|];
    forall i | start + |cell| <= i < start + width ensures line[i] == ' ' {
      assert line[start..start + width][i - start] == shown[i - start];
    }
  }

  lemma {:induction false} LineGapped(cells: seq<string>, widths: seq<int>)
    requires Fits(cells, widths) && cells != []
    ensures Gapped(LineOf(cells, widths), widths)
  {
    var n := |cells| - 1;
    if n > 0 {
      LineGapped(cells[..n], widths[..n]);
      LineLaidOut(cells[..n], widths[..n]);
      var front, gap, last := LineOf(cells[..n], widths[..n]), Repeat(' ', COLUMN_GAP), Pad(cells[n], widths[n]);
      GapAdded(front, gap, last, widths);
    }
  }

  lemma GapAdded(front: string, gap: string, last: string, widths: seq<int>)
    requires |widths| > 1 && Gapped(front, widths[..|widths| - 1]) && |front| == TotalWidth(widths[..|widths| - 1])
    requires |gap| == 2 && gap[0] == gap[1] == ' '
    ensures Gapped(front + gap + last, widths)
  {
    var n := |widths| - 1;
    var line := front + gap + last;
    forall c | 0 <= c < n ensures GapAfter(line, widths, c) {
      assert widths[..n][..c] == widths[..c];
      if c < n - 1 {
        assert GapAfter(front, widths[..n], c);
      } else {
        assert widths[..n][..c] + [widths[c]] == widths[..n];
        SumAppend(widths[..c], widths[c]);
        assert ColumnStart(widths, c) + widths[c] == |front|;
        assert line[|front|] == gap[0] && line[|front| + 1] == gap[1];
      }
    }
  }

  /** A shown cell is the row's own, cut as an elastic column must. */
  lemma ShownIsHeld(line: string, row: seq<string>, headers: seq<string>, widths: seq<int>, elastic: seq<string>,
                    c: nat)
    requires |widths| == |headers| && c < |headers| && Fits(ShownCells(row, headers, widths, elastic), widths)
    requires ShowsCell(line, ShownCells(row, headers, widths, elastic)[c], ColumnStart(widths, c), widths[c])
    requires headers[c] in elastic && |if c < |row| then row[c] else ""| > widths[c] ==> widths[c] >= 2
    ensures HoldsCell(line, ColumnStart(widths, c), widths[c], if c < |row| then row[c] else "", headers[c] in elastic)
  {
    hide ColumnStart, ShowsCell, Holds;
    var cells := ShownCells(row, headers, widths, elastic);
    assert |cells[c]| <= widths[c];
    ShownHolds(line, cells[c], ColumnStart(widths, c), widths[c]);
  }

  lemma BodyLineShown(line: string, row: seq<string>, rows: seq<seq<string>>, headers: seq<string>, natural: seq<int>,
                      widths: seq<int>, elastic: seq<string>)
    requires row in rows && IsNatural(natural, rows, headers) && RoomFor(widths, natural, headers, elastic)
    requires headers != [] && line == LineOf(ShownCells(row, headers, widths, elastic), widths)
    ensures BodyLine(line, row, headers, widths, elastic)
  {
    hide LineOf, ColumnStart, ShowsCell, Gapped, HoldsCell;
    var cells := ShownCells(row, headers, widths, elastic);
    ShownCellsFit(row, rows, headers, natural, widths, elastic);
    LineLaidOut(cells, widths);
    LineGapped(cells, widths);
    forall c | 0 <= c < |headers|
      ensures HoldsCell(line, ColumnStart(widths, c), widths[c], if c < |row| then row[c] else "",
                        headers[c] in elastic)
    {
      CutRoom(row, rows, headers, natural, widths, elastic, c);
      ShownIsHeld(line, row, headers, widths, elastic, c);
    }
  }

  /** A cell longer than its column stands in one that gave way, which keeps five. */
  lemma CutRoom(row: seq<string>, rows: seq<seq<string>>, headers: seq<string>, natural: seq<int>, widths: seq<int>,
                elastic: seq<string>, c: nat)
    requires row in rows && IsNatural(natural, rows, headers) && RoomFor(widths, natural, headers, elastic)
    requires c < |headers|
    ensures |if c < |row| then row[c] else ""| > widths[c] ==> widths[c] >= 2
  {}

  lemma RuleShown(widths: seq<int>)
    requires widths != [] && forall c :: 0 <= c < |widths| ==> widths[c] >= 0
    ensures RuleLine(LineOf(Rules(widths), widths), widths)
  {
    hide LineOf, Gapped, ColumnStart, ShowsCell, Rules;
    var cells, line := Rules(widths), LineOf(Rules(widths), widths);
    LineLaidOut(cells, widths);
    LineGapped(cells, widths);
    forall c | 0 <= c < |widths| ensures Dashes(line, ColumnStart(widths, c), widths[c]) {
      RuleCell(line, widths, c, ColumnStart(widths, c));
    }
  }

  lemma RuleCell(line: string, widths: seq<int>, c: nat, start: int)
    requires c < |widths| && widths[c] >= 0 && ShowsCell(line, Rules(widths)[c], start, widths[c])
    ensures Dashes(line, start, widths[c])
  {
    assert Rules(widths)[c] == Repeat('-', widths[c]);
    forall i | start <= i < start + widths[c] ensures line[i] == '-' {
      assert line[start..start + widths[c]][i - start] == Pad(Rules(widths)[c], widths[c])[i - start];
    }
  }

  lemma HeaderShown(headers: seq<string>, widths: seq<int>)
    requires Fits(headers, widths) && headers != []
    ensures HeaderLine(LineOf(headers, widths), headers, widths)
  {
    hide LineOf, Gapped, Holds, ColumnStart;
    LineLaidOut(headers, widths);
    LineGapped(headers, widths);
    forall c | 0 <= c < |headers|
      ensures Holds(LineOf(headers, widths), ColumnStart(widths, c), widths[c], headers[c])
    {
      ShownHolds(LineOf(headers, widths), headers[c], ColumnStart(widths, c), widths[c]);
    }
  }

  lemma {:induction false} TerminatedLines(lines: seq<string>, width: nat)
    requires forall line :: line in lines ==> |line| == width
    ensures |Terminated(lines)| == |lines| * (width + 1)
    ensures forall k :: 0 <= k < |lines| ==> IsLine(Terminated(lines), width, k, lines[k])
  {
    hide IsLine;
    if lines != [] {
      var n := |lines| - 1;
      TerminatedLines(lines[..n], width);
      var front := Terminated(lines[..n]);
      assert |lines[n]| == width;
      Distribute(width + 1, n, 1);
      assert Terminated(lines) == front + lines[n] + "\n";
      forall k | 0 <= k < n ensures IsLine(Terminated(lines), width, k, lines[k]) {
        assert IsLine(front, width, k, lines[..n][k]);
        LineStays(front, lines[n] + "\n", width, k, lines[k]);
        assert front + (lines[n] + "\n") == front + lines[n] + "\n";
      }
      LastLine(front, lines[n], width, n);
    }
  }

  lemma LineStays(front: string, rest: string, width: nat, k: nat, line: string)
    requires IsLine(front, width, k, line)
    ensures IsLine(front + rest, width, k, line)
  {
    var at := k * (width + 1);
    assert (front + rest)[at..at + width] == front[at..at + width];
  }

  lemma LastLine(front: string, line: string, width: nat, n: nat)
    requires |line| == width && |front| == n * (width + 1)
    ensures IsLine(front + line + "\n", width, n, line)
  {
    assert (front + line + "\n")[|front|..|front| + width] == line;
  }

  lemma {:induction false} LinesAre(rows: seq<seq<string>>, headers: seq<string>, widths: seq<int>,
                                    elastic: seq<string>)
    requires |widths| == |headers|
    ensures var lines := TableLines(rows, headers, widths, elastic);
            && lines[0] == LineOf(headers, widths) && lines[1] == LineOf(Rules(widths), widths)
            && forall r :: 0 <= r < |rows| ==>
                 lines[2 + r] == LineOf(ShownCells(rows[r], headers, widths, elastic), widths)
  {
    hide LineOf, ShownCells, Rules;
    if rows != [] {
      LinesAre(rows[..|rows| - 1], headers, widths, elastic);
    }
  }

  /** Character by character, the rendered table is what it should be. */
  lemma TableTabulates(rows: seq<seq<string>>, headers: seq<string>, natural: seq<int>, widths: seq<int>,
                       elastic: seq<string>)
    requires rows != [] && headers != []
    requires IsNatural(natural, rows, headers) && RoomFor(widths, natural, headers, elastic)
    ensures var lines := TableLines(rows, headers, widths, elastic);
            Tabulates(Terminated(lines), lines, rows, headers, widths, elastic)
  {
    hide BodyLine, HeaderLine, RuleLine, LineOf, ShownCells, Rules, TableLines, Terminated, Aligned, IsLine, TotalWidth,
      RowsFit;
    var lines := TableLines(rows, headers, widths, elastic);
    AllFits(rows, headers, natural, widths, elastic);
    LinesAligned(rows, headers, widths, elastic);
    AlignedLengths(lines, rows, headers, widths, elastic);
    LinesAre(rows, headers, widths, elastic);
    assert lines[0] in lines;
    TerminatedLines(lines, TotalWidth(widths));
    HeaderShown(headers, widths);
    RuleShown(widths);
    forall r | 0 <= r < |rows| ensures BodyLine(lines[2 + r], rows[r], headers, widths, elastic) {
      BodyLineShown(lines[2 + r], rows[r], rows, headers, natural, widths, elastic);
    }
  }

  /** A table too wide for its target shrinks to exactly the target when its
      minimum widths fit, and otherwise keeps its natural widths; either way all
      its lines have the one length and show, character by character, the header,
      the rule and every cell of every row. */
  method FormatTable(rows: seq<seq<string>>, headers: seq<string>, elastic: seq<string>, width: int)
    returns (text: string, ghost natural: seq<int>, ghost widths: seq<int>)
    ensures rows == [] ==> text == "(empty)\n"
    ensures rows != [] && headers != [] ==>
      |widths| == |headers| && exists lines :: Tabulates(text, lines, rows, headers, widths, elastic)
    ensures rows != [] ==>
      && IsNatural(natural, rows, headers) && RoomFor(widths, natural, headers, elastic)
      && text == Terminated(TableLines(rows, headers, widths, elastic))
    ensures rows != [] && headers != [] ==> Aligned(TableLines(rows, headers, widths, elastic), rows, headers, widths,
              elastic)
    ensures rows != [] ==>
      var minimum := TotalWidth(MinimumWidths(Columns(natural, headers, elastic)));
      && (TotalWidth(natural) <= width || minimum > width ==> widths == natural)
      && (TotalWidth(natural) > width >= minimum ==>
            TotalWidth(widths) == width && GreedyState(Columns(natural, headers, elastic), widths))
  {
    natural, widths := [], [];
    if rows == [] {
      return "(empty)\n", natural, widths;
    }
    var fittedWidths := NaturalWidths(rows, headers);
    natural := fittedWidths;
    assert TotalWidth(fittedWidths) > width && elastic == [] ==>
        MinimumWidths(Columns(natural, headers, elastic)) == natural;
    if TotalWidth(fittedWidths) > width && elastic != [] {
      var fitted := ShrinkToFit(fittedWidths, headers, elastic, width);
      if fitted.Some? {
        fittedWidths := fitted.value;
        ShrunkHasRoom(natural, headers, elastic, fittedWidths);
      }
    }
    widths := fittedWidths;
    text := RenderTable(rows, headers, fittedWidths, elastic);
    if headers != [] {
      AllFits(rows, headers, natural, widths, elastic);
      LinesAligned(rows, headers, widths, elastic);
      TableTabulates(rows, headers, natural, widths, elastic);
    }
  }
}
