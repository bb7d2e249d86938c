/** Folding wholly unused grid rows into hatched bands, and the exact bytes each
    band stands for (gdr/heapmap.py, `grid_layout`). */
module GridFolds {
  import opened Arith
  import opened ArenaSpans
  import opened Common
  import opened GridCells

  datatype Kind = Free | Unknown | Mixed

  /** One collapsed range of rows. `bytes`, `start` and `end` are the exact values before rounding. */
  datatype Fold = Fold(row: int, rows: int, height: int, bytes: real, kind: Kind, start: real, end: real)

  // ---- which rows fold ------------------------------------------------------

  predicate CellUnused(plan: Plan, blocks: seq<Block>, c: int)
    requires plan.InRange() && 0 <= c < plan.Cells()
    requires BlocksKnown(plan, blocks)
  {
    var index := plan.spans[plan.spanOf[c]].index;
    index < 0 || !blocks[index].used
  }

  predicate BlocksKnown(plan: Plan, blocks: seq<Block>) {
    forall k :: 0 <= k < |plan.spans| ==> -1 <= plan.spans[k].index < |blocks|
  }

  /** Every cell of the row belongs to a free block or to a gap. */
  predicate RowUnused(plan: Plan, blocks: seq<Block>, row: int)
    requires plan.InRange() && plan.columns >= 1 && 0 <= row < plan.rows && BlocksKnown(plan, blocks)
  {
    RowsGrow(plan.columns, row, row + 1);
    RowsGrow(plan.columns, row + 1, plan.rows);
    forall c :: plan.Row(row) <= c < plan.Row(row + 1) ==> CellUnused(plan, blocks, c)
  }

  ghost predicate Foldable(plan: Plan, blocks: seq<Block>, row: int) {
    && plan.InRange() && plan.columns >= 1 && 0 <= row < plan.rows && BlocksKnown(plan, blocks)
    && RowUnused(plan, blocks, row)
  }

  ghost predicate Ascending(s: seq<int>) {
    forall i, j :: 0 <= i < j < |s| ==> s[i] < s[j]
  }

  /** Unused rows in order; none at all when every row is unused. */
  method FoldedRows(plan: Plan, blocks: seq<Block>) returns (folded: seq<int>)
    requires plan.InRange() && plan.columns >= 1 && plan.rows >= 1 && BlocksKnown(plan, blocks)
    ensures Ascending(folded)
    ensures forall r :: r in folded <==>
              Foldable(plan, blocks, r) && exists used :: 0 <= used < plan.rows && !Foldable(plan, blocks, used)
  {
    folded := [];
    for row := 0 to plan.rows
      invariant Ascending(folded) && forall i :: 0 <= i < |folded| ==> folded[i] < row
      invariant forall r :: r in folded <==> r < row && Foldable(plan, blocks, r)
      invariant |folded| <= row
      invariant |folded| == row ==> forall r :: 0 <= r < row ==> Foldable(plan, blocks, r)
      invariant |folded| < row ==> exists r :: 0 <= r < row && !Foldable(plan, blocks, r)
    {
      ghost var before := folded;
      if RowUnused(plan, blocks, row) {
        folded := folded + [row];
        assert folded[|before|] == row;
      }
      assert Foldable(plan, blocks, row) <==> RowUnused(plan, blocks, row);
    }
    if |folded| == plan.rows {
      folded := [];
    }
  }

  ghost predicate Consecutive(group: seq<int>) {
    group != [] && forall i :: 0 <= i < |group| ==> group[i] == group[0] + i
  }

  ghost predicate InGroups(groups: seq<seq<int>>, r: int) {
    exists g :: 0 <= g < |groups| && r in groups[g]
  }

  function Lengths(groups: seq<seq<int>>): (l: seq<int>)
    ensures |l| == |groups|
  {
    seq(|groups|, g requires 0 <= g < |groups| => |groups[g]|)
  }

  /** Runs of consecutive rows, separated from each other by at least one row. */
  ghost predicate Grouped(groups: seq<seq<int>>) {
    && (forall g :: 0 <= g < |groups| ==> Consecutive(groups[g]))
    && (forall g, h :: 0 <= g < h < |groups| ==> groups[g][0] + |groups[g]| < groups[h][0])
  }

  /** The groups once `row` joins the last one or opens its own. */
  function Extend(groups: seq<seq<int>>, row: int): seq<seq<int>> {
    var n := |groups| - 1;
    if groups != [] && groups[n] != [] && row == groups[n][|groups[n]| - 1] + 1 then groups[n := groups[n] + [row]]
    else groups + [[row]]
  }

  lemma ExtendMembers(groups: seq<seq<int>>, row: int, r: int)
    ensures InGroups(Extend(groups, row), r) <==> InGroups(groups, r) || r == row
  {
    var after, n := Extend(groups, row), |groups| - 1;
    if InGroups(groups, r) {
      var g :| 0 <= g < |groups| && r in groups[g];
      assert r in after[g];
    }
    if r == row {
      assert r in after[|after| - 1];
    }
  }

  lemma ExtendSum(groups: seq<seq<int>>, row: int)
    ensures Sum(Lengths(Extend(groups, row))) == Sum(Lengths(groups)) + 1
  {
    var after, n := Extend(groups, row), |groups| - 1;
    if |after| == |groups| {
      SumUpdate(Lengths(groups), n, |groups[n]| + 1);
      assert Lengths(after) == Lengths(groups)[n := |groups[n]| + 1];
    } else {
      SumAppend(Lengths(groups), 1);
      assert Lengths(after) == Lengths(groups) + [1];
    }
  }

  lemma ExtendGrouped(groups: seq<seq<int>>, row: int)
    requires Grouped(groups)
    requires groups != [] ==> row >= groups[|groups| - 1][0] + |groups[|groups| - 1]|
    ensures Grouped(Extend(groups, row))
    ensures var after := Extend(groups, row); var last := after[|after| - 1]; last[0] + |last| == row + 1
  {}

  method GroupRows(folded: seq<int>) returns (groups: seq<seq<int>>)
    requires Ascending(folded)
    ensures Grouped(groups) && Sum(Lengths(groups)) == |folded|
    ensures forall r :: r in folded <==> InGroups(groups, r)
  {
    groups := [];
    for k := 0 to |folded|
      invariant Grouped(groups) && Sum(Lengths(groups)) == k
      invariant forall r :: r in folded[..k] <==> InGroups(groups, r)
      invariant k == 0 <==> groups == []
      invariant k > 0 ==> folded[k - 1] + 1 == groups[|groups| - 1][0] + |groups[|groups| - 1]|
    {
      var row := folded[k];
      assert folded[..k + 1] == folded[..k] + [row];
      ExtendGrouped(groups, row);
      ExtendSum(groups, row);
      forall r ensures InGroups(Extend(groups, row), r) <==> InGroups(groups, r) || r == row {
        ExtendMembers(groups, row, r);
      }
      groups := Extend(groups, row);
    }
    assert folded[..|folded|] == folded;
  }

  // ---- what a band stands for --------------------------------------------------

  /** Where the cells begin in the arena, and where the last one ends. */
  ghost function CellEdges(plan: Plan, end: int): (edges: seq<real>)
    requires plan.InRange()
    ensures |edges| == plan.Cells() + 1
  {
    seq(plan.Cells() + 1, c requires 0 <= c <= plan.Cells() => plan.Edge(c, end))
  }

  ghost predicate Rising(edges: seq<real>) {
    forall i, j :: 0 <= i < j < |edges| ==> edges[i] < edges[j]
  }

  lemma CellEdgesRise(plan: Plan, base: nat, end: int)
    requires plan.Valid(base, end) && plan.InRange()
    ensures Rising(CellEdges(plan, end)) && CellEdges(plan, end)[0] == base as real
    ensures CellEdges(plan, end)[plan.Cells()] == end as real
    ensures forall c :: 0 <= c < plan.Cells() ==>
              CellEdges(plan, end)[c] == plan.CellLow(c)
              && CellEdges(plan, end)[c + 1] == plan.CellLow(c) + plan.Share(plan.spanOf[c])
  {
    FirstCell(plan, base, end);
    var edges := CellEdges(plan, end);
    forall i, j | 0 <= i < j < |edges| ensures edges[i] < edges[j] {
      EdgesGrow(plan, base, end, i, j);
    }
    forall c | 0 <= c < plan.Cells() ensures edges[c + 1] == plan.CellLow(c) + plan.Share(plan.spanOf[c]) {
      CellEndsAtNext(plan, base, end, c);
    }
  }

  ghost function Gaps(plan: Plan): (gaps: seq<bool>)
    requires plan.InRange()
    ensures |gaps| == plan.Cells()
  {
    seq(plan.Cells(), c requires 0 <= c < plan.Cells() => plan.IsGap(c))
  }

  /** Some cell in `[low, high)` has the flag `wanted`. */
  ghost predicate Flagged(flags: seq<bool>, wanted: bool, low: int, high: int)
    requires 0 <= low && high <= |flags|
  {
    exists c :: low <= c < high && flags[c] == wanted
  }

  /** The band's kind says exactly which sorts of span its cells belong to. */
  ghost predicate KindFits(kind: Kind, gaps: seq<bool>, low: int, high: int)
    requires 0 <= low && high <= |gaps|
  {
    var gap, free := Flagged(gaps, true, low, high), Flagged(gaps, false, low, high);
    && (kind.Free? <==> !gap && free)
    && (kind.Unknown? <==> gap && !free)
    && (kind.Mixed? <==> gap && free)
  }

  /** Row and cell edges, and which cells are gaps: all a band depends on. */
  ghost predicate Surveyed(columns: int, rows: int, edges: seq<real>, gaps: seq<bool>) {
    && columns >= 1 && rows >= 1
    && |gaps| == RowStart(columns, rows) && |edges| == |gaps| + 1
    && Rising(edges) && edges[0] >= 0.0
  }

  /** The band covers exactly its rows' stretch of the arena, and its kind fits. */
  ghost predicate Describes(fold: Fold, columns: int, edges: seq<real>, gaps: seq<bool>) {
    var low, high := RowStart(columns, fold.row), RowStart(columns, fold.row + fold.rows);
    && 0 <= low < high <= |gaps| < |edges|
    && fold.start == edges[low] && fold.end == edges[high]
    && fold.bytes == fold.end - fold.start
    && KindFits(fold.kind, gaps, low, high)
  }

  ghost predicate AllDescribed(folds: seq<Fold>, columns: int, edges: seq<real>, gaps: seq<bool>) {
    forall f :: 0 <= f < |folds| ==> Describes(folds[f], columns, edges, gaps)
  }

  datatype Tally = Tally(total: real, low: real, high: real, seenGap: bool, seenFree: bool)

  /** Running totals of a band after its cells `[low, c)`. */
  ghost predicate Tallied(edges: seq<real>, gaps: seq<bool>, low: int, c: int, t: Tally)
    requires |edges| == |gaps| + 1 && 0 <= low <= c <= |gaps|
  {
    && t.total == edges[c] - edges[low]
    && t.low == (if c == low then -1.0 else edges[low])
    && t.high == (if c == low then -1.0 else edges[c])
    && (t.seenGap <==> Flagged(gaps, true, low, c))
    && (t.seenFree <==> Flagged(gaps, false, low, c))
  }

  /** One more cell in the totals: its share, its position and its sort. */
  function AddCell(t: Tally, first: real, share: real, gap: bool): Tally {
    Tally(t.total + share,
          if t.low < 0.0 then first else if first < t.low then first else t.low,
          if first + share > t.high then first + share else t.high,
          t.seenGap || gap, t.seenFree || !gap)
  }

  lemma TallyCell(edges: seq<real>, gaps: seq<bool>, low: int, c: int, t: Tally)
    requires |edges| == |gaps| + 1 && 0 <= low <= c < |gaps|
    requires Rising(edges) && edges[0] >= 0.0 && Tallied(edges, gaps, low, c, t)
    ensures Tallied(edges, gaps, low, c + 1, AddCell(t, edges[c], edges[c + 1] - edges[c], gaps[c]))
  {
    assert low > 0 ==> edges[0] < edges[low];
    assert low < c ==> edges[low] < edges[c];
    assert edges[c] < edges[c + 1];
    assert Flagged(gaps, gaps[c], low, c + 1);
    assert forall wanted :: Flagged(gaps, wanted, low, c) ==> Flagged(gaps, wanted, low, c + 1);
  }

  function Finish(t: Tally, row: int, rows: int): Fold {
    var kind := if t.seenGap && t.seenFree then Mixed else if t.seenGap then Unknown else Free;
    Fold(row, rows, 1, t.total, kind, t.low, t.high)
  }

  lemma FinishDescribes(row: int, rows: int, t: Tally, columns: int, edges: seq<real>, gaps: seq<bool>)
    requires 0 <= RowStart(columns, row) < RowStart(columns, row + rows) <= |gaps| && |edges| == |gaps| + 1
    requires Tallied(edges, gaps, RowStart(columns, row), RowStart(columns, row + rows), t)
    ensures Describes(Finish(t, row, rows), columns, edges, gaps)
  {
    var low := RowStart(columns, row);
    assert Flagged(gaps, gaps[low], low, RowStart(columns, row + rows));
  }

  /** What the painter's cells say, in terms of the survey. */
  ghost predicate Consistent(plan: Plan, edges: seq<real>, gaps: seq<bool>) {
    && plan.InRange() && Surveyed(plan.columns, plan.rows, edges, gaps)
    && forall c :: 0 <= c < plan.Cells() ==>
         && gaps[c] == plan.IsGap(c)
         && edges[c] == plan.CellLow(c) && edges[c + 1] == plan.CellLow(c) + plan.Share(plan.spanOf[c])
  }

  lemma PlanSurvey(plan: Plan, base: nat, end: int)
    requires plan.Valid(base, end) && plan.InRange()
    ensures Consistent(plan, CellEdges(plan, end), Gaps(plan))
    ensures CellEdges(plan, end)[0] == base as real && CellEdges(plan, end)[plan.Cells()] == end as real
  {
    CellEdgesRise(plan, base, end);
    RowsGrow(plan.columns, 0, plan.rows);
  }

  method FoldGroup(plan: Plan, group: seq<int>, ghost edges: seq<real>, ghost gaps: seq<bool>) returns (fold: Fold)
    requires Consistent(plan, edges, gaps) && Consecutive(group)
    requires 0 <= group[0] && group[0] + |group| <= plan.rows
    ensures fold.row == group[0] && fold.rows == |group| && fold.height == 1
    ensures Describes(fold, plan.columns, edges, gaps)
  {
    ghost var low := plan.Row(group[0]);
    RowsGrow(plan.columns, group[0], plan.rows);
    var t := Tally(0.0, -1.0, -1.0, false, false);
    for g := 0 to |group|
      invariant low + g <= plan.Row(group[0] + g) <= |gaps|
      invariant Tallied(edges, gaps, low, plan.Row(group[0] + g), t)
    {
      RowsGrow(plan.columns, group[g], group[g] + 1);
      RowsGrow(plan.columns, group[g] + 1, plan.rows);
      t := TallyRow(plan, plan.Row(group[g]), plan.Row(group[g] + 1), t, edges, gaps, low);
    }
    FinishDescribes(group[0], |group|, t, plan.columns, edges, gaps);
    fold := Finish(t, group[0], |group|);
  }

  method TallyRow(plan: Plan, from: int, to: int, before: Tally,
                  ghost edges: seq<real>, ghost gaps: seq<bool>, ghost low: int) returns (t: Tally)
    requires Consistent(plan, edges, gaps) && 0 <= low <= from <= to <= plan.Cells()
    requires Tallied(edges, gaps, low, from, before)
    ensures Tallied(edges, gaps, low, to, t)
  {
    t := before;
    for cell := from to to
      invariant Tallied(edges, gaps, low, cell, t)
    {
      TallyCell(edges, gaps, low, cell, t);
      t := AddCell(t, plan.CellLow(cell), plan.Share(plan.spanOf[cell]), plan.IsGap(cell));
    }
  }

  // ---- heights -----------------------------------------------------------------

  lemma NextDivMod(i: nat, d: int)
    requires d > 0
    ensures if i % d == d - 1 then (i + 1) / d == i / d + 1 && (i + 1) % d == 0
            else (i + 1) / d == i / d && (i + 1) % d == i % d + 1
  {
    DivMod(i, d);
    Distribute(d, i / d, 1);
    if i % d == d - 1 {
      DivModUnique(i + 1, d, i / d + 1, 0);
    } else {
      DivModUnique(i + 1, d, i / d, i % d + 1);
    }
  }

  function Heights(folds: seq<Fold>): (h: seq<int>)
    ensures |h| == |folds|
  {
    seq(|folds|, i requires 0 <= i < |folds| => folds[i].height)
  }

  function RowCounts(folds: seq<Fold>): (n: seq<int>)
    ensures |n| == |folds|
  {
    seq(|folds|, i requires 0 <= i < |folds| => folds[i].rows)
  }

  /** What fold `j` of `n` gets of `i` spare units dealt round. */
  function Raise(n: nat, i: nat, j: nat): int
    requires n > 0
  {
    i / n + (if j < i % n then 1 else 0)
  }

  lemma RaiseIs(n: nat, i: nat, j: nat)
    requires n > 0
    ensures Raise(n, i, j) == i / n + (if j < i % n then 1 else 0)
  {}

  lemma NoneRaised(n: nat, j: nat)
    requires n > 0
    ensures Raise(n, 0, j) == 0
  {}

  lemma RaiseNext(n: nat, i: nat, j: nat)
    requires j < n
    ensures Raise(n, i + 1, j) == Raise(n, i, j) + (if j == i % n then 1 else 0)
  {
    NextDivMod(i, n);
  }

  /** Spare units go round the bands one at a time: heights differ by at most one. */
  method RaiseFolds(folds: seq<Fold>, extra: nat) returns (raised: seq<Fold>)
    requires folds != []
    ensures |raised| == |folds|
    ensures forall j :: 0 <= j < |folds| ==>
              raised[j] == folds[j].(height :=
                folds[j].height + extra / |folds| + (if j < extra % |folds| then 1 else 0))
    ensures Sum(Heights(raised)) == Sum(Heights(folds)) + extra
  {
    hide Sum, Raise;
    raised := folds;
    var n := |folds|;
    forall j | 0 <= j < n ensures Raise(n, 0, j) == 0 {
      NoneRaised(n, j);
    }
    for i := 0 to extra
      invariant |raised| == n
      invariant forall j :: 0 <= j < n ==> raised[j] == folds[j].(height := folds[j].height + Raise(n, i, j))
      invariant Sum(Heights(raised)) == Sum(Heights(folds)) + i
    {
      var at := i % n;
      forall j | 0 <= j < n ensures Raise(n, i + 1, j) == Raise(n, i, j) + (if j == at then 1 else 0) {
        RaiseNext(n, i, j);
      }
      var fold := raised[at];
      SumUpdate(Heights(raised), at, fold.height + 1);
      assert Heights(raised[at := fold.(height := fold.height + 1)]) == Heights(raised)[at := fold.height + 1];
      raised := raised[at := fold.(height := fold.height + 1)];
    }
    forall j | 0 <= j < n ensures Raise(n, extra, j) == extra / n + (if j < extra % n then 1 else 0) {
      RaiseIs(n, extra, j);
    }
  }

  // ---- the folded grid as a whole --------------------------------------------------

  predicate InFold(fold: Fold, row: int) {
    fold.row <= row < fold.row + fold.rows
  }

  predicate Covered(folds: seq<Fold>, row: int) {
    exists f :: 0 <= f < |folds| && InFold(folds[f], row)
  }

  /** Folds in ascending order, apart from each other, inside the grid. */
  ghost predicate Laid(folds: seq<Fold>, rows: int) {
    && (forall f :: 0 <= f < |folds| ==>
          folds[f].rows >= 1 && 0 <= folds[f].row && folds[f].row + folds[f].rows <= rows)
    && (forall f, g :: 0 <= f < g < |folds| ==> folds[f].row + folds[f].rows < folds[g].row)
  }

  /** The folds are exactly the maximal groups of wholly unused rows, or none
      when nothing in the grid is used. */
  ghost predicate FoldsExact(folds: seq<Fold>, plan: Plan, blocks: seq<Block>) {
    && Laid(folds, plan.rows)
    && forall r :: Covered(folds, r) <==>
         Foldable(plan, blocks, r) && exists used :: 0 <= used < plan.rows && !Foldable(plan, blocks, used)
  }

  /** Maximal: the rows just before and just after a fold are not wholly unused. */
  lemma FoldsMaximal(folds: seq<Fold>, plan: Plan, blocks: seq<Block>, f: int)
    requires FoldsExact(folds, plan, blocks) && 0 <= f < |folds|
    ensures forall r :: InFold(folds[f], r) ==> Foldable(plan, blocks, r)
    ensures !Foldable(plan, blocks, folds[f].row - 1)
    ensures !Foldable(plan, blocks, folds[f].row + folds[f].rows)
  {
    forall r | InFold(folds[f], r) ensures Covered(folds, r) {}
    assert InFold(folds[f], folds[f].row);
    assert Covered(folds, folds[f].row);
    assert !Covered(folds, folds[f].row - 1);
    assert !Covered(folds, folds[f].row + folds[f].rows);
  }

  ghost predicate FromGroups(folds: seq<Fold>, groups: seq<seq<int>>) {
    && |folds| == |groups|
    && forall f :: 0 <= f < |folds| ==>
         groups[f] != [] && folds[f].row == groups[f][0] && folds[f].rows == |groups[f]| && folds[f].height == 1
  }

  lemma GroupsCover(folds: seq<Fold>, groups: seq<seq<int>>, r: int)
    requires Grouped(groups) && FromGroups(folds, groups)
    ensures Covered(folds, r) <==> InGroups(groups, r)
  {
    if f :| 0 <= f < |folds| && InFold(folds[f], r) {
      assert groups[f][r - groups[f][0]] == r;
    }
    if g :| 0 <= g < |groups| && r in groups[g] {
      assert InFold(folds[g], r);
    }
  }

  method FoldRows(plan: Plan, blocks: seq<Block>, ghost edges: seq<real>, ghost gaps: seq<bool>)
    returns (folds: seq<Fold>, foldedRows: int)
    requires Consistent(plan, edges, gaps) && BlocksKnown(plan, blocks)
    ensures foldedRows == Sum(RowCounts(folds))
    ensures FoldsExact(folds, plan, blocks) && AllDescribed(folds, plan.columns, edges, gaps)
    ensures forall f :: 0 <= f < |folds| ==> folds[f].height == 1
  {
    hide Sum, Describes, Foldable;
    var folded := FoldedRows(plan, blocks);
    assert forall r :: r in folded ==> 0 <= r < plan.rows by { FoldableInside(plan, blocks); }
    var groups := GroupRows(folded);
    GroupsInside(groups, plan.rows);
    folds := [];
    for g := 0 to |groups|
      invariant FromGroups(folds, groups[..g]) && AllDescribed(folds, plan.columns, edges, gaps)
    {
      var fold := FoldGroup(plan, groups[g], edges, gaps);
      folds := folds + [fold];
    }
    assert groups[..|groups|] == groups;
    foldedRows := |folded|;
    GroupsLaid(folds, groups, plan.rows);
    assert forall r :: Covered(folds, r) <==> r in folded;
  }

  lemma FoldableInside(plan: Plan, blocks: seq<Block>)
    ensures forall r :: Foldable(plan, blocks, r) ==> 0 <= r < plan.rows
  {}

  lemma GroupsInside(groups: seq<seq<int>>, rows: int)
    requires Grouped(groups) && forall r :: InGroups(groups, r) ==> 0 <= r < rows
    ensures forall g :: 0 <= g < |groups| ==> 0 <= groups[g][0] && groups[g][0] + |groups[g]| <= rows
  {
    forall g | 0 <= g < |groups| ensures 0 <= groups[g][0] && groups[g][0] + |groups[g]| <= rows {
      assert InGroups(groups, groups[g][0]) && InGroups(groups, groups[g][|groups[g]| - 1]);
    }
  }

  /** Folds made from groups cover the groups' rows and stand apart as they do. */
  lemma GroupsLaid(folds: seq<Fold>, groups: seq<seq<int>>, rows: int)
    requires Grouped(groups) && FromGroups(folds, groups)
    requires forall g :: 0 <= g < |groups| ==> 0 <= groups[g][0] && groups[g][0] + |groups[g]| <= rows
    ensures Laid(folds, rows) && RowCounts(folds) == Lengths(groups)
    ensures forall r :: Covered(folds, r) <==> InGroups(groups, r)
  {
    forall r ensures Covered(folds, r) <==> InGroups(groups, r) {
      GroupsCover(folds, groups, r);
    }
  }

  // ---- conservation -------------------------------------------------------------------

  /** Where the rows begin in the arena, and where the last one ends. */
  ghost function RowEdges(columns: int, rows: int, edges: seq<real>, gaps: seq<bool>): (r: seq<real>)
    requires Surveyed(columns, rows, edges, gaps)
    ensures |r| == rows + 1 && r[0] == edges[0] && r[rows] == edges[|gaps|]
    ensures forall k :: 0 <= k <= rows ==> 0 <= RowStart(columns, k) <= |gaps| && r[k] == edges[RowStart(columns, k)]
  {
    assert forall k :: 0 <= k <= rows ==> 0 <= RowStart(columns, k) <= |gaps| by {
      forall k | 0 <= k <= rows ensures 0 <= RowStart(columns, k) <= |gaps| {
        RowsGrow(columns, 0, k);
        RowsGrow(columns, k, rows);
      }
    }
    seq(rows + 1, k requires 0 <= k <= rows => edges[RowStart(columns, k)])
  }

  /** Bytes of the rows `[0, row)` that no fold covers, from the rows' edges in the arena. */
  ghost function KeptBytes(folds: seq<Fold>, edges: seq<real>, row: nat): real
    requires row < |edges|
  {
    if row == 0 then 0.0
    else KeptBytes(folds, edges, row - 1) + (if Covered(folds, row - 1) then 0.0 else edges[row] - edges[row - 1])
  }

  function FoldedBytes(folds: seq<Fold>): real {
    if folds == [] then 0.0 else FoldedBytes(folds[..|folds| - 1]) + folds[|folds| - 1].bytes
  }

  lemma {:induction false} KeptBetween(folds: seq<Fold>, edges: seq<real>, low: nat, high: nat)
    requires low <= high < |edges|
    requires forall r :: low <= r < high ==> !Covered(folds, r)
    ensures KeptBytes(folds, edges, high) - KeptBytes(folds, edges, low) == edges[high] - edges[low]
    decreases high - low
  {
    if low < high {
      KeptBetween(folds, edges, low, high - 1);
    }
  }

  lemma {:induction false} KeptInside(folds: seq<Fold>, edges: seq<real>, low: nat, high: nat)
    requires low <= high < |edges|
    requires forall r :: low <= r < high ==> Covered(folds, r)
    ensures KeptBytes(folds, edges, high) == KeptBytes(folds, edges, low)
    decreases high - low
  {
    if low < high {
      KeptInside(folds, edges, low, high - 1);
    }
  }

  ghost predicate Measured(folds: seq<Fold>, edges: seq<real>) {
    forall f :: 0 <= f < |folds| ==>
      0 <= folds[f].row && folds[f].rows >= 1 && folds[f].row + folds[f].rows < |edges|
      && folds[f].bytes == edges[folds[f].row + folds[f].rows] - edges[folds[f].row]
  }

  /** Where the first `n` folds end. */
  function FoldEnd(folds: seq<Fold>, n: nat): int
    requires n <= |folds|
  {
    if n == 0 then 0 else folds[n - 1].row + folds[n - 1].rows
  }

  /** Between the end of one fold and the start of the next nothing is covered. */
  lemma GapUncovered(folds: seq<Fold>, rows: nat, n: nat, low: int, high: int)
    requires Laid(folds, rows) && n <= |folds| && low == FoldEnd(folds, n)
    requires n < |folds| ==> high <= folds[n].row
    ensures forall r :: low <= r < high ==> !Covered(folds, r)
  {
    forall r | low <= r < high ensures !Covered(folds, r) {
      forall f | 0 <= f < |folds| ensures !InFold(folds[f], r) {
        assert f < n - 1 ==> folds[f].row + folds[f].rows < folds[n - 1].row;
        assert f > n ==> folds[n].row < folds[f].row;
      }
    }
  }

  lemma FoldCovers(folds: seq<Fold>, n: nat)
    requires n < |folds|
    ensures forall r :: folds[n].row <= r < folds[n].row + folds[n].rows ==> Covered(folds, r)
  {
    forall r | folds[n].row <= r < folds[n].row + folds[n].rows ensures Covered(folds, r) {
      assert InFold(folds[n], r);
    }
  }

  lemma FoldInside(folds: seq<Fold>, rows: int, n: nat)
    requires Laid(folds, rows) && n < |folds|
    ensures 0 <= FoldEnd(folds, n) <= folds[n].row && folds[n].rows >= 1 && folds[n].row + folds[n].rows <= rows
    ensures FoldEnd(folds, n + 1) == folds[n].row + folds[n].rows
  {}

  lemma KeptStep(folds: seq<Fold>, edges: seq<real>, rows: nat, n: nat)
    requires |edges| == rows + 1 && Laid(folds, rows) && n < |folds|
    ensures 0 <= FoldEnd(folds, n) <= folds[n].row && FoldEnd(folds, n + 1) <= rows
    ensures KeptBytes(folds, edges, FoldEnd(folds, n + 1))
         == KeptBytes(folds, edges, FoldEnd(folds, n)) + edges[folds[n].row] - edges[FoldEnd(folds, n)]
  {
    hide KeptBytes;
    var from, fold := FoldEnd(folds, n), folds[n];
    FoldInside(folds, rows, n);
    GapUncovered(folds, rows, n, from, fold.row);
    KeptBetween(folds, edges, from, fold.row);
    FoldCovers(folds, n);
    KeptInside(folds, edges, fold.row, fold.row + fold.rows);
  }

  lemma {:induction false} BytesUpTo(folds: seq<Fold>, edges: seq<real>, rows: nat, n: nat)
    requires |edges| == rows + 1 && Laid(folds, rows) && Measured(folds, edges) && n <= |folds|
    ensures 0 <= FoldEnd(folds, n) <= rows
    ensures FoldedBytes(folds[..n]) + KeptBytes(folds, edges, FoldEnd(folds, n)) == edges[FoldEnd(folds, n)] - edges[0]
  {
    hide Laid;
    if n > 0 {
      BytesUpTo(folds, edges, rows, n - 1);
      FoldInside(folds, rows, n - 1);
      KeptStep(folds, edges, rows, n - 1);
      FoldedNext(folds, n - 1);
    }
  }

  lemma FoldedNext(folds: seq<Fold>, n: nat)
    requires n < |folds|
    ensures FoldedBytes(folds[..n + 1]) == FoldedBytes(folds[..n]) + folds[n].bytes
  {
    assert folds[..n + 1][..n] == folds[..n];
  }

  /** Conservation: folded and kept bytes add up to the arena, exactly. */
  lemma BytesConserved(folds: seq<Fold>, columns: int, rows: int, edges: seq<real>, gaps: seq<bool>)
    requires Surveyed(columns, rows, edges, gaps)
    requires Laid(folds, rows) && AllDescribed(folds, columns, edges, gaps)
    ensures FoldedBytes(folds) + KeptBytes(folds, RowEdges(columns, rows, edges, gaps), rows)
         == edges[|gaps|] - edges[0]
  {
    var n, rowEdges := |folds|, RowEdges(columns, rows, edges, gaps);
    assert Measured(folds, rowEdges);
    BytesUpTo(folds, rowEdges, rows, n);
    assert folds[..n] == folds;
    forall r | FoldEnd(folds, n) <= r < rows ensures !Covered(folds, r) {
      forall f | 0 <= f < |folds| ensures !InFold(folds[f], r) {
        assert f < n - 1 ==> folds[f].row + folds[f].rows < folds[n - 1].row;
      }
    }
    KeptBetween(folds, rowEdges, FoldEnd(folds, n), rows);
  }

  /** Fold extents stay in the arena, ascend and do not touch. */
  lemma ExtentsAscend(folds: seq<Fold>, columns: int, rows: int, edges: seq<real>, gaps: seq<bool>, f: int, g: int)
    requires Surveyed(columns, rows, edges, gaps)
    requires Laid(folds, rows) && AllDescribed(folds, columns, edges, gaps)
    requires 0 <= f < g < |folds|
    ensures edges[0] <= folds[f].start < folds[f].end < folds[g].start < folds[g].end <= edges[|gaps|]
  {
    RowsGrow(columns, folds[f].row + folds[f].rows, folds[g].row);
  }
}
