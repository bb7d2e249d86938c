/** From counts to cells: the runs a grid is drawn from, the span and ordinal
    behind each cell, and the exact stretch of the arena each cell stands for
    (gdr/heapmap.py, `grid_layout`). */
module GridCells {
  import opened Arith
  import opened ArenaSpans
  import opened Common

  /** First cell of a grid row, `row * columns`, as a running total. */
  function RowStart(columns: int, row: int): int {
    if row <= 0 then 0 else RowStart(columns, row - 1) + columns
  }

  lemma {:induction false} RowStartProduct(columns: int, row: nat)
    ensures RowStart(columns, row) == row * columns
  {
    if row > 0 {
      RowStartProduct(columns, row - 1);
      Distribute(columns, row - 1, 1);
    }
  }

  lemma {:induction false} RowsGrow(columns: int, low: nat, high: nat)
    requires columns >= 1 && low <= high
    ensures 0 <= RowStart(columns, low) && RowStart(columns, low) + (high - low) <= RowStart(columns, high)
    decreases high
  {
    if low < high {
      RowsGrow(columns, low, high - 1);
    } else if low > 0 {
      RowsGrow(columns, low - 1, low - 1);
    }
  }

  datatype Run = Run(start: int, stop: int, index: int)

  /** Cells `[0, |counts| summed)` dealt out to the spans in order, on rows of `columns`. */
  datatype Plan = Plan(spans: seq<Span>, counts: seq<int>, rows: int, columns: int,
                       spanOf: seq<int>, ordOf: seq<int>) {
    function Cells(): int {
      RowStart(columns, rows)
    }

    function Row(row: int): int {
      RowStart(columns, row)
    }

    /** The arena `[base, end)` is tiled, every span has a cell and every cell a span. */
    ghost predicate Valid(base: int, end: int) {
      && rows >= 1 && columns >= 1
      && Tiles(spans, base, end)
      && Dealt(counts, Cells())
      && |counts| == |spans|
      && Placed(counts, spanOf, ordOf, Cells())
    }

    predicate InRange() {
      && |spanOf| == |ordOf| == Cells() && |counts| == |spans|
      && (forall c :: 0 <= c < |spanOf| ==> 0 <= spanOf[c] < |spans|)
      && (forall k :: 0 <= k < |counts| ==> counts[k] >= 1)
    }

    predicate IsGap(c: int)
      requires InRange() && 0 <= c < Cells()
    {
      spans[spanOf[c]].index < 0
    }

    /** Arena bytes one cell of span `k` stands for, as an exact fraction. */
    function Share(k: int): real
      requires 0 <= k < |spans| == |counts| && counts[k] >= 1
    {
      ShareOf(spans[k].size, counts[k])
    }

    function CellLow(c: int): real
      requires InRange() && 0 <= c < Cells()
    {
      Nth(spans[spanOf[c]].start, ordOf[c], Share(spanOf[c]))
    }

    /** The arena position at which cell `c` begins; the arena's end past the last cell. */
    function Edge(c: int, end: int): real
      requires InRange() && 0 <= c <= Cells()
    {
      if c == Cells() then end as real else CellLow(c)
    }
  }

  function ShareOf(size: int, count: int): real
    requires count >= 1
  {
    size as real / count as real
  }

  /** Where the `o`-th share past `start` begins. */
  function Nth(start: int, o: int, share: real): real {
    start as real + o as real * share
  }

  ghost predicate Dealt(counts: seq<int>, cells: int) {
    (forall k :: 0 <= k < |counts| ==> counts[k] >= 1) && Sum(counts) == cells
  }

  /** Cell `c` is the `ordOf[c]`-th cell of span `spanOf[c]`. */
  ghost predicate Placed(counts: seq<int>, spanOf: seq<int>, ordOf: seq<int>, cells: int) {
    && |spanOf| == |ordOf| == cells
    && forall c :: 0 <= c < cells ==>
         && 0 <= spanOf[c] < |counts|
         && 0 <= ordOf[c] < counts[spanOf[c]]
         && c == Sum(counts[..spanOf[c]]) + ordOf[c]
  }

  lemma OffsetNext(counts: seq<int>, k: nat)
    requires k < |counts|
    ensures Sum(counts[..k + 1]) == Sum(counts[..k]) + counts[k]
  {
    assert counts[..k + 1] == counts[..k] + [counts[k]];
    SumAppend(counts[..k], counts[k]);
  }

  lemma {:induction false} OffsetsGrow(counts: seq<int>, j: nat, k: nat)
    requires j <= k <= |counts|
    requires forall i :: 0 <= i < |counts| ==> counts[i] >= 1
    ensures Sum(counts[..j]) + (k - j) <= Sum(counts[..k])
    ensures Sum(counts[..k]) <= Sum(counts)
    decreases k - j, |counts| - k
  {
    assert counts[..|counts|] == counts;
    if j < k {
      OffsetNext(counts, k - 1);
      OffsetsGrow(counts, j, k - 1);
    }
    if k < |counts| {
      OffsetNext(counts, k);
      OffsetsUnderSum(counts, k);
    }
  }

  lemma {:induction false} OffsetsUnderSum(counts: seq<int>, k: nat)
    requires k <= |counts|
    requires forall i :: 0 <= i < |counts| ==> counts[i] >= 1
    ensures Sum(counts[..k]) <= Sum(counts)
  {
    assert counts == counts[..k] + counts[k..];
    SumConcat(counts[..k], counts[k..]);
    SumNonNegative(counts[k..]);
  }

  /** A cell has one span and one ordinal. */
  lemma PlaceUnique(counts: seq<int>, k: nat, o: nat, k': nat, o': nat)
    requires forall i :: 0 <= i < |counts| ==> counts[i] >= 1
    requires k < |counts| && k' < |counts| && o < counts[k] && o' < counts[k']
    requires Sum(counts[..k]) + o == Sum(counts[..k']) + o'
    ensures k == k' && o == o'
  {
    OffsetNext(counts, k);
    OffsetNext(counts, k');
    if k < k' {
      OffsetsGrow(counts, k + 1, k');
    } else if k' < k {
      OffsetsGrow(counts, k' + 1, k);
    }
  }

  /** Runs follow the spans and tile the cells: each is non-empty and starts where the previous one stops. */
  ghost predicate RunsTile(runs: seq<Run>, spans: seq<Span>, counts: seq<int>) {
    && |runs| == |spans| == |counts|
    && forall k :: 0 <= k < |runs| ==>
         runs[k] == Run(Sum(counts[..k]), Sum(counts[..k]) + counts[k], spans[k].index)
  }

  method LayRuns(spans: seq<Span>, counts: seq<int>) returns (runs: seq<Run>)
    requires |spans| == |counts|
    ensures RunsTile(runs, spans, counts)
  {
    runs := [];
    var start := 0;
    assert Sum(counts[..0]) == 0;
    hide Sum;
    for k := 0 to |spans|
      invariant |runs| == k && start == Sum(counts[..k])
      invariant forall j :: 0 <= j < k ==>
                  runs[j] == Run(Sum(counts[..j]), Sum(counts[..j]) + counts[j], spans[j].index)
    {
      runs := runs + [Run(start, start + counts[k], spans[k].index)];
      OffsetNext(counts, k);
      start := start + counts[k];
    }
  }

  method PlaceCells(counts: seq<int>, cells: nat) returns (spanOf: seq<int>, ordOf: seq<int>)
    requires Dealt(counts, cells)
    ensures Placed(counts, spanOf, ordOf, cells)
  {
    var cellSpan := new int[cells](_ => -1);
    var cellOrd := new int[cells](_ => 0);
    var cursor := 0;
    for position := 0 to |counts|
      invariant cursor == Sum(counts[..position]) && 0 <= cursor <= cells
      invariant Placed(counts, cellSpan[..cursor], cellOrd[..cursor], cursor)
    {
      OffsetNext(counts, position);
      OffsetsUnderSum(counts, position + 1);
      for ordinal := 0 to counts[position]
        invariant cursor == Sum(counts[..position]) + ordinal && 0 <= cursor <= cells
        invariant Placed(counts, cellSpan[..cursor], cellOrd[..cursor], cursor)
      {
        ghost var before := cellSpan[..cursor];
        ghost var ordBefore := cellOrd[..cursor];
        cellSpan[cursor] := position;
        cellOrd[cursor] := ordinal;
        cursor := cursor + 1;
        assert cellSpan[..cursor] == before + [position];
        assert cellOrd[..cursor] == ordBefore + [ordinal];
      }
    }
    assert counts[..|counts|] == counts;
    spanOf, ordOf := cellSpan[..], cellOrd[..];
    assert spanOf == cellSpan[..cells] && ordOf == cellOrd[..cells];
  }

  /** A cell lies in exactly the run of its own span. */
  lemma CellsFollowRuns(plan: Plan, runs: seq<Run>, base: int, end: int, c: int, k: int)
    requires plan.Valid(base, end) && RunsTile(runs, plan.spans, plan.counts)
    requires 0 <= c < plan.Cells() && 0 <= k < |runs|
    ensures runs[k].start <= c < runs[k].stop <==> plan.spanOf[c] == k
  {
    if runs[k].start <= c < runs[k].stop {
      PlaceUnique(plan.counts, k, c - runs[k].start, plan.spanOf[c], plan.ordOf[c]);
    }
  }

  /** Runs are non-empty and consecutive from cell 0 to the last cell. */
  lemma RunsCoverGrid(plan: Plan, runs: seq<Run>, base: int, end: int)
    requires plan.Valid(base, end) && RunsTile(runs, plan.spans, plan.counts)
    ensures runs != [] && runs[0].start == 0 && runs[|runs| - 1].stop == plan.Cells()
    ensures forall k :: 0 <= k < |runs| ==> runs[k].start < runs[k].stop
    ensures forall i, j :: 0 <= i < j < |runs| && j == i + 1 ==> runs[i].stop == runs[j].start
  {
    RowsGrow(plan.columns, 1, plan.rows);
    var n := |plan.counts|;
    assert plan.counts[..n] == plan.counts;
    forall k | 0 <= k < n ensures Sum(plan.counts[..k]) + plan.counts[k] == Sum(plan.counts[..k + 1]) {
      OffsetNext(plan.counts, k);
    }
  }

  /** The cell after `c` continues its span, opens the next one, or does not exist. */
  lemma NextPlace(counts: seq<int>, spanOf: seq<int>, ordOf: seq<int>, cells: int, c: int)
    requires Dealt(counts, cells) && Placed(counts, spanOf, ordOf, cells) && 0 <= c < cells
    ensures var k, o := spanOf[c], ordOf[c];
            if o + 1 < counts[k] then c + 1 < cells && spanOf[c + 1] == k && ordOf[c + 1] == o + 1
            else if k + 1 < |counts| then c + 1 < cells && spanOf[c + 1] == k + 1 && ordOf[c + 1] == 0
            else c + 1 == cells
  {
    var k, o := spanOf[c], ordOf[c];
    OffsetNext(counts, k);
    if o + 1 < counts[k] {
      OffsetsUnderSum(counts, k + 1);
      PlaceUnique(counts, k, o + 1, spanOf[c + 1], ordOf[c + 1]);
    } else if k + 1 < |counts| {
      OffsetNext(counts, k + 1);
      OffsetsUnderSum(counts, k + 2);
      PlaceUnique(counts, k + 1, 0, spanOf[c + 1], ordOf[c + 1]);
    } else {
      assert counts[..k + 1] == counts;
    }
  }

  lemma NextStart(spans: seq<Span>, base: int, end: int, k: nat)
    requires Tiles(spans, base, end) && k < |spans|
    ensures spans[k].start + spans[k].size == (if k + 1 < |spans| then spans[k + 1].start else end)
  {}

  /** Cells stand for consecutive stretches: each ends where the next begins. */
  lemma CellEndsAtNext(plan: Plan, base: int, end: int, c: int)
    requires plan.Valid(base, end) && plan.InRange() && 0 <= c < plan.Cells()
    ensures plan.CellLow(c) + plan.Share(plan.spanOf[c]) == plan.Edge(c + 1, end)
    ensures plan.Share(plan.spanOf[c]) > 0.0
  {
    var k, o := plan.spanOf[c], plan.ordOf[c];
    NextPlace(plan.counts, plan.spanOf, plan.ordOf, plan.Cells(), c);
    NextStart(plan.spans, base, end, k);
    StepOrFinish(plan.spans[k].start, plan.spans[k].size, plan.counts[k], o);
    if k + 1 < |plan.spans| {
      NthZero(plan.spans[k + 1].start, plan.Share(k + 1));
    }
  }

  lemma NthZero(start: int, share: real)
    ensures Nth(start, 0, share) == start as real
  {}

  lemma StepOrFinish(start: int, size: int, count: int, o: int)
    requires size > 0 && 0 <= o < count
    ensures var share := ShareOf(size, count);
            && share > 0.0
            && Nth(start, o, share) + share == Nth(start, o + 1, share)
            && (o + 1 == count ==> Nth(start, o, share) + share == (start + size) as real)
  {
    var share := ShareOf(size, count);
    assert count as real * share == size as real;
    assert (o + 1) as real * share == o as real * share + share;
  }

  lemma FirstCell(plan: Plan, base: int, end: int)
    requires plan.Valid(base, end) && plan.InRange()
    ensures plan.Edge(0, end) == base as real
  {
    RowsGrow(plan.columns, 1, plan.rows);
    assert plan.counts != [] by {
      if plan.counts == [] { assert false; }
    }
    PlaceUnique(plan.counts, 0, 0, plan.spanOf[0], plan.ordOf[0]);
    NthZero(plan.spans[0].start, plan.Share(0));
  }

  /** Edges only grow. */
  lemma {:induction false} EdgesGrow(plan: Plan, base: int, end: int, c: int, d: int)
    requires plan.Valid(base, end) && plan.InRange() && 0 <= c <= d <= plan.Cells()
    ensures plan.Edge(c, end) <= plan.Edge(d, end)
    ensures c < d ==> plan.Edge(c, end) < plan.Edge(d, end)
    decreases d - c
  {
    if c < d {
      CellEndsAtNext(plan, base, end, d - 1);
      EdgesGrow(plan, base, end, c, d - 1);
    }
  }
}
