/** What folds say about the arena's bytes: which rows collapse, and what a
    band's kind tells (gdr/heapmap.py). */
module FoldMeaning {
  import opened ArenaSpans
  import opened GridCells
  import opened GridFolds
  import opened HeapGrid

  /** Byte `b` lies, at least in part, between two positions of the arena. */
  predicate Reaches(b: int, low: real, high: real) {
    b as real < high && low < (b + 1) as real
  }

  /** Some byte of the stretch belongs to block `i`, or to nobody when `i` is -1. */
  ghost predicate BytesHave(heap: HeapMap, low: real, high: real, i: int) {
    exists b :: heap.base <= b < heap.end && Reaches(b, low, high) && Owns(heap, b, i)
  }

  /** Some byte of the stretch is in use. */
  ghost predicate HoldsUsed(heap: HeapMap, low: real, high: real) {
    exists j :: 0 <= j < |heap.blocks| && heap.blocks[j].used && BytesHave(heap, low, high, j)
  }

  /** Some cell in `[low, high)` stands for a span of block `i`. */
  ghost predicate CellsHave(plan: Plan, low: int, high: int, i: int)
    requires plan.InRange() && 0 <= low <= high <= plan.Cells()
  {
    exists c :: low <= c < high && plan.spans[plan.spanOf[c]].index == i
  }

  // ---- cells and bytes ---------------------------------------------------------------------

  lemma OrdinalWithin(start: int, size: int, count: int, o: int)
    requires size > 0 && 0 <= o < count
    ensures var share := ShareOf(size, count);
            && share > 0.0 && start as real <= Nth(start, o, share)
            && Nth(start, o, share) + share <= (start + size) as real
  {
    var share := ShareOf(size, count);
    assert count as real * share == size as real;
    assert o as real * share >= 0.0;
    assert (o + 1) as real * share == o as real * share + share;
    assert (count - o - 1) as real * share >= 0.0;
    assert count as real * share == (o + 1) as real * share + (count - o - 1) as real * share;
  }

  lemma CellInSpan(plan: Plan, base: int, end: int, c: int)
    requires plan.Valid(base, end) && plan.InRange() && 0 <= c < plan.Cells()
    ensures var span := plan.spans[plan.spanOf[c]];
            && span.start as real <= plan.CellLow(c)
            && plan.CellLow(c) + plan.Share(plan.spanOf[c]) <= (span.start + span.size) as real
            && plan.Share(plan.spanOf[c]) > 0.0
  {
    var k, o := plan.spanOf[c], plan.ordOf[c];
    OrdinalWithin(plan.spans[k].start, plan.spans[k].size, plan.counts[k], o);
  }

  /** The byte at which a cell begins lies in the cell's span. */
  lemma FirstByte(start: int, size: int, low: real, share: real) returns (b: int)
    requires start as real <= low && low + share <= (start + size) as real && share > 0.0
    ensures start <= b < start + size && Reaches(b, low, low + share)
  {
    b := low.Floor;
  }

  /** Where a position lies among rising edges. */
  lemma {:induction false} EdgeLocate(edges: seq<real>, low: nat, high: nat, x: real) returns (c: nat)
    requires low < high < |edges| && edges[low] <= x < edges[high]
    ensures low <= c < high && edges[c] <= x < edges[c + 1]
    decreases high - low
  {
    if low + 1 == high || edges[high - 1] <= x {
      c := high - 1;
    } else {
      c := EdgeLocate(edges, low, high - 1, x);
    }
  }

  /** A byte of a span that reaches into a stretch of cells has a cell of its span there. */
  lemma CellOfByte(plan: Plan, base: nat, end: int, low: nat, high: nat, b: int, k: nat) returns (c: nat)
    requires plan.Valid(base, end) && plan.InRange() && low < high <= plan.Cells()
    requires k < |plan.spans| && plan.spans[k].Has(b)
    requires Reaches(b, CellEdges(plan, end)[low], CellEdges(plan, end)[high])
    ensures low <= c < high && plan.spanOf[c] == k
  {
    hide Tiles, Placed, Dealt;
    var edges := CellEdges(plan, end);
    CellEdgesRise(plan, base, end);
    assert edges[low] < edges[high];
    var x := if b as real < edges[low] then edges[low] else b as real;
    c := EdgeLocate(edges, low, high, x);
    CellInSpan(plan, base, end, c);
    SpanOfPosition(plan.spans, base, end, plan.spanOf[c], k, x);
  }

  lemma SpanOfPosition(spans: seq<Span>, base: int, end: int, i: int, k: int, x: real)
    requires Tiles(spans, base, end) && 0 <= i < |spans| && 0 <= k < |spans|
    requires spans[i].start as real <= x < (spans[i].start + spans[i].size) as real
    requires spans[k].start as real <= x < (spans[k].start + spans[k].size) as real
    ensures i == k
  {
    TilesDisjoint(spans, base, end);
  }

  /** A stretch of cells names just the owners of its bytes. */
  lemma CellsAreBytes(heap: HeapMap, plan: Plan, low: nat, high: nat, i: int)
    requires plan.Valid(heap.base, heap.end) && plan.InRange() && Attributed(heap, plan.spans)
    requires low < high <= plan.Cells()
    ensures CellsHave(plan, low, high, i)
       <==> BytesHave(heap, CellEdges(plan, heap.end)[low], CellEdges(plan, heap.end)[high], i)
  {
    hide Tiles, Placed, Dealt, Owns;
    var edges := CellEdges(plan, heap.end);
    CellEdgesRise(plan, heap.base, heap.end);
    SpansInside(plan.spans, heap.base, heap.end);
    if CellsHave(plan, low, high, i) {
      var c :| low <= c < high && plan.spans[plan.spanOf[c]].index == i;
      var span := plan.spans[plan.spanOf[c]];
      CellInSpan(plan, heap.base, heap.end, c);
      var b := FirstByte(span.start, span.size, plan.CellLow(c), plan.Share(plan.spanOf[c]));
      assert span.Has(b);
      EdgesBetween(edges, low, c, high);
      assert Reaches(b, edges[low], edges[high]);
    }
    if BytesHave(heap, edges[low], edges[high], i) {
      var b :| heap.base <= b < heap.end && Reaches(b, edges[low], edges[high]) && Owns(heap, b, i);
      var k := TilesLocate(plan.spans, heap.base, heap.end, b);
      OwnerUnique(heap, b, plan.spans[k].index, i);
      var c := CellOfByte(plan, heap.base, heap.end, low, high, b, k);
    }
  }

  lemma EdgesBetween(edges: seq<real>, low: nat, c: nat, high: nat)
    requires Rising(edges) && low <= c < high < |edges|
    ensures edges[low] <= edges[c] && edges[c + 1] <= edges[high]
  {}

  lemma SpansInside(spans: seq<Span>, base: int, end: int)
    requires Tiles(spans, base, end)
    ensures forall k, b :: 0 <= k < |spans| && spans[k].Has(b) ==> base <= b < end
  {
    TilesDisjoint(spans, base, end);
  }

  // ---- rows and folds ------------------------------------------------------------------------

  /** Row `r` of the grid stands for a stretch of the arena that holds a byte in use. */
  ghost predicate RowHoldsUsed(heap: HeapMap, plan: Plan, r: int)
    requires plan.Valid(heap.base, heap.end) && plan.InRange() && 0 <= r < plan.rows
  {
    RowsGrow(plan.columns, 0, r);
    RowsGrow(plan.columns, r, r + 1);
    RowsGrow(plan.columns, r + 1, plan.rows);
    HoldsUsed(heap, CellEdges(plan, heap.end)[plan.Row(r)], CellEdges(plan, heap.end)[plan.Row(r + 1)])
  }

  lemma RowUnusedMeans(heap: HeapMap, plan: Plan, r: int)
    requires plan.Valid(heap.base, heap.end) && plan.InRange() && Attributed(heap, plan.spans)
    requires BlocksKnown(plan, heap.blocks) && 0 <= r < plan.rows
    ensures Foldable(plan, heap.blocks, r) <==> !RowHoldsUsed(heap, plan, r)
  {
    hide Tiles, Placed, Dealt, Owns, BytesHave, Attributed;
    RowsGrow(plan.columns, 0, r);
    RowsGrow(plan.columns, r, r + 1);
    RowsGrow(plan.columns, r + 1, plan.rows);
    var low, high := plan.Row(r), plan.Row(r + 1);
    forall j ensures CellsHave(plan, low, high, j)
                <==> BytesHave(heap, CellEdges(plan, heap.end)[low], CellEdges(plan, heap.end)[high], j) {
      CellsAreBytes(heap, plan, low, high, j);
    }
    if !RowUnused(plan, heap.blocks, r) {
      var c :| low <= c < high && !CellUnused(plan, heap.blocks, c);
      assert CellsHave(plan, low, high, plan.spans[plan.spanOf[c]].index);
    }
    if RowHoldsUsed(heap, plan, r) {
      var j :| 0 <= j < |heap.blocks| && heap.blocks[j].used
               && BytesHave(heap, CellEdges(plan, heap.end)[low], CellEdges(plan, heap.end)[high], j);
      assert CellsHave(plan, low, high, j);
      var c :| low <= c < high && plan.spans[plan.spanOf[c]].index == j;
      assert !CellUnused(plan, heap.blocks, c);
    }
  }

  /** A row folds exactly when no byte of its stretch of the arena is in use and
      some other row's stretch does hold such a byte. */
  lemma FoldedRowsMeans(heap: HeapMap, layout: Layout, plan: Plan, units: int)
    requires WeightedLayout(heap, layout, plan, units)
    ensures forall r :: Covered(layout.folds, r) <==>
              && 0 <= r < plan.rows && !RowHoldsUsed(heap, plan, r)
              && exists q :: 0 <= q < plan.rows && RowHoldsUsed(heap, plan, q)
  {
    hide RowHoldsUsed, Foldable, Covered, AllDescribed, HeightsFit, RunsTile, Laid;
    forall r | 0 <= r < plan.rows ensures Foldable(plan, heap.blocks, r) <==> !RowHoldsUsed(heap, plan, r) {
      RowUnusedMeans(heap, plan, r);
    }
    FoldableInside(plan, heap.blocks);
  }

  /** A band is free exactly when every byte it stands for has an owner, and
      unknown exactly when none has. */
  lemma FoldKindMeans(heap: HeapMap, layout: Layout, plan: Plan, units: int, f: int)
    requires WeightedLayout(heap, layout, plan, units) && 0 <= f < |layout.folds|
    ensures var fold := layout.folds[f];
            && (fold.kind.Free? <==> !BytesHave(heap, fold.start, fold.end, -1))
            && (fold.kind.Unknown? <==>
                  forall j :: 0 <= j < |heap.blocks| ==> !BytesHave(heap, fold.start, fold.end, j))
            && fold.bytes == fold.end - fold.start
  {
    hide FoldsExact, HeightsFit, RunsTile, Tiles, Placed, Dealt, Attributed, BytesHave;
    var fold := layout.folds[f];
    assert Describes(fold, plan.columns, CellEdges(plan, heap.end), Gaps(plan));
    var low, high := RowStart(plan.columns, fold.row), RowStart(plan.columns, fold.row + fold.rows);
    forall j ensures CellsHave(plan, low, high, j) <==> BytesHave(heap, fold.start, fold.end, j) {
      CellsAreBytes(heap, plan, low, high, j);
    }
    FlaggedCells(heap, plan, low, high);
  }

  lemma FlaggedCells(heap: HeapMap, plan: Plan, low: nat, high: nat)
    requires plan.InRange() && BlocksKnown(plan, heap.blocks) && low < high <= plan.Cells()
    ensures Flagged(Gaps(plan), true, low, high) <==> CellsHave(plan, low, high, -1)
    ensures Flagged(Gaps(plan), false, low, high)
       <==> exists j :: 0 <= j < |heap.blocks| && CellsHave(plan, low, high, j)
    ensures CellsHave(plan, low, high, -1) || exists j :: 0 <= j < |heap.blocks| && CellsHave(plan, low, high, j)
  {
    var gaps := Gaps(plan);
    forall c | low <= c < high
      ensures var i := plan.spans[plan.spanOf[c]].index;
              CellsHave(plan, low, high, i) && -1 <= i < |heap.blocks| && (gaps[c] == true <==> i == -1)
    {
      assert gaps[c] == plan.IsGap(c);
    }
    assert gaps[low] == true || gaps[low] == false;
    forall i | CellsHave(plan, low, high, i) ensures exists c :: low <= c < high && gaps[c] == (i == -1) {
      var c :| low <= c < high && plan.spans[plan.spanOf[c]].index == i;
      assert gaps[c] == (i == -1);
    }
  }
}
