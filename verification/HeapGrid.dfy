/** `grid_layout`: from a heap map to the serialized cell grid shared by the
    bitmap and the panel (gdr/heapmap.py). */
module HeapGrid {
  import opened Arith
  import opened ArenaSpans
  import opened Common
  import opened GridCells
  import opened GridFolds
  import opened Pixels
  import Apportion
  import GridShape
  import Legend
  import RowExact

  const BACKGROUND := Rgb(0x1E, 0x1E, 0x1E)

  datatype Layout = Layout(width: int, height: int, scale: int, runs: seq<Run>, folds: seq<Fold>)

  /** The `--row-bytes` error: how many rows it would take. */
  datatype TooManyRows = TooManyRows(rows: int)

  /** Where the layout came from: spans and cells, or the rows of a row-exact layout. */
  datatype Origin =
    | Empty
    | Weighted(plan: Plan, legendUnits: int)
    | ByRows(spans: seq<Span>, rowBytes: int, laid: seq<seq<Run>>)

  lemma IndexesKnown(heap: HeapMap, spans: seq<Span>)
    requires Attributed(heap, spans) && forall k :: 0 <= k < |spans| ==> spans[k].size > 0
    ensures forall k :: 0 <= k < |spans| ==> -1 <= spans[k].index < |heap.blocks|
  {
    forall k | 0 <= k < |spans| ensures -1 <= spans[k].index < |heap.blocks| {
      assert spans[k].Has(spans[k].start);
      assert Owns(heap, spans[k].start, spans[k].index);
    }
  }

  /** Rows painted one by one once folds have collapsed theirs. */
  function KeptRows(layout: Layout): int {
    layout.height - Sum(RowCounts(layout.folds))
  }

  /** Bands share the spare height evenly, earlier ones first, and the bitmap
      reaches the legend. */
  ghost predicate HeightsFit(layout: Layout, legendUnits: int) {
    && (forall f :: 0 <= f < |layout.folds| ==> layout.folds[f].height >= 1)
    && (forall f, g :: 0 <= f < |layout.folds| && 0 <= g < |layout.folds| ==>
          layout.folds[f].height <= layout.folds[g].height + (if f <= g then 1 else 0))
    && (layout.folds != [] ==>
          KeptRows(layout) + Sum(Heights(layout.folds)) == Max(KeptRows(layout) + |layout.folds|, legendUnits))
  }

  /** A size-weighted layout and the spans and cells behind it. */
  ghost predicate WeightedLayout(heap: HeapMap, layout: Layout, plan: Plan, legendUnits: int) {
    && plan.Valid(heap.base, heap.end) && plan.InRange() && Attributed(heap, plan.spans)
    && BlocksKnown(plan, heap.blocks)
    && layout.width == plan.columns && layout.height == plan.rows
    && RunsTile(layout.runs, plan.spans, plan.counts)
    && FoldsExact(layout.folds, plan, heap.blocks)
    && AllDescribed(layout.folds, plan.columns, CellEdges(plan, heap.end), Gaps(plan))
    && HeightsFit(layout, legendUnits)
  }

  /** The planned shape, and the cells shared out by largest remainder. */
  ghost predicate PlannedFrom(heap: HeapMap, plan: Plan, cellPx: int, maxPx: int)
    requires cellPx >= 1
  {
    && GridShape.Sized(Sizes(plan.spans), heap.end - heap.base)
    && var desired := GridShape.Desired(Sizes(plan.spans), heap.end - heap.base);
       && plan.rows == GridShape.Rows(desired, cellPx, maxPx)
           && plan.columns == GridShape.Columns(desired, cellPx, maxPx)
       && Apportion.Splittable(Sizes(plan.spans), heap.end - heap.base, plan.rows * plan.columns, true)
       && plan.counts == Apportion.Counts(Sizes(plan.spans), heap.end - heap.base, plan.rows * plan.columns, true)
  }

  /** The height the bands must reach: that of the legend the painter will draw. */
  function LegendFloor(ranking: seq<string>, columns: int, rows: int, cellPx: int, maxPx: int): int
    requires cellPx >= 1
  {
    if ranking == [] then 0
    else CeilDiv(Legend.PlanOf(Entries(ranking), columns * cellPx, rows * cellPx, maxPx).height, cellPx)
  }

  /** A row-exact layout: enough rows, each laid from its own window, no folds. */
  ghost predicate ByRowsLayout(heap: HeapMap, layout: Layout, spans: seq<Span>, rowBytes: int, laid: seq<seq<Run>>) {
    && Tiles(spans, heap.base, heap.end) && Attributed(heap, spans)
    && RowExact.EnoughRows(heap, rowBytes, layout.height) && layout.height <= RowExact.MAX_ROWS
    && layout.width >= 1 && |laid| == layout.height
    && RowExact.RowsLaid(heap, spans, rowBytes, layout.width, laid)
    && layout.runs == RowExact.Joined(laid) && layout.folds == []
  }

  ghost predicate LaidOut(heap: HeapMap, layout: Layout, origin: Origin) {
    match origin
    case Empty => heap.base >= heap.end && layout.width == layout.height == 0 && layout.runs == [] && layout.folds == []
    case Weighted(plan, units) => heap.base < heap.end && WeightedLayout(heap, layout, plan, units)
    case ByRows(spans, rowBytes, laid) => heap.base < heap.end && ByRowsLayout(heap, layout, spans, rowBytes, laid)
  }

  function Entries(texts: seq<string>): (e: seq<Legend.Entry>)
    ensures |e| == |texts|
  {
    seq(|texts|, i requires 0 <= i < |texts| => Legend.Entry(BACKGROUND, texts[i]))
  }

  /** Grid units the legend needs beside the bitmap; none without a ranking. */
  method LegendUnits(ranking: seq<string>, columns: int, rows: int, cellPx: int, maxPx: int) returns (units: int)
    requires cellPx >= 1
    ensures units == LegendFloor(ranking, columns, rows, cellPx, maxPx)
    ensures units >= 0 && (ranking == [] ==> units == 0)
    ensures ranking != [] ==> units * cellPx >= Legend.LEGEND_PAD + 4 + Legend.LINE_STEP
  {
    var plan := Legend.MakePlan(Entries(ranking), columns * cellPx, rows * cellPx, maxPx);
    units := if ranking != [] then CeilDiv(plan.height, cellPx) else 0;
    if ranking != [] && units < 0 {
      MulMonotone(units, -1, cellPx);
    }
  }

  /** Notes appended to the owners' ranking before its height is measured. */
  function Notes(layout: Layout, truncated: bool): seq<string> {
    (if (exists k :: 0 <= k < |layout.runs| && layout.runs[k].index < 0)
        || (exists f :: 0 <= f < |layout.folds| && !layout.folds[f].kind.Free?)
     then ["unknown/unreadable arena span"] else [])
    + (if truncated then ["incomplete block walk"] else [])
  }

  lemma RaisedHeights(layout: Layout, raised: seq<Fold>, extra: nat, legendUnits: int)
    requires layout.folds != [] && |raised| == |layout.folds|
    requires forall f :: 0 <= f < |layout.folds| ==> layout.folds[f].height == 1
    requires forall j :: 0 <= j < |raised| ==> raised[j] == layout.folds[j].(height :=
               layout.folds[j].height + extra / |layout.folds| + (if j < extra % |layout.folds| then 1 else 0))
    requires Sum(Heights(raised)) == Sum(Heights(layout.folds)) + extra
    requires extra == Max(KeptRows(layout) + |layout.folds|, legendUnits) - (KeptRows(layout) + |layout.folds|)
    ensures HeightsFit(layout.(folds := raised), legendUnits)
    ensures RowCounts(raised) == RowCounts(layout.folds)
  {
    OnesSum(layout.folds);
    DivMod(extra, |layout.folds|);
    if extra / |layout.folds| < 0 {
      MulMonotone(extra / |layout.folds|, -1, |layout.folds|);
    }
    assert RowCounts(raised) == RowCounts(layout.folds);
  }

  lemma {:induction false} OnesSum(folds: seq<Fold>)
    requires forall f :: 0 <= f < |folds| ==> folds[f].height == 1
    ensures Sum(Heights(folds)) == |folds|
  {
    if folds != [] {
      OnesSum(folds[..|folds| - 1]);
      assert Heights(folds)[..|folds| - 1] == Heights(folds[..|folds| - 1]);
    }
  }

  /** Height changes leave everything a fold describes alone. */
  lemma RaisedSame(folds: seq<Fold>, raised: seq<Fold>, plan: Plan, blocks: seq<Block>, edges: seq<real>,
                   gaps: seq<bool>)
    requires |raised| == |folds|
    requires forall j :: 0 <= j < |raised| ==> raised[j] == folds[j].(height := raised[j].height)
    requires FoldsExact(folds, plan, blocks) && AllDescribed(folds, plan.columns, edges, gaps)
    ensures FoldsExact(raised, plan, blocks) && AllDescribed(raised, plan.columns, edges, gaps)
  {
    forall r ensures Covered(raised, r) <==> Covered(folds, r) {
      if f :| 0 <= f < |folds| && InFold(folds[f], r) {
        assert InFold(raised[f], r);
      }
      if f :| 0 <= f < |raised| && InFold(raised[f], r) {
        assert InFold(folds[f], r);
      }
    }
    forall j | 0 <= j < |raised| ensures Describes(raised[j], plan.columns, edges, gaps) {
      assert Describes(folds[j], plan.columns, edges, gaps);
    }
  }

  lemma RaisedNotes(layout: Layout, raised: seq<Fold>, truncated: bool)
    requires |raised| == |layout.folds|
    requires forall j :: 0 <= j < |raised| ==> raised[j] == layout.folds[j].(height := raised[j].height)
    ensures Notes(layout.(folds := raised), truncated) == Notes(layout, truncated)
  {
    assert forall f :: 0 <= f < |raised| ==> raised[f].kind == layout.folds[f].kind;
  }

  /** The folds of a planned grid, raised so that the bitmap reaches its legend. */
  method FoldPlan(cells: Plan, blocks: seq<Block>, truncated: bool, ranking: seq<string>, runs: seq<Run>,
                  cellPx: int, maxPx: int, ghost edges: seq<real>, ghost gaps: seq<bool>)
    returns (layout: Layout, ghost units: int)
    requires Consistent(cells, edges, gaps) && BlocksKnown(cells, blocks) && cellPx >= 1
    ensures layout == Layout(cells.columns, cells.rows, cellPx, runs, layout.folds)
    ensures FoldsExact(layout.folds, cells, blocks) && AllDescribed(layout.folds, cells.columns, edges, gaps)
    ensures HeightsFit(layout, units)
    ensures layout.folds != [] ==>
      units == LegendFloor(ranking + Notes(layout, truncated), cells.columns, cells.rows, cellPx, maxPx)
  {
    hide LegendFloor, Sum, FoldsExact, AllDescribed, Consistent, Notes;
    var folds, foldedRows := FoldRows(cells, blocks, edges, gaps);
    layout := Layout(cells.columns, cells.rows, cellPx, runs, folds);
    units := 0;
    if folds != [] {
      var legendUnits := LegendUnits(ranking + Notes(layout, truncated), cells.columns, cells.rows, cellPx, maxPx);
      units := legendUnits;
      var kept := cells.rows - foldedRows + |folds|;
      var extra := Max(kept, legendUnits) - kept;
      var raised := RaiseFolds(folds, extra);
      RaisedHeights(layout, raised, extra, legendUnits);
      RaisedSame(folds, raised, cells, blocks, edges, gaps);
      RaisedNotes(layout, raised, truncated);
      layout := layout.(folds := raised);
    }
  }

  method WeightedGrid(heap: HeapMap, ranking: seq<string>, spans: seq<Span>, cellPx: int, maxPx: int)
    returns (layout: Layout, ghost plan: Plan, ghost units: int)
    requires spans != [] && Tiles(spans, heap.base, heap.end) && Attributed(heap, spans) && cellPx >= 1
    ensures WeightedLayout(heap, layout, plan, units) && plan.spans == spans && layout.scale == cellPx
    ensures PlannedFrom(heap, plan, cellPx, maxPx)
    ensures layout.folds != [] ==>
      units == LegendFloor(ranking + Notes(layout, heap.truncated), layout.width, layout.height, cellPx, maxPx)
  {
    var cells := PlanCells(heap, spans, cellPx, maxPx);
    plan := cells;
    PlanSurvey(cells, heap.base, heap.end);
    var runs := LayRuns(spans, cells.counts);
    layout, units := FoldPlan(cells, heap.blocks, heap.truncated, ranking, runs, cellPx, maxPx,
                              CellEdges(cells, heap.end), Gaps(cells));
  }

  method PlanCells(heap: HeapMap, spans: seq<Span>, cellPx: int, maxPx: int) returns (plan: Plan)
    requires spans != [] && Tiles(spans, heap.base, heap.end) && Attributed(heap, spans) && cellPx >= 1
    ensures plan.Valid(heap.base, heap.end) && plan.InRange() && plan.spans == spans
    ensures BlocksKnown(plan, heap.blocks) && PlannedFrom(heap, plan, cellPx, maxPx)
  {
    var sizes := Sizes(spans);
    TilesSum(spans, heap.base, heap.end);
    var rows, columns, counts := GridShape.Distribute(sizes, Sum(sizes), cellPx, maxPx);
    Apportion.CountsFloor(sizes, Sum(sizes), rows * columns, true);
    RowStartProduct(columns, rows);
    var spanOf, ordOf := PlaceCells(counts, rows * columns);
    plan := Plan(spans, counts, rows, columns, spanOf, ordOf);
    IndexesKnown(heap, spans);
  }

  method GridLayout(heap: HeapMap, ranking: seq<string>, cellPx: int, maxPx: int, rowBytes: Option<int>)
    returns (result: Result<Layout, TooManyRows>, ghost origin: Origin)
    requires cellPx >= 1 && (rowBytes.Some? ==> rowBytes.value >= 1)
    ensures result.Ok? ==> LaidOut(heap, result.value, origin) && result.value.scale == cellPx
    ensures result.Ok? && origin.Weighted? ==>
      && rowBytes.None? && PlannedFrom(heap, origin.plan, cellPx, maxPx)
      && (result.value.folds != [] ==>
            origin.legendUnits == LegendFloor(ranking + Notes(result.value, heap.truncated), result.value.width,
                                              result.value.height, cellPx, maxPx))
    ensures result.Ok? && origin.ByRows? ==>
      && rowBytes == Some(origin.rowBytes) && GridShape.Sized(Sizes(origin.spans), heap.end - heap.base)
      && result.value.width == GridShape.Columns(GridShape.Desired(Sizes(origin.spans), heap.end - heap.base), cellPx,
          maxPx)
    ensures result.Err? <==>
      rowBytes.Some? && heap.base < heap.end && heap.end - heap.base > RowExact.MAX_ROWS * rowBytes.value
  {
    origin := Empty;
    var spans := CutSpans(heap);
    if spans == [] {
      return Ok(Layout(0, 0, cellPx, [], [])), origin;
    }
    TilesDisjoint(spans, heap.base, Max(heap.base, heap.end));
    if rowBytes.Some? {
      result, origin := RowExactGrid(heap, spans, cellPx, maxPx, rowBytes.value);
      return;
    }
    var layout;
    ghost var plan, units;
    layout, plan, units := WeightedGrid(heap, ranking, spans, cellPx, maxPx);
    result, origin := Ok(layout), Weighted(plan, units);
  }

  method RowExactGrid(heap: HeapMap, spans: seq<Span>, cellPx: int, maxPx: int, rowBytes: int)
    returns (result: Result<Layout, TooManyRows>, ghost origin: Origin)
    requires spans != [] && Tiles(spans, heap.base, heap.end) && Attributed(heap, spans)
    requires heap.base < heap.end && cellPx >= 1 && rowBytes >= 1
    ensures result.Ok? ==>
      && origin.ByRows? && origin.rowBytes == rowBytes && origin.spans == spans
          && GridShape.Sized(Sizes(spans), heap.end - heap.base)
      && result.value.width == GridShape.Columns(GridShape.Desired(Sizes(spans), heap.end - heap.base), cellPx, maxPx)
      && LaidOut(heap, result.value, origin) && result.value.scale == cellPx
    ensures result.Err? <==> heap.end - heap.base > RowExact.MAX_ROWS * rowBytes
  {
    hide Sum, RowExact.TiledRows, RowExact.RowsLaid, RowExact.EnoughRows, Attributed;
    origin := Empty;
    var sizes := Sizes(spans);
    TilesSum(spans, heap.base, heap.end);
    var arena := Sum(sizes);
    var rows := Max(1, CeilDiv(arena, rowBytes));
    RowExact.CeilEnoughRows(heap, rowBytes);
    RowsCapped(arena, rowBytes);
    if rows > RowExact.MAX_ROWS {
      return Err(TooManyRows(rows)), origin;
    }
    var rowsD, columns, countsD := GridShape.Distribute(sizes, arena, cellPx, maxPx);
    var runs;
    ghost var laid;
    runs, laid := RowExact.LayRows(heap, spans, rowBytes, columns, rows);
    result := Ok(Layout(columns, rows, cellPx, runs, []));
    origin := ByRows(spans, rowBytes, laid);
  }

  lemma RowsCapped(arena: int, rowBytes: int)
    requires arena >= 1 && rowBytes >= 1
    ensures Max(1, CeilDiv(arena, rowBytes)) > RowExact.MAX_ROWS <==> arena > RowExact.MAX_ROWS * rowBytes
  {
    var q := CeilDiv(arena, rowBytes);
    if q > RowExact.MAX_ROWS {
      MulMonotone(RowExact.MAX_ROWS, q - 1, rowBytes);
    } else {
      MulMonotone(q, RowExact.MAX_ROWS, rowBytes);
    }
  }

  // ---- what the layout guarantees ---------------------------------------------------

  lemma WeightedRuns(plan: Plan, runs: seq<Run>, base: int, end: int)
    requires plan.Valid(base, end) && RunsTile(runs, plan.spans, plan.counts)
    ensures RowExact.RunsBetween(runs, 0, plan.Cells())
  {
    RunsCoverGrid(plan, runs, base, end);
    forall k | 0 <= k < |runs| ensures 0 <= runs[k].start && runs[k].stop <= plan.Cells() {
      OffsetsGrow(plan.counts, 0, k);
      OffsetNext(plan.counts, k);
      OffsetsUnderSum(plan.counts, k + 1);
    }
  }

  /** Whatever the mode, the runs tile the grid from cell 0 to the last cell and name known blocks. */
  lemma RunsFillGrid(heap: HeapMap, layout: Layout, origin: Origin)
    requires LaidOut(heap, layout, origin)
    ensures RowExact.RunsBetween(layout.runs, 0, RowStart(layout.width, layout.height))
    ensures forall k :: 0 <= k < |layout.runs| ==> -1 <= layout.runs[k].index < |heap.blocks|
  {
    match origin
    case Empty =>
    case Weighted(plan, units) => WeightedRuns(plan, layout.runs, heap.base, heap.end);
    case ByRows(spans, rowBytes, laid) =>
      RowExact.RowsTile(heap, spans, rowBytes, layout.width, laid);
      ByRowsIndexes(heap, spans, rowBytes, layout.width, laid);
  }

  lemma {:induction false} ByRowsIndexes(heap: HeapMap, spans: seq<Span>, rowBytes: int, columns: int,
                                         laid: seq<seq<Run>>)
    requires Attributed(heap, spans) && (forall k :: 0 <= k < |spans| ==> spans[k].size > 0)
    requires columns >= 1 && RowExact.RowsLaid(heap, spans, rowBytes, columns, laid)
    ensures forall k :: 0 <= k < |RowExact.Joined(laid)| ==> -1 <= RowExact.Joined(laid)[k].index < |heap.blocks|
    decreases |laid|
  {
    if laid != [] {
      var n := |laid| - 1;
      ByRowsIndexes(heap, spans, rowBytes, columns, laid[..n]);
      IndexesKnown(heap, spans);
      assert RowExact.IsRow(heap, spans, rowBytes, columns, n, laid[n]);
      forall k | 0 <= k < |laid[n]| ensures -1 <= laid[n][k].index < |heap.blocks| {
        RowExact.RowNames(heap, spans, rowBytes, columns, n, k);
      }
    }
  }

  /** Folded and kept bytes of a weighted layout add up to the arena exactly. */
  lemma LayoutConservesBytes(heap: HeapMap, layout: Layout, plan: Plan, units: int)
    requires WeightedLayout(heap, layout, plan, units)
    ensures Surveyed(plan.columns, plan.rows, CellEdges(plan, heap.end), Gaps(plan))
    ensures FoldedBytes(layout.folds)
            + KeptBytes(layout.folds, RowEdges(plan.columns, plan.rows, CellEdges(plan, heap.end), Gaps(plan)),
                plan.rows)
         == (heap.end - heap.base) as real
    ensures forall f, g :: 0 <= f < g < |layout.folds| ==>
              heap.base as real <= layout.folds[f].start < layout.folds[f].end < layout.folds[g].start
              && layout.folds[g].end <= heap.end as real
  {
    var edges, gaps := CellEdges(plan, heap.end), Gaps(plan);
    PlanSurvey(plan, heap.base, heap.end);
    BytesConserved(layout.folds, plan.columns, plan.rows, edges, gaps);
    forall f, g | 0 <= f < g < |layout.folds|
      ensures heap.base as real <= layout.folds[f].start < layout.folds[f].end < layout.folds[g].start
              && layout.folds[g].end <= heap.end as real
    {
      ExtentsAscend(layout.folds, plan.columns, plan.rows, edges, gaps, f, g);
    }
  }
}
