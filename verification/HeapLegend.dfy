/** The legend's entries, and why the planner and the painter agree on them
    although they read them off different layouts (gdr/heapmap.py). */
module HeapLegend {
  import opened ArenaSpans
  import opened Common
  import opened GridCells
  import opened GridFolds
  import opened HeapGrid
  import Legend

  const SCALE := 10
  const MAX_PIXEL_WIDTH := 800

  /** Some arena byte belongs to no block. */
  ghost predicate HasGap(heap: HeapMap) {
    exists b :: heap.base <= b < heap.end && Owns(heap, b, -1)
  }

  /** The notes as a matter of the heap alone. */
  ghost function HeapNotes(heap: HeapMap): seq<string> {
    (if HasGap(heap) then ["unknown/unreadable arena span"] else [])
    + (if heap.truncated then ["incomplete block walk"] else [])
  }

  /** A gap span stands for bytes no block owns, and such bytes lie in one. */
  lemma GapSpanIff(heap: HeapMap, spans: seq<Span>)
    requires Tiles(spans, heap.base, heap.end) && Attributed(heap, spans) && heap.base < heap.end
    ensures HasGap(heap) <==> exists k :: 0 <= k < |spans| && spans[k].index == -1
  {
    TilesDisjoint(spans, heap.base, heap.end);
    if HasGap(heap) {
      var b :| heap.base <= b < heap.end && Owns(heap, b, -1);
      var k := TilesLocate(spans, heap.base, heap.end, b);
      OwnerUnique(heap, b, spans[k].index, -1);
    }
    if k :| 0 <= k < |spans| && spans[k].index == -1 {
      var b := spans[k].start;
      assert spans[k].Has(b);
      assert Owns(heap, b, -1);
    }
  }

  /** A band that is not all free has a gap cell. */
  lemma GapCell(fold: Fold, columns: int, edges: seq<real>, gaps: seq<bool>) returns (c: int)
    requires Describes(fold, columns, edges, gaps) && !fold.kind.Free?
    ensures 0 <= c < |gaps| && gaps[c] == true
  {
    hide RowStart;
    var low, high := RowStart(columns, fold.row), RowStart(columns, fold.row + fold.rows);
    assert Flagged(gaps, true, low, high) by {
      assert KindFits(fold.kind, gaps, low, high);
    }
    c :| low <= c < high && gaps[c] == true;
  }

  ghost predicate NamesGap(spans: seq<Span>) {
    exists k :: 0 <= k < |spans| && spans[k].index < 0
  }

  /** A fold that is not all free names a gap span. */
  lemma FoldNamesGap(layout: Layout, plan: Plan, edges: seq<real>, f: int)
    requires plan.InRange() && AllDescribed(layout.folds, plan.columns, edges, Gaps(plan))
    requires 0 <= f < |layout.folds| && !layout.folds[f].kind.Free?
    ensures NamesGap(plan.spans)
  {
    hide RowStart, Describes;
    var c := GapCell(layout.folds[f], plan.columns, edges, Gaps(plan));
    assert plan.IsGap(c);
  }

  lemma RunsNameGap(runs: seq<Run>, spans: seq<Span>, counts: seq<int>)
    requires RunsTile(runs, spans, counts)
    ensures NamesGap(spans) <==> exists k :: 0 <= k < |runs| && runs[k].index < 0
  {
    hide Sum;
    assert forall k :: 0 <= k < |runs| ==> runs[k].index == spans[k].index;
  }

  lemma WeightedNotes(heap: HeapMap, layout: Layout, plan: Plan, units: int)
    requires WeightedLayout(heap, layout, plan, units) && heap.base < heap.end
    ensures Notes(layout, heap.truncated) == HeapNotes(heap)
  {
    hide FoldsExact, HeightsFit, RunsTile, Attributed, Tiles, Describes, Dealt, Placed, HasGap, BlocksKnown;
    GapSpanIff(heap, plan.spans);
    GapNamed(heap, plan);
    RunsNameGap(layout.runs, plan.spans, plan.counts);
    if f :| 0 <= f < |layout.folds| && !layout.folds[f].kind.Free? {
      FoldNamesGap(layout, plan, CellEdges(plan, heap.end), f);
    }
  }

  lemma GapNamed(heap: HeapMap, plan: Plan)
    requires BlocksKnown(plan, heap.blocks)
    ensures NamesGap(plan.spans) <==> exists k :: 0 <= k < |plan.spans| && plan.spans[k].index == -1
  {
    if k :| 0 <= k < |plan.spans| && plan.spans[k].index < 0 {
      assert plan.spans[k].index == -1;
    }
  }

  /** Size-weighted layouts of one heap carry the same notes, whatever the cell
      size and the width. */
  lemma NotesAreHeaps(heap: HeapMap, layout: Layout, origin: Origin)
    requires LaidOut(heap, layout, origin) && !origin.ByRows?
    ensures Notes(layout, heap.truncated) == HeapNotes(heap)
  {
    if origin.Weighted? {
      WeightedNotes(heap, layout, origin.plan, origin.legendUnits);
    }
  }

  /** The ranking's rows and the notes, read off a layout of default cells. */
  method LegendEntries(heap: HeapMap, ranking: seq<Legend.Entry>) returns (entries: seq<Legend.Entry>)
    ensures entries == ranking + Entries(HeapNotes(heap))
  {
    var layout;
    ghost var origin;
    layout, origin := GridLayout(heap, Legend.Texts(ranking), SCALE, MAX_PIXEL_WIDTH, None);
    NotesAreHeaps(heap, layout.value, origin);
    entries := ranking + Entries(Notes(layout.value, heap.truncated));
  }
}
