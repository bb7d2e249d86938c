/** The pixel pipeline of `render_png` up to the encoder: plan the grid, paint
    it, put the legend beside it and label its ends (gdr/heapmap.py). */
module HeapBitmap {
  import opened Arith
  import opened ArenaSpans
  import opened Common
  import opened GridCells
  import opened GridFolds
  import opened HeapGrid
  import opened HeapLegend
  import opened Pixels
  import FoldBands
  import Legend
  import Raster
  import RowExact

  datatype Bitmap = Bitmap(pixels: seq<Rgb>, width: int, height: int)

  /** Every layout the planner makes can be painted. */
  lemma LaidOutPaintable(heap: HeapMap, layout: Layout, origin: Origin)
    requires LaidOut(heap, layout, origin) && layout.scale >= 1
    ensures Raster.Paintable(heap, layout)
    ensures origin.Weighted? ==> Laid(layout.folds, layout.height) && layout.width >= 1 && layout.height >= 1
  {
    RunsFillGrid(heap, layout, origin);
  }

  /** Units of painted height: folded rows give way to bands stretched to the
      legend, and without folds every row stays. */
  ghost function PaintedUnits(layout: Layout, origin: Origin): int {
    if origin.Weighted? && layout.folds != [] then Max(KeptRows(layout) + |layout.folds|, origin.legendUnits)
    else layout.height
  }

  /** A painted arena: the planned size, and pixels that depict the layout. */
  ghost predicate PaintsArena(heap: HeapMap, palette: Raster.Palette, layout: Layout, origin: Origin, bitmap: Bitmap,
                              painting: FoldBands.Painting) {
    && bitmap.width == layout.width * layout.scale
    && bitmap.height == PaintedUnits(layout, origin) * layout.scale
    && FoldBands.Depicts(painting, heap, palette, layout, bitmap.pixels, bitmap.width, bitmap.height)
  }

  /** Planned and painted heights agree, and the pixels depict the planned layout. */
  method PaintHeap(heap: HeapMap, palette: Raster.Palette, layout: Layout, ghost origin: Origin)
    returns (bitmap: Bitmap, ghost painting: FoldBands.Painting)
    requires LaidOut(heap, layout, origin) && layout.scale >= 1
    ensures Legend.IsBitmap(bitmap.pixels, bitmap.width, bitmap.height) && bitmap.height >= 1
    ensures heap.base >= heap.end ==>
      && bitmap.width == bitmap.height == layout.scale
      && forall p :: 0 <= p < |bitmap.pixels| ==> bitmap.pixels[p] == BACKGROUND
    ensures heap.base < heap.end ==> PaintsArena(heap, palette, layout, origin, bitmap, painting)
  {
    LaidOutPaintable(heap, layout, origin);
    var pixels, width, height;
    pixels, width, height, painting := FoldBands.Rasterize(heap, palette, layout);
    bitmap := Bitmap(pixels, width, height);
    if heap.base < heap.end {
      UnitsPainted(heap, layout, origin);
      MulNonNegative(layout.width, layout.scale);
      MulMonotone(1, PaintedUnits(layout, origin), layout.scale);
    }
  }

  /** The painted units are as many as planned; every row no fold covers is among
      them, once and in order. */
  lemma UnitsPainted(heap: HeapMap, layout: Layout, origin: Origin)
    requires LaidOut(heap, layout, origin) && heap.base < heap.end
    ensures layout.width >= 1 && layout.height >= 1 && PaintedUnits(layout, origin) >= 1
    ensures |FoldBands.Units(FoldBands.Sorted(layout.folds), layout.height)| == PaintedUnits(layout, origin)
    ensures FoldBands.KeptOf(FoldBands.Units(FoldBands.Sorted(layout.folds), layout.height))
         == FoldBands.Uncovered(layout.folds, layout.height)
  {
    hide FoldsExact, AllDescribed, Attributed, Tiles, FoldBands.Units, FoldBands.Uncovered, FoldBands.KeptOf,
      FoldBands.Sorted, RunsTile, HeightsFit, RowExact.RowsLaid, RowExact.Joined;
    FoldsLaid(heap, layout, origin);
    FoldBands.SortedLaid(layout.folds, layout.height);
    if origin.Weighted? {
      FoldBands.PaintedHeight(layout, origin.legendUnits);
      FoldBands.KeptRowsCount(layout.folds, layout.height);
      assert KeptRows(layout) >= 0;
    } else {
      NoFolds(layout.height);
    }
    FoldBands.KeptOnceInOrder(layout.folds, layout.height);
  }

  lemma FoldsLaid(heap: HeapMap, layout: Layout, origin: Origin)
    requires LaidOut(heap, layout, origin) && heap.base < heap.end
    ensures layout.width >= 1 && layout.height >= 1 && Laid(layout.folds, layout.height)
    ensures layout.folds != [] ==> origin.Weighted?
  {
    hide AllDescribed, Attributed, Tiles, RunsTile, HeightsFit, RowExact.RowsLaid;
  }

  lemma {:induction false} NoFolds(rows: nat)
    ensures |FoldBands.Units([], rows)| == rows
  {
    if rows > 0 {
      NoFolds(rows - 1);
    }
  }

  /** Where folds stretch the bitmap, the legend of the same texts is no taller
      than the bitmap painted. */
  lemma LegendFits(heap: HeapMap, layout: Layout, origin: Origin, ranking: seq<string>, entries: seq<Legend.Entry>,
                   maxPx: int)
    requires layout.scale >= 1 && origin.Weighted? && layout.folds != []
    requires origin.legendUnits
          == LegendFloor(ranking + Notes(layout, heap.truncated), layout.width, layout.height, layout.scale, maxPx)
    requires entries != [] && Legend.Texts(entries) == ranking + Notes(layout, heap.truncated)
    ensures Legend.PlanOf(entries, layout.width * layout.scale, layout.height * layout.scale, maxPx).height
         <= PaintedUnits(layout, origin) * layout.scale
  {
    hide Legend.PlanOf, Notes;
    var texts := ranking + Notes(layout, heap.truncated);
    assert Legend.Texts(Entries(texts)) == texts;
    var width, used := layout.width * layout.scale, layout.height * layout.scale;
    Legend.HeightOfTexts(entries, Entries(texts), width, used, maxPx);
    var height := Legend.PlanOf(entries, width, used, maxPx).height;
    assert origin.legendUnits == CeilDiv(height, layout.scale);
    MulMonotone(origin.legendUnits, PaintedUnits(layout, origin), layout.scale);
  }

  /** What `render_png` makes on the way to the image. */
  datatype Stages = Stages(painting: FoldBands.Painting, bitmap: Bitmap, plan: Legend.Plan, key: (int, int) -> Rgb,
                           canvas: Bitmap, labelled: (int, int) -> Rgb)

  /** The legend stands to the right of the bitmap; without entries nothing is added. */
  ghost predicate WithLegend(s: Stages, entries: seq<Legend.Entry>, usedHeight: int, maxPx: int, font: Legend.Font) {
    if entries == [] then s.canvas == s.bitmap
    else
      && s.plan == Legend.PlanOf(entries, s.bitmap.width, usedHeight, maxPx)
      && s.canvas.width == s.bitmap.width + Legend.BITMAP_LEGEND_GAP + s.plan.width
      && s.canvas.height == Max(s.bitmap.height, s.plan.height)
      && Shows(s.canvas.pixels, s.canvas.width, s.canvas.height, s.key)
      && Legend.LegendPicture(s.key, s.plan, font, s.bitmap.pixels, s.bitmap.width, s.bitmap.height, |s.plan.lines|)
  }

  /** Both ends are named in the strips above and below the canvas. */
  ghost predicate WithEnds(s: Stages, startText: string, endText: string, font: Legend.Font, image: Bitmap) {
    && image.height == s.canvas.height + 2 * Legend.STRIP_H
    && image.width == Max(s.canvas.width, Legend.LEGEND_PAD + Max(|startText|, |endText|) * Legend.CHAR_ADVANCE
                                          + Legend.LEGEND_PAD)
    && Shows(image.pixels, image.width, image.height, s.labelled)
    && Legend.EndpointPicture(s.labelled, s.canvas.pixels, s.canvas.width, s.canvas.height, startText, endText, font)
  }

  /** The legend the painter reads off default cells is the one the planner made
      room for: wherever rows were folded, it adds no height. */
  lemma FoldedLegendFits(heap: HeapMap, palette: Raster.Palette, layout: Layout, origin: Origin,
                         ranking: seq<Legend.Entry>, stages: Stages, maxPx: int, font: Legend.Font)
    requires LaidOut(heap, layout, origin) && layout.scale >= 1
    requires origin.Weighted? && layout.folds != [] ==>
      origin.legendUnits == LegendFloor(Legend.Texts(ranking) + Notes(layout, heap.truncated), layout.width,
                                        layout.height, layout.scale, maxPx)
    requires heap.base < heap.end ==> PaintsArena(heap, palette, layout, origin, stages.bitmap, stages.painting)
    requires WithLegend(stages, ranking + Entries(HeapNotes(heap)), layout.height * layout.scale, maxPx, font)
    ensures layout.folds != [] ==> stages.canvas.height == stages.bitmap.height
  {
    hide Legend.PlanOf, Notes, HeapNotes, LegendFloor, WeightedLayout, ByRowsLayout, FoldBands.Depicts,
      Legend.LegendPicture, Shows, KeptRows;
    var entries := ranking + Entries(HeapNotes(heap));
    if layout.folds != [] {
      FoldsWeighted(heap, layout, origin);
      if entries != [] {
        NotesAreHeaps(heap, layout, origin);
        assert Legend.Texts(entries) == Legend.Texts(ranking) + HeapNotes(heap);
        LegendFits(heap, layout, origin, Legend.Texts(ranking), entries, maxPx);
      }
    }
  }

  lemma FoldsWeighted(heap: HeapMap, layout: Layout, origin: Origin)
    requires LaidOut(heap, layout, origin) && layout.folds != []
    ensures origin.Weighted? && heap.base < heap.end
  {
    hide WeightedLayout;
  }

  /** Puts the legend beside the bitmap and the labels around both. */
  method Annotate(bitmap: Bitmap, ghost painting: FoldBands.Painting, entries: seq<Legend.Entry>, usedHeight: int,
                  maxPx: int, font: Legend.Font, startText: string, endText: string)
    returns (image: Bitmap, ghost stages: Stages)
    requires Legend.IsBitmap(bitmap.pixels, bitmap.width, bitmap.height) && bitmap.height >= 1
    ensures stages.bitmap == bitmap && stages.painting == painting
    ensures WithLegend(stages, entries, usedHeight, maxPx, font)
    ensures WithEnds(stages, startText, endText, font, image)
  {
    hide Legend.PlanOf, Legend.LegendPicture, Legend.EndpointPicture, Legend.InkAll, Legend.Texts;
    var pixels, width, height, plan;
    ghost var key, labelled;
    pixels, width, height, plan, key :=
      Legend.AppendLegend(bitmap.pixels, bitmap.width, bitmap.height, entries, Some(usedHeight), maxPx, font);
    var out, outWidth, outHeight;
    out, outWidth, outHeight, labelled := Legend.AppendEndpointLabels(pixels, width, height, startText, endText, font);
    image := Bitmap(out, outWidth, outHeight);
    stages := Stages(painting, bitmap, plan, key, Bitmap(pixels, width, height), labelled);
  }

  /** The finished image: the bitmap with its legend to the right, between strips
      that name the arena's ends. Where rows were folded the legend adds no height,
      so bitmap and legend end together. */
  method RenderPixels(heap: HeapMap, palette: Raster.Palette, ranking: seq<Legend.Entry>, font: Legend.Font,
                      startText: string, endText: string, cellPx: int, maxPx: int, rowBytes: Option<int>)
    returns (result: Result<Bitmap, TooManyRows>, ghost layout: Layout, ghost origin: Origin, ghost stages: Stages)
    requires cellPx >= 1 && (rowBytes.Some? ==> rowBytes.value >= 1)
    ensures result.Err? <==>
      rowBytes.Some? && heap.base < heap.end && heap.end - heap.base > RowExact.MAX_ROWS * rowBytes.value
    ensures result.Ok? ==> LaidOut(heap, layout, origin) && layout.scale == cellPx
    ensures result.Ok? && heap.base < heap.end ==>
      PaintsArena(heap, palette, layout, origin, stages.bitmap, stages.painting)
    ensures result.Ok? && heap.base >= heap.end ==>
      && stages.bitmap.width == stages.bitmap.height == cellPx
      && forall p :: 0 <= p < |stages.bitmap.pixels| ==> stages.bitmap.pixels[p] == BACKGROUND
    ensures result.Ok? ==>
      WithLegend(stages, ranking + Entries(HeapNotes(heap)), layout.height * cellPx, maxPx, font)
    ensures result.Ok? ==> WithEnds(stages, startText, endText, font, result.value)
    ensures result.Ok? && layout.folds != [] ==> stages.canvas.height == stages.bitmap.height
  {
    hide LegendFloor, Notes, HeapNotes, WithEnds, PlannedFrom, WithLegend, PaintsArena, LaidOut;
    var laid;
    laid, origin := GridLayout(heap, Legend.Texts(ranking), cellPx, maxPx, rowBytes);
    if laid.Err? {
      return Err(laid.error), *, origin, *;
    }
    layout := laid.value;
    var bitmap, entries, image;
    ghost var painting;
    bitmap, painting := PaintHeap(heap, palette, laid.value, origin);
    entries := LegendEntries(heap, ranking);
    image, stages := Annotate(bitmap, painting, entries, laid.value.height * cellPx, maxPx, font, startText, endText);
    result := Ok(image);
    FoldedLegendFits(heap, palette, layout, origin, ranking, stages, maxPx, font);
  }
}
