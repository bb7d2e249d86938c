/** What a pixel of the finished bitmap tells: the block its cell stands for, or
    the outline between two blocks (gdr/heapmap.py). */
module PixelMeaning {
  import opened Arith
  import opened ArenaSpans
  import opened Common
  import opened FoldBands
  import opened FoldMeaning
  import opened GridCells
  import opened GridFolds
  import opened HeapGrid
  import opened Pixels
  import Raster
  import RowExact

  /** The cell in row `r`, column `c` belongs to block `i`; off the grid's top and
      left edges there is no block. */
  ghost predicate CellHas(layout: Layout, r: int, c: int, i: int) {
    if r < 0 || c < 0 then i == -1
    else exists k :: 0 <= k < |layout.runs| && layout.runs[k].start <= r * layout.width + c < layout.runs[k].stop
                     && layout.runs[k].index == i
  }

  /** Two cells of two blocks. */
  predicate Differ(i: int, j: int) {
    i >= 0 && j >= 0 && i != j
  }

  /** The outline's width: two pixels in small cells, four in large ones, and the
      fifth of the cell, rounded, in between. */
  predicate IsRule(scale: int, rule: int) {
    if scale <= 9 then rule == 2 else if scale < 20 then -5 < 2 * (5 * rule - scale) < 5 else rule == 4
  }

  lemma DividerNearest(scale: int)
    ensures IsRule(scale, Raster.DividerWidth(scale))
  {}

  /** The four cells that meet at a cell's top left corner. */
  datatype Corner = Corner(mine: int, left: int, up: int, across: int)

  ghost predicate CornerOf(layout: Layout, r: int, c: int, n: Corner) {
    && CellHas(layout, r, c, n.mine) && CellHas(layout, r, c - 1, n.left)
    && CellHas(layout, r - 1, c, n.up) && CellHas(layout, r - 1, c - 1, n.across)
  }

  /** The pixel lies on a left bar, a top bar, or where a left bar from above
      meets a top bar from the left. */
  predicate OnOutline(n: Corner, rule: int, dx: int, dy: int) {
    || (Differ(n.mine, n.left) && dx < rule)
    || (Differ(n.mine, n.up) && dy < rule)
    || (Differ(n.up, n.across) && Differ(n.left, n.across) && dx < rule && dy < rule)
  }

  /** The colour of block `i`: nothing for no block, one colour for free blocks,
      the owner's for used blocks whose owner has one, else the unknown colour. */
  ghost predicate ColourFits(heap: HeapMap, palette: Raster.Palette, i: int, colour: Rgb) {
    && -1 <= i < |heap.blocks|
    && (i == -1 ==> colour == BACKGROUND)
    && (i >= 0 && !heap.blocks[i].used ==> colour == palette.free)
    && (i >= 0 && heap.blocks[i].used ==>
          match heap.blocks[i].owner
          case Some(name) =>
            if name in palette.owners then colour == palette.owners[name] else colour == palette.unknown
          case None => colour == palette.unknown)
  }

  // ---- from cells to the picture ----------------------------------------------------------------

  lemma OwnerShown(heap: HeapMap, palette: Raster.Palette, layout: Layout, owners: seq<int>, colours: seq<Rgb>,
                   r: int, c: int, i: int)
    requires Raster.CellsPainted(heap, palette, layout.runs, owners, colours)
    requires Raster.Owned(owners, layout.width, layout.height) && Raster.Paintable(heap, layout)
    requires r < layout.height && c < layout.width && CellHas(layout, r, c, i)
    ensures Raster.OwnerAt(owners, layout.width, layout.height, r, c) == i
    ensures 0 <= r && 0 <= c ==>
      && 0 <= Raster.Cell(layout.width, r, c) < |colours|
      && ColourFits(heap, palette, i, colours[Raster.Cell(layout.width, r, c)])
  {
    if 0 <= r && 0 <= c {
      Raster.CellRange(layout.width, layout.height, r, c);
      RowStartProduct(layout.width, r);
      var k :| 0 <= k < |layout.runs| && layout.runs[k].start <= r * layout.width + c < layout.runs[k].stop
               && layout.runs[k].index == i;
      assert Raster.RunShown(heap, palette, layout.runs[k], owners, colours);
    }
  }

  /** Every cell of the grid belongs to some block or to none. */
  lemma EveryCellHas(heap: HeapMap, layout: Layout, r: int, c: int) returns (i: int)
    requires Raster.Paintable(heap, layout) && r < layout.height && c < layout.width
    ensures CellHas(layout, r, c, i) && -1 <= i < |heap.blocks|
  {
    i := -1;
    if 0 <= r && 0 <= c {
      Raster.CellRange(layout.width, layout.height, r, c);
      RowStartProduct(layout.width, r);
      var k := RunAt(layout.runs, 0, RowStart(layout.width, layout.height), r * layout.width + c);
      i := layout.runs[k].index;
    }
  }

  lemma {:induction false} RunAt(runs: seq<Run>, low: int, high: int, cell: int) returns (k: nat)
    requires RowExact.RunsBetween(runs, low, high) && low <= cell < high
    ensures k < |runs| && runs[k].start <= cell < runs[k].stop
  {
    var n := |runs| - 1;
    if cell >= runs[n].start {
      k := n;
    } else {
      assert n > 0 && runs[n - 1].stop == runs[n].start;
      forall i | 0 <= i < n ensures runs[i].stop <= runs[n].start {
        Raster.RunsOrdered(runs, low, high, i, n);
      }
      k := RunAt(runs[..n], low, runs[n].start, cell);
    }
  }

  /** In a size-weighted layout a cell's block is the owner of the bytes its
      stretch of the arena holds: one owner, and all of them. */
  lemma CellHasBytes(heap: HeapMap, layout: Layout, plan: Plan, units: int, r: int, c: int, i: int)
    requires WeightedLayout(heap, layout, plan, units) && 0 <= r < layout.height && 0 <= c < layout.width
    ensures 0 <= r * layout.width + c < plan.Cells()
    ensures CellHas(layout, r, c, i) <==>
      BytesHave(heap, CellEdges(plan, heap.end)[r * layout.width + c],
                CellEdges(plan, heap.end)[r * layout.width + c + 1], i)
  {
    hide FoldsExact, AllDescribed, HeightsFit, Attributed, RunsTile, Tiles, Dealt, Placed, BytesHave, CellsHave,
      BlocksKnown;
    var cell := r * layout.width + c;
    CellInGrid(layout.width, layout.height, r, c);
    CellsAreBytes(heap, plan, cell, cell + 1, i);
    CellOfRun(layout.runs, plan, heap.base, heap.end, cell, i);
  }

  lemma CellInGrid(columns: int, rows: int, r: int, c: int)
    requires 0 <= r < rows && 0 <= c < columns
    ensures 0 <= r * columns + c < RowStart(columns, rows)
  {
    Raster.CellRange(columns, rows, r, c);
    RowStartProduct(columns, r);
  }

  lemma CellOfRun(runs: seq<Run>, plan: Plan, base: int, end: int, cell: int, i: int)
    requires plan.Valid(base, end) && plan.InRange() && RunsTile(runs, plan.spans, plan.counts)
    requires 0 <= cell < plan.Cells()
    ensures CellsHave(plan, cell, cell + 1, i)
       <==> exists k :: 0 <= k < |runs| && runs[k].start <= cell < runs[k].stop && runs[k].index == i
  {
    hide Tiles, Dealt, Placed, Sum;
    var mine := plan.spanOf[cell];
    forall k | 0 <= k < |runs|
      ensures runs[k].start <= cell < runs[k].stop <==> mine == k
      ensures runs[k].index == plan.spans[k].index
    {
      CellsFollowRuns(plan, runs, base, end, cell, k);
    }
    assert CellsHave(plan, cell, cell + 1, i) <==> plan.spans[mine].index == i;
    assert runs[mine].start <= cell < runs[mine].stop;
  }

  /** One pixel of the unfolded picture. */
  lemma PictureMeans(painting: Painting, heap: HeapMap, palette: Raster.Palette, layout: Layout,
                     r: int, c: int, dx: int, dy: int, n: Corner)
    requires Raster.CellsPainted(heap, palette, layout.runs, painting.owners, painting.colours)
    requires Raster.Owned(painting.owners, layout.width, layout.height) && Raster.Paintable(heap, layout)
    requires Raster.Outlined(painting.picture, painting.owners, painting.colours, layout.width, layout.height,
                             layout.scale, Raster.DividerWidth(layout.scale))
    requires Raster.InCell(layout.width, layout.height, layout.scale, r, c, dx, dy) && CornerOf(layout, r, c, n)
    ensures var colour := painting.picture(r, c, dx, dy);
            if OnOutline(n, Raster.DividerWidth(layout.scale), dx, dy) then colour == BACKGROUND
            else ColourFits(heap, palette, n.mine, colour)
  {
    hide Raster.CellsPainted, Raster.Paintable, CellHas, ColourFits, Raster.OwnerAt, Raster.DividerWidth, Raster.Owned;
    OwnerShown(heap, palette, layout, painting.owners, painting.colours, r, c, n.mine);
    OwnerShown(heap, palette, layout, painting.owners, painting.colours, r, c - 1, n.left);
    OwnerShown(heap, palette, layout, painting.owners, painting.colours, r - 1, c, n.up);
    OwnerShown(heap, palette, layout, painting.owners, painting.colours, r - 1, c - 1, n.across);
  }

  // ---- from the picture to the bitmap --------------------------------------------------------------

  lemma {:induction false} FlattenAt(out: seq<seq<Rgb>>, size: nat, k: nat, p: nat)
    requires (forall j :: 0 <= j < |out| ==> |out[j]| == size) && k < |out| && p < size
    ensures 0 <= k * size + p < |Flatten(out)| && Flatten(out)[k * size + p] == out[k][p]
  {
    var n := |out| - 1;
    FlattenSize(out[..n], size);
    MulNonNegative(k, size);
    if k < n {
      FlattenAt(out[..n], size, k, p);
    }
  }

  /** Pixel `(x, y)` of a unit `width` pixels wide, counted from the bitmap's start. */
  lemma UnitPixel(width: nat, scale: nat, u: nat, x: nat, dy: nat)
    requires x < width && dy < scale
    ensures At(width, x, u * scale + dy) == u * (scale * width) + At(width, x, dy)
    ensures 0 <= At(width, x, dy) < scale * width
  {
    AtInRange(width, scale, x, dy);
    Distribute(width, u * scale, dy);
    assert u * scale * width == u * (scale * width);
    Commute(width, scale);
  }

  /** A kept row's pixels are those of the picture's row. */
  lemma KeptPixel(painting: Painting, layout: Layout, width: nat, u: nat, row: nat, c: nat, dx: nat, dy: nat)
    requires layout.scale >= 1 && layout.width >= 1 && width == layout.width * layout.scale
    requires |painting.fore| == layout.height
    requires Sliced(painting.fore, painting.buf, layout.scale * width)
    requires forall k :: 0 <= k < |painting.units| ==> |painting.units[k]| == layout.scale * width
    requires u < |painting.units| && row < layout.height && painting.units[u] == painting.fore[row]
    requires c < layout.width && dx < layout.scale && dy < layout.scale
    requires Raster.Painted(painting.buf, layout.width, layout.height, layout.scale, painting.picture)
    ensures var at := At(width, c * layout.scale + dx, u * layout.scale + dy);
            0 <= at < |Flatten(painting.units)| && Flatten(painting.units)[at] == painting.picture(row, c, dx, dy)
  {
    hide Flatten, Raster.BufferSize;
    var scale := layout.scale;
    var x, size := c * scale + dx, scale * width;
    assert Raster.InCell(layout.width, layout.height, scale, row, c, dx, dy);
    Raster.CellPixel(layout.width, layout.height, scale, row, c, dx, dy);
    MulNonNegative(c, scale);
    UnitPixel(width, scale, u, x, dy);
    UnitPixel(width, scale, row, x, dy);
    FlattenAt(painting.units, size, u, At(width, x, dy));
    assert painting.fore[row][At(width, x, dy)] == painting.buf[At(size, 0, row) + At(width, x, dy)];
    assert Raster.Px(layout.width, scale, row, c, dx, dy) == At(width, x, row * scale + dy);
  }

  /** Which unit stands where: kept row `row` is unit `u` of the bitmap. */
  ghost predicate ShowsRow(layout: Layout, u: int, row: int) {
    && layout.height >= 0
    && 0 <= u < |Units(Sorted(layout.folds), layout.height)|
    && Units(Sorted(layout.folds), layout.height)[u] == Kept(row)
  }

  lemma UnitsSized(painting: Painting, heap: HeapMap, palette: Raster.Palette, layout: Layout, pixels: seq<Rgb>,
                   width: int, height: int)
    requires Depicts(painting, heap, palette, layout, pixels, width, height) && layout.height >= 0
    ensures forall k :: 0 <= k < |painting.units| ==> |painting.units[k]| == layout.scale * width
  {
    UnitSizes(painting.units, Units(Sorted(layout.folds), layout.height), painting.fore, width, layout.scale,
              layout.scale * width);
  }

  lemma RowShown(painting: Painting, heap: HeapMap, palette: Raster.Palette, layout: Layout, pixels: seq<Rgb>,
                 width: int, height: int, u: int, row: int)
    requires Depicts(painting, heap, palette, layout, pixels, width, height) && ShowsRow(layout, u, row)
    ensures 0 <= u < |painting.units| && 0 <= row < |painting.fore| == layout.height
    ensures painting.units[u] == painting.fore[row]
  {
    hide Units, Sorted;
    var units := Units(Sorted(layout.folds), layout.height);
    assert UnitShown(painting.units[u], units[u], u, painting.fore, width, layout.scale);
  }

  /** Every pixel of a kept row: background on the outline between two blocks, and
      off it the colour of the block its cell stands for. */
  lemma PixelMeans(painting: Painting, heap: HeapMap, palette: Raster.Palette, layout: Layout, pixels: seq<Rgb>,
                   width: int, height: int, u: int, row: int, c: int, dx: int, dy: int, n: Corner)
    requires Depicts(painting, heap, palette, layout, pixels, width, height) && Raster.Paintable(heap, layout)
    requires layout.scale >= 2 && ShowsRow(layout, u, row)
    requires 0 <= c < layout.width && 0 <= dx < layout.scale && 0 <= dy < layout.scale && CornerOf(layout, row, c, n)
    ensures var at := At(width, c * layout.scale + dx, u * layout.scale + dy);
            && 0 <= at < |pixels|
            && forall rule :: IsRule(layout.scale, rule) ==>
                 if OnOutline(n, rule, dx, dy) then pixels[at] == BACKGROUND
                 else ColourFits(heap, palette, n.mine, pixels[at])
  {
    hide Raster.Painted, Raster.Outlined, Raster.CellsPainted, Raster.Paintable, CornerOf, Sliced, Flatten, ShowsRow,
      OnOutline, ColourFits, AllShown, Raster.Owned;
    RowShown(painting, heap, palette, layout, pixels, width, height, u, row);
    UnitsSized(painting, heap, palette, layout, pixels, width, height);
    MulNonNegative(layout.width, layout.scale);
    KeptPixel(painting, layout, width, u, row, c, dx, dy);
    assert Raster.InCell(layout.width, layout.height, layout.scale, row, c, dx, dy);
    PictureMeans(painting, heap, palette, layout, row, c, dx, dy, n);
    DividerNearest(layout.scale);
    RuleUnique(layout.scale);
  }

  lemma RuleUnique(scale: int)
    ensures forall rule :: IsRule(scale, rule) ==> rule == Raster.DividerWidth(scale)
  {}
}
