/** Painting a layout: cell colours, block outlines, and hatched bands in place
    of folded rows (gdr/heapmap.py, `rasterize`). */
module Raster {
  import opened Arith
  import opened ArenaSpans
  import opened Common
  import opened GridCells
  import opened GridFolds
  import opened HeapGrid
  import opened Pixels
  import RowExact

  const HATCH := Rgb(0x90, 0x90, 0x90)

  datatype Palette = Palette(owners: map<string, Rgb>, free: Rgb, unknown: Rgb) {
    function UsedColour(owner: Option<string>): Rgb {
      if owner.Some? && owner.value in owners then owners[owner.value] else unknown
    }
  }

  /** Outline width for a cell size: fixed at the extremes, a fifth between. */
  function DividerWidth(cellPx: int): (w: int)
    ensures w >= 1
  {
    if cellPx <= 9 then 2
    else if cellPx < 20 then Max(1, (2 * cellPx + 5) / 10)
    else 4
  }

  /** The outline stays inside its own cell for every cell size but one pixel. */
  lemma DividerFits(scale: int)
    requires scale >= 1
    ensures DividerWidth(scale) <= scale <==> scale >= 2
  {}

  // ---- cells ---------------------------------------------------------------------

  function ColourOf(heap: HeapMap, palette: Palette, index: int): Rgb
    requires index < |heap.blocks|
  {
    if index < 0 then BACKGROUND
    else if heap.blocks[index].used then palette.UsedColour(heap.blocks[index].owner)
    else palette.free
  }

  /** A layout whose runs tile the grid and name known blocks, as `grid_layout` makes them. */
  ghost predicate Paintable(heap: HeapMap, layout: Layout) {
    && layout.width >= 0 && layout.height >= 0 && layout.scale >= 1
    && RowExact.RunsBetween(layout.runs, 0, RowStart(layout.width, layout.height))
    && forall k :: 0 <= k < |layout.runs| ==> -1 <= layout.runs[k].index < |heap.blocks|
  }

  /** Every cell of the run has its block and that block's colour. */
  ghost predicate RunShown(heap: HeapMap, palette: Palette, run: Run, owners: seq<int>, colours: seq<Rgb>) {
    && run.index < |heap.blocks|
    && forall c :: run.start <= c < run.stop ==>
         0 <= c < |owners| == |colours| && owners[c] == run.index && colours[c] == ColourOf(heap, palette, run.index)
  }

  /** Owners and colours of the cells, run by run. */
  ghost predicate CellsPainted(heap: HeapMap, palette: Palette, runs: seq<Run>, owners: seq<int>, colours: seq<Rgb>) {
    |owners| == |colours| && forall k :: 0 <= k < |runs| ==> RunShown(heap, palette, runs[k], owners, colours)
  }

  lemma {:induction false} RunsOrdered(runs: seq<Run>, low: int, high: int, i: int, j: int)
    requires RowExact.RunsBetween(runs, low, high) && 0 <= i < j < |runs|
    ensures runs[i].stop <= runs[j].start
    decreases j
  {
    assert runs[j - 1].stop == runs[j].start;
    if i < j - 1 {
      RunsOrdered(runs, low, high, i, j - 1);
    }
  }

  /** Painting run `k` where nothing was painted yet keeps the runs before it. */
  lemma RunPainted(heap: HeapMap, palette: Palette, runs: seq<Run>, cells: int, k: nat,
                   owners: seq<int>, colours: seq<Rgb>, owners': seq<int>, colours': seq<Rgb>)
    requires RowExact.RunsBetween(runs, 0, cells) && k < |runs| && -1 <= runs[k].index < |heap.blocks|
    requires |owners| == |colours| == |owners'| == |colours'| == cells
    requires CellsPainted(heap, palette, runs[..k], owners, colours)
    requires forall c :: runs[k].start <= c < runs[k].stop ==>
               0 <= c < cells && owners'[c] == runs[k].index && colours'[c] == ColourOf(heap, palette, runs[k].index)
    requires forall c :: 0 <= c < cells && !(runs[k].start <= c < runs[k].stop) ==>
               owners'[c] == owners[c] && colours'[c] == colours[c]
    ensures CellsPainted(heap, palette, runs[..k + 1], owners', colours')
  {
    hide ColourOf;
    var done := runs[..k + 1];
    forall j | 0 <= j < |done| ensures RunShown(heap, palette, done[j], owners', colours') {
      if j < k {
        RunsOrdered(runs, 0, cells, j, k);
        assert RunShown(heap, palette, runs[..k][j], owners, colours);
        assert runs[..k][j] == done[j] == runs[j];
      }
    }
  }

  method PaintCells(heap: HeapMap, palette: Palette, layout: Layout) returns (owners: seq<int>, colours: seq<Rgb>)
    requires Paintable(heap, layout)
    ensures |owners| == RowStart(layout.width, layout.height)
    ensures CellsPainted(heap, palette, layout.runs, owners, colours)
  {
    RowStartProduct(layout.width, layout.height);
    MulNonNegative(layout.height, layout.width);
    var cells := layout.height * layout.width;
    hide ColourOf;
    owners, colours := [], [];
    var owner, colour := new int[cells](_ => -1), new Rgb[cells](_ => BACKGROUND);
    for k := 0 to |layout.runs|
      invariant forall c :: 0 <= c < cells && (k == 0 || c >= layout.runs[k - 1].stop) ==>
                  owner[c] == -1 && colour[c] == BACKGROUND
      invariant CellsPainted(heap, palette, layout.runs[..k], owner[..], colour[..])
    {
      var run := layout.runs[k];
      assert k > 0 ==> layout.runs[k - 1].stop == run.start;
      owners, colours := owner[..], colour[..];
      if run.index >= 0 {
        var c := ColourOf(heap, palette, run.index);
        forall i | run.start <= i < run.stop {
          owner[i] := run.index;
        }
        forall i | run.start <= i < run.stop {
          colour[i] := c;
        }
      }
      RunPainted(heap, palette, layout.runs, cells, k, owners, colours, owner[..], colour[..]);
    }
    assert layout.runs[..|layout.runs|] == layout.runs;
    owners, colours := owner[..], colour[..];
  }

  // ---- pixels --------------------------------------------------------------------

  /** Pixel `(dx, dy)` of the cell in row `r`, column `c`. */
  function Px(columns: int, scale: int, r: int, c: int, dx: int, dy: int): int {
    At(columns * scale, c * scale + dx, r * scale + dy)
  }

  ghost predicate InCell(columns: int, rows: int, scale: int, r: int, c: int, dx: int, dy: int) {
    0 <= r < rows && 0 <= c < columns && 0 <= dx < scale && 0 <= dy < scale
  }

  lemma CellPixel(columns: int, rows: int, scale: int, r: int, c: int, dx: int, dy: int)
    requires InCell(columns, rows, scale, r, c, dx, dy)
    ensures 0 <= c * scale + dx < columns * scale && 0 <= r * scale + dy < rows * scale
    ensures 0 <= Px(columns, scale, r, c, dx, dy) < columns * scale * (rows * scale)
  {
    MulMonotone(c, columns - 1, scale);
    DistributeMinus(scale, columns, 1);
    MulMonotone(r, rows - 1, scale);
    DistributeMinus(scale, rows, 1);
    MulNonNegative(c, scale);
    MulNonNegative(r, scale);
    AtInRange(columns * scale, rows * scale, c * scale + dx, r * scale + dy);
  }

  lemma PixelUnique(columns: int, rows: int, scale: int, r: int, c: int, dx: int, dy: int,
                    r': int, c': int, dx': int, dy': int)
    requires InCell(columns, rows, scale, r, c, dx, dy) && InCell(columns, rows, scale, r', c', dx', dy')
    requires Px(columns, scale, r, c, dx, dy) == Px(columns, scale, r', c', dx', dy')
    ensures r == r' && c == c' && dx == dx' && dy == dy'
  {
    CellPixel(columns, rows, scale, r, c, dx, dy);
    CellPixel(columns, rows, scale, r', c', dx', dy');
    AtInjective(columns * scale, c * scale + dx, r * scale + dy, c' * scale + dx', r' * scale + dy');
    Commute(c, scale);
    Commute(c', scale);
    Commute(r, scale);
    Commute(r', scale);
    QuotientUnique(c * scale + dx, scale, c, dx, c', dx');
    QuotientUnique(r * scale + dy, scale, r, dy, r', dy');
  }

  /** What every pixel of every cell looks like. */
  type Picture = (int, int, int, int) -> Rgb

  function BufferSize(columns: int, rows: int, scale: int): int {
    columns * scale * (rows * scale)
  }

  /** The buffer has exactly the grid's pixels and shows the picture. */
  ghost predicate Painted(buf: seq<Rgb>, columns: int, rows: int, scale: int, picture: Picture) {
    && |buf| == BufferSize(columns, rows, scale)
    && forall r, c, dx, dy :: InCell(columns, rows, scale, r, c, dx, dy) ==>
         0 <= Px(columns, scale, r, c, dx, dy) < |buf| && buf[Px(columns, scale, r, c, dx, dy)] == picture(r, c, dx, dy)
  }

  /** `buf[off : off + n] = colour * n` on a byte buffer: past the end it grows. */
  function Splice(buf: seq<Rgb>, off: nat, n: nat, colour: Rgb): (out: seq<Rgb>)
    ensures |out| >= |buf|
    ensures off <= |buf| ==> |out| == Max(|buf|, off + n)
    ensures forall p :: 0 <= p < |buf| ==> out[p] == if off <= p < off + n then colour else buf[p]
  {
    var low, high := Min(off, |buf|), Min(off + n, |buf|);
    buf[..low] + seq(n, _ => colour) + buf[high..]
  }

  /** The picture once the first `n` pixels of row `dy` of one cell took a colour. */
  function Struck(picture: Picture, r: int, c: int, dy: int, n: int, colour: Rgb): Picture {
    (r', c', dx', dy') => if r' == r && c' == c && dy' == dy && dx' < n then colour else picture(r', c', dx', dy')
  }

  lemma StruckPaints(buf: seq<Rgb>, columns: int, rows: int, scale: int, picture: Picture,
                     r: int, c: int, dy: int, n: nat, colour: Rgb)
    requires Painted(buf, columns, rows, scale, picture) && InCell(columns, rows, scale, r, c, 0, dy) && n <= scale
    ensures 0 <= Px(columns, scale, r, c, 0, dy)
    ensures Painted(Splice(buf, Px(columns, scale, r, c, 0, dy), n, colour), columns, rows, scale,
                    Struck(picture, r, c, dy, n, colour))
  {
    CellPixel(columns, rows, scale, r, c, 0, dy);
    hide BufferSize;
    var off := Px(columns, scale, r, c, 0, dy);
    var out := Splice(buf, off, n, colour);
    RowFitsBuffer(buf, columns, rows, scale, picture, r, c, dy, n);
    forall r', c', dx', dy' | InCell(columns, rows, scale, r', c', dx', dy')
      ensures 0 <= Px(columns, scale, r', c', dx', dy') < |out|
      ensures out[Px(columns, scale, r', c', dx', dy')] == Struck(picture, r, c, dy, n, colour)(r', c', dx', dy')
    {
      var p := Px(columns, scale, r', c', dx', dy');
      assert 0 <= p < |buf|;
      if off <= p < off + n {
        AtStep(columns * scale, c * scale, r * scale + dy, p - off);
        PixelUnique(columns, rows, scale, r, c, p - off, dy, r', c', dx', dy');
      } else if r' == r && c' == c && dy' == dy {
        AtStep(columns * scale, c * scale, r * scale + dy, dx');
      }
    }
  }

  lemma RowFitsBuffer(buf: seq<Rgb>, columns: int, rows: int, scale: int, picture: Picture,
                      r: int, c: int, dy: int, n: nat)
    requires Painted(buf, columns, rows, scale, picture) && InCell(columns, rows, scale, r, c, 0, dy) && n <= scale
    ensures 0 <= Px(columns, scale, r, c, 0, dy) && Px(columns, scale, r, c, 0, dy) + n <= |buf|
  {
    hide BufferSize;
    AtStep(columns * scale, c * scale, r * scale + dy, n - 1);
    assert Px(columns, scale, r, c, 0, dy) < |buf|;
    assert n > 0 ==> Px(columns, scale, r, c, n - 1, dy) < |buf|;
  }

  /** One slice assignment. It shows exactly where meant when it stays inside its
      cell; otherwise only the buffer's size is promised. */
  method Strike(buf: seq<Rgb>, columns: int, rows: int, scale: int, r: nat, c: nat, dy: nat, n: nat, colour: Rgb,
                ghost picture: Picture)
    returns (out: seq<Rgb>, ghost shown: Picture)
    requires columns >= 1 && scale >= 1
    ensures |out| >= |buf|
    ensures Painted(buf, columns, rows, scale, picture) && n <= scale && InCell(columns, rows, scale, r, c, 0, dy) ==>
              Painted(out, columns, rows, scale, shown)
    ensures shown == Struck(picture, r, c, dy, n, colour)
  {
    shown := Struck(picture, r, c, dy, n, colour);
    MulNonNegative(c, scale);
    MulNonNegative(r, scale);
    MulNonNegative(columns, scale);
    MulNonNegative(r * scale + dy, columns * scale);
    out := Splice(buf, Px(columns, scale, r, c, 0, dy), n, colour);
    if Painted(buf, columns, rows, scale, picture) && n <= scale && InCell(columns, rows, scale, r, c, 0, dy) {
      StruckPaints(buf, columns, rows, scale, picture, r, c, dy, n, colour);
    }
  }

  ghost predicate BlockStruck(picture: Picture, shown: Picture, r: int, c: int, w: int, h: int, colour: Rgb) {
    forall r', c', dx, dy :: 0 <= dy ==>
      shown(r', c', dx, dy) == (if r' == r && c' == c && dx < w && dy < h then colour else picture(r', c', dx, dy))
  }

  /** The first `h` rows of one cell take a colour over its first `w` pixels. */
  method StrikeBlock(buf: seq<Rgb>, columns: int, rows: int, scale: int, r: nat, c: nat, w: nat, h: nat, colour: Rgb,
                     ghost picture: Picture)
    returns (out: seq<Rgb>, ghost shown: Picture)
    requires columns >= 1 && scale >= 1
    ensures |out| >= |buf|
    ensures Painted(buf, columns, rows, scale, picture) && w <= scale && h <= scale && r < rows && c < columns ==>
              Painted(out, columns, rows, scale, shown)
    ensures BlockStruck(picture, shown, r, c, w, h, colour)
  {
    out, shown := buf, picture;
    for dy := 0 to h
      invariant |out| >= |buf|
      invariant Painted(buf, columns, rows, scale, picture) && w <= scale && h <= scale && r < rows && c < columns ==>
                  Painted(out, columns, rows, scale, shown)
      invariant BlockStruck(picture, shown, r, c, w, dy, colour)
    {
      out, shown := Strike(out, columns, rows, scale, r, c, dy, w, colour, shown);
    }
  }

  /** Position of a cell in row-major order. */
  function Cell(columns: int, r: int, c: int): int {
    RowStart(columns, r) + c
  }

  lemma CellRange(columns: int, rows: int, r: nat, c: nat)
    requires r < rows && c < columns
    ensures 0 <= Cell(columns, r, c) < RowStart(columns, rows)
    ensures c > 0 ==> Cell(columns, r, c - 1) == Cell(columns, r, c) - 1
    ensures r > 0 ==> 0 <= Cell(columns, r - 1, c) == Cell(columns, r, c) - columns
  {
    RowsGrow(columns, 0, r);
    RowsGrow(columns, r + 1, rows);
    if r > 0 {
      RowsGrow(columns, 0, r - 1);
    }
  }

  lemma CellUnique(columns: int, r: nat, c: nat, r': nat, c': nat)
    requires c < columns && c' < columns && Cell(columns, r, c) == Cell(columns, r', c')
    ensures r == r' && c == c'
  {
    if r < r' {
      RowsGrow(columns, r + 1, r');
    } else if r' < r {
      RowsGrow(columns, r' + 1, r);
    }
  }

  /** `divmod(cell, columns)`. */
  method SplitCell(columns: int, rows: int, cell: nat) returns (row: nat, column: nat)
    requires columns >= 1 && rows >= 0 && cell < RowStart(columns, rows)
    ensures row < rows && column < columns && Cell(columns, row, column) == cell
  {
    DivMod(cell, columns);
    var q := cell / columns;
    if q < 0 {
      MulMonotone(q, -1, columns);
    }
    RowStartProduct(columns, q);
    Commute(q, columns);
    if q >= rows {
      RowsGrow(columns, rows, q);
    }
    row, column := q, cell % columns;
  }

  const BLACK := Rgb(0, 0, 0)

  /** Every pixel of every cell shows what `colourAt` says once the cells before `cell` are done. */
  ghost predicate FilledTo(shown: Picture, columns: int, rows: int, scale: int, colours: seq<Rgb>, cell: int) {
    forall r, c, dx, dy :: InCell(columns, rows, scale, r, c, dx, dy) && Cell(columns, r, c) < cell ==>
      0 <= Cell(columns, r, c) < |colours| && shown(r, c, dx, dy) == colours[Cell(columns, r, c)]
  }

  method Blank(columns: int, rows: int, scale: int) returns (buf: seq<Rgb>, ghost shown: Picture)
    requires columns >= 1 && rows >= 1 && scale >= 1
    ensures |buf| == columns * scale * (rows * scale)
    ensures Painted(buf, columns, rows, scale, shown)
  {
    MulNonNegative(columns, scale);
    MulNonNegative(rows, scale);
    MulNonNegative(columns * scale, rows * scale);
    buf := seq(columns * scale * (rows * scale), _ => BLACK);
    shown := (r, c, dx, dy) => BLACK;
    forall r, c, dx, dy | InCell(columns, rows, scale, r, c, dx, dy)
      ensures 0 <= Px(columns, scale, r, c, dx, dy) < |buf|
    {
      CellPixel(columns, rows, scale, r, c, dx, dy);
    }
  }

  method FillCells(blank: seq<Rgb>, colours: seq<Rgb>, columns: int, rows: int, scale: int, ghost before: Picture)
    returns (buf: seq<Rgb>, ghost shown: Picture)
    requires columns >= 1 && rows >= 1 && scale >= 1 && |colours| == RowStart(columns, rows)
    requires Painted(blank, columns, rows, scale, before)
    ensures |buf| >= |blank|
    ensures Painted(buf, columns, rows, scale, shown)
    ensures FilledTo(shown, columns, rows, scale, colours, |colours|)
  {
    buf, shown := blank, before;
    forall r, c, dx, dy | InCell(columns, rows, scale, r, c, dx, dy) ensures Cell(columns, r, c) >= 0 {
      CellRange(columns, rows, r, c);
    }
    for cell := 0 to |colours|
      invariant |buf| >= |blank|
      invariant Painted(buf, columns, rows, scale, shown)
      invariant FilledTo(shown, columns, rows, scale, colours, cell)
    {
      var row, column := SplitCell(columns, rows, cell);
      ghost var was := shown;
      buf, shown := StrikeBlock(buf, columns, rows, scale, row, column, scale, scale, colours[cell], shown);
      FilledNext(was, shown, columns, rows, scale, colours, cell, row, column);
    }
  }

  lemma FilledNext(before: Picture, after: Picture, columns: int, rows: int, scale: int,
                   colours: seq<Rgb>, cell: nat, row: nat, column: nat)
    requires FilledTo(before, columns, rows, scale, colours, cell) && cell < |colours|
    requires row < rows && column < columns && Cell(columns, row, column) == cell
    requires BlockStruck(before, after, row, column, scale, scale, colours[cell])
    ensures FilledTo(after, columns, rows, scale, colours, cell + 1)
  {
    forall r, c, dx, dy | InCell(columns, rows, scale, r, c, dx, dy) && Cell(columns, r, c) < cell + 1
      ensures 0 <= Cell(columns, r, c) < |colours| && after(r, c, dx, dy) == colours[Cell(columns, r, c)]
    {
      if Cell(columns, r, c) == cell {
        CellUnique(columns, r, c, row, column);
      }
    }
  }

  // ---- outlines --------------------------------------------------------------------

  predicate Owned(owners: seq<int>, columns: int, rows: int) {
    columns >= 1 && rows >= 1 && |owners| == RowStart(columns, rows)
  }

  function OwnerAt(owners: seq<int>, columns: int, rows: int, r: int, c: int): int
    requires Owned(owners, columns, rows)
  {
    if 0 <= r < rows && 0 <= c < columns then
      CellRange(columns, rows, r, c);
      owners[Cell(columns, r, c)]
    else -1
  }

  /** The cell and its left neighbour belong to different blocks. */
  predicate HasLeft(owners: seq<int>, columns: int, rows: int, r: int, c: int)
    requires Owned(owners, columns, rows)
  {
    var mine, left := OwnerAt(owners, columns, rows, r, c), OwnerAt(owners, columns, rows, r, c - 1);
    mine >= 0 && left >= 0 && left != mine
  }

  /** The cell and the one above it belong to different blocks. */
  predicate HasTop(owners: seq<int>, columns: int, rows: int, r: int, c: int)
    requires Owned(owners, columns, rows)
  {
    var mine, up := OwnerAt(owners, columns, rows, r, c), OwnerAt(owners, columns, rows, r - 1, c);
    mine >= 0 && up >= 0 && up != mine
  }

  /** A left bar from above meets a top bar from the left at this cell's corner. */
  predicate HasCorner(owners: seq<int>, columns: int, rows: int, r: int, c: int)
    requires Owned(owners, columns, rows)
  {
    HasLeft(owners, columns, rows, r - 1, c) && HasTop(owners, columns, rows, r, c - 1)
  }

  predicate OnBar(owners: seq<int>, columns: int, rows: int, rule: int, r: int, c: int, dx: int, dy: int)
    requires Owned(owners, columns, rows)
  {
    || (HasLeft(owners, columns, rows, r, c) && dx < rule)
    || (HasTop(owners, columns, rows, r, c) && dy < rule)
  }

  predicate OnCorner(owners: seq<int>, columns: int, rows: int, rule: int, r: int, c: int, dx: int, dy: int)
    requires Owned(owners, columns, rows)
  {
    HasCorner(owners, columns, rows, r, c) && dx < rule && dy < rule
  }

  ghost predicate BarredTo(before: Picture, shown: Picture, owners: seq<int>, columns: int, rows: int, scale: int,
                           rule: int, cell: int)
    requires Owned(owners, columns, rows)
  {
    forall r, c, dx, dy :: InCell(columns, rows, scale, r, c, dx, dy) ==>
      shown(r, c, dx, dy) ==
        (if Cell(columns, r, c) < cell && OnBar(owners, columns, rows, rule, r, c, dx, dy) then BACKGROUND
         else before(r, c, dx, dy))
  }

  method DrawBars(fill: seq<Rgb>, owners: seq<int>, columns: int, rows: int, scale: int, rule: nat,
                  ghost before: Picture)
    returns (buf: seq<Rgb>, ghost shown: Picture)
    requires Owned(owners, columns, rows) && scale >= 1
    requires Painted(fill, columns, rows, scale, before)
    ensures |buf| >= |fill|
    ensures rule <= scale ==>
      Painted(buf, columns, rows, scale, shown) && BarredTo(before, shown, owners, columns, rows, scale, rule, |owners|)
  {
    buf, shown := fill, before;
    forall r, c, dx, dy | InCell(columns, rows, scale, r, c, dx, dy) ensures Cell(columns, r, c) >= 0 {
      CellRange(columns, rows, r, c);
    }
    for cell := 0 to |owners|
      invariant |buf| >= |fill|
      invariant rule <= scale ==>
        Painted(buf, columns, rows, scale, shown) && BarredTo(before, shown, owners, columns, rows, scale, rule, cell)
    {
      var row, column := SplitCell(columns, rows, cell);
      CellRange(columns, rows, row, column);
      ghost var was := shown;
      buf, shown := DrawCellBars(buf, owners, columns, rows, scale, rule, row, column, shown);
      if rule <= scale {
        BarredNext(before, was, shown, owners, columns, rows, scale, rule, cell, row, column);
      }
    }
    forall r, c, dx, dy | InCell(columns, rows, scale, r, c, dx, dy) ensures Cell(columns, r, c) < |owners| {
      CellRange(columns, rows, r, c);
    }
  }

  /** What one cell's bars change: only that cell, only on its bars. */
  ghost predicate CellBarred(before: Picture, shown: Picture, owners: seq<int>, columns: int, rows: int, scale: int,
                             rule: int, row: int, column: int)
    requires Owned(owners, columns, rows)
  {
    forall r, c, dx, dy :: InCell(columns, rows, scale, r, c, dx, dy) ==>
      shown(r, c, dx, dy) ==
        (if r == row && c == column && OnBar(owners, columns, rows, rule, r, c, dx, dy) then BACKGROUND
         else before(r, c, dx, dy))
  }

  method DrawCellBars(fill: seq<Rgb>, owners: seq<int>, columns: int, rows: int, scale: int, rule: nat,
                      row: nat, column: nat, ghost before: Picture)
    returns (buf: seq<Rgb>, ghost shown: Picture)
    requires Owned(owners, columns, rows) && scale >= 1 && row < rows && column < columns
    requires rule <= scale ==> Painted(fill, columns, rows, scale, before)
    ensures |buf| >= |fill|
    ensures rule <= scale ==>
      && Painted(buf, columns, rows, scale, shown)
      && CellBarred(before, shown, owners, columns, rows, scale, rule, row, column)
  {
    buf, shown := fill, before;
    CellRange(columns, rows, row, column);
    var cell := Cell(columns, row, column);
    var index := owners[cell];
    if index < 0 {
      return;
    }
    if column > 0 {
      var left := owners[cell - 1];
      if left >= 0 && left != index {
        buf, shown := StrikeBlock(buf, columns, rows, scale, row, column, rule, scale, BACKGROUND, shown);
      }
    }
    if row > 0 {
      var up := owners[cell - columns];
      if up >= 0 && up != index {
        buf, shown := StrikeBlock(buf, columns, rows, scale, row, column, scale, rule, BACKGROUND, shown);
      }
    }
  }

  lemma BarredNext(before: Picture, was: Picture, shown: Picture, owners: seq<int>, columns: int, rows: int, scale: int,
                   rule: int, cell: nat, row: nat, column: nat)
    requires Owned(owners, columns, rows) && row < rows && column < columns && Cell(columns, row, column) == cell
    requires BarredTo(before, was, owners, columns, rows, scale, rule, cell)
    requires CellBarred(was, shown, owners, columns, rows, scale, rule, row, column)
    ensures BarredTo(before, shown, owners, columns, rows, scale, rule, cell + 1)
  {
    forall r, c, dx, dy | InCell(columns, rows, scale, r, c, dx, dy)
      ensures shown(r, c, dx, dy) ==
        (if Cell(columns, r, c) < cell + 1 && OnBar(owners, columns, rows, rule, r, c, dx, dy) then BACKGROUND
         else before(r, c, dx, dy))
    {
      if Cell(columns, r, c) == cell {
        CellUnique(columns, r, c, row, column);
      }
    }
  }

  ghost predicate CorneredTo(before: Picture, shown: Picture, owners: seq<int>, columns: int, rows: int, scale: int,
                             rule: int, row: int, column: int)
    requires Owned(owners, columns, rows)
  {
    forall r, c, dx, dy :: InCell(columns, rows, scale, r, c, dx, dy) ==>
      shown(r, c, dx, dy) ==
        (if (r < row || (r == row && c < column)) && OnCorner(owners, columns, rows, rule, r, c, dx, dy) then BACKGROUND
         else before(r, c, dx, dy))
  }

  method DrawCorners(fill: seq<Rgb>, owners: seq<int>, columns: int, rows: int, scale: int, rule: nat,
                     ghost before: Picture)
    returns (buf: seq<Rgb>, ghost shown: Picture)
    requires Owned(owners, columns, rows) && scale >= 1
    requires rule <= scale ==> Painted(fill, columns, rows, scale, before)
    ensures |buf| >= |fill|
    ensures rule <= scale ==>
      && Painted(buf, columns, rows, scale, shown)
      && CorneredTo(before, shown, owners, columns, rows, scale, rule, rows, 0)
  {
    buf, shown := fill, before;
    for r := 0 to rows + 1
      invariant |buf| >= |fill|
      invariant rule <= scale ==>
        Painted(buf, columns, rows, scale, shown) && CorneredTo(before, shown, owners, columns, rows, scale, rule, r, 0)
    {
      for c := 0 to columns + 1
        invariant |buf| >= |fill|
        invariant rule <= scale ==>
          Painted(buf, columns, rows, scale, shown)
              && CorneredTo(before, shown, owners, columns, rows, scale, rule, r, c)
      {
        if HasCorner(owners, columns, rows, r, c) {
          buf, shown := StrikeBlock(buf, columns, rows, scale, r, c, rule, rule, BACKGROUND, shown);
        }
      }
    }
  }

  /** The picture of the grid: cell colours, outlined where blocks meet. */
  ghost predicate Outlined(shown: Picture, owners: seq<int>, colours: seq<Rgb>, columns: int, rows: int, scale: int,
                           rule: int)
    requires Owned(owners, columns, rows) && |colours| == |owners|
  {
    forall r, c, dx, dy :: InCell(columns, rows, scale, r, c, dx, dy) ==>
      && 0 <= Cell(columns, r, c) < |colours|
      && shown(r, c, dx, dy) ==
           (if OnBar(owners, columns, rows, rule, r, c, dx, dy) || OnCorner(owners, columns, rows, rule, r, c, dx, dy)
            then BACKGROUND else colours[Cell(columns, r, c)])
  }

  lemma OutlinedFrom(filled: Picture, barred: Picture, shown: Picture, owners: seq<int>, colours: seq<Rgb>,
                     columns: int, rows: int, scale: int, rule: int)
    requires Owned(owners, columns, rows) && |colours| == |owners|
    requires FilledTo(filled, columns, rows, scale, colours, |colours|)
    requires BarredTo(filled, barred, owners, columns, rows, scale, rule, |owners|)
    requires CorneredTo(barred, shown, owners, columns, rows, scale, rule, rows, 0)
    ensures Outlined(shown, owners, colours, columns, rows, scale, rule)
  {
    forall r, c, dx, dy | InCell(columns, rows, scale, r, c, dx, dy) ensures 0 <= Cell(columns, r, c) < |colours| {
      CellRange(columns, rows, r, c);
    }
  }

  /** The unfolded grid's pixels; the picture is exact whenever outlines fit their cells. */
  method PaintGrid(owners: seq<int>, colours: seq<Rgb>, columns: int, rows: int, scale: int)
    returns (buf: seq<Rgb>, ghost shown: Picture)
    requires Owned(owners, columns, rows) && |colours| == |owners| && scale >= 1
    ensures |buf| >= columns * scale * (rows * scale)
    ensures scale >= 2 ==>
      && |buf| == columns * scale * (rows * scale)
      && Painted(buf, columns, rows, scale, shown)
      && Outlined(shown, owners, colours, columns, rows, scale, DividerWidth(scale))
  {
    var rule := DividerWidth(scale);
    DividerFits(scale);
    ghost var blank, filled, barred;
    buf, blank := Blank(columns, rows, scale);
    buf, filled := FillCells(buf, colours, columns, rows, scale, blank);
    buf, barred := DrawBars(buf, owners, columns, rows, scale, rule, filled);
    buf, shown := DrawCorners(buf, owners, columns, rows, scale, rule, barred);
    if scale >= 2 {
      OutlinedFrom(filled, barred, shown, owners, colours, columns, rows, scale, rule);
    }
  }
}
