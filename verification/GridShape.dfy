/** The adaptive grid: how many rows and columns, and how many cells each span
    gets (gdr/heapmap.py, `_distribute`). */
module GridShape {
  import opened Arith
  import opened Common
  import Apportion

  const MAX_CELLS := 16384
  const MIN_PIXEL_WIDTH := 200

  /** `math.isqrt`: the largest integer whose square does not exceed `n`. */
  function Isqrt(n: nat): (r: nat)
    ensures r * r <= n < (r + 1) * (r + 1)
  {
    IsqrtBelow(n, n)
  }

  function IsqrtBelow(n: nat, from: nat): (r: nat)
    requires n < (from + 1) * (from + 1)
    ensures r * r <= n < (r + 1) * (r + 1)
    decreases from
  {
    if from * from <= n then from else IsqrtBelow(n, from - 1)
  }

  function Smallest(sizes: seq<int>): (m: int)
    requires sizes != []
    ensures m in sizes && forall i :: 0 <= i < |sizes| ==> m <= sizes[i]
  {
    var last := sizes[|sizes| - 1];
    if |sizes| == 1 then last
    else
      var m := Smallest(sizes[..|sizes| - 1]);
      assert forall i :: 0 <= i < |sizes| - 1 ==> sizes[..|sizes| - 1][i] == sizes[i];
      Min(m, last)
  }

  function MaxColumns(cellPx: int, maxPx: int): int
    requires cellPx > 0
  {
    Max(1, maxPx / cellPx)
  }

  function MinColumns(cellPx: int, maxPx: int): int
    requires cellPx > 0
  {
    Max(1, CeilDiv(Min(MIN_PIXEL_WIDTH, maxPx), cellPx))
  }

  /** Cells wanted: one per span, or one per smallest span up to the cap. */
  function Desired(sizes: seq<int>, arena: int): int
    requires sizes != [] && Smallest(sizes) > 0
  {
    Max(|sizes|, Min(MAX_CELLS, CeilDiv(arena, Smallest(sizes))))
  }

  /** Enough cells: one per span, and cells no larger than the smallest span unless
      the cap is reached. */
  ghost predicate Enough(cells: int, sizes: seq<int>, arena: int) {
    cells >= |sizes| && (cells >= MAX_CELLS || forall i :: 0 <= i < |sizes| ==> cells * sizes[i] >= arena)
  }

  /** The cells wanted are the fewest that are enough. */
  lemma DesiredLeast(sizes: seq<int>, arena: int)
    requires sizes != [] && Smallest(sizes) > 0
    ensures Enough(Desired(sizes, arena), sizes, arena)
    ensures forall cells :: Enough(cells, sizes, arena) ==> Desired(sizes, arena) <= cells
  {
    var m := Smallest(sizes);
    var desired, share := Desired(sizes, arena), CeilDiv(arena, m);
    if desired < MAX_CELLS {
      MulMonotone(share, desired, m);
      forall i | 0 <= i < |sizes| ensures desired * sizes[i] >= arena {
        MulMonotone(m, sizes[i], desired);
      }
    }
    forall cells | Enough(cells, sizes, arena) ensures desired <= cells {
      if cells < MAX_CELLS && cells < share {
        var i :| 0 <= i < |sizes| && sizes[i] == m;
        assert cells * sizes[i] >= arena;
        MulMonotone(cells, share - 1, m);
      }
    }
  }

  /** `rows * columns` holds the wanted cells with less than one line to spare. */
  ghost predicate Fits(desired: int, rows: int, columns: int) {
    rows >= 1 && columns >= 1 && desired <= rows * columns < desired + Max(rows, columns)
  }

  lemma CeilFits(desired: int, lines: int)
    requires desired >= 1 && lines >= 1
    ensures CeilDiv(desired, lines) >= 1
    ensures desired <= lines * CeilDiv(desired, lines) < desired + lines
    ensures desired <= CeilDiv(desired, lines) * lines < desired + lines
  {
    var q := CeilDiv(desired, lines);
    DistributeMinus(lines, q, 1);
    Commute(lines, q);
    if q <= 0 {
      MulMonotone(q, 0, lines);
    }
  }

  /** Rows of the portrait one-to-two grid, before any width limit. */
  function Portrait(desired: int): (rows: int)
    requires desired >= 1
    ensures rows >= 1
  {
    Max(1, Isqrt(desired * 2))
  }

  /** The portrait grid is about twice as high as it is wide. */
  lemma PortraitShape(desired: int)
    requires desired >= 1
    ensures var rows, columns := Portrait(desired), CeilDiv(desired, Portrait(desired));
            && rows * rows <= 2 * desired < (rows + 1) * (rows + 1)
            && rows <= 2 * columns <= rows + 3
  {
    var rows := Portrait(desired);
    var columns := CeilDiv(desired, rows);
    SquareNext(rows);
    CeilFits(desired, rows);
    Arith.Distribute(rows, columns, columns);
    Arith.Distribute(rows, columns - 1, columns - 1);
    Arith.Distribute(rows, rows, 2);
    Cancel(rows, 2 * columns, rows);
    CancelStrict(2 * (columns - 1), rows + 2, rows);
  }

  lemma SquareNext(n: int)
    ensures (n + 1) * (n + 1) == n * n + 2 * n + 1
  {}

  lemma Cancel(a: int, b: int, c: int)
    requires c > 0 && a * c <= b * c
    ensures a <= b
  {
    if a > b {
      MulStrict(b, a, c);
    }
  }

  lemma CancelStrict(a: int, b: int, c: int)
    requires c > 0 && a * c < b * c
    ensures a < b
  {
    if a >= b {
      MulMonotone(b, a, c);
    }
  }

  /** Columns: the portrait grid's, clamped to the widths allowed, the lower
      limit winning. */
  function Columns(desired: int, cellPx: int, maxPx: int): (columns: int)
    requires desired >= 1 && cellPx >= 1
    ensures columns >= 1
  {
    Max(MinColumns(cellPx, maxPx), Min(CeilDiv(desired, Portrait(desired)), MaxColumns(cellPx, maxPx)))
  }

  /** Rows: the portrait grid's when no limit bites, else just enough. */
  function Rows(desired: int, cellPx: int, maxPx: int): int
    requires desired >= 1 && cellPx >= 1
  {
    if MinColumns(cellPx, maxPx) <= CeilDiv(desired, Portrait(desired)) <= MaxColumns(cellPx, maxPx)
    then Portrait(desired)
    else CeilDiv(desired, Columns(desired, cellPx, maxPx))
  }

  method Shape(desired: int, cellPx: int, maxPx: int) returns (rows: int, columns: int)
    requires desired >= 1 && cellPx >= 1
    ensures Fits(desired, rows, columns)
    ensures rows == Rows(desired, cellPx, maxPx) && columns == Columns(desired, cellPx, maxPx)
    ensures MinColumns(cellPx, maxPx) <= columns
    ensures columns <= Max(MinColumns(cellPx, maxPx), MaxColumns(cellPx, maxPx))
  {
    var maxColumns := MaxColumns(cellPx, maxPx);
    var minColumns := MinColumns(cellPx, maxPx);
    rows := Max(1, Isqrt(desired * 2));
    columns := CeilDiv(desired, rows);
    CeilFits(desired, rows);
    if columns > maxColumns {
      columns := maxColumns;
      rows := CeilDiv(desired, columns);
      CeilFits(desired, columns);
    }
    if columns < minColumns {
      columns := minColumns;
      rows := Max(1, CeilDiv(desired, columns));
      CeilFits(desired, columns);
    }
  }

  /** The planned width keeps the pixel budget exactly when a cell fits it and the
      least columns do: those that reach the minimum width, rounded up to cells. */
  lemma BudgetKeptIff(desired: int, cellPx: int, maxPx: int)
    requires desired >= 1 && cellPx >= 1 && maxPx >= 1
    ensures Columns(desired, cellPx, maxPx) * cellPx <= maxPx
      <==> cellPx <= maxPx && CeilDiv(Min(MIN_PIXEL_WIDTH, maxPx), cellPx) * cellPx <= maxPx
  {
    var columns, least := Columns(desired, cellPx, maxPx), CeilDiv(Min(MIN_PIXEL_WIDTH, maxPx), cellPx);
    LeastPositive(Min(MIN_PIXEL_WIDTH, maxPx), cellPx);
    DivMod(maxPx, cellPx);
    Commute(cellPx, maxPx / cellPx);
    MulMonotone(least, columns, cellPx);
    MulMonotone(1, columns, cellPx);
    if columns > least {
      MulMonotone(columns, MaxColumns(cellPx, maxPx), cellPx);
    }
  }

  lemma LeastPositive(pixels: int, cellPx: int)
    requires pixels >= 1 && cellPx >= 1
    ensures CeilDiv(pixels, cellPx) >= 1
  {
    CeilFits(pixels, cellPx);
  }

  /** Cells of 30 pixels in a budget of 200: whatever is laid out, seven columns
      at least, 210 pixels wide. */
  lemma OverBudgetExample(desired: int)
    requires desired >= 1
    ensures Columns(desired, 30, 200) * 30 > 200
  {
    assert CeilDiv(200, 30) == 7;
  }

  /** The pixel budget may be overrun by less than one cell, never more. */
  lemma WidthBudget(columns: int, cellPx: int, maxPx: int)
    requires cellPx >= 1 && maxPx >= 1
    requires 1 <= columns <= Max(MinColumns(cellPx, maxPx), MaxColumns(cellPx, maxPx))
    ensures columns * cellPx < maxPx + cellPx
  {
    var c := Max(MinColumns(cellPx, maxPx), MaxColumns(cellPx, maxPx));
    MulMonotone(columns, c, cellPx);
    DistributeMinus(cellPx, c, 1);
    DivMod(maxPx, cellPx);
  }

  ghost predicate Sized(sizes: seq<int>, arena: int) {
    sizes != [] && (forall i :: 0 <= i < |sizes| ==> sizes[i] > 0) && Sum(sizes) == arena
  }

  method Distribute(sizes: seq<int>, arena: int, cellPx: int, maxPx: int)
    returns (rows: int, columns: int, counts: seq<int>)
    requires Sized(sizes, arena) && cellPx >= 1
    ensures Fits(Desired(sizes, arena), rows, columns)
    ensures rows == Rows(Desired(sizes, arena), cellPx, maxPx)
              && columns == Columns(Desired(sizes, arena), cellPx, maxPx)
    ensures MinColumns(cellPx, maxPx) <= columns <= Max(MinColumns(cellPx, maxPx), MaxColumns(cellPx, maxPx))
    ensures Apportion.Splittable(sizes, arena, rows * columns, true)
    ensures counts == Apportion.Counts(sizes, arena, rows * columns, true)
    ensures |counts| == |sizes| && Sum(counts) == rows * columns
  {
    rows, columns := Shape(Desired(sizes, arena), cellPx, maxPx);
    counts := Apportion.SplitCells(sizes, arena, rows * columns, true);
  }
}
