/** Row-exact layout: every grid row stands for the same number of arena bytes
    (gdr/heapmap.py, `_row_exact_layout`). */
module RowExact {
  import opened ArenaSpans
  import opened Common
  import opened GridCells
  import Apportion
  import GridShape

  const MAX_ROWS := 4096

  /** The part of one span inside a row's window. */
  datatype Piece = Piece(size: int, index: int)

  function Overlap(span: Span, low: int, high: int): int {
    Min(span.start + span.size, high) - Max(span.start, low)
  }

  function PieceOf(span: Span, low: int, high: int): seq<Piece> {
    if Overlap(span, low, high) > 0 then [Piece(Overlap(span, low, high), span.index)] else []
  }

  /** The non-empty parts of the spans inside `[low, high)`, in span order. */
  function Pieces(spans: seq<Span>, low: int, high: int): (p: seq<Piece>)
    ensures forall i :: 0 <= i < |p| ==> p[i].size > 0
  {
    if spans == [] then []
    else Pieces(spans[..|spans| - 1], low, high) + PieceOf(spans[|spans| - 1], low, high)
  }

  /** A piece stands for a span that reaches into the window. */
  lemma {:induction false} PieceSource(spans: seq<Span>, low: int, high: int, i: int) returns (k: int)
    requires 0 <= i < |Pieces(spans, low, high)|
    ensures 0 <= k < |spans| && Overlap(spans[k], low, high) > 0 && spans[k].index == Pieces(spans, low, high)[i].index
  {
    var n := |spans| - 1;
    if i < |Pieces(spans[..n], low, high)| {
      k := PieceSource(spans[..n], low, high, i);
    } else {
      k := n;
    }
  }

  function PieceSizes(pieces: seq<Piece>): (s: seq<int>)
    ensures |s| == |pieces|
  {
    seq(|pieces|, i requires 0 <= i < |pieces| => pieces[i].size)
  }

  lemma PieceSizesAppend(pieces: seq<Piece>, p: Piece)
    ensures Sum(PieceSizes(pieces + [p])) == Sum(PieceSizes(pieces)) + p.size
  {
    assert PieceSizes(pieces + [p]) == PieceSizes(pieces) + [p.size];
    SumAppend(PieceSizes(pieces), p.size);
  }

  lemma OverlapSplit(base: int, mid: int, end: int, low: int, high: int)
    requires base <= mid < end && low <= high
    ensures Max(0, Min(high, mid) - Max(low, base)) + Max(0, Min(end, high) - Max(mid, low))
         == Max(0, Min(high, end) - Max(low, base))
  {}

  /** The pieces of a window are exactly the window's share of the tiled range. */
  lemma {:induction false} PiecesSum(spans: seq<Span>, base: int, end: int, low: int, high: int)
    requires Tiles(spans, base, end) && low <= high
    ensures Sum(PieceSizes(Pieces(spans, low, high))) == Max(0, Min(high, end) - Max(low, base))
  {
    if spans != [] {
      var n := |spans| - 1;
      var last, front := spans[n], Pieces(spans[..n], low, high);
      assert last.start + last.size == end && last.size > 0;
      TilesFront(spans, base, end);
      PiecesSum(spans[..n], base, last.start, low, high);
      TilesDisjoint(spans[..n], base, last.start);
      OverlapSplit(base, last.start, end, low, high);
      if Overlap(last, low, high) > 0 {
        PieceSizesAppend(front, Piece(Overlap(last, low, high), last.index));
      } else {
        assert front + [] == front;
      }
    }
  }

  /** Runs for one row: one per piece that got cells, from `start` on. */
  function RunsFor(pieces: seq<Piece>, counts: seq<int>, start: int): seq<Run>
    requires |pieces| == |counts|
  {
    if pieces == [] then []
    else
      var n := |pieces| - 1;
      var at := start + Sum(counts[..n]);
      RunsFor(pieces[..n], counts[..n], start)
      + (if counts[n] != 0 then [Run(at, at + counts[n], pieces[n].index)] else [])
  }

  ghost predicate RunsBetween(runs: seq<Run>, low: int, high: int) {
    && (forall k :: 0 <= k < |runs| ==> low <= runs[k].start < runs[k].stop <= high)
    && (forall i, j :: 0 <= i < j < |runs| && j == i + 1 ==> runs[i].stop == runs[j].start)
    && (if runs == [] then low == high else runs[0].start == low && runs[|runs| - 1].stop == high)
  }

  /** A row's runs tile its cells. */
  lemma {:induction false} RunsForTile(pieces: seq<Piece>, counts: seq<int>, start: int)
    requires |pieces| == |counts| && forall i :: 0 <= i < |counts| ==> counts[i] >= 0
    ensures RunsBetween(RunsFor(pieces, counts, start), start, start + Sum(counts))
  {
    hide RunsBetween;
    if pieces == [] {
      NoRuns(start);
    } else {
      var n := |pieces| - 1;
      RunsForTile(pieces[..n], counts[..n], start);
      SumNonNegative(counts[..n]);
      RunAdded(RunsFor(pieces[..n], counts[..n], start), start, start + Sum(counts[..n]), counts[n], pieces[n].index);
    }
  }

  lemma NoRuns(start: int)
    ensures RunsBetween([], start, start)
  {}

  lemma RunAdded(front: seq<Run>, start: int, mid: int, count: int, index: int)
    requires RunsBetween(front, start, mid) && start <= mid && count >= 0
    ensures RunsBetween(front + (if count != 0 then [Run(mid, mid + count, index)] else []), start, mid + count)
  {
    if count != 0 {
      RunsBetweenJoin(front, [Run(mid, mid + count, index)], start, mid, mid + count);
    } else {
      assert front + [] == front;
    }
  }

  lemma RunsBetweenJoin(a: seq<Run>, b: seq<Run>, low: int, mid: int, high: int)
    requires RunsBetween(a, low, mid) && RunsBetween(b, mid, high) && low <= mid <= high
    ensures RunsBetween(a + b, low, high)
  {}

  /** A run names one of the row's pieces. */
  lemma {:induction false} RunSource(pieces: seq<Piece>, counts: seq<int>, start: int, k: int) returns (i: int)
    requires |pieces| == |counts| && 0 <= k < |RunsFor(pieces, counts, start)|
    ensures 0 <= i < |pieces| && pieces[i].index == RunsFor(pieces, counts, start)[k].index
  {
    var n := |pieces| - 1;
    if k < |RunsFor(pieces[..n], counts[..n], start)| {
      i := RunSource(pieces[..n], counts[..n], start, k);
    } else {
      i := n;
    }
  }

  /** With a cell for every piece, the runs are the pieces one by one. */
  lemma {:induction false} RunsForEach(pieces: seq<Piece>, counts: seq<int>, start: int)
    requires |pieces| == |counts| && forall i :: 0 <= i < |counts| ==> counts[i] >= 1
    ensures |RunsFor(pieces, counts, start)| == |pieces|
    ensures forall i :: 0 <= i < |pieces| ==> RunsFor(pieces, counts, start)[i].index == pieces[i].index
  {
    if pieces != [] {
      var n := |pieces| - 1;
      RunsForEach(pieces[..n], counts[..n], start);
      assert forall i :: 0 <= i < n ==> pieces[..n][i] == pieces[i];
    }
  }

  function WindowLow(heap: HeapMap, rowBytes: int, window: int): int {
    heap.base + RowStart(rowBytes, window)
  }

  /** Just enough rows of `rowBytes` for the whole arena. */
  ghost predicate EnoughRows(heap: HeapMap, rowBytes: int, rows: int) {
    && rowBytes >= 1 && rows >= 1
    && RowStart(rowBytes, rows - 1) < heap.end - heap.base <= RowStart(rowBytes, rows)
  }

  lemma CeilEnoughRows(heap: HeapMap, rowBytes: int)
    requires rowBytes >= 1 && heap.base < heap.end
    ensures EnoughRows(heap, rowBytes, Max(1, CeilDiv(heap.end - heap.base, rowBytes)))
  {
    var q := CeilDiv(heap.end - heap.base, rowBytes);
    GridShape.CeilFits(heap.end - heap.base, rowBytes);
    RowStartProduct(rowBytes, q);
    RowStartProduct(rowBytes, q - 1);
  }

  function WindowHigh(heap: HeapMap, rowBytes: int, window: int): int {
    Min(WindowLow(heap, rowBytes, window) + rowBytes, heap.end)
  }

  function WindowPieces(heap: HeapMap, spans: seq<Span>, rowBytes: int, window: int): (p: seq<Piece>)
    ensures forall i :: 0 <= i < |p| ==> p[i].size > 0
  {
    Pieces(spans, WindowLow(heap, rowBytes, window), WindowHigh(heap, rowBytes, window))
  }

  /** How a window's cells are shared out among its pieces. */
  ghost function WindowCounts(pieces: seq<Piece>, columns: int): (counts: seq<int>)
    requires pieces != [] && columns >= 0 && forall i :: 0 <= i < |pieces| ==> pieces[i].size > 0
    ensures |counts| == |pieces|
  {
    Apportion.Counts(PieceSizes(pieces), Sum(PieceSizes(pieces)), columns, |pieces| <= columns)
  }

  /** The runs of one row. */
  ghost function RowOf(heap: HeapMap, spans: seq<Span>, rowBytes: int, columns: int, window: nat): seq<Run>
    requires columns >= 0 && WindowPieces(heap, spans, rowBytes, window) != []
  {
    var pieces := WindowPieces(heap, spans, rowBytes, window);
    RunsFor(pieces, WindowCounts(pieces, columns), RowStart(columns, window))
  }

  ghost predicate IsRow(heap: HeapMap, spans: seq<Span>, rowBytes: int, columns: int, window: nat, row: seq<Run>) {
    && columns >= 0 && WindowPieces(heap, spans, rowBytes, window) != []
    && row == RowOf(heap, spans, rowBytes, columns, window)
  }

  function Joined(rows: seq<seq<Run>>): seq<Run> {
    if rows == [] then [] else Joined(rows[..|rows| - 1]) + rows[|rows| - 1]
  }

  method WindowPiecesOf(spans: seq<Span>, low: int, high: int) returns (pieces: seq<Piece>)
    ensures pieces == Pieces(spans, low, high)
  {
    pieces := [];
    for k := 0 to |spans|
      invariant pieces == Pieces(spans[..k], low, high)
    {
      var span := spans[k];
      var overlap := Min(span.start + span.size, high) - Max(span.start, low);
      PiecesNext(spans, low, high, k);
      if overlap > 0 {
        pieces := pieces + [Piece(overlap, span.index)];
      }
    }
    assert spans[..|spans|] == spans;
  }

  lemma PiecesNext(spans: seq<Span>, low: int, high: int, k: nat)
    requires k < |spans|
    ensures Pieces(spans[..k + 1], low, high) == Pieces(spans[..k], low, high) + PieceOf(spans[k], low, high)
    ensures PieceOf(spans[k], low, high) == [] ==> Pieces(spans[..k + 1], low, high) == Pieces(spans[..k], low, high)
  {
    assert spans[..k + 1][..k] == spans[..k];
  }

  method LayPieces(runs: seq<Run>, pieces: seq<Piece>, counts: seq<int>, from: int)
    returns (all: seq<Run>, start: int)
    requires |pieces| == |counts|
    ensures all == runs + RunsFor(pieces, counts, from) && start == from + Sum(counts)
  {
    all, start := runs, from;
    for k := 0 to |pieces|
      invariant all == runs + RunsFor(pieces[..k], counts[..k], from) && start == from + Sum(counts[..k])
    {
      var stop := start + counts[k];
      OffsetNext(counts, k);
      assert pieces[..k + 1][..k] == pieces[..k] && counts[..k + 1][..k] == counts[..k];
      if counts[k] != 0 {
        all := all + [Run(start, stop, pieces[k].index)];
      }
      start := stop;
    }
    assert pieces[..|pieces|] == pieces && counts[..|counts|] == counts;
  }

  /** Windows follow each other, each holding `rowBytes` bytes except a shorter last one. */
  lemma WindowsTile(heap: HeapMap, rowBytes: int, rows: int, window: nat)
    requires EnoughRows(heap, rowBytes, rows) && window < rows
    ensures heap.base <= WindowLow(heap, rowBytes, window) < WindowHigh(heap, rowBytes, window) <= heap.end
    ensures window + 1 < rows ==> WindowHigh(heap, rowBytes, window) == WindowLow(heap, rowBytes, window + 1)
    ensures window + 1 == rows ==> WindowHigh(heap, rowBytes, window) == heap.end
  {
    RowsGrow(rowBytes, 0, window);
    RowsGrow(rowBytes, window, rows - 1);
    if window + 1 < rows {
      RowsGrow(rowBytes, window + 1, rows - 1);
    }
  }

  /** Every window holds at least one byte of the arena, so at least one piece. */
  lemma WindowFull(heap: HeapMap, spans: seq<Span>, rowBytes: int, rows: int, window: nat)
    requires Tiles(spans, heap.base, heap.end) && EnoughRows(heap, rowBytes, rows) && window < rows
    ensures WindowPieces(heap, spans, rowBytes, window) != []
    ensures Sum(PieceSizes(WindowPieces(heap, spans, rowBytes, window)))
         == WindowHigh(heap, rowBytes, window) - WindowLow(heap, rowBytes, window)
  {
    WindowsTile(heap, rowBytes, rows, window);
    PiecesSum(spans, heap.base, heap.end, WindowLow(heap, rowBytes, window), WindowHigh(heap, rowBytes, window));
  }

  lemma WindowSplittable(pieces: seq<Piece>, columns: int)
    requires pieces != [] && columns >= 0 && forall i :: 0 <= i < |pieces| ==> pieces[i].size > 0
    ensures Apportion.Splittable(PieceSizes(pieces), Sum(PieceSizes(pieces)), columns, |pieces| <= columns)
    ensures Sum(WindowCounts(pieces, columns)) == columns
    ensures forall i :: 0 <= i < |pieces| ==> WindowCounts(pieces, columns)[i] >= (if |pieces| <= columns then 1 else 0)
  {
    var sizes, arena, reserved := PieceSizes(pieces), Sum(PieceSizes(pieces)), |pieces| <= columns;
    Apportion.CountsFacts(sizes, arena, columns, reserved);
    Apportion.CountsFloor(sizes, arena, columns, reserved);
  }

  lemma WindowRow(heap: HeapMap, spans: seq<Span>, rowBytes: int, columns: int, window: nat,
                  pieces: seq<Piece>, counts: seq<int>)
    requires columns >= 0 && pieces == WindowPieces(heap, spans, rowBytes, window) && pieces != []
    requires counts == WindowCounts(pieces, columns)
    ensures IsRow(heap, spans, rowBytes, columns, window, RunsFor(pieces, counts, RowStart(columns, window)))
  {}

  method LayRow(heap: HeapMap, spans: seq<Span>, rowBytes: int, columns: int, ghost rows: int, window: nat,
                before: seq<Run>, from: int)
    returns (runs: seq<Run>, start: int, ghost row: seq<Run>)
    requires Tiles(spans, heap.base, heap.end) && EnoughRows(heap, rowBytes, rows) && columns >= 1 && window < rows
    requires from == RowStart(columns, window)
    ensures runs == before + row && IsRow(heap, spans, rowBytes, columns, window, row)
    ensures start == from + columns
  {
    hide RunsFor, WindowCounts, Tiles, EnoughRows, IsRow, Pieces, Sum;
    RowStartProduct(rowBytes, window);
    var low := heap.base + window * rowBytes;
    var high := Min(low + rowBytes, heap.end);
    var pieces := WindowPiecesOf(spans, low, high);
    WindowFull(heap, spans, rowBytes, rows, window);
    var counts := SharePieces(pieces, columns);
    row := RunsFor(pieces, counts, from);
    WindowRow(heap, spans, rowBytes, columns, window, pieces, counts);
    runs, start := LayPieces(before, pieces, counts, from);
  }

  method SharePieces(pieces: seq<Piece>, columns: int) returns (counts: seq<int>)
    requires pieces != [] && columns >= 0 && forall i :: 0 <= i < |pieces| ==> pieces[i].size > 0
    ensures counts == WindowCounts(pieces, columns) && Sum(counts) == columns
  {
    WindowSplittable(pieces, columns);
    var sizes := PieceSizes(pieces);
    counts := Apportion.SplitCells(sizes, Sum(sizes), columns, |pieces| <= columns);
  }

  /** Row by row, what the layout consists of. */
  ghost predicate RowsLaid(heap: HeapMap, spans: seq<Span>, rowBytes: int, columns: int, laid: seq<seq<Run>>) {
    forall w :: 0 <= w < |laid| ==> IsRow(heap, spans, rowBytes, columns, w, laid[w])
  }

  lemma JoinedAppend(laid: seq<seq<Run>>, row: seq<Run>)
    ensures Joined(laid + [row]) == Joined(laid) + row
  {
    assert (laid + [row])[..|laid|] == laid;
  }

  lemma RowsLaidAppend(heap: HeapMap, spans: seq<Span>, rowBytes: int, columns: int, laid: seq<seq<Run>>, row: seq<Run>)
    requires RowsLaid(heap, spans, rowBytes, columns, laid)
    requires IsRow(heap, spans, rowBytes, columns, |laid|, row)
    ensures RowsLaid(heap, spans, rowBytes, columns, laid + [row])
  {
    forall w | 0 <= w < |laid + [row]| ensures IsRow(heap, spans, rowBytes, columns, w, (laid + [row])[w]) {
      if w < |laid| {
        assert (laid + [row])[w] == laid[w];
      }
    }
  }

  /** The runs laid so far are those of the first rows. */
  ghost predicate LaidSoFar(heap: HeapMap, spans: seq<Span>, rowBytes: int, columns: int,
                            laid: seq<seq<Run>>, runs: seq<Run>, start: int) {
    && RowsLaid(heap, spans, rowBytes, columns, laid)
    && runs == Joined(laid) && start == RowStart(columns, |laid|)
  }

  lemma LaidNext(heap: HeapMap, spans: seq<Span>, rowBytes: int, columns: int,
                 laid: seq<seq<Run>>, runs: seq<Run>, start: int, row: seq<Run>)
    requires LaidSoFar(heap, spans, rowBytes, columns, laid, runs, start) && columns >= 1
    requires IsRow(heap, spans, rowBytes, columns, |laid|, row)
    ensures LaidSoFar(heap, spans, rowBytes, columns, laid + [row], runs + row, start + columns)
  {
    JoinedAppend(laid, row);
    RowsLaidAppend(heap, spans, rowBytes, columns, laid, row);
  }

  method LayRows(heap: HeapMap, spans: seq<Span>, rowBytes: int, columns: int, rows: int)
    returns (runs: seq<Run>, ghost laid: seq<seq<Run>>)
    requires Tiles(spans, heap.base, heap.end) && EnoughRows(heap, rowBytes, rows) && columns >= 1
    ensures |laid| == rows && RowsLaid(heap, spans, rowBytes, columns, laid) && runs == Joined(laid)
    ensures TiledRows(runs, columns, rows)
  {
    runs, laid := [], [];
    var start := 0;
    for window := 0 to rows
      invariant |laid| == window && LaidSoFar(heap, spans, rowBytes, columns, laid, runs, start)
    {
      ghost var row;
      ghost var before := runs;
      ghost var from := start;
      runs, start, row := LayRow(heap, spans, rowBytes, columns, rows, window, runs, start);
      LaidNext(heap, spans, rowBytes, columns, laid, before, from, row);
      laid := laid + [row];
    }
    RowsTile(heap, spans, rowBytes, columns, laid);
  }

  ghost predicate Named(spans: seq<Span>, low: int, high: int, index: int) {
    exists s :: 0 <= s < |spans| && spans[s].index == index && Overlap(spans[s], low, high) > 0
  }

  /** Row `window` fills its own cells exactly. */
  lemma RowFills(heap: HeapMap, spans: seq<Span>, rowBytes: int, columns: int, rows: int, window: nat)
    requires Tiles(spans, heap.base, heap.end) && EnoughRows(heap, rowBytes, rows) && columns >= 1 && window < rows
    ensures WindowPieces(heap, spans, rowBytes, window) != []
    ensures RunsBetween(RowOf(heap, spans, rowBytes, columns, window), RowStart(columns, window),
              RowStart(columns, window + 1))
  {
    hide Pieces, Tiles, EnoughRows, RunsFor, RunsBetween, PieceSizes;
    var pieces := WindowPieces(heap, spans, rowBytes, window);
    WindowFull(heap, spans, rowBytes, rows, window);
    WindowSplittable(pieces, columns);
    RunsForTile(pieces, WindowCounts(pieces, columns), RowStart(columns, window));
  }

  /** A cell of a row names only spans that reach into the row's window. */
  lemma RowNames(heap: HeapMap, spans: seq<Span>, rowBytes: int, columns: int, window: nat, k: int)
    requires columns >= 1 && WindowPieces(heap, spans, rowBytes, window) != []
    requires 0 <= k < |RowOf(heap, spans, rowBytes, columns, window)|
    ensures Named(spans, WindowLow(heap, rowBytes, window), WindowHigh(heap, rowBytes, window),
                  RowOf(heap, spans, rowBytes, columns, window)[k].index)
  {
    var pieces := WindowPieces(heap, spans, rowBytes, window);
    var i := RunSource(pieces, WindowCounts(pieces, columns), RowStart(columns, window), k);
    var s := PieceSource(spans, WindowLow(heap, rowBytes, window), WindowHigh(heap, rowBytes, window), i);
  }

  /** When a window's pieces fit the columns, the row shows every one of them, in order. */
  lemma RowShowsAll(heap: HeapMap, spans: seq<Span>, rowBytes: int, columns: int, window: nat)
    requires columns >= 1 && WindowPieces(heap, spans, rowBytes, window) != []
    requires |WindowPieces(heap, spans, rowBytes, window)| <= columns
    ensures var row, pieces := RowOf(heap, spans, rowBytes, columns, window),
              WindowPieces(heap, spans, rowBytes, window);
            |row| == |pieces| && forall i :: 0 <= i < |row| ==> row[i].index == pieces[i].index
  {
    var pieces := WindowPieces(heap, spans, rowBytes, window);
    WindowSplittable(pieces, columns);
    RunsForEach(pieces, WindowCounts(pieces, columns), RowStart(columns, window));
  }

  ghost predicate InsideRow(run: Run, columns: int, rows: nat) {
    exists w :: 0 <= w < rows && InRowOf(run, columns, w)
  }

  predicate InRowOf(run: Run, columns: int, row: int) {
    RowStart(columns, row) <= run.start < run.stop <= RowStart(columns, row + 1)
  }

  /** Runs that tile `n` rows without ever crossing from one row into the next. */
  ghost predicate TiledRows(runs: seq<Run>, columns: int, n: nat) {
    && RunsBetween(runs, 0, RowStart(columns, n))
    && forall k :: 0 <= k < |runs| ==> InsideRow(runs[k], columns, n)
  }

  lemma {:induction false} JoinedTiles(laid: seq<seq<Run>>, columns: int)
    requires columns >= 1
    requires forall w :: 0 <= w < |laid| ==> RunsBetween(laid[w], RowStart(columns, w), RowStart(columns, w + 1))
    ensures TiledRows(Joined(laid), columns, |laid|)
  {
    if laid != [] {
      var n := |laid| - 1;
      JoinedTiles(laid[..n], columns);
      RowAdded(Joined(laid[..n]), laid[n], columns, n + 1);
    }
  }

  /** The whole row-exact layout tiles the grid, row by row. */
  lemma RowsTile(heap: HeapMap, spans: seq<Span>, rowBytes: int, columns: int, laid: seq<seq<Run>>)
    requires Tiles(spans, heap.base, heap.end) && EnoughRows(heap, rowBytes, |laid|) && columns >= 1
    requires RowsLaid(heap, spans, rowBytes, columns, laid)
    ensures TiledRows(Joined(laid), columns, |laid|)
  {
    forall w | 0 <= w < |laid|
      ensures RunsBetween(laid[w], RowStart(columns, w), RowStart(columns, w + 1))
    {
      RowFills(heap, spans, rowBytes, columns, |laid|, w);
    }
    JoinedTiles(laid, columns);
  }

  lemma RowAdded(before: seq<Run>, row: seq<Run>, columns: int, n: nat)
    requires n > 0 && columns >= 1 && TiledRows(before, columns, n - 1)
    requires RunsBetween(row, RowStart(columns, n - 1), RowStart(columns, n))
    ensures TiledRows(before + row, columns, n)
  {
    RowsGrow(columns, 0, n - 1);
    RunsBetweenJoin(before, row, 0, RowStart(columns, n - 1), RowStart(columns, n));
    forall k | 0 <= k < |before + row| ensures InsideRow((before + row)[k], columns, n) {
      if k < |before| {
        var w :| 0 <= w < n - 1 && InRowOf(before[k], columns, w);
      } else {
        assert InRowOf(row[k - |before|], columns, n - 1);
      }
    }
  }
}
