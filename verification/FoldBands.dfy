/** The last step of `rasterize`: hatched bands in place of folded rows, kept
    rows in order (gdr/heapmap.py). */
module FoldBands {
  import opened Arith
  import opened ArenaSpans
  import opened Common
  import opened GridCells
  import opened GridFolds
  import opened HeapGrid
  import opened Pixels
  import Raster
  import StableOrder

  /** One unit of output height: a band of fold number `fold`, or a kept grid row. */
  datatype Unit = Band(fold: int) | Kept(row: int)

  function FirstRows(folds: seq<Fold>): (keys: seq<int>)
    ensures |keys| == |folds|
  {
    seq(|folds|, i requires 0 <= i < |folds| => folds[i].row)
  }

  /** `sorted(folds, key=row)`. */
  function Sorted(folds: seq<Fold>): (s: seq<Fold>)
    ensures |s| == |folds|
  {
    var order := StableOrder.Order(FirstRows(folds));
    seq(|folds|, i requires 0 <= i < |folds| => folds[order[i]])
  }

  /** `height` times the same band; a height below one paints nothing. */
  function Repeated(pos: int, height: int): seq<Unit> {
    if height <= 0 then [] else Repeated(pos, height - 1) + [Band(pos)]
  }

  lemma {:induction false} RepeatedBands(pos: int, height: int)
    ensures |Repeated(pos, height)| == Max(0, height)
    ensures forall k :: 0 <= k < |Repeated(pos, height)| ==> Repeated(pos, height)[k] == Band(pos)
  {
    if height > 0 {
      RepeatedBands(pos, height - 1);
    }
  }

  /** Bands of the first `n` folds, as far as they start at `row`, in order. */
  function Bands(folds: seq<Fold>, row: int, n: nat): seq<Unit>
    requires n <= |folds|
  {
    if n == 0 then []
    else
      var front := Bands(folds, row, n - 1);
      if folds[n - 1].row == row then front + Repeated(n - 1, folds[n - 1].height) else front
  }

  /** The units of the first `rows` grid rows, top to bottom. */
  function Units(folds: seq<Fold>, rows: nat): seq<Unit> {
    if rows == 0 then []
    else
      Units(folds, rows - 1) + Bands(folds, rows - 1, |folds|)
      + OwnUnit(Covered(folds, rows - 1), rows - 1)
  }

  // ---- what the units amount to --------------------------------------------------

  function KeptOf(units: seq<Unit>): seq<int> {
    if units == [] then []
    else
      var last := units[|units| - 1];
      KeptOf(units[..|units| - 1]) + (if last.Kept? then [last.row] else [])
  }

  /** Rows no fold covers, in order. */
  function Uncovered(folds: seq<Fold>, rows: nat): seq<int> {
    if rows == 0 then []
    else Uncovered(folds, rows - 1) + (if Covered(folds, rows - 1) then [] else [rows - 1])
  }

  lemma {:induction false} UncoveredExact(folds: seq<Fold>, rows: nat)
    ensures Ascending(Uncovered(folds, rows))
    ensures forall r :: r in Uncovered(folds, rows) <==> 0 <= r < rows && !Covered(folds, r)
  {
    if rows > 0 {
      UncoveredExact(folds, rows - 1);
      var front := Uncovered(folds, rows - 1);
      assert forall i :: 0 <= i < |front| ==> front[i] in front;
    }
  }

  lemma {:induction false} KeptConcat(a: seq<Unit>, b: seq<Unit>)
    ensures KeptOf(a + b) == KeptOf(a) + KeptOf(b)
  {
    if b == [] {
      assert a + b == a;
    } else {
      assert (a + b)[..|a + b| - 1] == a + b[..|b| - 1];
      KeptConcat(a, b[..|b| - 1]);
    }
  }

  lemma {:induction false} NoneKept(units: seq<Unit>)
    requires forall k :: 0 <= k < |units| ==> units[k].Band?
    ensures KeptOf(units) == []
  {
    if units != [] {
      NoneKept(units[..|units| - 1]);
    }
  }

  lemma {:induction false} BandsAreBands(folds: seq<Fold>, row: int, n: nat)
    requires n <= |folds|
    ensures KeptOf(Bands(folds, row, n)) == []
  {
    if n > 0 {
      BandsAreBands(folds, row, n - 1);
      if folds[n - 1].row == row {
        RepeatedBands(n - 1, folds[n - 1].height);
        NoneKept(Repeated(n - 1, folds[n - 1].height));
        KeptConcat(Bands(folds, row, n - 1), Repeated(n - 1, folds[n - 1].height));
      }
    }
  }

  function OwnUnit(covered: bool, row: int): seq<Unit> {
    if covered then [] else [Kept(row)]
  }

  lemma KeptOfUnits(before: seq<Unit>, bands: seq<Unit>, covered: bool, row: int)
    requires KeptOf(bands) == []
    ensures KeptOf(before + bands + OwnUnit(covered, row)) == KeptOf(before) + (if covered then [] else [row])
  {
    var own := OwnUnit(covered, row);
    KeptConcat(before, bands);
    KeptConcat(before + bands, own);
    if !covered {
      assert own[..0] == [];
    }
  }

  /** Every row no fold covers is painted exactly once, in order, and no other row is. */
  lemma {:induction false} KeptOnceInOrder(folds: seq<Fold>, rows: nat)
    ensures KeptOf(Units(folds, rows)) == Uncovered(folds, rows)
  {
    if rows > 0 {
      KeptOnceInOrder(folds, rows - 1);
      var before, bands := Units(folds, rows - 1), Bands(folds, rows - 1, |folds|);
      BandsAreBands(folds, rows - 1, |folds|);
      KeptOfUnits(before, bands, Covered(folds, rows - 1), rows - 1);
      UnitsAre(folds, rows, before, bands);
    }
  }

  lemma UnitsAre(folds: seq<Fold>, rows: nat, before: seq<Unit>, bands: seq<Unit>)
    requires rows > 0 && before == Units(folds, rows - 1) && bands == Bands(folds, rows - 1, |folds|)
    ensures Units(folds, rows) == before + bands + OwnUnit(Covered(folds, rows - 1), rows - 1)
  {}

  /** Heights of the folds that start above `row`. */
  function HeightsBelow(folds: seq<Fold>, row: int): int {
    if folds == [] then 0
    else
      var last := folds[|folds| - 1];
      HeightsBelow(folds[..|folds| - 1], row) + (if 0 <= last.row < row then Max(0, last.height) else 0)
  }

  lemma {:induction false} BandsCount(folds: seq<Fold>, row: nat, n: nat)
    requires n <= |folds|
    ensures HeightsBelow(folds[..n], row + 1) == HeightsBelow(folds[..n], row) + |Bands(folds, row, n)|
  {
    if n > 0 {
      BandsCount(folds, row, n - 1);
      RepeatedBands(n - 1, folds[n - 1].height);
      assert folds[..n][..n - 1] == folds[..n - 1];
    }
  }

  lemma {:induction false} NoneBelow(folds: seq<Fold>)
    ensures HeightsBelow(folds, 0) == 0
  {
    if folds != [] {
      NoneBelow(folds[..|folds| - 1]);
    }
  }

  lemma UnitsNext(folds: seq<Fold>, rows: nat)
    requires rows > 0
    ensures |Units(folds, rows)| == |Units(folds, rows - 1)| + |Bands(folds, rows - 1, |folds|)|
                                    + (if Covered(folds, rows - 1) then 0 else 1)
    ensures |Uncovered(folds, rows)| == |Uncovered(folds, rows - 1)| + (if Covered(folds, rows - 1) then 0 else 1)
  {}

  lemma {:induction false} UnitsCount(folds: seq<Fold>, rows: nat)
    ensures |Units(folds, rows)| == |Uncovered(folds, rows)| + HeightsBelow(folds, rows)
  {
    if rows == 0 {
      NoneBelow(folds);
    } else {
      UnitsCount(folds, rows - 1);
      BandsCount(folds, rows - 1, |folds|);
      UnitsNext(folds, rows);
      assert folds[..|folds|] == folds;
    }
  }

  lemma {:induction false} AllBelow(folds: seq<Fold>, rows: int)
    requires forall f :: 0 <= f < |folds| ==> 0 <= folds[f].row < rows && folds[f].height >= 1
    ensures HeightsBelow(folds, rows) == Sum(Heights(folds))
  {
    if folds != [] {
      AllBelow(folds[..|folds| - 1], rows);
      assert Heights(folds)[..|folds| - 1] == Heights(folds[..|folds| - 1]);
    }
  }

  lemma {:induction false} UncoveredBetween(folds: seq<Fold>, low: nat, high: nat, covered: bool)
    requires low <= high && forall r :: low <= r < high ==> Covered(folds, r) == covered
    ensures |Uncovered(folds, high)| == |Uncovered(folds, low)| + (if covered then 0 else high - low)
    decreases high - low
  {
    if low < high {
      UncoveredBetween(folds, low, high - 1, covered);
      UnitsNext(folds, high);
    }
  }

  lemma UncoveredStep(folds: seq<Fold>, rows: nat, n: nat)
    requires Laid(folds, rows) && n < |folds|
    ensures 0 <= FoldEnd(folds, n) <= folds[n].row
    ensures |Uncovered(folds, FoldEnd(folds, n + 1))|
         == |Uncovered(folds, FoldEnd(folds, n))| + folds[n].row - FoldEnd(folds, n)
  {
    hide Uncovered;
    var from, fold := FoldEnd(folds, n), folds[n];
    GapUncovered(folds, rows, n, from, fold.row);
    UncoveredBetween(folds, from, fold.row, false);
    FoldCovers(folds, n);
    UncoveredBetween(folds, fold.row, fold.row + fold.rows, true);
  }

  lemma {:induction false} UncoveredUpTo(folds: seq<Fold>, rows: nat, n: nat)
    requires Laid(folds, rows) && n <= |folds|
    ensures 0 <= FoldEnd(folds, n) <= rows
    ensures |Uncovered(folds, FoldEnd(folds, n))| == FoldEnd(folds, n) - Sum(RowCounts(folds)[..n])
  {
    hide Laid;
    if n > 0 {
      UncoveredUpTo(folds, rows, n - 1);
      UncoveredStep(folds, rows, n - 1);
      FoldInside(folds, rows, n - 1);
      OffsetNext(RowCounts(folds), n - 1);
    }
  }

  lemma KeptRowsCount(folds: seq<Fold>, rows: nat)
    requires Laid(folds, rows)
    ensures |Uncovered(folds, rows)| == rows - Sum(RowCounts(folds))
  {
    var n := |folds|;
    UncoveredUpTo(folds, rows, n);
    GapUncovered(folds, rows, n, FoldEnd(folds, n), rows);
    UncoveredBetween(folds, FoldEnd(folds, n), rows, false);
    assert RowCounts(folds)[..n] == RowCounts(folds);
  }

  /** The painted height of a weighted layout: kept rows plus bands, which the
      planner stretched to the legend. */
  lemma PaintedHeight(layout: Layout, legendUnits: int)
    requires layout.height >= 0 && Laid(layout.folds, layout.height) && HeightsFit(layout, legendUnits)
    ensures |Units(layout.folds, layout.height)|
         == if layout.folds == [] then layout.height else Max(KeptRows(layout) + |layout.folds|, legendUnits)
  {
    UnitsCount(layout.folds, layout.height);
    KeptRowsCount(layout.folds, layout.height);
    AllBelow(layout.folds, layout.height);
  }

  /** Folds that already ascend stay as they are. */
  lemma SortedLaid(folds: seq<Fold>, rows: int)
    requires Laid(folds, rows)
    ensures Sorted(folds) == folds
  {
    var keys := FirstRows(folds);
    var order := StableOrder.Order(keys);
    assert forall a, b :: 0 <= a < b < |folds| ==> keys[a] < keys[b];
    forall i, j | 0 <= i < j < |order| ensures order[i] < order[j] {
      assert StableOrder.Before(keys, order[i], order[j]);
    }
    IncreasingIsIdentity(order, |order|);
  }

  lemma {:induction false} IncreasingIsIdentity(order: seq<nat>, n: nat)
    requires n == |order| && forall i :: 0 <= i < n ==> order[i] < n
    requires forall i, j :: 0 <= i < j < n ==> order[i] < order[j]
    ensures forall i :: 0 <= i < n ==> order[i] == i
  {
    forall i | 0 <= i < n ensures order[i] == i {
      AtLeastIndex(order, i);
      AtMostIndex(order, i);
    }
  }

  lemma {:induction false} AtLeastIndex(order: seq<nat>, i: nat)
    requires i < |order| && forall i, j :: 0 <= i < j < |order| ==> order[i] < order[j]
    ensures order[i] >= i
  {
    if i > 0 {
      AtLeastIndex(order, i - 1);
      assert order[i - 1] < order[i];
    }
  }

  lemma {:induction false} AtMostIndex(order: seq<nat>, i: nat)
    requires i < |order| && forall i, j :: 0 <= i < j < |order| ==> order[i] < order[j]
    requires forall i :: 0 <= i < |order| ==> order[i] < |order|
    ensures order[i] <= i
    decreases |order| - i
  {
    if i + 1 < |order| {
      AtMostIndex(order, i + 1);
      assert order[i] < order[i + 1];
    }
  }

  // ---- painting ------------------------------------------------------------------

  function HatchPixel(x: int, y: int): Rgb {
    if (x + y % 4) % 4 < 2 then Raster.HATCH else BACKGROUND
  }

  /** A band unit: `scale` pixel rows of diagonal stripes continuing from `yAbs`. */
  ghost predicate IsHatch(unit: seq<Rgb>, width: int, scale: int, yAbs: int) {
    && |unit| == width * scale
    && forall x, py :: Inside(width, scale, x, py) ==>
         0 <= At(width, x, py) < |unit| && unit[At(width, x, py)] == HatchPixel(x, yAbs + py)
  }

  method HatchRow(width: nat, phase: nat) returns (row: seq<Rgb>)
    requires phase < 4
    ensures |row| == width
    ensures forall x :: 0 <= x < width ==> row[x] == (if (x + phase) % 4 < 2 then Raster.HATCH else BACKGROUND)
  {
    var tile := seq(4, x requires 0 <= x < 4 => if (x + phase) % 4 < 2 then Raster.HATCH else BACKGROUND);
    var full, rest := width / 4, width % 4;
    row := [];
    for k := 0 to full
      invariant |row| == 4 * k
      invariant forall x :: 0 <= x < |row| ==> row[x] == (if (x + phase) % 4 < 2 then Raster.HATCH else BACKGROUND)
    {
      row := row + tile;
    }
    row := row + tile[..rest];
  }

  method HatchUnit(width: nat, scale: nat, yAbs: nat) returns (unit: seq<Rgb>)
    ensures IsHatch(unit, width, scale, yAbs)
  {
    unit := [];
    for py := 0 to scale
      invariant IsHatch(unit, width, py, yAbs)
    {
      var row := HatchRow(width, (yAbs + py) % 4);
      HatchNext(unit, row, width, py, yAbs);
      unit := unit + row;
    }
  }

  lemma HatchNext(unit: seq<Rgb>, row: seq<Rgb>, width: nat, py: nat, yAbs: nat)
    requires IsHatch(unit, width, py, yAbs) && |row| == width
    requires forall x :: 0 <= x < width ==> row[x] == HatchPixel(x, yAbs + py)
    ensures IsHatch(unit + row, width, py + 1, yAbs)
  {
    Distribute(width, py, 1);
    Commute(width, py);
    forall x, y | Inside(width, py + 1, x, y)
      ensures 0 <= At(width, x, y) < |unit + row| && (unit + row)[At(width, x, y)] == HatchPixel(x, yAbs + y)
    {
      if y < py {
        assert Inside(width, py, x, y);
      }
    }
  }

  /** One output unit shows its row of the grid, or hatch. */
  ghost predicate UnitShown(unit: seq<Rgb>, what: Unit, k: int, fore: seq<seq<Rgb>>, width: int, scale: int) {
    match what
    case Kept(row) => 0 <= row < |fore| && unit == fore[row]
    case Band(_) => IsHatch(unit, width, scale, k * scale)
  }

  ghost predicate AllShown(out: seq<seq<Rgb>>, units: seq<Unit>, fore: seq<seq<Rgb>>, width: int, scale: int) {
    |out| == |units| && forall k :: 0 <= k < |out| ==> UnitShown(out[k], units[k], k, fore, width, scale)
  }

  /** The bands of the folds at the given positions, one after the other. */
  function BandsAt(folds: seq<Fold>, positions: seq<nat>): seq<Unit> {
    if positions == [] then []
    else
      var pos := positions[|positions| - 1];
      BandsAt(folds, positions[..|positions| - 1])
      + (if pos < |folds| then Repeated(pos, folds[pos].height) else [])
  }

  function Lookup(byFirst: map<int, seq<nat>>, row: int): seq<nat> {
    if row in byFirst then byFirst[row] else []
  }

  /** The index lists, for each row, the positions of the folds that start there. */
  ghost predicate Indexed(byFirst: map<int, seq<nat>>, folds: seq<Fold>, n: nat)
    requires n <= |folds|
  {
    && (forall row :: BandsAt(folds, Lookup(byFirst, row)) == Bands(folds, row, n))
    && (forall row :: Below(Lookup(byFirst, row), n))
  }

  ghost predicate Below(positions: seq<nat>, n: nat) {
    forall k :: 0 <= k < |positions| ==> positions[k] < n
  }

  function RowRange(low: int, high: int): (s: set<int>)
    ensures forall r :: r in s <==> low <= r < high
    decreases high - low
  {
    if low >= high then {} else RowRange(low, high - 1) + {high - 1}
  }

  lemma BandsAtAppend(folds: seq<Fold>, positions: seq<nat>, pos: nat)
    requires pos < |folds|
    ensures BandsAt(folds, positions + [pos]) == BandsAt(folds, positions) + Repeated(pos, folds[pos].height)
  {
    assert (positions + [pos])[..|positions|] == positions;
  }

  lemma BandsIndexed(byFirst: map<int, seq<nat>>, folds: seq<Fold>, pos: nat, row: int)
    requires pos < |folds| && BandsAt(folds, Lookup(byFirst, row)) == Bands(folds, row, pos)
    ensures var first := folds[pos].row;
            var after := byFirst[first := Lookup(byFirst, first) + [pos]];
            BandsAt(folds, Lookup(after, row)) == Bands(folds, row, pos + 1)
  {
    var first := folds[pos].row;
    if row == first {
      BandsAtAppend(folds, Lookup(byFirst, row), pos);
    }
  }

  lemma BelowIndexed(byFirst: map<int, seq<nat>>, first: int, pos: nat, row: int)
    requires Below(Lookup(byFirst, row), pos)
    ensures Below(Lookup(byFirst[first := Lookup(byFirst, first) + [pos]], row), pos + 1)
  {}

  lemma IndexedNext(byFirst: map<int, seq<nat>>, folds: seq<Fold>, pos: nat)
    requires pos < |folds| && Indexed(byFirst, folds, pos)
    ensures var first := folds[pos].row;
            Indexed(byFirst[first := Lookup(byFirst, first) + [pos]], folds, pos + 1)
  {
    hide BandsAt, Bands, Below, Lookup;
    var first := folds[pos].row;
    var after := byFirst[first := Lookup(byFirst, first) + [pos]];
    forall row ensures BandsAt(folds, Lookup(after, row)) == Bands(folds, row, pos + 1) {
      assert BandsAt(folds, Lookup(byFirst, row)) == Bands(folds, row, pos);
      BandsIndexed(byFirst, folds, pos, row);
    }
    forall row ensures Below(Lookup(after, row), pos + 1) {
      assert Below(Lookup(byFirst, row), pos);
      BelowIndexed(byFirst, first, pos, row);
    }
  }

  ghost predicate CoveredBy(folds: seq<Fold>, n: nat, row: int)
    requires n <= |folds|
  {
    exists f :: 0 <= f < n && InFold(folds[f], row)
  }

  method IndexFolds(folds: seq<Fold>) returns (byFirst: map<int, seq<nat>>, covered: set<int>)
    ensures Indexed(byFirst, folds, |folds|)
    ensures forall r :: r in covered <==> Covered(folds, r)
  {
    byFirst, covered := map[], {};
    for pos := 0 to |folds|
      invariant Indexed(byFirst, folds, pos)
      invariant forall r :: r in covered <==> CoveredBy(folds, pos, r)
    {
      var first := folds[pos].row;
      IndexedNext(byFirst, folds, pos);
      byFirst := byFirst[first := Lookup(byFirst, first) + [pos]];
      forall r ensures CoveredBy(folds, pos + 1, r) <==> CoveredBy(folds, pos, r) || InFold(folds[pos], r) {}
      covered := covered + RowRange(first, first + folds[pos].rows);
    }
  }

  method Assemble(folds: seq<Fold>, fore: seq<seq<Rgb>>, width: nat, scale: nat) returns (out: seq<seq<Rgb>>)
    ensures AllShown(out, Units(folds, |fore|), fore, width, scale)
  {
    hide BandsAt, Bands, Below, Lookup;
    var byFirst, covered := IndexFolds(folds);
    out := [];
    for row := 0 to |fore|
      invariant AllShown(out, Units(folds, row), fore, width, scale)
    {
      ghost var units := Units(folds, row);
      var starting := Lookup(byFirst, row);
      assert Below(starting, |folds|) && BandsAt(folds, starting) == Bands(folds, row, |folds|);
      out := AppendFolds(out, folds, starting, units, fore, width, scale);
      if row !in covered {
        out := out + [fore[row]];
      }
    }
  }

  method AppendFolds(before: seq<seq<Rgb>>, folds: seq<Fold>, positions: seq<nat>, ghost units: seq<Unit>,
                     ghost fore: seq<seq<Rgb>>, width: nat, scale: nat) returns (out: seq<seq<Rgb>>)
    requires Below(positions, |folds|)
    requires AllShown(before, units, fore, width, scale)
    ensures AllShown(out, units + BandsAt(folds, positions), fore, width, scale)
  {
    out := before;
    assert units + BandsAt(folds, positions[..0]) == units;
    for b := 0 to |positions|
      invariant AllShown(out, units + BandsAt(folds, positions[..b]), fore, width, scale)
    {
      var pos := positions[b];
      assert positions[..b + 1][..b] == positions[..b];
      ghost var sofar := units + BandsAt(folds, positions[..b]);
      out := AppendBands(out, folds[pos], pos, sofar, fore, width, scale);
      assert sofar + Repeated(pos, folds[pos].height) == units + BandsAt(folds, positions[..b + 1]);
    }
    assert positions[..|positions|] == positions;
  }

  method AppendBands(before: seq<seq<Rgb>>, fold: Fold, pos: int, ghost units: seq<Unit>, ghost fore: seq<seq<Rgb>>,
                     width: nat, scale: nat) returns (out: seq<seq<Rgb>>)
    requires AllShown(before, units, fore, width, scale)
    ensures AllShown(out, units + Repeated(pos, fold.height), fore, width, scale)
  {
    out := before;
    var height := Max(0, fold.height);
    for h := 0 to height
      invariant AllShown(out, units + Repeated(pos, h), fore, width, scale)
    {
      MulNonNegative(|out|, scale);
      var unit := HatchUnit(width, scale, |out| * scale);
      out := out + [unit];
    }
  }

  function Flatten(out: seq<seq<Rgb>>): seq<Rgb> {
    if out == [] then [] else Flatten(out[..|out| - 1]) + out[|out| - 1]
  }

  lemma {:induction false} FlattenSize(out: seq<seq<Rgb>>, size: int)
    requires forall k :: 0 <= k < |out| ==> |out[k]| == size
    ensures |Flatten(out)| == |out| * size
  {
    if out != [] {
      FlattenSize(out[..|out| - 1], size);
      Distribute(size, |out| - 1, 1);
    }
  }

  /** The grid's rows as slices of its pixels, `scale` pixel rows each. */
  ghost predicate Sliced(fore: seq<seq<Rgb>>, buf: seq<Rgb>, size: int) {
    forall row :: 0 <= row < |fore| ==>
      |fore[row]| == size && 0 <= At(size, 0, row) <= At(size, 0, row) + size <= |buf|
      && fore[row] == buf[At(size, 0, row)..At(size, 0, row) + size]
  }

  method SliceRows(buf: seq<Rgb>, rows: nat, size: nat) returns (fore: seq<seq<Rgb>>)
    requires |buf| >= rows * size
    ensures |fore| == rows && Sliced(fore, buf, size)
  {
    fore := [];
    for row := 0 to rows
      invariant |fore| == row && Sliced(fore, buf, size)
    {
      MulNonNegative(row, size);
      MulMonotone(row + 1, rows, size);
      Distribute(size, row, 1);
      fore := fore + [buf[At(size, 0, row)..At(size, 0, row) + size]];
    }
  }

  /** How a bitmap came about: the painted grid and what it shows, its rows, and
      the units they were joined from. */
  datatype Painting = Painting(owners: seq<int>, colours: seq<Rgb>, buf: seq<Rgb>, picture: Raster.Picture,
                               fore: seq<seq<Rgb>>, units: seq<seq<Rgb>>)

  /** The bitmap joins the units of a grid that shows each cell in its block's
      colour, outlined where blocks meet. */
  ghost predicate Depicts(p: Painting, heap: HeapMap, palette: Raster.Palette, layout: Layout,
                          pixels: seq<Rgb>, width: int, height: int) {
    && width == layout.width * layout.scale && height == |p.units| * layout.scale
    && |pixels| == width * height && pixels == Flatten(p.units)
    && |p.fore| == layout.height && Sliced(p.fore, p.buf, layout.scale * width)
    && AllShown(p.units, Units(Sorted(layout.folds), layout.height), p.fore, width, layout.scale)
    && Raster.CellsPainted(heap, palette, layout.runs, p.owners, p.colours)
    && Raster.Owned(p.owners, layout.width, layout.height)
    && (layout.scale >= 2 ==>
          && Raster.Painted(p.buf, layout.width, layout.height, layout.scale, p.picture)
          && Raster.Outlined(p.picture, p.owners, p.colours, layout.width, layout.height, layout.scale,
                             Raster.DividerWidth(layout.scale)))
  }

  method Rasterize(heap: HeapMap, palette: Raster.Palette, layout: Layout)
    returns (pixels: seq<Rgb>, width: int, height: int, ghost painting: Painting)
    requires Raster.Paintable(heap, layout)
    ensures layout.width == 0 || layout.height == 0 ==>
      && width == height == layout.scale && |pixels| == width * height
      && forall p :: 0 <= p < |pixels| ==> pixels[p] == BACKGROUND
    ensures layout.width > 0 && layout.height > 0 ==> Depicts(painting, heap, palette, layout, pixels, width, height)
  {
    var scale := layout.scale;
    painting := Painting([], [], [], (r, c, dx, dy) => BACKGROUND, [], []);
    if layout.width == 0 || layout.height == 0 {
      MulNonNegative(scale, scale);
      pixels, width, height := seq(scale * scale, _ => BACKGROUND), scale, scale;
      return;
    }
    var owners, colours := Raster.PaintCells(heap, palette, layout);
    var buf, fore, units;
    ghost var picture;
    buf, picture := Raster.PaintGrid(owners, colours, layout.width, layout.height, scale);
    pixels, fore, units := Bitmap(buf, Sorted(layout.folds), layout.width, layout.height, scale);
    width, height := layout.width * scale, |units| * scale;
    painting := Painting(owners, colours, buf, picture, fore, units);
  }

  /** Slices the painted grid, puts the bands in and joins the units. */
  method Bitmap(painted: seq<Rgb>, folds: seq<Fold>, columns: nat, rows: nat, scale: nat)
    returns (pixels: seq<Rgb>, fore: seq<seq<Rgb>>, out: seq<seq<Rgb>>)
    requires |painted| >= columns * scale * (rows * scale)
    ensures |fore| == rows && Sliced(fore, painted, scale * (columns * scale))
    ensures AllShown(out, Units(folds, rows), fore, columns * scale, scale)
    ensures pixels == Flatten(out) && |pixels| == columns * scale * (|out| * scale)
  {
    MulNonNegative(columns, scale);
    var width := columns * scale;
    MulNonNegative(scale, width);
    var size := scale * width;
    RowsSize(width, rows, scale, size);
    fore := SliceRows(painted, rows, size);
    out := Assemble(folds, fore, width, scale);
    UnitSizes(out, Units(folds, rows), fore, width, scale, size);
    FlattenSize(out, size);
    RowsSize(width, |out|, scale, size);
    pixels := Flatten(out);
  }

  lemma RowsSize(width: int, rows: int, scale: int, size: int)
    requires size == scale * width
    ensures rows * size == width * (rows * scale)
  {
    assert rows * (scale * width) == rows * scale * width;
    Commute(width, rows * scale);
  }

  lemma UnitSizes(out: seq<seq<Rgb>>, units: seq<Unit>, fore: seq<seq<Rgb>>, width: int, scale: int, size: int)
    requires AllShown(out, units, fore, width, scale) && size == scale * width
    requires forall row :: 0 <= row < |fore| ==> |fore[row]| == size
    ensures forall k :: 0 <= k < |out| ==> |out[k]| == size
  {
    Commute(width, scale);
    forall k | 0 <= k < |out| ensures |out[k]| == size {
      assert UnitShown(out[k], units[k], k, fore, width, scale);
    }
  }
}
