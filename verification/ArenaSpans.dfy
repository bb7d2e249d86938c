/** Cutting the arena into spans: the sweep that opens `grid_layout`
    (gdr/heapmap.py). */
module ArenaSpans {
  import opened Common
  import StableOrder

  /** One heap block of the dump and who owns it. */
  datatype Block = Block(address: int, size: int, used: bool, owner: Option<string>)

  /** The arena `[base, end)` and whatever blocks the walk reported, in any
      order, overlapping or out of range. */
  datatype HeapMap = HeapMap(base: nat, end: int, blocks: seq<Block>, truncated: bool)

  /** A stretch of the arena: a block's part, or a gap when `index` is -1. */
  datatype Span = Span(start: int, size: int, index: int) {
    predicate Has(b: int) {
      start <= b < start + size
    }
  }

  predicate Covers(block: Block, b: int) {
    block.address <= b < block.address + block.size
  }

  function Addresses(blocks: seq<Block>): (keys: seq<int>)
    ensures |keys| == |blocks|
  {
    seq(|blocks|, i requires 0 <= i < |blocks| => blocks[i].address)
  }

  /** Non-empty spans laid end to end from `low` to `high`. */
  ghost predicate Tiles(spans: seq<Span>, low: int, high: int) {
    && (forall k :: 0 <= k < |spans| ==> spans[k].size > 0)
    && (forall i, j :: 0 <= i < j < |spans| && j == i + 1 ==> spans[i].start + spans[i].size == spans[j].start)
    && (if spans == [] then low == high
        else spans[0].start == low && spans[|spans| - 1].start + spans[|spans| - 1].size == high)
  }

  /** Whom byte `b` belongs to: nobody exactly when no block covers it, else the
      first covering block by address and then by input position. */
  ghost predicate Owns(heap: HeapMap, b: int, index: int) {
    if index == -1 then
      forall j :: 0 <= j < |heap.blocks| ==> !Covers(heap.blocks[j], b)
    else
      && 0 <= index < |heap.blocks|
      && Covers(heap.blocks[index], b)
      && forall j :: 0 <= j < |heap.blocks| && j != index && Covers(heap.blocks[j], b) ==>
           StableOrder.Before(Addresses(heap.blocks), index, j)
  }

  ghost predicate Attributed(heap: HeapMap, spans: seq<Span>) {
    forall k, b :: 0 <= k < |spans| && spans[k].Has(b) ==> Owns(heap, b, spans[k].index)
  }

  lemma OwnerUnique(heap: HeapMap, b: int, i: int, j: int)
    requires Owns(heap, b, i) && Owns(heap, b, j)
    ensures i == j
  {
  }

  lemma TilesAppend(spans: seq<Span>, low: int, mid: int, s: Span)
    requires Tiles(spans, low, mid) && s.start == mid && s.size > 0
    ensures Tiles(spans + [s], low, mid + s.size)
  {}

  /** Every byte of a tiled range lies in some span. */
  lemma {:induction false} TilesLocate(spans: seq<Span>, low: int, high: int, b: int) returns (k: nat)
    requires Tiles(spans, low, high) && low <= b < high
    ensures k < |spans| && spans[k].Has(b)
  {
    var n := |spans| - 1;
    if b >= spans[n].start {
      k := n;
    } else {
      TilesFront(spans, low, high);
      k := TilesLocate(spans[..n], low, spans[n].start, b);
    }
  }

  lemma TilesFront(spans: seq<Span>, low: int, high: int)
    requires Tiles(spans, low, high) && spans != []
    ensures var n := |spans| - 1; Tiles(spans[..n], low, spans[n].start)
  {}

  /** ... and in only one. */
  lemma {:induction false} TilesDisjoint(spans: seq<Span>, low: int, high: int)
    requires Tiles(spans, low, high)
    ensures low <= high
    ensures forall i, j :: 0 <= i < j < |spans| ==> spans[i].start + spans[i].size <= spans[j].start
    ensures forall i :: 0 <= i < |spans| ==> low <= spans[i].start && spans[i].start + spans[i].size <= high
  {
    if spans != [] {
      var n := |spans| - 1;
      TilesFront(spans, low, high);
      TilesDisjoint(spans[..n], low, spans[n].start);
      assert forall i :: 0 <= i < n ==> spans[..n][i] == spans[i];
    }
  }

  function Sizes(spans: seq<Span>): (sizes: seq<int>)
    ensures |sizes| == |spans|
  {
    seq(|spans|, i requires 0 <= i < |spans| => spans[i].size)
  }

  lemma {:induction false} TilesSum(spans: seq<Span>, low: int, high: int)
    requires Tiles(spans, low, high)
    ensures Sum(Sizes(spans)) == high - low
  {
    if spans != [] {
      var n := |spans| - 1;
      TilesFront(spans, low, high);
      TilesSum(spans[..n], low, spans[n].start);
      assert Sizes(spans)[..n] == Sizes(spans[..n]);
    }
  }

  /** What holds after the sweep has seen the first `k` blocks in address order. */
  ghost predicate Swept(heap: HeapMap, k: nat, spans: seq<Span>, cursor: int) {
    var order := StableOrder.Order(Addresses(heap.blocks));
    && k <= |order| && heap.base <= cursor && (spans == [] || cursor <= heap.end)
    && Tiles(spans, heap.base, cursor)
    && Attributed(heap, spans)
    && (forall m, b :: 0 <= m < k && cursor <= b < heap.end ==> !Covers(heap.blocks[order[m]], b))
    && (forall a :: 0 <= a < |spans| ==> spans[a].index == -1 || spans[a].index in order[..k])
    && DistinctBlocks(spans)
  }

  ghost predicate DistinctBlocks(spans: seq<Span>) {
    forall a, b :: 0 <= a < b < |spans| && spans[a].index == spans[b].index ==> spans[a].index == -1
  }

  lemma AttributedAppend(heap: HeapMap, spans: seq<Span>, s: Span)
    requires Attributed(heap, spans)
    requires forall b :: s.Has(b) ==> Owns(heap, b, s.index)
    ensures Attributed(heap, spans + [s])
  {
    var all := spans + [s];
    forall k, b | 0 <= k < |all| && all[k].Has(b)
      ensures Owns(heap, b, all[k].index)
    {
      assert k < |spans| ==> all[k] == spans[k];
    }
  }

  /** A stretch that ends no later than the next block's address has no owner. */
  lemma GapKeeps(heap: HeapMap, k: nat, spans: seq<Span>, cursor: int, low: int)
    requires Swept(heap, k, spans, cursor) && cursor < low <= heap.end
    requires k < |heap.blocks| ==> low <= heap.blocks[StableOrder.Order(Addresses(heap.blocks))[k]].address
    ensures Swept(heap, k, spans + [Span(cursor, low - cursor, -1)], low)
  {
    var order := StableOrder.Order(Addresses(heap.blocks));
    forall b, j | cursor <= b < low && 0 <= j < |heap.blocks| ensures !Covers(heap.blocks[j], b) {
      assert j in order;
      var m :| 0 <= m < |order| && order[m] == j;
      assert m > k ==> StableOrder.Before(Addresses(heap.blocks), order[k], order[m]);
    }
    var gap := Span(cursor, low - cursor, -1);
    TilesAppend(spans, heap.base, cursor, gap);
    AttributedAppend(heap, spans, gap);
  }

  lemma BlockOwned(heap: HeapMap, k: nat, spans: seq<Span>, low: int, b: int)
    requires k < |heap.blocks| && Swept(heap, k, spans, low) && low <= b < heap.end
    requires Covers(heap.blocks[StableOrder.Order(Addresses(heap.blocks))[k]], b)
    ensures Owns(heap, b, StableOrder.Order(Addresses(heap.blocks))[k])
  {
    var keys := Addresses(heap.blocks);
    var order := StableOrder.Order(keys);
    forall j | 0 <= j < |heap.blocks| && j != order[k] && Covers(heap.blocks[j], b)
      ensures StableOrder.Before(keys, order[k], j)
    {
      assert j in order;
      var m :| 0 <= m < |order| && order[m] == j;
      assert m > k;
    }
  }

  lemma DistinctAppend(spans: seq<Span>, order: seq<nat>, k: nat, s: Span)
    requires k < |order| && s.index == order[k]
    requires forall a, b :: 0 <= a < b < |order| ==> order[a] != order[b]
    requires DistinctBlocks(spans)
    requires forall a :: 0 <= a < |spans| ==> spans[a].index == -1 || spans[a].index in order[..k]
    ensures DistinctBlocks(spans + [s])
    ensures forall a :: 0 <= a < |spans + [s]| ==>
              (spans + [s])[a].index == -1 || (spans + [s])[a].index in order[..k + 1]
  {
    assert order[..k + 1] == order[..k] + [order[k]];
    assert s.index !in order[..k];
  }

  /** What a block adds past the cursor is owned by that block. */
  lemma BlockKeeps(heap: HeapMap, k: nat, spans: seq<Span>, low: int, high: int)
    requires k < |heap.blocks| && Swept(heap, k, spans, low)
    requires var block := heap.blocks[StableOrder.Order(Addresses(heap.blocks))[k]];
             block.address <= low < high && high == Min(block.address + block.size, heap.end)
    ensures Swept(heap, k + 1, spans + [Span(low, high - low, StableOrder.Order(Addresses(heap.blocks))[k])], high)
  {
    var keys := Addresses(heap.blocks);
    var order := StableOrder.Order(keys);
    var piece := Span(low, high - low, order[k]);
    forall b | piece.Has(b) ensures Owns(heap, b, piece.index) {
      BlockOwned(heap, k, spans, low, b);
    }
    StableOrder.OrderDistinct(keys);
    DistinctAppend(spans, order, k, piece);
    TilesAppend(spans, heap.base, low, piece);
    AttributedAppend(heap, spans, piece);
  }

  lemma SkipKeeps(heap: HeapMap, k: nat, spans: seq<Span>, cursor: int)
    requires k < |heap.blocks| && Swept(heap, k, spans, cursor)
    requires var block := heap.blocks[StableOrder.Order(Addresses(heap.blocks))[k]];
             Min(block.address + block.size, heap.end) <= Max(block.address, Max(heap.base, cursor))
    ensures Swept(heap, k + 1, spans, cursor)
  {
    var order := StableOrder.Order(Addresses(heap.blocks));
    assert order[..k + 1] == order[..k] + [order[k]];
  }

  /** No gap is cut in two: between two gaps stands a block. */
  ghost predicate GapsApart(spans: seq<Span>) {
    forall i, j :: 0 <= i < j < |spans| && j == i + 1 ==> spans[i].index != -1 || spans[j].index != -1
  }

  /** Nor does the last span so far leave a gap open. */
  ghost predicate EndsInBlock(spans: seq<Span>) {
    spans == [] || spans[|spans| - 1].index != -1
  }

  lemma GapAppended(spans: seq<Span>, gap: Span)
    requires GapsApart(spans) && EndsInBlock(spans)
    ensures GapsApart(spans + [gap])
  {}

  lemma BlockAppended(spans: seq<Span>, block: Span)
    requires GapsApart(spans) && block.index != -1
    ensures GapsApart(spans + [block]) && EndsInBlock(spans + [block])
  {}

  lemma SweepStarts(heap: HeapMap)
    ensures Swept(heap, 0, [], heap.base) && GapsApart([]) && EndsInBlock([])
  {}

  lemma SweepEnds(heap: HeapMap, k: nat, spans: seq<Span>, cursor: int)
    requires Swept(heap, k, spans, cursor) && cursor >= heap.end
    ensures Tiles(spans, heap.base, Max(heap.base, heap.end)) && Attributed(heap, spans) && DistinctBlocks(spans)
  {}

  method CutSpans(heap: HeapMap) returns (spans: seq<Span>)
    ensures Tiles(spans, heap.base, Max(heap.base, heap.end))
    ensures Attributed(heap, spans)
    ensures DistinctBlocks(spans) && GapsApart(spans)
  {
    hide GapsApart, EndsInBlock, Swept;
    SweepStarts(heap);
    var order := StableOrder.Order(Addresses(heap.blocks));
    spans := [];
    var cursor: int := heap.base;
    for k := 0 to |order|
      invariant Swept(heap, k, spans, cursor)
      invariant cursor >= heap.base && GapsApart(spans) && EndsInBlock(spans)
    {
      var block := heap.blocks[order[k]];
      var low := Max(block.address, Max(heap.base, cursor));
      var high := Min(block.address + block.size, heap.end);
      if high <= low {
        SkipKeeps(heap, k, spans, cursor);
        continue;
      }
      if low > cursor {
        GapKeeps(heap, k, spans, cursor, low);
        GapAppended(spans, Span(cursor, low - cursor, -1));
        spans := spans + [Span(cursor, low - cursor, -1)];
      }
      BlockKeeps(heap, k, spans, low, high);
      BlockAppended(spans, Span(low, high - low, order[k]));
      spans := spans + [Span(low, high - low, order[k])];
      cursor := high;
    }
    if cursor < heap.end {
      GapKeeps(heap, |order|, spans, cursor, heap.end);
      GapAppended(spans, Span(cursor, heap.end - cursor, -1));
      spans := spans + [Span(cursor, heap.end - cursor, -1)];
      cursor := heap.end;
    }
    SweepEnds(heap, |order|, spans, cursor);
  }

  /** Attribution, byte by byte: each arena byte lies in exactly one span and
      that span names its owner. */
  lemma EveryByteOnce(heap: HeapMap, spans: seq<Span>, b: int)
    requires Tiles(spans, heap.base, heap.end) && Attributed(heap, spans)
    requires heap.base <= b < heap.end
    ensures exists k :: 0 <= k < |spans| && spans[k].Has(b)
    ensures forall i, j :: 0 <= i < |spans| && 0 <= j < |spans| && spans[i].Has(b) && spans[j].Has(b) ==> i == j
    ensures forall k, o :: 0 <= k < |spans| && spans[k].Has(b) && Owns(heap, b, o) ==> spans[k].index == o
  {
    var k := TilesLocate(spans, heap.base, heap.end, b);
    TilesDisjoint(spans, heap.base, heap.end);
    forall m, o | 0 <= m < |spans| && spans[m].Has(b) && Owns(heap, b, o) ensures spans[m].index == o {
      OwnerUnique(heap, b, spans[m].index, o);
    }
  }
}
