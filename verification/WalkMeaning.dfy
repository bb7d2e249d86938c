/** What clean walks mean: a clean free walk is a complete chain and a clean
    linear walk a complete tiling, and conversely (freertos/heap.py). */
module WalkMeaning {
  import opened Common
  import opened HeapWalks

  // ---- free chain ----------------------------------------------------------------------

  /** A block a healthy chain may hold: neither end nor NULL, readable, unflagged, aligned, in range. */
  ghost predicate GoodFree(geom: Geometry, image: Image, block: Block)
    requires geom.heapLow.Some? && geom.freeEnd.Some?
  {
    && block.address != 0 && block.address != geom.freeEnd.value
    && image(block.address).Some?
    && FreeFault(geom, image, {}, block.address).None?
    && block == FreeBlockAt(geom, image, block.address)
  }

  ghost predicate DistinctAddresses(blocks: seq<Block>) {
    forall i, j :: 0 <= i < j < |blocks| ==> blocks[i].address != blocks[j].address
  }

  /** Each block's next pointer is the address of the one after it. */
  ghost predicate Linked(blocks: seq<Block>, head: int, last: int) {
    && (forall i, j :: 0 <= i < j < |blocks| && j == i + 1 ==> blocks[i].nextFree == Some(blocks[j].address))
    && (if blocks == [] then head == last
        else blocks[0].address == head && blocks[|blocks| - 1].nextFree == Some(last))
  }

  /** A stretch of chain from the head that leads on to `last`. */
  ghost predicate Trail(geom: Geometry, image: Image, blocks: seq<Block>, last: int)
    requires geom.heapLow.Some? && geom.freeEnd.Some?
  {
    && |blocks| <= MAX_TRAVERSAL_COUNT
    && (forall i :: 0 <= i < |blocks| ==> GoodFree(geom, image, blocks[i]))
    && DistinctAddresses(blocks)
    && Linked(blocks, geom.heapLow.value, last)
  }

  /** The whole free list: a trail that reaches the end marker. */
  ghost predicate FreeChain(geom: Geometry, image: Image, blocks: seq<Block>)
    requires geom.heapLow.Some? && geom.freeEnd.Some?
  {
    Trail(geom, image, blocks, geom.freeEnd.value)
  }

  function TotalBytes(blocks: seq<Block>): int {
    if blocks == [] then 0 else TotalBytes(blocks[..|blocks| - 1]) + blocks[|blocks| - 1].size
  }

  lemma TotalAppend(blocks: seq<Block>, block: Block)
    ensures TotalBytes(blocks + [block]) == TotalBytes(blocks) + block.size
  {
    assert (blocks + [block])[..|blocks|] == blocks;
  }

  ghost predicate CountsFree(walk: Walk) {
    walk.freeBytes == Some(TotalBytes(walk.blocks)) && walk.freeBlocks == |walk.blocks|
  }

  lemma InAddressSet(blocks: seq<Block>, a: int)
    ensures a in AddressSet(blocks) <==> exists i :: 0 <= i < |blocks| && blocks[i].address == a
  {}

  lemma TrailAppend(geom: Geometry, image: Image, blocks: seq<Block>, cur: int)
    requires geom.heapLow.Some? && geom.freeEnd.Some?
    requires Trail(geom, image, blocks, cur) && |blocks| < MAX_TRAVERSAL_COUNT
    requires cur != 0 && cur != geom.freeEnd.value && cur !in AddressSet(blocks)
    requires image(cur).Some? && FreeFault(geom, image, AddressSet(blocks), cur).None?
    ensures Trail(geom, image, blocks + [FreeBlockAt(geom, image, cur)], FreeBlockAt(geom, image, cur).nextFree.value)
  {
    InAddressSet(blocks, cur);
    var block := FreeBlockAt(geom, image, cur);
    assert GoodFree(geom, image, block);
  }

  ghost predicate CleanMeansChain(geom: Geometry, image: Image, walk: Walk)
    requires geom.heapLow.Some? && geom.freeEnd.Some?
  {
    walk.Clean() ==> FreeChain(geom, image, walk.blocks) && CountsFree(walk)
  }

  /** Following a trail to its clean end yields a complete chain, counted right. */
  lemma {:induction false} FreeRunSound(geom: Geometry, image: Image, walk: Walk, cur: int)
    requires geom.heapLow.Some? && geom.freeEnd.Some? && walk.freeBytes.Some?
    requires Trail(geom, image, walk.blocks, cur) && CountsFree(walk)
    ensures CleanMeansChain(geom, image, FreeRun(geom, image, walk, cur))
    decreases MAX_TRAVERSAL_COUNT - |walk.blocks|
  {
    if cur == geom.freeEnd.value || cur == 0 || |walk.blocks| >= MAX_TRAVERSAL_COUNT {
    } else if FreeFault(geom, image, AddressSet(walk.blocks), cur).None? {
      var next := NextFree(geom, image, walk, cur);
      FreeRunSound(geom, image, next, FreeBlockAt(geom, image, cur).nextFree.value);
    }
  }

  lemma NextFree(geom: Geometry, image: Image, walk: Walk, cur: int) returns (next: Walk)
    requires geom.heapLow.Some? && geom.freeEnd.Some? && walk.freeBytes.Some?
    requires Trail(geom, image, walk.blocks, cur) && CountsFree(walk) && |walk.blocks| < MAX_TRAVERSAL_COUNT
    requires cur != 0 && cur != geom.freeEnd.value
    requires FreeFault(geom, image, AddressSet(walk.blocks), cur).None?
    ensures next == TakeFree(walk, FreeBlockAt(geom, image, cur))
    ensures Trail(geom, image, next.blocks, FreeBlockAt(geom, image, cur).nextFree.value) && CountsFree(next)
    ensures |next.blocks| == |walk.blocks| + 1
  {
    var block := FreeBlockAt(geom, image, cur);
    TrailAppend(geom, image, walk.blocks, cur);
    TotalAppend(walk.blocks, block);
    next := TakeFree(walk, block);
  }

  /** From any point of a complete chain the walk goes on along that chain to its end. */
  lemma {:induction false} FreeRunComplete(geom: Geometry, image: Image, walk: Walk, n: nat, chain: seq<Block>)
    requires geom.heapLow.Some? && geom.freeEnd.Some? && walk.freeBytes.Some? && walk.Clean()
    requires FreeChain(geom, image, chain) && n <= |chain| && walk.blocks == chain[..n]
    ensures var cur := if n < |chain| then chain[n].address else geom.freeEnd.value;
            var r := FreeRun(geom, image, walk, cur);
            r.Clean() && r.blocks == chain
    decreases |chain| - n
  {
    if n == |chain| {
      assert chain[..n] == chain;
    } else {
      var block := chain[n];
      assert GoodFree(geom, image, block);
      NotAhead(chain, n);
      assert chain[..n + 1] == chain[..n] + [block];
      FreeRunComplete(geom, image, TakeFree(walk, block), n + 1, chain);
      assert n + 1 < |chain| ==> chain[n].nextFree == Some(chain[n + 1].address);
    }
  }

  lemma NotAhead(chain: seq<Block>, n: nat)
    requires n < |chain| && DistinctAddresses(chain)
    ensures chain[n].address !in AddressSet(chain[..n])
  {
    InAddressSet(chain[..n], chain[n].address);
  }

  /** The largest size is the largest there is, the smallest the smallest that is
      not zero, and each is absent when there is none. */
  ghost predicate Extremes(walk: Walk) {
    && IsLargest(walk.blocks, walk.largest) && IsSmallest(walk.blocks, walk.smallest)
  }

  ghost predicate IsLargest(blocks: seq<Block>, largest: Option<int>) {
    if largest.None? then blocks == []
    else
      && (exists i :: 0 <= i < |blocks| && blocks[i].size == largest.value)
      && forall i :: 0 <= i < |blocks| ==> blocks[i].size <= largest.value
  }

  ghost predicate IsSmallest(blocks: seq<Block>, smallest: Option<int>) {
    if smallest.None? then forall i :: 0 <= i < |blocks| ==> blocks[i].size == 0
    else
      && smallest.value != 0
      && (exists i :: 0 <= i < |blocks| && blocks[i].size == smallest.value)
      && forall i :: 0 <= i < |blocks| && blocks[i].size != 0 ==> smallest.value <= blocks[i].size
  }

  lemma LargestNext(blocks: seq<Block>, largest: Option<int>, block: Block)
    requires IsLargest(blocks, largest)
    ensures IsLargest(blocks + [block], if largest.None?
              || block.size > largest.value then Some(block.size) else largest)
  {
    var all := blocks + [block];
    assert all[|blocks|] == block;
    if largest.Some? {
      var i :| 0 <= i < |blocks| && blocks[i].size == largest.value;
      assert all[i] == blocks[i];
    }
  }

  lemma SmallestNext(blocks: seq<Block>, smallest: Option<int>, block: Block)
    requires IsSmallest(blocks, smallest)
    ensures IsSmallest(blocks + [block], if block.size != 0 && (smallest.None? || block.size < smallest.value)
                                         then Some(block.size) else smallest)
  {
    var all := blocks + [block];
    assert all[|blocks|] == block;
    if smallest.Some? {
      var i :| 0 <= i < |blocks| && blocks[i].size == smallest.value;
      assert all[i] == blocks[i];
    }
  }

  /** The extremes stay right whatever the walk meets. */
  lemma {:induction false} FreeRunExtremes(geom: Geometry, image: Image, walk: Walk, cur: int)
    requires geom.heapLow.Some? && geom.freeEnd.Some? && walk.freeBytes.Some?
    requires |walk.blocks| <= MAX_TRAVERSAL_COUNT && Extremes(walk)
    ensures Extremes(FreeRun(geom, image, walk, cur))
    decreases MAX_TRAVERSAL_COUNT - |walk.blocks|
  {
    hide IsLargest, IsSmallest, FreeFault;
    if cur == geom.freeEnd.value || cur == 0 || |walk.blocks| >= MAX_TRAVERSAL_COUNT {
    } else if FreeFault(geom, image, AddressSet(walk.blocks), cur).None? {
      FaultlessReadable(geom, image, AddressSet(walk.blocks), cur);
      var block := FreeBlockAt(geom, image, cur);
      LargestNext(walk.blocks, walk.largest, block);
      SmallestNext(walk.blocks, walk.smallest, block);
      FreeRunExtremes(geom, image, TakeFree(walk, block), block.nextFree.value);
    }
  }

  lemma FaultlessReadable(geom: Geometry, image: Image, seen: set<int>, cur: int)
    requires geom.heapLow.Some? && FreeFault(geom, image, seen, cur).None?
    ensures image(cur).Some?
  {}

  /** The free walk is clean exactly when the memory holds a complete chain, and
      then it reports that chain with its bytes and its number of blocks; its
      extremes are right even when it is not clean. */
  lemma FreeWalkMeans(geom: Geometry, image: Image)
    requires FreeWalkRuns(geom)
    ensures CleanMeansChain(geom, image, FreeWalk(geom, image)) && Extremes(FreeWalk(geom, image))
    ensures forall chain :: FreeChain(geom, image, chain) ==>
              FreeWalk(geom, image).Clean() && FreeWalk(geom, image).blocks == chain
  {
    var start := EMPTY_WALK.(freeBytes := Some(0));
    FreeRunSound(geom, image, start, geom.heapLow.value);
    FreeRunExtremes(geom, image, start, geom.heapLow.value);
    forall chain | FreeChain(geom, image, chain)
      ensures FreeWalk(geom, image).Clean() && FreeWalk(geom, image).blocks == chain
    {
      FreeRunComplete(geom, image, start, 0, chain);
    }
  }

  // ---- linear extent ---------------------------------------------------------------------

  /** Positive-size blocks laid end to end from `low` to `high`. */
  ghost predicate Tiled(blocks: seq<Block>, low: int, high: int) {
    && (forall i :: 0 <= i < |blocks| ==> blocks[i].size > 0)
    && (forall i, j :: 0 <= i < j < |blocks| && j == i + 1 ==> blocks[i].address + blocks[i].size == blocks[j].address)
    && (if blocks == [] then low == high
        else blocks[0].address == low
             && blocks[|blocks| - 1].address + blocks[|blocks| - 1].size == high)
  }

  /** A block the linear walk accepts as it reads it. */
  ghost predicate GoodLinear(geom: Geometry, image: Image, free: Option<set<int>>, limit: int, block: Block) {
    && image(block.address).Some?
    && LinearFault(geom, image, limit, block.address).None?
    && block == LinearBlockAt(geom, image, free, block.address)
    && block.size > 0
  }

  ghost predicate Extent(geom: Geometry, image: Image, free: Option<set<int>>, limit: int, blocks: seq<Block>,
                         low: int, high: int) {
    && |blocks| <= MAX_TRAVERSAL_COUNT
    && (forall i :: 0 <= i < |blocks| ==> GoodLinear(geom, image, free, limit, blocks[i]))
    && Tiled(blocks, low, high)
  }

  /** Bytes in blocks of one sort. */
  function Bytes(blocks: seq<Block>, inUse: bool): int {
    if blocks == [] then 0
    else
      var last := blocks[|blocks| - 1];
      Bytes(blocks[..|blocks| - 1], inUse) + (if last.inUse == inUse then last.size else 0)
  }

  function FreeCount(blocks: seq<Block>): nat {
    if blocks == [] then 0
    else FreeCount(blocks[..|blocks| - 1]) + (if blocks[|blocks| - 1].inUse then 0 else 1)
  }

  /** A free block that follows an allocated one, or nothing, opens a hole. */
  function HoleCount(blocks: seq<Block>): nat {
    if blocks == [] then 0
    else
      var front, last := blocks[..|blocks| - 1], blocks[|blocks| - 1];
      HoleCount(front) + (if !last.inUse && (front == [] || front[|front| - 1].inUse) then 1 else 0)
  }

  /** `[low, high)` is a maximal run of free blocks: free throughout and bounded by allocated ones. */
  ghost predicate FreeRunAt(blocks: seq<Block>, low: int, high: int) {
    && 0 <= low < high <= |blocks|
    && (forall k :: low <= k < high ==> !blocks[k].inUse)
    && (low == 0 || blocks[low - 1].inUse)
    && (high == |blocks| || blocks[high].inUse)
  }

  /** The starts of the maximal free runs. */
  ghost function RunStarts(blocks: seq<Block>): set<int> {
    set low | 0 <= low < |blocks| && StartsRun(blocks, low)
  }

  ghost predicate StartsRun(blocks: seq<Block>, low: int) {
    exists high :: FreeRunAt(blocks, low, high)
  }

  lemma {:induction false} RunExtends(blocks: seq<Block>, low: int, at: int) returns (high: int)
    requires 0 <= low < at <= |blocks| && (low == 0 || blocks[low - 1].inUse)
    requires forall k :: low <= k < at ==> !blocks[k].inUse
    ensures FreeRunAt(blocks, low, high)
    decreases |blocks| - at
  {
    if at == |blocks| || blocks[at].inUse {
      high := at;
    } else {
      high := RunExtends(blocks, low, at + 1);
    }
  }

  /** A block starts a maximal free run exactly when it opens a hole. */
  lemma StartsIff(blocks: seq<Block>, low: int)
    requires 0 <= low < |blocks|
    ensures StartsRun(blocks, low) <==> !blocks[low].inUse && (low == 0 || blocks[low - 1].inUse)
  {
    if !blocks[low].inUse && (low == 0 || blocks[low - 1].inUse) {
      var high := RunExtends(blocks, low, low + 1);
    }
  }

  /** Holes are the maximal runs of free blocks. */
  lemma {:induction false} HolesAreRuns(blocks: seq<Block>)
    ensures HoleCount(blocks) == |RunStarts(blocks)|
  {
    hide StartsRun;
    if blocks == [] {
      assert RunStarts(blocks) == {};
    } else {
      var n := |blocks| - 1;
      HolesAreRuns(blocks[..n]);
      forall low | 0 <= low < n ensures StartsRun(blocks, low) <==> StartsRun(blocks[..n], low) {
        StartsIff(blocks, low);
        StartsIff(blocks[..n], low);
      }
      StartsIff(blocks, n);
      assert RunStarts(blocks) == RunStarts(blocks[..n]) + (if StartsRun(blocks, n) then {n} else {});
    }
  }

  ghost predicate CountsLinear(walk: Walk) {
    && walk.freeBytes == Some(Bytes(walk.blocks, false))
    && walk.freeBlocks == FreeCount(walk.blocks)
    && walk.holes == Some(HoleCount(walk.blocks))
  }

  lemma CountsLinearNext(walk: Walk, block: Block)
    requires CountsLinear(walk)
    ensures CountsLinear(TakeLinear(walk, block))
  {
    var all := walk.blocks + [block];
    assert all[..|walk.blocks|] == walk.blocks;
  }

  lemma {:induction false} TiledSum(blocks: seq<Block>, low: int, high: int)
    requires Tiled(blocks, low, high)
    ensures Bytes(blocks, true) + Bytes(blocks, false) == high - low
    ensures low <= high
  {
    if blocks != [] {
      var n := |blocks| - 1;
      TiledFront(blocks, low, high);
      TiledSum(blocks[..n], low, blocks[n].address);
    }
  }

  lemma TiledFront(blocks: seq<Block>, low: int, high: int)
    requires Tiled(blocks, low, high) && blocks != []
    ensures Tiled(blocks[..|blocks| - 1], low, blocks[|blocks| - 1].address)
  {}

  lemma {:induction false} TiledAscends(blocks: seq<Block>, low: int, high: int)
    requires Tiled(blocks, low, high)
    ensures forall i :: 0 <= i < |blocks| ==> low <= blocks[i].address < high
    ensures forall i, j :: 0 <= i < j < |blocks| ==> blocks[i].address < blocks[j].address
  {
    if blocks != [] {
      var n := |blocks| - 1;
      TiledFront(blocks, low, high);
      TiledAscends(blocks[..n], low, blocks[n].address);
      TiledSum(blocks[..n], low, blocks[n].address);
      forall i | 0 <= i < n ensures low <= blocks[i].address < blocks[n].address {
        assert blocks[..n][i] == blocks[i];
      }
      forall i, j | 0 <= i < j < n ensures blocks[i].address < blocks[j].address {
        assert blocks[..n][i] == blocks[i] && blocks[..n][j] == blocks[j];
      }
    }
  }

  lemma ExtentAppend(geom: Geometry, image: Image, free: Option<set<int>>, limit: int, blocks: seq<Block>, low: int,
                     cur: int)
    requires Extent(geom, image, free, limit, blocks, low, cur) && |blocks| < MAX_TRAVERSAL_COUNT
    requires image(cur).Some? && LinearFault(geom, image, limit, cur).None?
    requires LinearBlockAt(geom, image, free, cur).size > 0
    ensures var block := LinearBlockAt(geom, image, free, cur);
            Extent(geom, image, free, limit, blocks + [block], low, cur + block.size)
  {
    assert GoodLinear(geom, image, free, limit, LinearBlockAt(geom, image, free, cur));
  }

  /** Where a clean linear walk must have ended. */
  function ExtentEnd(geom: Geometry): Option<int> {
    if geom.kind == 5 then geom.freeEnd else geom.heapLimit
  }

  /** The zero-size header that ends a heap_5 region. */
  ghost predicate MarkerAt(geom: Geometry, image: Image, at: int) {
    !MisalignedAt(geom, at) && image(at).Some? && Plain(image(at).value.size, geom.mask) == 0
  }

  /** The whole extent as the walk can see it: tiled to its end and, in a heap_5
      region that ends below the limit, closed by a marker within the bound. */
  ghost predicate WholeExtent(geom: Geometry, image: Image, free: Option<set<int>>, limit: int, blocks: seq<Block>,
                              low: int) {
    && ExtentEnd(geom).Some?
    && Extent(geom, image, free, limit, blocks, low, ExtentEnd(geom).value)
    && (geom.kind == 5 && ExtentEnd(geom).value < limit ==>
          MarkerAt(geom, image, ExtentEnd(geom).value) && |blocks| < MAX_TRAVERSAL_COUNT)
  }

  /** A clean walk that names no missing part covered its whole extent. */
  ghost predicate CleanMeansExtent(geom: Geometry, image: Image, free: Option<set<int>>, limit: int, walk: Walk,
                                   low: int) {
    walk.Clean() && walk.incomplete.None? ==> WholeExtent(geom, image, free, limit, walk.blocks, low)
  }

  /** Free bytes, free blocks and holes stay counted right whatever the walk meets. */
  lemma {:induction false} LinearRunCounts(geom: Geometry, image: Image, free: Option<set<int>>, limit: int,
                                           walk: Walk, cur: int)
    requires walk.freeBytes.Some? && walk.holes.Some? && |walk.blocks| <= MAX_TRAVERSAL_COUNT
    requires CountsLinear(walk)
    ensures CountsLinear(LinearRun(geom, image, free, limit, walk, cur))
    decreases MAX_TRAVERSAL_COUNT - |walk.blocks|
  {
    if cur < limit && |walk.blocks| < MAX_TRAVERSAL_COUNT && LinearFault(geom, image, limit, cur).None? {
      var block := LinearBlockAt(geom, image, free, cur);
      if block.size != 0 {
        CountsLinearNext(walk, block);
        LinearRunCounts(geom, image, free, limit, TakeLinear(walk, block), cur + block.size);
      }
    }
  }

  lemma {:induction false} LinearRunSound(geom: Geometry, image: Image, free: Option<set<int>>, limit: int, walk: Walk,
                                          low: int, cur: int)
    requires walk.freeBytes.Some? && walk.holes.Some? && geom.heapLimit == Some(limit)
    requires geom.kind == 5 <==> walk.incomplete.Some?
    requires Extent(geom, image, free, limit, walk.blocks, low, cur)
    ensures CleanMeansExtent(geom, image, free, limit, LinearRun(geom, image, free, limit, walk, cur), low)
    decreases MAX_TRAVERSAL_COUNT - |walk.blocks|
  {
    hide Extent, WholeExtent, LinearEnd, LinearFault, Plain, Flagged;
    if cur >= limit {
      LinearEndSound(geom, image, free, limit, walk, low, cur);
    } else if |walk.blocks| >= MAX_TRAVERSAL_COUNT {
      assert !walk.(truncated := true).Clean();
    } else {
      var fault := LinearFault(geom, image, limit, cur);
      if fault.None? {
        ReadableUnlessFault(geom, image, limit, cur);
      }
      if fault.Some? {
        assert !walk.(corrupt := fault).Clean();
      } else if LinearBlockAt(geom, image, free, cur).size == 0 {
        MarkerBelow(geom, image, free, limit, cur);
        LinearEndSound(geom, image, free, limit, walk, low, cur);
      } else {
        var next := NextLinear(geom, image, free, limit, walk, low, cur);
        LinearRunSound(geom, image, free, limit, next, low, cur + LinearBlockAt(geom, image, free, cur).size);
      }
    }
  }

  lemma ReadableUnlessFault(geom: Geometry, image: Image, limit: int, cur: int)
    requires LinearFault(geom, image, limit, cur).None?
    ensures image(cur).Some?
  {}

  /** A zero size the walk accepts is a region's end marker. */
  lemma MarkerBelow(geom: Geometry, image: Image, free: Option<set<int>>, limit: int, cur: int)
    requires LinearFault(geom, image, limit, cur).None? && image(cur).Some?
    requires LinearBlockAt(geom, image, free, cur).size == 0
    ensures MarkerAt(geom, image, cur)
  {}

  lemma LinearEndSound(geom: Geometry, image: Image, free: Option<set<int>>, limit: int, walk: Walk, low: int, cur: int)
    requires geom.heapLimit == Some(limit) && Extent(geom, image, free, limit, walk.blocks, low, cur)
    requires cur < limit ==> MarkerAt(geom, image, cur) && |walk.blocks| < MAX_TRAVERSAL_COUNT
    ensures CleanMeansExtent(geom, image, free, limit, LinearEnd(geom, walk, limit, cur), low)
  {}

  lemma NextLinear(geom: Geometry, image: Image, free: Option<set<int>>, limit: int, walk: Walk, low: int, cur: int)
    returns (next: Walk)
    requires walk.freeBytes.Some? && walk.holes.Some? && |walk.blocks| < MAX_TRAVERSAL_COUNT
    requires Extent(geom, image, free, limit, walk.blocks, low, cur)
    requires image(cur).Some? && LinearFault(geom, image, limit, cur).None?
    requires LinearBlockAt(geom, image, free, cur).size != 0
    ensures next == TakeLinear(walk, LinearBlockAt(geom, image, free, cur)) && |next.blocks| == |walk.blocks| + 1
    ensures next.freeBytes.Some? && next.holes.Some? && next.incomplete == walk.incomplete
    ensures Extent(geom, image, free, limit, next.blocks, low, cur + LinearBlockAt(geom, image, free, cur).size)
  {
    ExtentAppend(geom, image, free, limit, walk.blocks, low, cur);
    next := TakeLinear(walk, LinearBlockAt(geom, image, free, cur));
  }

  /** A complete extent is walked block by block to its end. */
  lemma {:induction false} LinearRunComplete(geom: Geometry, image: Image, free: Option<set<int>>, limit: int,
                                             walk: Walk, low: int, n: nat, blocks: seq<Block>)
    requires walk.freeBytes.Some? && walk.holes.Some? && walk.Clean() && geom.heapLimit == Some(limit)
    requires geom.kind == 5 <==> walk.incomplete.Some?
    requires WholeExtent(geom, image, free, limit, blocks, low) && |blocks| <= MAX_TRAVERSAL_COUNT
    requires n <= |blocks| && walk.blocks == blocks[..n]
    ensures var cur := if n < |blocks| then blocks[n].address else ExtentEnd(geom).value;
            var r := LinearRun(geom, image, free, limit, walk, cur);
            r.Clean() && r.incomplete.None? && r.blocks == blocks
    decreases |blocks| - n
  {
    hide Extent, LinearEnd;
    if n == |blocks| {
      assert blocks[..n] == blocks;
      ExtentWalked(geom, image, free, limit, walk, low);
    } else {
      NextOfExtent(geom, image, free, limit, low, ExtentEnd(geom).value, n, blocks);
      GoodTaken(geom, image, free, limit, walk, blocks[n]);
      LinearRunComplete(geom, image, free, limit, TakeLinear(walk, blocks[n]), low, n + 1, blocks);
    }
  }

  /** At the end of the extent the walk closes clean. */
  lemma ExtentWalked(geom: Geometry, image: Image, free: Option<set<int>>, limit: int, walk: Walk, low: int)
    requires walk.freeBytes.Some? && walk.holes.Some? && walk.Clean() && geom.heapLimit == Some(limit)
    requires geom.kind == 5 <==> walk.incomplete.Some?
    requires WholeExtent(geom, image, free, limit, walk.blocks, low)
    ensures var r := LinearRun(geom, image, free, limit, walk, ExtentEnd(geom).value);
            r.Clean() && r.incomplete.None? && r.blocks == walk.blocks
  {
    hide GoodLinear, Tiled;
  }

  /** A block the walk accepts is taken. */
  lemma GoodTaken(geom: Geometry, image: Image, free: Option<set<int>>, limit: int, walk: Walk, block: Block)
    requires walk.freeBytes.Some? && walk.holes.Some? && |walk.blocks| < MAX_TRAVERSAL_COUNT
    requires GoodLinear(geom, image, free, limit, block) && block.address < limit
    ensures LinearRun(geom, image, free, limit, walk, block.address)
         == LinearRun(geom, image, free, limit, TakeLinear(walk, block), block.address + block.size)
  {
    hide LinearFault, LinearEnd;
  }

  lemma NextOfExtent(geom: Geometry, image: Image, free: Option<set<int>>, limit: int, low: int, high: int, n: nat,
                     blocks: seq<Block>)
    requires Extent(geom, image, free, limit, blocks, low, high) && n < |blocks|
    ensures blocks[..n + 1] == blocks[..n] + [blocks[n]] && n < MAX_TRAVERSAL_COUNT
    ensures GoodLinear(geom, image, free, limit, blocks[n]) && blocks[n].address < limit
    ensures blocks[n].address + blocks[n].size == (if n + 1 < |blocks| then blocks[n + 1].address else high)
  {}

  /** The linear walk is clean and names nothing missing exactly when memory holds
      a whole extent of readable blocks, and then it reports that tiling. Free
      bytes, free blocks and holes are counted right even when it is not clean,
      and only heap_5 names a missing part. */
  lemma LinearWalkMeans(geom: Geometry, image: Image, freeList: Option<Walk>)
    requires LinearWalkRuns(geom)
    ensures CountsLinear(LinearWalk(geom, image, freeList))
    ensures CleanMeansExtent(geom, image, FreeAddresses(freeList), geom.heapLimit.value,
                             LinearWalk(geom, image, freeList), geom.linearLow.value)
    ensures geom.kind != 5 ==> LinearWalk(geom, image, freeList).incomplete.None?
    ensures forall blocks ::
              WholeExtent(geom, image, FreeAddresses(freeList), geom.heapLimit.value, blocks, geom.linearLow.value) ==>
                var walk := LinearWalk(geom, image, freeList);
                walk.Clean() && walk.incomplete.None? && walk.blocks == blocks
  {
    hide WholeExtent;
    var free, limit := FreeAddresses(freeList), geom.heapLimit.value;
    LinearRunSound(geom, image, free, limit, LinearStart(geom), geom.linearLow.value, geom.linearLow.value);
    LinearRunCounts(geom, image, free, limit, LinearStart(geom), geom.linearLow.value);
    RunKeepsReason(geom, image, free, limit, LinearStart(geom), geom.linearLow.value);
    forall blocks | WholeExtent(geom, image, free, limit, blocks, geom.linearLow.value)
      ensures var walk := LinearWalk(geom, image, freeList);
              walk.Clean() && walk.incomplete.None? && walk.blocks == blocks
    {
      StartOfExtent(geom, image, free, limit, blocks, geom.linearLow.value);
      LinearRunComplete(geom, image, free, limit, LinearStart(geom), geom.linearLow.value, 0, blocks);
    }
  }

  lemma StartOfExtent(geom: Geometry, image: Image, free: Option<set<int>>, limit: int, blocks: seq<Block>, low: int)
    requires WholeExtent(geom, image, free, limit, blocks, low)
    ensures |blocks| <= MAX_TRAVERSAL_COUNT
    ensures ExtentEnd(geom).Some? && low == (if blocks == [] then ExtentEnd(geom).value else blocks[0].address)
  {}

  lemma {:induction false} RunKeepsReason(geom: Geometry, image: Image, free: Option<set<int>>, limit: int, walk: Walk,
                                          cur: int)
    requires walk.freeBytes.Some? && walk.holes.Some? && |walk.blocks| <= MAX_TRAVERSAL_COUNT
    ensures geom.kind != 5 ==> LinearRun(geom, image, free, limit, walk, cur).incomplete == walk.incomplete
    decreases MAX_TRAVERSAL_COUNT - |walk.blocks|
  {
    if cur < limit && |walk.blocks| < MAX_TRAVERSAL_COUNT && LinearFault(geom, image, limit, cur).None? {
      var block := LinearBlockAt(geom, image, free, cur);
      if block.size != 0 {
        RunKeepsReason(geom, image, free, limit, TakeLinear(walk, block), cur + block.size);
      }
    }
  }

  /** The final "ended before the heap limit" verdict of heap_2 and heap_4 arises
      only when the extent's base already lies past its limit. */
  lemma EndedEarlyIff(geom: Geometry, image: Image, freeList: Option<Walk>)
    requires LinearWalkRuns(geom) && geom.kind != 5
    ensures LinearWalk(geom, image, freeList).corrupt == Some(EndedEarly) <==>
              geom.linearLow.value > geom.heapLimit.value
  {
    EndsAtLimit(geom, image, FreeAddresses(freeList), geom.heapLimit.value, LinearStart(geom), geom.linearLow.value);
  }

  lemma {:induction false} EndsAtLimit(geom: Geometry, image: Image, free: Option<set<int>>, limit: int, walk: Walk,
                                       cur: int)
    requires geom.kind != 5 && walk.freeBytes.Some? && walk.holes.Some? && |walk.blocks| <= MAX_TRAVERSAL_COUNT
    requires walk.corrupt.None?
    ensures LinearRun(geom, image, free, limit, walk, cur).corrupt == Some(EndedEarly) <==> cur > limit
    decreases MAX_TRAVERSAL_COUNT - |walk.blocks|
  {
    if cur < limit && |walk.blocks| < MAX_TRAVERSAL_COUNT && LinearFault(geom, image, limit, cur).None? {
      var block := LinearBlockAt(geom, image, free, cur);
      EndsAtLimit(geom, image, free, limit, TakeLinear(walk, block), cur + block.size);
    }
  }
}
