/** When each heap verdict is given, in terms of what memory holds
    (freertos/heap.py, `cross_validate` over the two walks). */
module VerdictMeaning {
  import opened Common
  import opened CrossCheck
  import opened HealthyHeap
  import opened HeapWalks
  import opened PointerMask
  import opened WalkMeaning

  // ---- what the free chain can be --------------------------------------------------------

  ghost predicate ChainWhole(geom: Geometry, image: Image)
    requires FreeWalkRuns(geom)
  {
    exists blocks :: FreeChain(geom, image, blocks)
  }

  /** The bound is reached and the chain goes on. */
  ghost predicate CutTrail(geom: Geometry, image: Image, blocks: seq<Block>, next: int)
    requires FreeWalkRuns(geom)
  {
    Trail(geom, image, blocks, next) && |blocks| == MAX_TRAVERSAL_COUNT && next != 0 && next != geom.freeEnd.value
  }

  ghost predicate ChainOutruns(geom: Geometry, image: Image)
    requires FreeWalkRuns(geom)
  {
    exists blocks, next :: CutTrail(geom, image, blocks, next)
  }

  /** The chain leads to NULL, or within the bound to something that is no free block. */
  ghost predicate BadTrail(geom: Geometry, image: Image, blocks: seq<Block>, next: int)
    requires FreeWalkRuns(geom)
  {
    && Trail(geom, image, blocks, next) && next != geom.freeEnd.value
    && (next == 0 || (|blocks| < MAX_TRAVERSAL_COUNT && FreeFault(geom, image, AddressSet(blocks), next).Some?))
  }

  ghost predicate ChainFaulty(geom: Geometry, image: Image)
    requires FreeWalkRuns(geom)
  {
    exists blocks, next :: BadTrail(geom, image, blocks, next)
  }

  lemma {:induction false} FreeRunStops(geom: Geometry, image: Image, walk: Walk, cur: int)
    requires FreeWalkRuns(geom) && walk.freeBytes.Some? && walk.Clean()
    requires Trail(geom, image, walk.blocks, cur) && CountsFree(walk)
    ensures var r := FreeRun(geom, image, walk, cur);
            && (r.truncated ==> ChainOutruns(geom, image) && r.corrupt.None?)
            && (r.corrupt.Some? ==> ChainFaulty(geom, image))
    decreases MAX_TRAVERSAL_COUNT - |walk.blocks|
  {
    hide FreeFault, Trail, GoodFree;
    if cur == geom.freeEnd.value {
    } else if cur == 0 {
      assert BadTrail(geom, image, walk.blocks, cur);
    } else if |walk.blocks| >= MAX_TRAVERSAL_COUNT {
      assert CutTrail(geom, image, walk.blocks, cur) by { TrailBound(geom, image, walk.blocks, cur); }
    } else if FreeFault(geom, image, AddressSet(walk.blocks), cur).None? {
      FaultlessReadable(geom, image, AddressSet(walk.blocks), cur);
      var next := NextFree(geom, image, walk, cur);
      FreeRunStops(geom, image, next, FreeBlockAt(geom, image, cur).nextFree.value);
    } else {
      assert BadTrail(geom, image, walk.blocks, cur);
    }
  }

  lemma TrailBound(geom: Geometry, image: Image, blocks: seq<Block>, next: int)
    requires FreeWalkRuns(geom) && Trail(geom, image, blocks, next)
    ensures |blocks| <= MAX_TRAVERSAL_COUNT
    ensures blocks == [] ==> geom.heapLow.value == next
    ensures blocks != [] ==> blocks[0].address == geom.heapLow.value
  {}

  /** From any point of a trail the walk goes on to the trail's end. */
  lemma {:induction false} RunAlong(geom: Geometry, image: Image, walk: Walk, n: nat, trail: seq<Block>, last: int)
    returns (end: Walk)
    requires FreeWalkRuns(geom) && walk.freeBytes.Some? && walk.Clean()
    requires Trail(geom, image, trail, last) && n <= |trail| && walk.blocks == trail[..n]
    ensures end.blocks == trail && end.Clean() && end.freeBytes.Some? && |trail| <= MAX_TRAVERSAL_COUNT
    ensures FreeRun(geom, image, walk, if n < |trail| then trail[n].address else last)
         == FreeRun(geom, image, end, last)
    decreases |trail| - n
  {
    if n == |trail| {
      assert trail[..n] == trail;
      end := walk;
    } else {
      var block := trail[n];
      assert GoodFree(geom, image, block);
      NotAhead(trail, n);
      assert trail[..n + 1] == trail[..n] + [block];
      end := RunAlong(geom, image, TakeFree(walk, block), n + 1, trail, last);
      assert n + 1 < |trail| ==> trail[n].nextFree == Some(trail[n + 1].address);
    }
  }

  lemma WalkAlong(geom: Geometry, image: Image, trail: seq<Block>, last: int) returns (end: Walk)
    requires FreeWalkRuns(geom) && Trail(geom, image, trail, last)
    ensures end.blocks == trail && end.Clean() && end.freeBytes.Some? && |trail| <= MAX_TRAVERSAL_COUNT
    ensures FreeWalk(geom, image) == FreeRun(geom, image, end, last)
  {
    TrailBound(geom, image, trail, last);
    end := RunAlong(geom, image, EMPTY_WALK.(freeBytes := Some(0)), 0, trail, last);
  }

  /** The walk ends clean, cut or faulty exactly as the chain is whole, outruns
      the bound or breaks. */
  lemma ChainCases(geom: Geometry, image: Image)
    requires FreeWalkRuns(geom)
    ensures var walk := FreeWalk(geom, image);
            && (walk.Clean() <==> ChainWhole(geom, image))
            && (walk.truncated <==> ChainOutruns(geom, image))
            && (walk.corrupt.Some? <==> ChainFaulty(geom, image))
            && !(walk.truncated && walk.corrupt.Some?)
  {
    hide FreeWalk, FreeFault, GoodFree;
    FreeWalkMeans(geom, image);
    FreeWalkStops(geom, image);
    if blocks, next :| CutTrail(geom, image, blocks, next) {
      var end := WalkAlong(geom, image, blocks, next);
    }
    if blocks, next :| BadTrail(geom, image, blocks, next) {
      var end := WalkAlong(geom, image, blocks, next);
    }
  }

  lemma FreeWalkStops(geom: Geometry, image: Image)
    requires FreeWalkRuns(geom)
    ensures var r := FreeWalk(geom, image);
            && (r.truncated ==> ChainOutruns(geom, image) && r.corrupt.None?)
            && (r.corrupt.Some? ==> ChainFaulty(geom, image))
  {
    hide FreeRun;
    FreeRunStops(geom, image, EMPTY_WALK.(freeBytes := Some(0)), geom.heapLow.value);
  }

  // ---- what the extent can be --------------------------------------------------------------

  /** Readable blocks from the extent's base up to `at`; which of them are free
      may depend on the chain's addresses. */
  ghost predicate Stretch(geom: Geometry, image: Image, free: set<int>, blocks: seq<Block>, at: int)
    requires LinearWalkRuns(geom)
  {
    Extent(geom, image, Some(free), geom.heapLimit.value, blocks, geom.linearLow.value, at)
  }

  ghost predicate ExtentWhole(geom: Geometry, image: Image, free: set<int>)
    requires LinearWalkRuns(geom)
  {
    exists blocks :: WholeExtent(geom, image, Some(free), geom.heapLimit.value, blocks, geom.linearLow.value)
  }

  ghost predicate CutStretch(geom: Geometry, image: Image, free: set<int>, blocks: seq<Block>, at: int)
    requires LinearWalkRuns(geom)
  {
    Stretch(geom, image, free, blocks, at) && |blocks| == MAX_TRAVERSAL_COUNT && at < geom.heapLimit.value
  }

  /** The bound is reached below the limit. */
  ghost predicate ExtentOutruns(geom: Geometry, image: Image, free: set<int>)
    requires LinearWalkRuns(geom)
  {
    exists blocks, at :: CutStretch(geom, image, free, blocks, at)
  }

  ghost predicate BadStretch(geom: Geometry, image: Image, free: set<int>, blocks: seq<Block>, at: int)
    requires LinearWalkRuns(geom)
  {
    && Stretch(geom, image, free, blocks, at)
    && if at < geom.heapLimit.value
       then |blocks| < MAX_TRAVERSAL_COUNT && LinearFault(geom, image, geom.heapLimit.value, at).Some?
       else geom.kind != 5 && at != geom.heapLimit.value
  }

  /** Below the limit and within the bound something stands that is no block, or
      the base lies past the limit. */
  ghost predicate ExtentFaulty(geom: Geometry, image: Image, free: set<int>)
    requires LinearWalkRuns(geom)
  {
    exists blocks, at :: BadStretch(geom, image, free, blocks, at)
  }

  /** A block can be read at the extent's base. */
  ghost predicate FirstBlock(geom: Geometry, image: Image)
    requires LinearWalkRuns(geom)
  {
    && geom.linearLow.value < geom.heapLimit.value
    && LinearFault(geom, image, geom.heapLimit.value, geom.linearLow.value).None?
    && image(geom.linearLow.value).Some?
    && Plain(image(geom.linearLow.value).value.size, geom.mask) != 0
  }

  lemma {:induction false} LinearRunStops(geom: Geometry, image: Image, free: set<int>, walk: Walk, cur: int)
    requires LinearWalkRuns(geom) && walk.freeBytes.Some? && walk.holes.Some? && walk.Clean()
    requires Stretch(geom, image, free, walk.blocks, cur) && (geom.kind == 5 ==> walk.incomplete.Some?)
    ensures |walk.blocks| <= MAX_TRAVERSAL_COUNT
    ensures var r := LinearRun(geom, image, Some(free), geom.heapLimit.value, walk, cur);
            && (r.truncated ==> ExtentOutruns(geom, image, free) && r.corrupt.None?)
            && (r.corrupt.Some? ==> ExtentFaulty(geom, image, free))
            && walk.blocks <= r.blocks && (geom.kind == 5 && !r.Clean() ==> r.incomplete.Some?)
    decreases MAX_TRAVERSAL_COUNT - |walk.blocks|
  {
    hide Extent, LinearFault, Plain, Flagged, LinearAllocated;
    var limit := geom.heapLimit.value;
    ExtentBound(geom, image, Some(free), limit, walk.blocks, geom.linearLow.value, cur);
    if cur >= limit {
      assert cur != limit && geom.kind != 5 ==> BadStretch(geom, image, free, walk.blocks, cur);
    } else if |walk.blocks| >= MAX_TRAVERSAL_COUNT {
      assert CutStretch(geom, image, free, walk.blocks, cur);
    } else if LinearFault(geom, image, limit, cur).Some? {
      assert BadStretch(geom, image, free, walk.blocks, cur);
    } else {
      ReadableUnlessFault(geom, image, limit, cur);
      var block := LinearBlockAt(geom, image, Some(free), cur);
      if block.size != 0 {
        var next := NextLinear(geom, image, Some(free), limit, walk, geom.linearLow.value, cur);
        LinearRunStops(geom, image, free, next, cur + block.size);
      } else {
        ZeroEndsRegion(geom, image, limit, cur);
      }
    }
  }

  /** Only in heap_5 does the walk accept a zero size. */
  lemma ZeroEndsRegion(geom: Geometry, image: Image, limit: int, cur: int)
    requires LinearFault(geom, image, limit, cur).None? && image(cur).Some?
    requires Plain(image(cur).value.size, geom.mask) == 0
    ensures geom.kind == 5
  {}

  lemma EmptyStretch(geom: Geometry, image: Image, free: set<int>)
    requires LinearWalkRuns(geom)
    ensures Stretch(geom, image, free, [], geom.linearLow.value)
  {}

  lemma ExtentBound(geom: Geometry, image: Image, free: Option<set<int>>, limit: int, blocks: seq<Block>, low: int,
                    at: int)
    requires Extent(geom, image, free, limit, blocks, low, at)
    ensures |blocks| <= MAX_TRAVERSAL_COUNT
    ensures blocks == [] ==> low == at
    ensures blocks != [] ==> blocks[0].address == low
  {}

  /** From any point of a stretch the walk goes on to the stretch's end. */
  lemma {:induction false} LinearAlong(geom: Geometry, image: Image, free: set<int>, walk: Walk, n: nat,
                                       blocks: seq<Block>, at: int)
    returns (end: Walk)
    requires LinearWalkRuns(geom) && walk.freeBytes.Some? && walk.holes.Some? && walk.Clean()
    requires Stretch(geom, image, free, blocks, at)
    requires n <= |blocks| <= MAX_TRAVERSAL_COUNT && walk.blocks == blocks[..n]
    ensures end.blocks == blocks && end.Clean() && end.freeBytes.Some? && end.holes.Some?
    ensures var cur := if n < |blocks| then blocks[n].address else at;
            LinearRun(geom, image, Some(free), geom.heapLimit.value, walk, cur)
              == LinearRun(geom, image, Some(free), geom.heapLimit.value, end, at)
    decreases |blocks| - n
  {
    hide Extent, LinearEnd;
    if n == |blocks| {
      assert blocks[..n] == blocks;
      end := walk;
    } else {
      var limit := geom.heapLimit.value;
      NextOfExtent(geom, image, Some(free), limit, geom.linearLow.value, at, n, blocks);
      GoodTaken(geom, image, Some(free), limit, walk, blocks[n]);
      end := LinearAlong(geom, image, free, TakeLinear(walk, blocks[n]), n + 1, blocks, at);
    }
  }

  lemma ExtentAlong(geom: Geometry, image: Image, chain: Walk, blocks: seq<Block>, at: int) returns (end: Walk)
    requires LinearWalkRuns(geom) && Stretch(geom, image, AddressSet(chain.blocks), blocks, at)
    ensures end.blocks == blocks && end.Clean() && end.freeBytes.Some? && end.holes.Some?
    ensures |blocks| <= MAX_TRAVERSAL_COUNT
    ensures LinearWalk(geom, image, Some(chain))
         == LinearRun(geom, image, Some(AddressSet(chain.blocks)), geom.heapLimit.value, end, at)
  {
    hide Extent, LinearRun, AddressSet;
    ExtentBound(geom, image, Some(AddressSet(chain.blocks)), geom.heapLimit.value, blocks, geom.linearLow.value, at);
    end := LinearAlong(geom, image, AddressSet(chain.blocks), LinearStart(geom), 0, blocks, at);
  }

  /** The walk ends complete, cut or faulty exactly as the extent is whole,
      outruns the bound or breaks. */
  lemma ExtentCases(geom: Geometry, image: Image, chain: Walk)
    requires LinearWalkRuns(geom)
    ensures var free := AddressSet(chain.blocks);
            var walk := LinearWalk(geom, image, Some(chain));
            && (walk.Clean() && walk.incomplete.None? <==> ExtentWhole(geom, image, free))
            && (walk.truncated <==> ExtentOutruns(geom, image, free))
            && (walk.corrupt.Some? <==> ExtentFaulty(geom, image, free))
            && !(walk.truncated && walk.corrupt.Some?) && (geom.kind == 5 && !walk.Clean() ==> walk.incomplete.Some?)
            && (walk.blocks != [] <==> FirstBlock(geom, image))
  {
    hide LinearWalk, Extent, WholeExtent, LinearFault, AddressSet;
    LinearWalkMeans(geom, image, Some(chain));
    LinearWalkStops(geom, image, chain);
    if blocks, at :| CutStretch(geom, image, AddressSet(chain.blocks), blocks, at) {
      var end := ExtentAlong(geom, image, chain, blocks, at);
    }
    if blocks, at :| BadStretch(geom, image, AddressSet(chain.blocks), blocks, at) {
      var end := ExtentAlong(geom, image, chain, blocks, at);
    }
  }

  lemma LinearWalkStops(geom: Geometry, image: Image, chain: Walk)
    requires LinearWalkRuns(geom)
    ensures var free := AddressSet(chain.blocks);
            var r := LinearWalk(geom, image, Some(chain));
            && (r.truncated ==> ExtentOutruns(geom, image, free) && r.corrupt.None?)
            && (r.corrupt.Some? ==> ExtentFaulty(geom, image, free))
            && (r.blocks != [] <==> FirstBlock(geom, image))
            && (geom.kind == 5 && !r.Clean() ==> r.incomplete.Some?)
  {
    hide LinearRun, AddressSet, LinearFault, Plain;
    var free, limit, low := AddressSet(chain.blocks), geom.heapLimit.value, geom.linearLow.value;
    LinearRunStops(geom, image, free, LinearStart(geom), low);
    FirstTaken(geom, image, free);
  }

  lemma FirstTaken(geom: Geometry, image: Image, free: set<int>)
    requires LinearWalkRuns(geom)
    ensures var start, limit := LinearStart(geom), geom.heapLimit.value;
            var walk := LinearRun(geom, image, Some(free), limit, start, geom.linearLow.value);
            walk.blocks != [] <==> FirstBlock(geom, image)
  {
    hide LinearFault, Plain, LinearAllocated, Extent;
    var limit, low := geom.heapLimit.value, geom.linearLow.value;
    EmptyStretch(geom, image, free);
    if low < limit && LinearFault(geom, image, limit, low).None? {
      ReadableUnlessFault(geom, image, limit, low);
      var block := LinearBlockAt(geom, image, Some(free), low);
      if block.size != 0 {
        var next := NextLinear(geom, image, Some(free), limit, LinearStart(geom), low, low);
        LinearRunStops(geom, image, free, next, low + block.size);
      }
    }
  }

  // ---- what the comparison reports ----------------------------------------------------------

  /** The extent calls `a` a free block and no chain member stands there. */
  ghost predicate Missing(chain: seq<Block>, extent: seq<Block>, a: int) {
    && (exists j :: 0 <= j < |extent| && extent[j].address == a && !extent[j].inUse)
    && forall i :: 0 <= i < |chain| ==> chain[i].address != a
  }

  /** A chain member stands at `a` and the extent has no free block there. */
  ghost predicate Unexpected(chain: seq<Block>, extent: seq<Block>, a: int) {
    && (exists i :: 0 <= i < |chain| && chain[i].address == a)
    && forall j :: 0 <= j < |extent| && extent[j].address == a ==> extent[j].inUse
  }

  /** The addresses are named exactly where sizes carry a bit and some differ, and
      each set is just what it says. */
  ghost predicate Places(at: Option<Difference>, chain: seq<Block>, extent: seq<Block>, mask: nat) {
    && (at.Some? <==> mask != 0 && exists a :: Missing(chain, extent, a) || Unexpected(chain, extent, a))
    && (at.Some? ==> forall a ::
          && (a in at.value.missing <==> Missing(chain, extent, a))
          && (a in at.value.unexpected <==> Unexpected(chain, extent, a)))
  }

  /** The verdict on a whole chain and a whole extent: bytes before counts before
      addresses, each with the numbers it stands for. */
  ghost predicate Reports(verdict: Verdict, chain: seq<Block>, extent: seq<Block>, counter: int, mask: nat) {
    var bytesAgree := TotalBytes(chain) == Bytes(extent, false) == counter;
    match verdict
    case BytesDiffer(chainBytes, extentBytes, count, at) =>
      && !bytesAgree && Places(at, chain, extent, mask)
      && chainBytes == Some(TotalBytes(chain)) && extentBytes == Some(Bytes(extent, false)) && count == counter
    case CountsDiffer(chainBlocks, extentBlocks, at) =>
      && bytesAgree && chainBlocks == |chain| && extentBlocks == FreeCount(extent) && chainBlocks != extentBlocks
      && Places(at, chain, extent, mask)
    case AddressesDiffer(at) =>
      bytesAgree && |chain| == FreeCount(extent) && at.Some? && Places(at, chain, extent, mask)
    case Ok =>
      bytesAgree && |chain| == FreeCount(extent) && Places(None, chain, extent, mask)
    case _ => false
  }

  lemma PlacesLocated(chain: seq<Block>, extent: seq<Block>, mask: nat)
    ensures var a, b := AddressSet(chain), FreeOnly(extent);
            Places(if mask != 0 && a != b then Located(a, b) else None, chain, extent, mask)
  {
    var a, b := AddressSet(chain), FreeOnly(extent);
    forall x ensures Missing(chain, extent, x) <==> x in b - a {}
    forall x ensures Unexpected(chain, extent, x) <==> x in a - b {}
    if a != b && a <= b {
      var x :| x in b && x !in a;
      assert Missing(chain, extent, x);
    } else if a != b {
      var x :| x in a && x !in b;
      assert Unexpected(chain, extent, x);
    }
  }

  /** Both walks can be compared: none is faulty, cut or, in heap_5, partial. */
  predicate Compared(verdict: Verdict) {
    verdict.Ok? || verdict.BytesDiffer? || verdict.CountsDiffer? || verdict.AddressesDiffer?
  }

  /** heap_5 answers before anything else unless its one region was walked to its end. */
  ghost predicate RegionWalked(geom: Geometry, image: Image, free: set<int>)
    requires LinearWalkRuns(geom)
  {
    geom.kind == 5 ==> FirstBlock(geom, image) && ExtentWhole(geom, image, free)
  }

  /** Which verdict when, where the geometry lets both walks run. */
  lemma VerdictIff(geom: Geometry, image: Image, counter: Option<int>)
    requires FreeWalkRuns(geom) && LinearWalkRuns(geom)
    ensures var verdict := Judge(geom, image, counter);
            var free := AddressSet(FreeWalk(geom, image).blocks);
            var faulty := ChainFaulty(geom, image) || ExtentFaulty(geom, image, free);
            var cut := ChainOutruns(geom, image) || ExtentOutruns(geom, image, free);
            var walked := RegionWalked(geom, image, free);
            && (verdict.RegionsUnavailable? <==> geom.kind == 5 && !FirstBlock(geom, image))
            && (verdict.PartialExtent? <==> geom.kind == 5 && FirstBlock(geom, image) && !walked)
            && (verdict.PartMissing? <==> walked && counter.None?)
            && (verdict.CorruptWalk? <==> walked && counter.Some? && faulty)
            && (verdict.TruncatedWalk? <==> walked && counter.Some? && !faulty && cut)
            && (Compared(verdict) <==> walked && counter.Some? && !faulty && !cut)
            && (verdict.CorruptWalk? ==>
                  && (verdict.free.Some? <==> ChainFaulty(geom, image))
                  && (verdict.linear.Some? <==> ExtentFaulty(geom, image, free)))
  {
    hide FreeWalk, LinearWalk, ChainFaulty, ExtentFaulty, ChainOutruns, ExtentOutruns, FirstBlock, ExtentWhole,
      AddressSet, FreeOnly, ChainWhole;
    ChainCases(geom, image);
    ExtentCases(geom, image, FreeWalk(geom, image));
    LinearWalkMeans(geom, image, Some(FreeWalk(geom, image)));
  }

  /** A comparison is only ever reported of a whole chain and a whole extent, and
      says exactly how they and the counter relate. */
  lemma ComparedMeans(geom: Geometry, image: Image, counter: Option<int>)
    requires FreeWalkRuns(geom) && LinearWalkRuns(geom) && Compared(Judge(geom, image, counter))
    ensures var chain := FreeWalk(geom, image).blocks;
            var extent := LinearWalk(geom, image, Some(FreeWalk(geom, image))).blocks;
            && FreeChain(geom, image, chain)
            && WholeExtent(geom, image, Some(AddressSet(chain)), geom.heapLimit.value, extent, geom.linearLow.value)
            && counter.Some? && Reports(Judge(geom, image, counter), chain, extent, counter.value, geom.mask)
  {
    hide FreeWalk, LinearWalk, FreeChain, WholeExtent, AddressSet, FreeOnly, Places;
    var chain := FreeWalk(geom, image);
    var extent := LinearWalk(geom, image, Some(chain));
    FreeWalkMeans(geom, image);
    LinearWalkMeans(geom, image, Some(chain));
    PlacesLocated(chain.blocks, extent.blocks, geom.mask);
  }

  // ---- geometries no walk can start from ------------------------------------------------------

  lemma NotWalked(geom: Geometry, image: Image, chain: Walk)
    requires geom.kind in {2, 4, 5}
    ensures !FreeWalkRuns(geom) ==>
      FreeWalk(geom, image) == EMPTY_WALK && AddressSet(FreeWalk(geom, image).blocks) == {}
    ensures !LinearWalkRuns(geom) ==>
      var extent := LinearWalk(geom, image, Some(chain));
      && extent.blocks == [] && extent.freeBytes.None? && extent.Clean() && (geom.kind != 5 ==> extent.incomplete.None?)
  {}

  /** Where the geometry keeps a walk from starting, a heap is never called "ok",
      yet a difference in bytes is reported unless the walk that did start has
      something worse to say: the missing walk counts as no bytes at all. */
  lemma UnwalkedMeans(geom: Geometry, image: Image, counter: int)
    requires geom.kind in {2, 4, 5} && !(FreeWalkRuns(geom) && LinearWalkRuns(geom))
    ensures var verdict := Judge(geom, image, Some(counter));
            var free := AddressSet(FreeWalk(geom, image).blocks);
            && !verdict.Ok? && !verdict.CountsDiffer? && !verdict.AddressesDiffer?
            && (verdict.BytesDiffer? <==>
                  && (FreeWalkRuns(geom) ==> ChainWhole(geom, image))
                  && (if LinearWalkRuns(geom) then ExtentWhole(geom, image, free) && RegionWalked(geom, image, free)
                      else geom.kind != 5))
            && (verdict.BytesDiffer? ==>
                  && (verdict.chainBytes.None? <==> !FreeWalkRuns(geom))
                  && (verdict.extentBytes.None? <==> !LinearWalkRuns(geom)))
  {
    hide FreeWalk, LinearWalk, ChainFaulty, ExtentFaulty, ChainOutruns, ExtentOutruns, FirstBlock, ExtentWhole,
      AddressSet, FreeOnly, ChainWhole;
    var chain := FreeWalk(geom, image);
    NotWalked(geom, image, chain);
    if FreeWalkRuns(geom) {
      ChainCases(geom, image);
      FreeWalkMeans(geom, image);
    }
    if LinearWalkRuns(geom) {
      ExtentCases(geom, image, chain);
      LinearWalkMeans(geom, image, Some(chain));
    }
  }

  // ---- what a healthy heap that meets the canary is told ------------------------------------------

  /** A stored extent is read whole, whatever the chain says is free. */
  lemma StoredIsWhole(geom: Geometry, image: Image, blocks: seq<Block>, free: set<int>)
    requires geom.kind in {2, 4, 5} && ExtentStored(geom, image, blocks)
    ensures LinearWalkRuns(geom) && ExtentWhole(geom, image, free) && RegionWalked(geom, image, free)
  {
    var low, limit, end := geom.linearLow.value, geom.heapLimit.value, ExtentEnd(geom).value;
    TiledAscends(blocks, low, end);
    forall i | 0 <= i < |blocks| ensures image(blocks[i].address).Some? {
      assert HeaderStored(geom, image, blocks[i]);
    }
    var read := seq(|blocks|, i requires 0 <= i < |blocks| =>
                      LinearBlockAt(geom, image, Some(free), blocks[i].address));
    forall i | 0 <= i < |read|
      ensures read[i].address == blocks[i].address && read[i].size == blocks[i].size
      ensures GoodLinear(geom, image, Some(free), limit, read[i])
    {
      assert HeaderStored(geom, image, blocks[i]);
      EndsWithin(blocks, low, end, i);
    }
    assert WholeExtent(geom, image, Some(free), limit, read, low);
  }

  /** The blocks of the chain before its `k`-th pointer, as the walk reads them. */
  ghost function ReadBlocks(geom: Geometry, image: Image, heap: Heap, k: nat): (blocks: seq<Block>)
    requires k <= |heap.order| && ChainReadable(image, heap)
    ensures |blocks| == k && forall i :: 0 <= i < k ==> blocks[i] == FreeBlockAt(geom, image, heap.order[i])
  {
    seq(k, i requires 0 <= i < k => FreeBlockAt(geom, image, heap.order[i]))
  }

  lemma ReadBlock(geom: Geometry, image: Image, heap: Heap, storedHead: nat, i: nat)
    requires ExtentStored(geom, image, heap.blocks) && ChainStored(geom, image, heap, storedHead)
    requires geom.heapLow.Some? && i < |heap.order| && image(heap.order[i]).Some?
    ensures var block := FreeBlockAt(geom, image, heap.order[i]);
            && GoodFree(geom, image, block)
            && block.nextFree == Some(if heap.Target(i + 1) == geom.canary then 0 else heap.Target(i + 1))
  {
    var a := heap.order[i];
    assert a in heap.order;
    var j := FreeBlockOf(geom, image, heap.blocks, a);
    TargetsRead(geom, image, heap, storedHead, i);
    TargetsRead(geom, image, heap, storedHead, i + 1);
  }

  /** Past the head, the first pointer that equals the canary ends the walk at NULL. */
  lemma CollisionEndsAtNull(geom: Geometry, image: Image, heap: Heap, storedHead: nat, k: nat)
    requires ExtentStored(geom, image, heap.blocks) && ChainStored(geom, image, heap, storedHead)
    requires 0 < k <= |heap.order| && heap.Target(k) == geom.canary
    requires forall m: nat :: m < k ==> heap.Target(m) != geom.canary
    ensures geom.heapLow.Some? && geom.freeEnd.Some? && ChainReadable(image, heap)
    ensures Trail(geom, image, ReadBlocks(geom, image, heap, k), 0)
  {
    OrderSize(geom, image, heap, storedHead);
    TargetsRead(geom, image, heap, storedHead, 0);
    var blocks := ReadBlocks(geom, image, heap, k);
    forall i | 0 <= i < k
      ensures GoodFree(geom, image, blocks[i])
      ensures blocks[i].nextFree == Some(if i + 1 == k then 0 else heap.order[i + 1])
    {
      ReadBlock(geom, image, heap, storedHead, i);
    }
    assert Linked(blocks, geom.heapLow.value, 0);
    assert DistinctAddresses(blocks);
  }

  /** A healthy heap whose chain meets the canary is called corrupt, except when
      its very first free block stands there: then the chain is not walked at all
      and the sound heap is reported as a mismatch in bytes. */
  lemma CollisionVerdict(geom: Geometry, image: Image, heap: Heap, storedHead: nat, counter: Option<int>)
    requires Healthy(geom, image, heap, storedHead, counter) && !CanaryClear(heap, geom.canary)
    ensures var verdict := Judge(geom, image, counter);
            if heap.Target(0) == geom.canary then verdict.BytesDiffer? && verdict.chainBytes.None?
            else verdict == CorruptWalk(Some(NullNext), None)
  {
    hide FreeWalk, LinearWalk, ChainWhole, ChainFaulty, ExtentFaulty, ChainOutruns, ExtentOutruns, ExtentWhole, Trail,
      AddressSet, FirstBlock, ExtentStored, Judge;
    var free := AddressSet(FreeWalk(geom, image).blocks);
    StoredIsWhole(geom, image, heap.blocks, free);
    TargetsRead(geom, image, heap, storedHead, 0);
    if heap.Target(0) == geom.canary {
      UnwalkedMeans(geom, image, counter.value);
    } else {
      var k := FirstCollision(heap, geom.canary);
      CollisionEndsAtNull(geom, image, heap, storedHead, k);
      NullIsReported(geom, image, ReadBlocks(geom, image, heap, k), counter);
    }
  }

  lemma NullIsReported(geom: Geometry, image: Image, blocks: seq<Block>, counter: Option<int>)
    requires FreeWalkRuns(geom) && LinearWalkRuns(geom) && Trail(geom, image, blocks, 0) && counter.Some?
    requires var free := AddressSet(FreeWalk(geom, image).blocks);
             ExtentWhole(geom, image, free) && RegionWalked(geom, image, free)
    ensures Judge(geom, image, counter) == CorruptWalk(Some(NullNext), None)
  {
    hide FreeWalk, LinearWalk, Trail, AddressSet, FreeOnly, ExtentWhole, FirstBlock;
    var end := WalkAlong(geom, image, blocks, 0);
    assert FreeWalk(geom, image).corrupt == Some(NullNext);
    ExtentCases(geom, image, FreeWalk(geom, image));
  }

  /** The heap with one free block at the canary, again: it is sound, and reported as a mismatch. */
  lemma HeadCollisionExample() returns (geom: Geometry, image: Image, heap: Heap, counter: Option<int>)
    ensures Healthy(geom, image, heap, Obfuscate(64, geom.canary), counter)
    ensures Judge(geom, image, counter).BytesDiffer?
  {
    hide Judge, Healthy;
    geom, image, heap, counter := CanaryCollisionExample();
    CollisionVerdict(geom, image, heap, Obfuscate(64, geom.canary), counter);
  }
}
