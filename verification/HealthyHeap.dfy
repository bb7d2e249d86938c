/** Completeness of the heap verdict: which healthy heaps it calls "ok"
    (freertos/heap.py). */
module HealthyHeap {
  import opened Common
  import opened CrossCheck
  import opened HeapWalks
  import opened PointerMask
  import opened WalkMeaning

  /** A heap as the kernel leaves it: the extent's blocks, and the free blocks'
      addresses in chain order. */
  datatype Heap = Heap(blocks: seq<Block>, order: seq<nat>, end: nat) {
    /** What the `i`-th pointer of the chain, the head being number 0, points at. */
    function Target(i: nat): nat
      requires i <= |order|
    {
      if i < |order| then order[i] else end
    }
  }

  /** The extent: aligned positive-size blocks tile it and their headers say so.
      A heap_5 region holds at least one block and closes with a marker header of
      size zero, unless it ends where the heap does. */
  ghost predicate ExtentStored(geom: Geometry, image: Image, blocks: seq<Block>) {
    && geom.linearLow.Some? && geom.linearLow.value > 0
    && geom.heapLimit.Some? && geom.heapLimit.value != 0
    && ExtentEnd(geom).Some? && ExtentEnd(geom).value <= geom.heapLimit.value
    && |blocks| <= MAX_TRAVERSAL_COUNT
    && Tiled(blocks, geom.linearLow.value, ExtentEnd(geom).value)
    && (forall i :: 0 <= i < |blocks| ==> HeaderStored(geom, image, blocks[i]))
    && (geom.kind == 5 ==>
          && blocks != []
          && (ExtentEnd(geom) != geom.heapLimit ==>
                MarkerStored(geom, image, ExtentEnd(geom).value) && |blocks| < MAX_TRAVERSAL_COUNT))
  }

  ghost predicate MarkerStored(geom: Geometry, image: Image, at: int) {
    !MisalignedAt(geom, at) && image(at).Some? && image(at).value.size == 0
  }

  /** A block's header carries its size and, where builds have one, its allocation bit. */
  ghost predicate HeaderStored(geom: Geometry, image: Image, block: Block) {
    && !MisalignedAt(geom, block.address) && block.nextFree.None?
    && image(block.address).Some?
    && (geom.mask != 0 ==> block.size < geom.mask)
    && image(block.address).value.size == (if block.inUse && geom.mask != 0 then block.size + geom.mask else block.size)
  }

  ghost predicate Distinct(order: seq<nat>) {
    forall i, j :: 0 <= i < j < |order| ==> order[i] != order[j]
  }

  /** The chain: masked pointers from the head through every free block once, to the end marker. */
  ghost predicate ChainStored(geom: Geometry, image: Image, heap: Heap, storedHead: nat) {
    && heap.end != 0 && geom.freeEnd == Some(heap.end)
    && Distinct(heap.order) && heap.end !in heap.order
    && (forall a :: a in heap.order <==> a in FreeOnly(heap.blocks))
    && storedHead == Obfuscate(heap.Target(0), geom.canary)
    && geom.heapLow == FreeListHead(storedHead, geom.canary)
    && forall i :: 0 <= i < |heap.order| ==>
         image(heap.order[i]).Some? && image(heap.order[i]).value.next == Obfuscate(heap.Target(i + 1), geom.canary)
  }

  ghost predicate Healthy(geom: Geometry, image: Image, heap: Heap, storedHead: nat, counter: Option<int>) {
    && geom.kind in {2, 4, 5}
    && ExtentStored(geom, image, heap.blocks)
    && ChainStored(geom, image, heap, storedHead)
    && counter == Some(Bytes(heap.blocks, false))
  }

  /** No pointer of the chain equals the canary. */
  predicate CanaryClear(heap: Heap, canary: nat) {
    canary == 0 || (canary != heap.end && canary !in heap.order)
  }

  // ---- the chain the walk will see ---------------------------------------------------------

  lemma FreeBlockOf(geom: Geometry, image: Image, blocks: seq<Block>, a: int) returns (j: int)
    requires ExtentStored(geom, image, blocks) && a in FreeOnly(blocks)
    ensures 0 <= j < |blocks| && !blocks[j].inUse && blocks[j].address == a
    ensures image(a).Some? && image(a).value.size == blocks[j].size && !Flagged(image(a).value.size, geom.mask)
    ensures geom.linearLow.value <= a < geom.heapLimit.value && !MisalignedAt(geom, a)
  {
    j :| 0 <= j < |blocks| && !blocks[j].inUse && blocks[j].address == a;
    assert HeaderStored(geom, image, blocks[j]);
    TiledAscends(blocks, geom.linearLow.value, ExtentEnd(geom).value);
  }

  function ChainBlock(image: Image, heap: Heap, i: nat): Block
    requires i < |heap.order| && image(heap.order[i]).Some?
  {
    Block(heap.order[i], image(heap.order[i]).value.size, false, Some(heap.Target(i + 1)))
  }

  ghost predicate ChainReadable(image: Image, heap: Heap) {
    forall i :: 0 <= i < |heap.order| ==> image(heap.order[i]).Some?
  }

  ghost function ChainBlocks(image: Image, heap: Heap): (chain: seq<Block>)
    requires ChainReadable(image, heap)
    ensures |chain| == |heap.order|
    ensures forall i :: 0 <= i < |chain| ==> chain[i] == ChainBlock(image, heap, i)
  {
    seq(|heap.order|, i requires 0 <= i < |heap.order| => ChainBlock(image, heap, i))
  }

  lemma TargetsRead(geom: Geometry, image: Image, heap: Heap, storedHead: nat, i: nat)
    requires ExtentStored(geom, image, heap.blocks) && ChainStored(geom, image, heap, storedHead) && i <= |heap.order|
    ensures heap.Target(i) != 0
    ensures Deobfuscate(Obfuscate(heap.Target(i), geom.canary), geom.canary)
         == (if heap.Target(i) == geom.canary then 0 else heap.Target(i))
    ensures i == 0 ==> (geom.heapLow == if heap.Target(0) == geom.canary then None else Some(heap.Target(0)))
  {
    if i < |heap.order| {
      assert heap.order[i] in heap.order;
      var j := FreeBlockOf(geom, image, heap.blocks, heap.order[i]);
    }
    RoundTrip(heap.Target(i), geom.canary);
    XorZero(heap.Target(i));
  }

  lemma OrderSize(geom: Geometry, image: Image, heap: Heap, storedHead: nat)
    requires ExtentStored(geom, image, heap.blocks) && ChainStored(geom, image, heap, storedHead)
    ensures ChainReadable(image, heap) && DistinctAddresses(ChainBlocks(image, heap))
    ensures AddressSet(ChainBlocks(image, heap)) == FreeOnly(heap.blocks)
    ensures |heap.order| == FreeCount(heap.blocks) <= |heap.blocks|
  {
    var chain := ChainBlocks(image, heap);
    forall a ensures a in AddressSet(chain) <==> a in FreeOnly(heap.blocks) {
      if a in FreeOnly(heap.blocks) {
        FreeAddressesPositive(geom, image, heap.blocks, a);
        var i :| 0 <= i < |heap.order| && heap.order[i] == a;
        assert chain[i].address == a;
      }
    }
    AddressCount(chain);
    FreeOnlyCount(heap.blocks, geom.linearLow.value, ExtentEnd(geom).value);
    FreeCountBound(heap.blocks);
  }

  lemma FreeAddressesPositive(geom: Geometry, image: Image, blocks: seq<Block>, a: int)
    requires ExtentStored(geom, image, blocks) && a in FreeOnly(blocks)
    ensures a > 0
  {
    var j := FreeBlockOf(geom, image, blocks, a);
  }

  lemma {:induction false} FreeCountBound(blocks: seq<Block>)
    ensures FreeCount(blocks) <= |blocks|
  {
    if blocks != [] {
      FreeCountBound(blocks[..|blocks| - 1]);
    }
  }

  /** With a clear canary the chain in memory is a complete free chain. */
  lemma ChainIsFree(geom: Geometry, image: Image, heap: Heap, storedHead: nat)
    requires ExtentStored(geom, image, heap.blocks) && ChainStored(geom, image, heap, storedHead)
    requires CanaryClear(heap, geom.canary)
    ensures ChainReadable(image, heap) && geom.heapLow.Some?
    ensures FreeChain(geom, image, ChainBlocks(image, heap))
  {
    OrderSize(geom, image, heap, storedHead);
    var chain := ChainBlocks(image, heap);
    TargetsRead(geom, image, heap, storedHead, 0);
    forall i | 0 <= i < |chain| ensures GoodFree(geom, image, chain[i]) {
      ChainBlockGood(geom, image, heap, storedHead, i);
    }
    assert Linked(chain, geom.heapLow.value, heap.end);
  }

  lemma ChainBlockGood(geom: Geometry, image: Image, heap: Heap, storedHead: nat, i: nat)
    requires ExtentStored(geom, image, heap.blocks) && ChainStored(geom, image, heap, storedHead)
    requires CanaryClear(heap, geom.canary) && i < |heap.order| && geom.heapLow.Some?
    ensures image(heap.order[i]).Some? && GoodFree(geom, image, ChainBlock(image, heap, i))
  {
    var a := heap.order[i];
    assert a in heap.order;
    var j := FreeBlockOf(geom, image, heap.blocks, a);
    TargetsRead(geom, image, heap, storedHead, i + 1);
    assert heap.Target(i + 1) != geom.canary by {
      TargetsRead(geom, image, heap, storedHead, i + 1);
    }
  }

  // ---- sizes add up whatever the chain's order -----------------------------------------------

  lemma {:induction false} TotalConcat(a: seq<Block>, b: seq<Block>)
    ensures TotalBytes(a + b) == TotalBytes(a) + TotalBytes(b)
  {
    if b == [] {
      assert a + b == a;
    } else {
      assert (a + b)[..|a + b| - 1] == a + b[..|b| - 1];
      TotalConcat(a, b[..|b| - 1]);
    }
  }

  /** The chain without its `i`-th block. */
  function Without(chain: seq<Block>, i: nat): seq<Block>
    requires i < |chain|
  {
    chain[..i] + chain[i + 1..]
  }

  lemma WithoutOne(chain: seq<Block>, i: nat)
    requires i < |chain| && DistinctAddresses(chain)
    ensures DistinctAddresses(Without(chain, i))
    ensures AddressSet(Without(chain, i)) == AddressSet(chain) - {chain[i].address}
  {
    var rest := Without(chain, i);
    forall a ensures a in AddressSet(rest) <==> a in AddressSet(chain) && a != chain[i].address {
      if a in AddressSet(chain) && a != chain[i].address {
        var k :| 0 <= k < |chain| && chain[k].address == a;
        assert rest[if k < i then k else k - 1].address == a;
      }
    }
  }

  lemma WithoutTotal(chain: seq<Block>, i: nat)
    requires i < |chain|
    ensures TotalBytes(chain) == TotalBytes(Without(chain, i)) + chain[i].size
  {
    hide TotalBytes;
    assert chain == chain[..i] + [chain[i]] + chain[i + 1..];
    TotalMiddle(chain[..i], chain[i], chain[i + 1..]);
  }

  lemma TotalMiddle(a: seq<Block>, block: Block, c: seq<Block>)
    ensures TotalBytes(a + [block] + c) == TotalBytes(a + c) + block.size
  {
    hide TotalBytes;
    TotalConcat(a + [block], c);
    TotalAppend(a, block);
    TotalConcat(a, c);
  }

  ghost predicate SizesAgree(chain: seq<Block>, blocks: seq<Block>) {
    forall i, j :: 0 <= i < |chain| && 0 <= j < |blocks| && chain[i].address == blocks[j].address ==>
      chain[i].size == blocks[j].size
  }

  lemma {:induction false} PermutedSum(chain: seq<Block>, blocks: seq<Block>, low: int, high: int)
    requires DistinctAddresses(chain) && Tiled(blocks, low, high)
    requires AddressSet(chain) == FreeOnly(blocks) && SizesAgree(chain, blocks)
    ensures TotalBytes(chain) == Bytes(blocks, false)
    decreases |blocks|
  {
    hide Tiled;
    if blocks == [] {
      AddressCount(chain);
      assert FreeOnly(blocks) == {};
    } else {
      var n := |blocks| - 1;
      var front, last := blocks[..n], blocks[n];
      TiledFront(blocks, low, high);
      assert blocks == front + [last];
      FreeOnlyAppend(front, last);
      if last.inUse {
        PermutedSum(chain, front, low, last.address);
      } else {
        assert last.address in AddressSet(chain);
        var i :| 0 <= i < |chain| && chain[i].address == last.address;
        FreeOnlyWithin(front, low, last.address);
        WithoutOne(chain, i);
        WithoutTotal(chain, i);
        PermutedSum(Without(chain, i), front, low, last.address);
      }
    }
  }

  lemma SameFreeBytes(geom: Geometry, image: Image, heap: Heap, storedHead: nat)
    requires ExtentStored(geom, image, heap.blocks) && ChainStored(geom, image, heap, storedHead)
    ensures ChainReadable(image, heap)
    ensures TotalBytes(ChainBlocks(image, heap)) == Bytes(heap.blocks, false)
  {
    OrderSize(geom, image, heap, storedHead);
    var chain := ChainBlocks(image, heap);
    forall i, j | 0 <= i < |chain| && 0 <= j < |heap.blocks| && chain[i].address == heap.blocks[j].address
      ensures chain[i].size == heap.blocks[j].size
    {
      assert heap.order[i] in heap.order;
      var k := FreeBlockOf(geom, image, heap.blocks, heap.order[i]);
      TiledAscends(heap.blocks, geom.linearLow.value, ExtentEnd(geom).value);
      assert k == j;
    }
    PermutedSum(chain, heap.blocks, geom.linearLow.value, ExtentEnd(geom).value);
  }

  // ---- the verdict --------------------------------------------------------------------------

  /** The extent's blocks are just what the linear walk reads. */
  lemma ExtentIsRead(geom: Geometry, image: Image, blocks: seq<Block>, free: set<int>)
    requires ExtentStored(geom, image, blocks) && free == FreeOnly(blocks)
    ensures WholeExtent(geom, image, Some(free), geom.heapLimit.value, blocks, geom.linearLow.value)
  {
    var low, limit, end := geom.linearLow.value, geom.heapLimit.value, ExtentEnd(geom).value;
    TiledAscends(blocks, low, end);
    forall i | 0 <= i < |blocks| ensures GoodLinear(geom, image, Some(free), limit, blocks[i]) {
      assert HeaderStored(geom, image, blocks[i]);
      EndsWithin(blocks, low, end, i);
      if blocks[i].address in free {
        var j :| 0 <= j < |blocks| && !blocks[j].inUse && blocks[j].address == blocks[i].address;
        assert j == i;
      }
    }
  }

  lemma EndsWithin(blocks: seq<Block>, low: int, end: int, i: nat)
    requires Tiled(blocks, low, end) && i < |blocks|
    ensures blocks[i].address + blocks[i].size <= end
  {
    TiledAscends(blocks, low, end);
    assert i + 1 < |blocks| ==> blocks[i].address + blocks[i].size == blocks[i + 1].address;
  }

  /** What a healthy heap with a clear canary is told. */
  lemma ClearMeansOk(geom: Geometry, image: Image, heap: Heap, storedHead: nat, counter: Option<int>)
    requires Healthy(geom, image, heap, storedHead, counter) && CanaryClear(heap, geom.canary)
    ensures Judge(geom, image, counter) == Verdict.Ok
    ensures var chain := FreeWalk(geom, image);
            var extent := LinearWalk(geom, image, Some(chain));
            && chain.Clean() && extent.Clean() && extent.blocks == heap.blocks
            && extent.holes == Some(|RunStarts(heap.blocks)|)
  {
    hide FreeWalk, LinearWalk, FreeChain, WholeExtent, CanaryClear, Extremes, RunStarts;
    ChainIsFree(geom, image, heap, storedHead);
    FreeWalkMeans(geom, image);
    OrderSize(geom, image, heap, storedHead);
    var chain := FreeWalk(geom, image);
    assert chain.blocks == ChainBlocks(image, heap);
    ExtentIsRead(geom, image, heap.blocks, AddressSet(chain.blocks));
    LinearWalkMeans(geom, image, Some(chain));
    SameFreeBytes(geom, image, heap, storedHead);
    HolesAreRuns(heap.blocks);
  }

  /** Up to the first pointer that equals the canary the walk follows the chain. */
  lemma {:induction false} FollowsUntil(geom: Geometry, image: Image, heap: Heap, storedHead: nat, seen: seq<Block>,
                                        k: nat, i: nat)
    requires ExtentStored(geom, image, heap.blocks) && ChainStored(geom, image, heap, storedHead)
    requires geom.heapLow.Some? && FreeChain(geom, image, seen)
    requires i < k <= |heap.order| && forall m: nat :: m < k ==> heap.Target(m) != geom.canary
    ensures i < |seen| && seen[i].address == heap.order[i]
    ensures seen[i].nextFree == Some(if heap.Target(i + 1) == geom.canary then 0 else heap.Target(i + 1))
  {
    TargetsRead(geom, image, heap, storedHead, i);
    TargetsRead(geom, image, heap, storedHead, i + 1);
    assert heap.order[i] in heap.order;
    if i > 0 {
      FollowsUntil(geom, image, heap, storedHead, seen, k, i - 1);
      assert i < |seen|;
      assert seen[i - 1].nextFree == Some(seen[i].address);
    }
    assert GoodFree(geom, image, seen[i]);
  }

  lemma FirstCollision(heap: Heap, canary: nat) returns (k: nat)
    requires !CanaryClear(heap, canary)
    ensures k <= |heap.order| && heap.Target(k) == canary && canary != 0
    ensures forall m: nat :: m < k ==> heap.Target(m) != canary
  {
    var some: nat := |heap.order|;
    if canary != heap.end {
      some :| some < |heap.order| && heap.order[some] == canary;
    }
    k := 0;
    while heap.Target(k) != canary
      invariant k <= some && forall m: nat :: m < k ==> heap.Target(m) != canary
      decreases some - k
    {
      k := k + 1;
    }
  }

  /** No block of a complete chain leads to NULL. */
  lemma NextNotNull(geom: Geometry, image: Image, seen: seq<Block>, i: nat)
    requires geom.heapLow.Some? && geom.freeEnd.Some? && geom.freeEnd.value != 0
    requires FreeChain(geom, image, seen) && i < |seen|
    ensures seen[i].nextFree != Some(0)
  {
    if i + 1 < |seen| {
      assert seen[i].nextFree == Some(seen[i + 1].address);
      assert GoodFree(geom, image, seen[i + 1]);
    }
  }

  /** A pointer that equals the canary is stored as NULL, so no complete chain is left in memory. */
  lemma CollisionBreaksChain(geom: Geometry, image: Image, heap: Heap, storedHead: nat, seen: seq<Block>)
    requires ExtentStored(geom, image, heap.blocks) && ChainStored(geom, image, heap, storedHead)
    requires !CanaryClear(heap, geom.canary)
    ensures geom.heapLow.Some? ==> !FreeChain(geom, image, seen)
  {
    var k := FirstCollision(heap, geom.canary);
    TargetsRead(geom, image, heap, storedHead, 0);
    if geom.heapLow.Some? && FreeChain(geom, image, seen) {
      FollowsUntil(geom, image, heap, storedHead, seen, k, k - 1);
      NextNotNull(geom, image, seen, k - 1);
    }
  }

  lemma CollisionMeansNotOk(geom: Geometry, image: Image, heap: Heap, storedHead: nat, counter: Option<int>)
    requires Healthy(geom, image, heap, storedHead, counter) && !CanaryClear(heap, geom.canary)
    ensures Judge(geom, image, counter) != Verdict.Ok
  {
    CollisionBreaksChain(geom, image, heap, storedHead, FreeWalk(geom, image).blocks);
    if Judge(geom, image, counter) == Verdict.Ok {
      OkMeansWalked(geom, image, counter);
    }
  }

  /** Completeness, exactly: a healthy heap_2, heap_4 or one-region heap_5 is
      called "ok" if and only if no pointer of its free chain happens to equal the
      heap protector's canary. */
  lemma HealthyIsOkIff(geom: Geometry, image: Image, heap: Heap, storedHead: nat, counter: Option<int>)
    requires Healthy(geom, image, heap, storedHead, counter)
    ensures Judge(geom, image, counter) == Verdict.Ok <==> CanaryClear(heap, geom.canary)
  {
    if CanaryClear(heap, geom.canary) {
      ClearMeansOk(geom, image, heap, storedHead, counter);
    } else {
      CollisionMeansNotOk(geom, image, heap, storedHead, counter);
    }
  }

  lemma OneFree(block: Block)
    requires !block.inUse
    ensures FreeOnly([block]) == {block.address}
  {
    FreeOnlyAppend([], block);
    assert [] + [block] == [block];
    assert FreeOnly([]) == {};
  }

  /** A healthy heap_4 with one free block whose address is the canary: it is not called "ok". */
  lemma CanaryCollisionExample() returns (geom: Geometry, image: Image, heap: Heap, counter: Option<int>)
    ensures Healthy(geom, image, heap, Obfuscate(64, geom.canary), counter)
    ensures geom.kind == 4 && geom.canary == 64 && heap == Heap([Block(64, 64, false, None)], [64], 128)
    ensures Judge(geom, image, counter) != Verdict.Ok
  {
    hide Judge, FreeOnly;
    var block := Block(64, 64, false, None);
    geom := Geometry(4, 0x8000_0000, 64, None, Some(64), Some(128), Some(128), Some(8));
    image := a => if a == 64 then Some(Header(Obfuscate(128, 64), 64)) else None;
    heap := Heap([block], [64], 128);
    counter := Some(64);
    XorVanishes(64, 64);
    assert [block][..0] == [];
    OneFree(block);
    CollisionMeansNotOk(geom, image, heap, Obfuscate(64, 64), counter);
  }

  /** A one-region heap_5 under the protector, its region ending eight bytes below
      the heap: the verdict depends on the canary alone. */
  lemma RegionExample(canary: nat) returns (geom: Geometry, image: Image, heap: Heap, counter: Option<int>)
    ensures geom.kind == 5 && geom.canary == canary && Healthy(geom, image, heap, Obfuscate(64, canary), counter)
    ensures Judge(geom, image, counter) == Verdict.Ok <==> canary !in {64, 128}
  {
    hide Judge, FreeOnly;
    var block := Block(64, 64, false, None);
    var head, next := Obfuscate(64, canary), Obfuscate(128, canary);
    geom := Geometry(5, 0x8000_0000, canary, FreeListHead(head, canary), Some(64), Some(136), Some(128), Some(8));
    image := a => if a == 64 then Some(Header(next, 64)) else if a == 128 then Some(Header(0, 0)) else None;
    heap := Heap([block], [64], 128);
    counter := Some(64);
    assert [block][..0] == [];
    OneFree(block);
    HealthyIsOkIff(geom, image, heap, head, counter);
  }
}
