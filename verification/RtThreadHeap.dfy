/** RT-Thread heap walks: small_mem block chains and memheap item rings
    (rtthread/diagnostics.py). */
module RtThreadHeap {
  import opened Common

  const HEAP_MAGIC := 0x1EA0
  const MEMHEAP_MAGIC := 0x1EA01EA0

  datatype WalkBlock = WalkBlock(address: int, span: int, used: bool, owner: Option<string>)

  datatype HeapWalk = HeapWalk(usedBlocks: int, freeBlocks: int, holes: seq<int>, truncated: bool, corrupt: bool,
                               usedBytes: Option<int>, totalBytes: Option<int>, blocks: seq<WalkBlock>, base: int,
                                   end: int)

  // ---- spans -------------------------------------------------------------------------

  function UsedCount(blocks: seq<WalkBlock>): nat {
    if blocks == [] then 0
    else UsedCount(blocks[..|blocks| - 1]) + (if blocks[|blocks| - 1].used then 1 else 0)
  }

  function UsedSpan(blocks: seq<WalkBlock>): int {
    if blocks == [] then 0
    else UsedSpan(blocks[..|blocks| - 1]) + (if blocks[|blocks| - 1].used then blocks[|blocks| - 1].span else 0)
  }

  function FreeSpan(blocks: seq<WalkBlock>): int {
    if blocks == [] then 0
    else FreeSpan(blocks[..|blocks| - 1]) + (if blocks[|blocks| - 1].used then 0 else blocks[|blocks| - 1].span)
  }

  /** The payloads of the free blocks, in chain order. */
  function Holes(blocks: seq<WalkBlock>, header: int): seq<int> {
    if blocks == [] then []
    else
      var last := blocks[|blocks| - 1];
      Holes(blocks[..|blocks| - 1], header) + (if last.used then [] else [Max(last.span - header, 0)])
  }

  /** The blocks lie end to end from `base` to `end`. */
  ghost predicate Chained(blocks: seq<WalkBlock>, base: int, end: int) {
    if blocks == [] then end == base
    else
      var last := blocks[|blocks| - 1];
      last.address + last.span == end && Chained(blocks[..|blocks| - 1], base, last.address)
  }

  lemma ChainedAppend(blocks: seq<WalkBlock>, block: WalkBlock, base: int, header: int)
    requires Chained(blocks, base, block.address)
    ensures Chained(blocks + [block], base, block.address + block.span)
    ensures UsedSpan(blocks + [block]) == UsedSpan(blocks) + (if block.used then block.span else 0)
    ensures FreeSpan(blocks + [block]) == FreeSpan(blocks) + (if block.used then 0 else block.span)
    ensures UsedCount(blocks + [block]) == UsedCount(blocks) + (if block.used then 1 else 0)
    ensures Holes(blocks + [block], header) ==
      Holes(blocks, header) + (if block.used then [] else [Max(block.span - header, 0)])
  {
    assert (blocks + [block])[..|blocks|] == blocks;
  }

  /** Used and free spans together are the distance walked. */
  lemma {:induction false} SpansTelescope(blocks: seq<WalkBlock>, base: int, end: int)
    requires Chained(blocks, base, end)
    ensures UsedSpan(blocks) + FreeSpan(blocks) == end - base
  {
    if blocks != [] {
      SpansTelescope(blocks[..|blocks| - 1], base, blocks[|blocks| - 1].address);
    }
  }

  lemma {:induction false} HolesSum(blocks: seq<WalkBlock>, header: int)
    ensures |Holes(blocks, header)| == |blocks| - UsedCount(blocks) >= 0
    ensures Sum(Holes(blocks, header)) >= 0
    ensures (forall i :: 0 <= i < |blocks| && !blocks[i].used ==> blocks[i].span >= header) ==>
      Sum(Holes(blocks, header)) == FreeSpan(blocks) - (|blocks| - UsedCount(blocks)) * header
  {
    if blocks != [] {
      var front, last := blocks[..|blocks| - 1], blocks[|blocks| - 1];
      HolesSum(front, header);
      if last.used {
        assert Holes(blocks, header) == Holes(front, header);
      } else {
        SumAppend(Holes(front, header), Max(last.span - header, 0));
        OneMore(|front| - UsedCount(front), header);
      }
    }
  }

  lemma OneMore(n: int, header: int)
    ensures (n + 1) * header == n * header + header
  {}

  function ExactByteCounts(truncated: bool, corrupt: bool, usedBytes: int, totalBytes: int)
    : (Option<int>, Option<int>)
  {
    if truncated || corrupt || usedBytes < 0 || totalBytes < usedBytes then (None, None)
    else (Some(usedBytes), Some(totalBytes))
  }

  // ---- small_mem --------------------------------------------------------------------------

  /** A small_mem item as read from the target; each field may be unreadable. */
  datatype SmallItem = SmallItem(poolPtr: Option<int>, magic: Option<int>, used: Option<int>, next: Option<int>)

  /** The target: items by address, owner names by address, and the header variant. */
  datatype SmallTarget = SmallTarget(item: int -> SmallItem, owner: int -> Option<string>, memtrace: bool,
                                     usedFromPoolPtr: bool, header: int)

  predicate MarkedUsed(t: SmallTarget, addr: int) {
    var item := t.item(addr);
    if t.usedFromPoolPtr then item.poolPtr.Some? && item.poolPtr.value % 2 != 0
    else item.used.Some? && item.used.value != 0
  }

  /** Where the block at `addr` ends, or nothing when its header is not to be
      believed. */
  function NextSmall(t: SmallTarget, heapPtr: int, heapEnd: int, addr: int): (next: Option<int>)
    ensures next.Some? ==> addr < next.value <= heapEnd
  {
    var item := t.item(addr);
    if !t.usedFromPoolPtr && item.magic.Some? && item.magic.value != HEAP_MAGIC then None
    else if item.next.None? || item.next.value <= addr - heapPtr || heapPtr + item.next.value > heapEnd then None
    else Some(heapPtr + item.next.value)
  }

  function SmallBlock(t: SmallTarget, addr: int, next: int): WalkBlock {
    var used := MarkedUsed(t, addr);
    WalkBlock(addr, next - addr, used, if used && t.memtrace then t.owner(addr) else None)
  }

  /** The walked blocks are the target's own, header by header. */
  ghost predicate SmallBlocks(t: SmallTarget, heapPtr: int, heapEnd: int, blocks: seq<WalkBlock>) {
    forall i :: 0 <= i < |blocks| ==>
      var next := NextSmall(t, heapPtr, heapEnd, blocks[i].address);
      next.Some? && blocks[i] == SmallBlock(t, blocks[i].address, next.value)
  }

  /** Why the walk stopped at `stop`: closed, out of budget, or a bad header. */
  ghost predicate SmallStop(t: SmallTarget, heapPtr: int, heapEnd: int, count: nat, stop: int, truncated: bool,
                            corrupt: bool) {
    && heapPtr <= stop <= heapEnd
    && (truncated <==> stop != heapEnd && count >= MAX_TRAVERSAL_COUNT)
    && (corrupt <==> stop != heapEnd && count < MAX_TRAVERSAL_COUNT)
    && (corrupt ==> NextSmall(t, heapPtr, heapEnd, stop).None?)
  }

  lemma SmallStart(t: SmallTarget, heapPtr: int, heapEnd: int)
    ensures Chained([], heapPtr, heapPtr) && SmallBlocks(t, heapPtr, heapEnd, [])
    ensures UsedCount([]) == 0 && UsedSpan([]) == 0 && Holes([], t.header) == []
  {}

  lemma SmallBlocksAppend(t: SmallTarget, heapPtr: int, heapEnd: int, blocks: seq<WalkBlock>, at: int)
    requires SmallBlocks(t, heapPtr, heapEnd, blocks) && NextSmall(t, heapPtr, heapEnd, at).Some?
    ensures var block := SmallBlock(t, at, NextSmall(t, heapPtr, heapEnd, at).value);
            && block.address == at && block.address + block.span == NextSmall(t, heapPtr, heapEnd, at).value
            && SmallBlocks(t, heapPtr, heapEnd, blocks + [block])
  {}

  /** The loop itself. The guards against revisits and against leaving the arena
      cannot fire: each believed header moves the walk forward inside it. */
  method FollowSmallMem(t: SmallTarget, heapPtr: int, heapEnd: int)
    returns (blocks: seq<WalkBlock>, stop: int, used: int, usedBytes: int, holes: seq<int>, truncated: bool,
        corrupt: bool)
    requires heapPtr < heapEnd
    ensures Chained(blocks, heapPtr, stop) && SmallBlocks(t, heapPtr, heapEnd, blocks)
    ensures SmallStop(t, heapPtr, heapEnd, |blocks|, stop, truncated, corrupt)
    ensures used == UsedCount(blocks) && usedBytes == UsedSpan(blocks) && holes == Holes(blocks, t.header)
  {
    hide NextSmall, SmallBlock, Chained, UsedCount, UsedSpan, Holes, SmallBlocks;
    var seen: set<int> := {};
    SmallStart(t, heapPtr, heapEnd);
    blocks, holes, used, usedBytes := [], [], 0, 0;
    truncated, corrupt := false, false;
    stop := heapPtr;
    while stop != heapEnd
      invariant heapPtr <= stop <= heapEnd && !truncated && !corrupt
      invariant Chained(blocks, heapPtr, stop) && SmallBlocks(t, heapPtr, heapEnd, blocks)
      invariant |seen| == |blocks| <= MAX_TRAVERSAL_COUNT && forall a :: a in seen ==> a < stop
      invariant used == UsedCount(blocks) && usedBytes == UsedSpan(blocks) && holes == Holes(blocks, t.header)
      decreases heapEnd - stop
    {
      if stop < heapPtr || stop > heapEnd {
        assert false;
      }
      if stop in seen {
        assert false;
      }
      if |seen| >= MAX_TRAVERSAL_COUNT {
        truncated := true;
        break;
      }
      seen := seen + {stop};
      var next := NextSmall(t, heapPtr, heapEnd, stop);
      if next.None? {
        corrupt := true;
        break;
      }
      var block := SmallBlock(t, stop, next.value);
      SmallBlocksAppend(t, heapPtr, heapEnd, blocks, stop);
      if block.used {
        used := used + 1;
        usedBytes := usedBytes + block.span;
      } else {
        holes := holes + [Max(block.span - t.header, 0)];
      }
      ChainedAppend(blocks, block, heapPtr, t.header);
      blocks := blocks + [block];
      stop := next.value;
    }
  }

  /** Where a chain of blocks ends. */
  function StopOf(blocks: seq<WalkBlock>, base: int): int {
    if blocks == [] then base else blocks[|blocks| - 1].address + blocks[|blocks| - 1].span
  }

  /** Nothing when even the first header is not to be believed. */
  method WalkSmallMemChain(t: SmallTarget, heapPtr: int, heapEnd: int) returns (walk: Option<HeapWalk>)
    requires heapPtr < heapEnd
    ensures walk.None? <==> NextSmall(t, heapPtr, heapEnd, heapPtr).None?
    ensures walk.Some? ==> IsSmallWalk(t, heapPtr, heapEnd, walk.value) && walk.value.blocks != []
  {
    var blocks, stop, used, usedBytes, holes, truncated, corrupt := FollowSmallMem(t, heapPtr, heapEnd);
    if |blocks| == 0 {
      return None;
    }
    SmallBlocksTile(t, heapPtr, heapEnd, blocks, stop);
    assert NextSmall(t, heapPtr, heapEnd, blocks[0].address).Some?;
    var (exactUsed, exactTotal) := ExactByteCounts(truncated, corrupt, usedBytes, heapEnd - heapPtr - t.header);
    walk := Some(HeapWalk(used, |blocks| - used, holes, truncated, corrupt, exactUsed, exactTotal, blocks, heapPtr,
        heapEnd));
  }

  ghost predicate IsSmallWalk(t: SmallTarget, heapPtr: int, heapEnd: int, walk: HeapWalk) {
    var stop := StopOf(walk.blocks, heapPtr);
    && Chained(walk.blocks, heapPtr, stop) && SmallBlocks(t, heapPtr, heapEnd, walk.blocks)
    && SmallStop(t, heapPtr, heapEnd, |walk.blocks|, stop, walk.truncated, walk.corrupt)
    && walk.usedBlocks == UsedCount(walk.blocks) && walk.freeBlocks == |walk.blocks| - UsedCount(walk.blocks)
    && walk.holes == Holes(walk.blocks, t.header)
    && (walk.usedBytes, walk.totalBytes) ==
         ExactByteCounts(walk.truncated, walk.corrupt, UsedSpan(walk.blocks), heapEnd - heapPtr - t.header)
    && walk.base == heapPtr && walk.end == heapEnd
  }

  /** Whatever the target holds, the blocks tile the arena from its start without
      gap or overlap, each block positive and inside; a clean walk reaches its end. */
  lemma {:induction false} SmallBlocksTile(t: SmallTarget, heapPtr: int, heapEnd: int, blocks: seq<WalkBlock>,
                                           stop: int)
    requires Chained(blocks, heapPtr, stop) && SmallBlocks(t, heapPtr, heapEnd, blocks)
    ensures blocks != [] ==> blocks[0].address == heapPtr
    ensures forall i :: 0 <= i < |blocks| ==> blocks[i].span > 0 && heapPtr <= blocks[i].address < stop
    ensures forall i, j :: 0 <= i < |blocks| && j == i + 1 && j < |blocks| ==>
              blocks[i].address + blocks[i].span == blocks[j].address
    ensures heapPtr <= stop
  {
    if blocks != [] {
      var n := |blocks| - 1;
      SmallBlocksTile(t, heapPtr, heapEnd, blocks[..n], blocks[n].address);
      assert NextSmall(t, heapPtr, heapEnd, blocks[n].address).Some?;
    }
  }

  /** A clean walk accounts for every byte of the arena, once; its holes are the
      free blocks' payloads. */
  lemma SmallWalkConserves(t: SmallTarget, heapPtr: int, heapEnd: int, walk: HeapWalk)
    requires IsSmallWalk(t, heapPtr, heapEnd, walk) && !walk.truncated && !walk.corrupt
    ensures StopOf(walk.blocks, heapPtr) == heapEnd
    ensures UsedSpan(walk.blocks) + FreeSpan(walk.blocks) == heapEnd - heapPtr
    ensures |walk.holes| == walk.freeBlocks
    ensures FreeFitHeader(walk.blocks, t.header) ==>
      Sum(walk.holes) == FreeSpan(walk.blocks) - walk.freeBlocks * t.header
  {
    SpansTelescope(walk.blocks, heapPtr, StopOf(walk.blocks, heapPtr));
    HolesSum(walk.blocks, t.header);
  }

  /** The exact byte counts are given exactly for clean walks whose free blocks
      span at least one header; a completely used arena gets none. */
  lemma SmallCountsGivenIff(t: SmallTarget, heapPtr: int, heapEnd: int, walk: HeapWalk)
    requires heapPtr < heapEnd && IsSmallWalk(t, heapPtr, heapEnd, walk)
    ensures walk.usedBytes.Some? <==> !walk.truncated && !walk.corrupt && FreeSpan(walk.blocks) >= t.header
    ensures walk.usedBytes.Some? ==>
      walk.usedBytes == Some(UsedSpan(walk.blocks)) && walk.totalBytes == Some(heapEnd - heapPtr - t.header)
  {
    var stop := StopOf(walk.blocks, heapPtr);
    SpansTelescope(walk.blocks, heapPtr, stop);
    SmallBlocksTile(t, heapPtr, heapEnd, walk.blocks, stop);
    SpanSigns(walk.blocks);
  }

  lemma {:induction false} SpanSigns(blocks: seq<WalkBlock>)
    requires forall i :: 0 <= i < |blocks| ==> blocks[i].span > 0
    ensures UsedSpan(blocks) >= 0 && FreeSpan(blocks) >= 0
  {
    if blocks != [] {
      SpanSigns(blocks[..|blocks| - 1]);
    }
  }

  /** Each mark's header leads to the next mark. */
  ghost predicate LinkedMarks(t: SmallTarget, heapPtr: int, heapEnd: int, marks: seq<int>) {
    forall i, j :: 0 <= i < |marks| && j == i + 1 && j < |marks| ==>
        NextSmall(t, heapPtr, heapEnd, marks[i]) == Some(marks[j])
  }

  /** Headers that lead from the arena's start to its end within the budget. */
  ghost predicate Leads(t: SmallTarget, heapPtr: int, heapEnd: int, marks: seq<int>) {
    && 1 < |marks| <= MAX_TRAVERSAL_COUNT + 1 && marks[0] == heapPtr && marks[|marks| - 1] == heapEnd
    && LinkedMarks(t, heapPtr, heapEnd, marks)
  }

  /** An arena whose headers lead from its start to its end within the budget
      walks clean, block by block. */
  lemma LiveArenaWalksClean(t: SmallTarget, heapPtr: int, heapEnd: int, marks: seq<int>, walk: HeapWalk)
    requires IsSmallWalk(t, heapPtr, heapEnd, walk)
    requires Leads(t, heapPtr, heapEnd, marks)
    ensures !walk.truncated && !walk.corrupt && |walk.blocks| == |marks| - 1
    ensures forall i :: 0 <= i < |walk.blocks| ==> walk.blocks[i].address == marks[i]
  {
    FollowsMarks(t, heapPtr, heapEnd, marks, walk.blocks, StopOf(walk.blocks, heapPtr));
    MarkLeadsOn(t, heapPtr, heapEnd, marks, |walk.blocks|);
  }

  lemma MarkLeadsOn(t: SmallTarget, heapPtr: int, heapEnd: int, marks: seq<int>, n: nat)
    requires n < |marks|
    requires LinkedMarks(t, heapPtr, heapEnd, marks)
    ensures n < |marks| - 1 ==> marks[n] < heapEnd && NextSmall(t, heapPtr, heapEnd, marks[n]).Some?
  {
    if n < |marks| - 1 {
      var m := n + 1;
      assert NextSmall(t, heapPtr, heapEnd, marks[n]) == Some(marks[m]);
    }
  }

  lemma {:induction false} FollowsMarks(t: SmallTarget, heapPtr: int, heapEnd: int, marks: seq<int>,
                                        blocks: seq<WalkBlock>, stop: int)
    requires Chained(blocks, heapPtr, stop) && SmallBlocks(t, heapPtr, heapEnd, blocks)
    requires |marks| > 0 && marks[0] == heapPtr && marks[|marks| - 1] == heapEnd
    requires LinkedMarks(t, heapPtr, heapEnd, marks)
    ensures |blocks| < |marks| && stop == marks[|blocks|]
    ensures forall i :: 0 <= i < |blocks| ==> blocks[i].address == marks[i]
  {
    if blocks != [] {
      var n := |blocks| - 1;
      var last := blocks[n];
      FollowsMarks(t, heapPtr, heapEnd, marks, blocks[..n], last.address);
      assert NextSmall(t, heapPtr, heapEnd, last.address).Some?
          && last == SmallBlock(t, last.address, NextSmall(t, heapPtr, heapEnd, last.address).value);
    }
  }

  /** The bytes of the blocks the headers at the marks call free. */
  function FreeBetween(t: SmallTarget, marks: seq<int>): int {
    if |marks| <= 1 then 0
    else
      var n := |marks| - 1;
      FreeBetween(t, marks[..n]) + (if MarkedUsed(t, marks[n - 1]) then 0 else marks[n] - marks[n - 1])
  }

  lemma {:induction false} FreeSpanOfMarks(t: SmallTarget, heapPtr: int, heapEnd: int, marks: seq<int>,
                                           blocks: seq<WalkBlock>)
    requires SmallBlocks(t, heapPtr, heapEnd, blocks) && |blocks| < |marks|
    requires forall i :: 0 <= i < |blocks| ==> blocks[i].address == marks[i]
    requires LinkedMarks(t, heapPtr, heapEnd, marks)
    ensures FreeSpan(blocks) == FreeBetween(t, marks[..|blocks| + 1])
  {
    hide NextSmall, MarkedUsed;
    var n := |blocks|;
    if n > 0 {
      FreeSpanOfMarks(t, heapPtr, heapEnd, marks, blocks[..n - 1]);
      assert marks[..n + 1][..n] == marks[..n];
      assert NextSmall(t, heapPtr, heapEnd, marks[n - 1]) == Some(marks[n]);
      assert blocks[n - 1] == SmallBlock(t, marks[n - 1], marks[n]);
    }
  }

  /** An intact arena is given its exact byte counts exactly when the blocks its
      headers call free span at least one header. */
  lemma IntactCountsGivenIff(t: SmallTarget, heapPtr: int, heapEnd: int, marks: seq<int>, walk: HeapWalk)
    requires heapPtr < heapEnd && IsSmallWalk(t, heapPtr, heapEnd, walk) && Leads(t, heapPtr, heapEnd, marks)
    ensures walk.usedBytes.Some? <==> FreeBetween(t, marks) >= t.header
    ensures walk.usedBytes.Some? ==> walk.usedBytes == Some(heapEnd - heapPtr - FreeBetween(t, marks))
  {
    LiveArenaWalksClean(t, heapPtr, heapEnd, marks, walk);
    FreeSpanOfMarks(t, heapPtr, heapEnd, marks, walk.blocks);
    assert marks[..|walk.blocks| + 1] == marks;
    SmallCountsGivenIff(t, heapPtr, heapEnd, walk);
    SmallWalkConserves(t, heapPtr, heapEnd, walk);
  }

  /** One used block of 64 bytes fills the arena: the walk is clean, and no counts
      are given. */
  lemma FullArenaExample() returns (t: SmallTarget, walk: HeapWalk)
    ensures t.header == 16 && Leads(t, 1000, 1064, [1000, 1064]) && IsSmallWalk(t, 1000, 1064, walk)
    ensures !walk.truncated && !walk.corrupt && walk.usedBlocks == 1 && walk.usedBytes.None? && walk.totalBytes.None?
  {
    var item, block := SmallItem(Some(1), None, None, Some(64)), WalkBlock(1000, 64, true, None);
    t := SmallTarget(a => item, a => None, false, true, 16);
    walk := HeapWalk(1, 0, [], false, false, None, None, [block], 1000, 1064);
    SmallStart(t, 1000, 1064);
    ChainedAppend([], block, 1000, 16);
    assert [] + [block] == [block];
  }

  // ---- an arena as the allocator leaves it -------------------------------------------------------

  /** A header is believed exactly when it carries no foreign magic and leads on
      inside the arena. */
  lemma HeaderBelievedIff(t: SmallTarget, heapPtr: int, heapEnd: int, addr: int)
    ensures var item := t.item(addr);
            NextSmall(t, heapPtr, heapEnd, addr).Some? <==>
              && (t.usedFromPoolPtr || item.magic.None? || item.magic.value == 0x1EA0)
              && item.next.Some? && addr < heapPtr + item.next.value <= heapEnd
  {}

  /** A block's header: where the next one starts, counted from the arena's start,
      and whether it is in use, as a field of its own beside the magic or as the
      low bit of the pool pointer. */
  ghost predicate HeaderStored(t: SmallTarget, heapPtr: int, block: WalkBlock) {
    var item, bit := t.item(block.address), if block.used then 1 else 0;
    && block.span > 0 && item.next == Some(block.address + block.span - heapPtr)
    && (if t.usedFromPoolPtr then item.poolPtr.Some? && (item.poolPtr.value - bit) % 2 == 0
        else item.magic == Some(0x1EA0) && item.used == Some(bit))
    && block.owner == (if block.used && t.memtrace then t.owner(block.address) else None)
  }

  ghost predicate ArenaStored(t: SmallTarget, heapPtr: int, heapEnd: int, blocks: seq<WalkBlock>) {
    && 0 < |blocks| <= MAX_TRAVERSAL_COUNT && Chained(blocks, heapPtr, heapEnd)
    && forall i :: 0 <= i < |blocks| ==> HeaderStored(t, heapPtr, blocks[i])
  }

  /** Where the blocks start, and where the last one ends. */
  ghost function MarksOf(blocks: seq<WalkBlock>, end: int): (marks: seq<int>)
    ensures |marks| == |blocks| + 1 && marks[|blocks|] == end
    ensures forall i :: 0 <= i < |blocks| ==> marks[i] == blocks[i].address
  {
    seq(|blocks| + 1, i requires 0 <= i <= |blocks| => if i < |blocks| then blocks[i].address else end)
  }

  /** What the block after number `i` begins at. */
  function After(blocks: seq<WalkBlock>, end: int, i: nat): int
    requires i < |blocks|
  {
    if i + 1 < |blocks| then blocks[i + 1].address else end
  }

  /** Blocks end where the next ones begin. */
  lemma {:induction false} ChainedNext(blocks: seq<WalkBlock>, base: int, end: int, i: nat)
    requires Chained(blocks, base, end) && i < |blocks|
    ensures blocks[i].address + blocks[i].span == After(blocks, end, i)
  {
    var n := |blocks| - 1;
    if i < n {
      ChainedNext(blocks[..n], base, blocks[n].address, i);
    }
  }

  lemma {:induction false} ChainedFirst(blocks: seq<WalkBlock>, base: int, end: int)
    requires Chained(blocks, base, end)
    ensures base == if blocks == [] then end else blocks[0].address
  {
    if blocks != [] {
      var n := |blocks| - 1;
      ChainedFirst(blocks[..n], base, blocks[n].address);
    }
  }

  lemma {:induction false} ChainedInside(blocks: seq<WalkBlock>, base: int, end: int, i: nat)
    requires Chained(blocks, base, end) && (forall k :: 0 <= k < |blocks| ==> blocks[k].span > 0) && i <= |blocks|
    ensures base <= end
    ensures i < |blocks| ==> base <= blocks[i].address && blocks[i].address + blocks[i].span <= end
  {
    if blocks != [] {
      var n := |blocks| - 1;
      ChainedInside(blocks[..n], base, blocks[n].address, if i < n then i else 0);
    }
  }

  lemma StoredBlockRead(t: SmallTarget, heapPtr: int, heapEnd: int, block: WalkBlock)
    requires HeaderStored(t, heapPtr, block) && heapPtr <= block.address && block.address + block.span <= heapEnd
    ensures NextSmall(t, heapPtr, heapEnd, block.address) == Some(block.address + block.span)
    ensures SmallBlock(t, block.address, block.address + block.span) == block
  {}

  /** An arena the allocator left in order is walked clean, and the walk reports
      just its blocks: their spans, which are in use, and by whom. */
  lemma StoredArenaReported(t: SmallTarget, heapPtr: int, heapEnd: int, blocks: seq<WalkBlock>, walk: HeapWalk)
    requires ArenaStored(t, heapPtr, heapEnd, blocks) && IsSmallWalk(t, heapPtr, heapEnd, walk)
    ensures !walk.truncated && !walk.corrupt && walk.blocks == blocks
  {
    hide HeaderStored, NextSmall, SmallBlock, Chained, UsedCount, UsedSpan, Holes, SmallBlocks, SmallStop,
      ExactByteCounts;
    var marks := MarksOf(blocks, heapEnd);
    forall i | 0 <= i < |blocks| ensures blocks[i].span > 0 {
      SpanStored(t, heapPtr, blocks[i]);
    }
    ChainedFirst(blocks, heapPtr, heapEnd);
    forall i | 0 <= i < |blocks|
      ensures NextSmall(t, heapPtr, heapEnd, blocks[i].address) == Some(After(blocks, heapEnd, i))
      ensures SmallBlock(t, blocks[i].address, After(blocks, heapEnd, i)) == blocks[i]
    {
      ChainedNext(blocks, heapPtr, heapEnd, i);
      ChainedInside(blocks, heapPtr, heapEnd, i);
      StoredBlockRead(t, heapPtr, heapEnd, blocks[i]);
    }
    assert LinkedMarks(t, heapPtr, heapEnd, marks);
    LiveArenaWalksClean(t, heapPtr, heapEnd, marks, walk);
    forall i | 0 <= i < |blocks| ensures walk.blocks[i] == blocks[i] {
      assert walk.blocks[i].address == blocks[i].address;
      SmallBlockAt(t, heapPtr, heapEnd, walk.blocks, i);
    }
  }

  lemma SmallBlockAt(t: SmallTarget, heapPtr: int, heapEnd: int, blocks: seq<WalkBlock>, i: nat)
    requires SmallBlocks(t, heapPtr, heapEnd, blocks) && i < |blocks|
    ensures var next := NextSmall(t, heapPtr, heapEnd, blocks[i].address);
            next.Some? && blocks[i] == SmallBlock(t, blocks[i].address, next.value)
  {}

  lemma SpanStored(t: SmallTarget, heapPtr: int, block: WalkBlock)
    requires HeaderStored(t, heapPtr, block)
    ensures block.span > 0
  {}

  // ---- memheap --------------------------------------------------------------------------------

  datatype RingItem = RingItem(magic: Option<int>, next: Option<int>)

  datatype RingTarget = RingTarget(item: int -> RingItem, owner: int -> Option<string>, memtrace: bool, header: int)

  /** The two magics a live item may carry: free and used. */
  predicate RingReadable(t: RingTarget, addr: int) {
    var item := t.item(addr);
    item.magic.Some? && item.next.Some? && (item.magic.value == MEMHEAP_MAGIC || item.magic.value == MEMHEAP_MAGIC + 1)
  }

  function RingNext(t: RingTarget, addr: int): int
    requires RingReadable(t, addr)
  {
    t.item(addr).next.value
  }

  function RingBlock(t: RingTarget, addr: int): WalkBlock
    requires RingReadable(t, addr)
  {
    var used := t.item(addr).magic.value % 2 != 0;
    WalkBlock(addr, RingNext(t, addr) - addr, used, if used && t.memtrace then t.owner(addr) else None)
  }

  ghost predicate RingBlocks(t: RingTarget, head: int, blocks: seq<WalkBlock>) {
    && (forall i :: 0 <= i < |blocks| ==>
          RingReadable(t, blocks[i].address) && RingNext(t, blocks[i].address) != head
          && blocks[i] == RingBlock(t, blocks[i].address))
    && (forall i, j :: 0 <= i < j < |blocks| ==> blocks[i].address != blocks[j].address)
  }

  ghost predicate Visited(blocks: seq<WalkBlock>, addr: int) {
    exists i :: 0 <= i < |blocks| && blocks[i].address == addr
  }

  ghost predicate Addresses(blocks: seq<WalkBlock>, seen: set<int>) {
    forall a :: a in seen <==> Visited(blocks, a)
  }

  /** Why the ring walk stopped at `stop`: the tailer closed it, it met itself or
      ran out of budget, or an item could not be believed. */
  ghost predicate RingStop(t: RingTarget, head: int, blocks: seq<WalkBlock>, stop: int, closed: bool, truncated: bool,
                           corrupt: bool) {
    && (truncated <==> Visited(blocks, stop) || |blocks| >= MAX_TRAVERSAL_COUNT)
    && (corrupt <==> !truncated && !RingReadable(t, stop))
    && (closed <==> !truncated && !corrupt)
    && (closed ==> RingReadable(t, stop) && RingNext(t, stop) == head)
  }

  lemma VisitedAppend(blocks: seq<WalkBlock>, block: WalkBlock, seen: set<int>)
    requires Addresses(blocks, seen)
    ensures Addresses(blocks + [block], seen + {block.address})
  {
    forall a ensures Visited(blocks + [block], a) <==> Visited(blocks, a) || a == block.address {
      if Visited(blocks, a) {
        var i :| 0 <= i < |blocks| && blocks[i].address == a;
        assert (blocks + [block])[i].address == a;
      }
      assert (blocks + [block])[|blocks|] == block;
    }
  }

  lemma RingBlocksAppend(t: RingTarget, head: int, blocks: seq<WalkBlock>, addr: int)
    requires RingBlocks(t, head, blocks) && !Visited(blocks, addr) && RingReadable(t, addr) && RingNext(t, addr) != head
    ensures RingBlocks(t, head, blocks + [RingBlock(t, addr)])
  {}

  /** The blocks walked so far, the set of their addresses, and the tallies. */
  ghost predicate RingState(t: RingTarget, head: int, blocks: seq<WalkBlock>, stop: int, seen: set<int>, used: int,
                            holes: seq<int>) {
    && Chained(blocks, head, stop) && RingBlocks(t, head, blocks)
    && Addresses(blocks, seen) && |seen| == |blocks|
    && used == UsedCount(blocks) && holes == Holes(blocks, t.header)
  }

  lemma RingStep(t: RingTarget, head: int, blocks: seq<WalkBlock>, stop: int, seen: set<int>, used: int,
                 holes: seq<int>)
    requires RingState(t, head, blocks, stop, seen, used, holes) && stop !in seen
    requires RingReadable(t, stop) && RingNext(t, stop) != head
    ensures var block := RingBlock(t, stop);
            RingState(t, head, blocks + [block], RingNext(t, stop), seen + {stop}, used + (if block.used then 1 else 0),
                      holes + (if block.used then [] else [Max(block.span - t.header, 0)]))
  {
    var block := RingBlock(t, stop);
    ChainedAppend(blocks, block, head, t.header);
    VisitedAppend(blocks, block, seen);
    RingBlocksAppend(t, head, blocks, stop);
  }

  lemma RingStart(t: RingTarget, head: int)
    ensures RingState(t, head, [], head, {}, 0, [])
  {}

  method FollowRing(t: RingTarget, head: int)
    returns (blocks: seq<WalkBlock>, stop: int, used: int, holes: seq<int>, closed: bool, truncated: bool,
        corrupt: bool)
    ensures Chained(blocks, head, stop) && RingBlocks(t, head, blocks)
    ensures RingStop(t, head, blocks, stop, closed, truncated, corrupt)
    ensures used == UsedCount(blocks) && holes == Holes(blocks, t.header)
  {
    hide Visited, Chained, RingBlocks, UsedCount, Holes, RingBlock;
    var seen: set<int> := {};
    RingStart(t, head);
    blocks, holes, used := [], [], 0;
    closed, truncated, corrupt := false, false, false;
    stop := head;
    while true
      invariant RingState(t, head, blocks, stop, seen, used, holes) && |blocks| <= MAX_TRAVERSAL_COUNT
      invariant !closed && !truncated && !corrupt
      decreases MAX_TRAVERSAL_COUNT - |blocks|
    {
      if stop in seen || |seen| >= MAX_TRAVERSAL_COUNT {
        truncated := true;
        break;
      }
      if !RingReadable(t, stop) {
        corrupt := true;
        break;
      }
      if RingNext(t, stop) == head {
        closed := true;
        break;
      }
      RingStep(t, head, blocks, stop, seen, used, holes);
      var block := RingBlock(t, stop);
      if block.used {
        used := used + 1;
      } else {
        holes := holes + [Max(block.span - t.header, 0)];
      }
      seen := seen + {stop};
      blocks := blocks + [block];
      stop := RingNext(t, stop);
    }
  }

  ghost predicate IsRingWalk(t: RingTarget, head: int, walk: HeapWalk, closed: bool) {
    && Chained(walk.blocks, head, walk.end) && RingBlocks(t, head, walk.blocks)
    && RingStop(t, head, walk.blocks, walk.end, closed, walk.truncated, walk.corrupt)
    && walk.usedBlocks == UsedCount(walk.blocks) && walk.freeBlocks == |walk.blocks| - UsedCount(walk.blocks)
    && walk.holes == Holes(walk.blocks, t.header) && walk.base == head
    && (walk.usedBytes, walk.totalBytes) ==
         if closed then ExactByteCounts(false, false, walk.end + t.header - head - Sum(walk.holes),
             walk.end + t.header - head)
         else (None, None)
  }

  /** The walk stops at once, and not for a closed ring, exactly at a head that
      cannot be believed. */
  lemma EmptyIffBadHead(t: RingTarget, head: int, blocks: seq<WalkBlock>, stop: int, closed: bool, truncated: bool,
                        corrupt: bool)
    requires Chained(blocks, head, stop) && RingBlocks(t, head, blocks)
    requires RingStop(t, head, blocks, stop, closed, truncated, corrupt)
    ensures blocks == [] && (corrupt || truncated) <==> !RingReadable(t, head)
  {
    hide RingReadable, RingNext, RingBlock;
    ChainedFirst(blocks, head, stop);
  }

  /** A walk that found no block answers only when the ring closed at once. */
  method WalkMemheap(t: RingTarget, head: int) returns (walk: Option<HeapWalk>, ghost closed: bool)
    ensures walk.None? <==> !RingReadable(t, head)
    ensures walk.Some? ==> IsRingWalk(t, head, walk.value, closed)
  {
    hide Chained, RingBlocks, RingReadable, RingNext, Visited, UsedCount, Holes;
    var blocks, stop, used, holes, closes, truncated, corrupt := FollowRing(t, head);
    closed := closes;
    EmptyIffBadHead(t, head, blocks, stop, closed, truncated, corrupt);
    var exactUsed: Option<int>, exactTotal: Option<int> := None, None;
    if closes {
      var counts := ExactByteCounts(truncated, corrupt, stop + t.header - head - Sum(holes), stop + t.header - head);
      exactUsed, exactTotal := counts.0, counts.1;
    }
    if |blocks| == 0 && (corrupt || truncated) {
      return None, closed;
    }
    walk := Some(HeapWalk(used, |blocks| - used, holes, truncated, corrupt, exactUsed, exactTotal, blocks, head, stop));
  }

  /** A closed ring telescopes: its total is all spans and the tailer's header;
      its used bytes are the used spans and one header for every free block and
      for the tailer. */
  lemma RingTelescopes(t: RingTarget, head: int, walk: HeapWalk)
    requires IsRingWalk(t, head, walk, true) && walk.usedBytes.Some?
    ensures walk.totalBytes == Some(UsedSpan(walk.blocks) + FreeSpan(walk.blocks) + t.header)
    ensures FreeFitHeader(walk.blocks, t.header) ==>
      walk.usedBytes == Some(UsedSpan(walk.blocks) + (walk.freeBlocks + 1) * t.header)
  {
    SpansTelescope(walk.blocks, head, walk.end);
    assert walk.totalBytes == Some(walk.end + t.header - head);
    if FreeFitHeader(walk.blocks, t.header) {
      HolesSumFree(walk.blocks, t.header);
      OneMore(walk.freeBlocks, t.header);
    }
  }

  ghost predicate FreeFitHeader(blocks: seq<WalkBlock>, header: int) {
    forall i :: 0 <= i < |blocks| && !blocks[i].used ==> blocks[i].span >= header
  }

  lemma HolesSumFree(blocks: seq<WalkBlock>, header: int)
    requires FreeFitHeader(blocks, header)
    ensures Sum(Holes(blocks, header)) == FreeSpan(blocks) - (|blocks| - UsedCount(blocks)) * header
  {
    HolesSum(blocks, header);
  }

  /** The counts are given exactly when the ring closed and the used bytes do not
      come out negative, as they must not when addresses ascend. */
  lemma RingCountsGivenIff(t: RingTarget, head: int, walk: HeapWalk, closed: bool)
    requires IsRingWalk(t, head, walk, closed)
    ensures walk.usedBytes.Some? <==>
      closed && UsedSpan(walk.blocks) + FreeSpan(walk.blocks) + t.header >= Sum(walk.holes)
    ensures closed && t.header >= 0 && (forall b :: b in walk.blocks ==> b.span >= t.header) ==> walk.usedBytes.Some?
  {
    SpansTelescope(walk.blocks, head, walk.end);
    HolesSum(walk.blocks, t.header);
    if closed && t.header >= 0 && (forall b :: b in walk.blocks ==> b.span >= t.header) {
      UsedSpanNonNegative(walk.blocks, t.header);
      Times(walk.freeBlocks, t.header);
    }
  }

  lemma Times(n: int, header: int)
    requires n >= 0 && header >= 0
    ensures n * header >= 0
  {}

  lemma {:induction false} UsedSpanNonNegative(blocks: seq<WalkBlock>, header: int)
    requires header >= 0 && forall i :: 0 <= i < |blocks| ==> blocks[i].span >= header
    ensures UsedSpan(blocks) >= 0
  {
    if blocks != [] {
      UsedSpanNonNegative(blocks[..|blocks| - 1], header);
    }
  }

  /** The walk never calls a ring closed that meets itself, and a ring of live
      items that leads back to its head within the budget always closes. */
  lemma {:induction false} LiveRingCloses(t: RingTarget, head: int, ring: seq<int>, walk: HeapWalk, closed: bool)
    requires IsRingWalk(t, head, walk, closed)
    requires |ring| > 0 && ring[0] == head && |ring| <= MAX_TRAVERSAL_COUNT
    requires forall i, j :: 0 <= i < j < |ring| ==> ring[i] != ring[j]
    requires forall i :: 0 <= i < |ring| ==> RingReadable(t, ring[i])
    requires forall i, j :: 0 <= i < |ring| && j == i + 1 && j < |ring| ==> RingNext(t, ring[i]) == ring[j]
    requires RingNext(t, ring[|ring| - 1]) == head
    ensures closed && |walk.blocks| == |ring| - 1 && walk.end == ring[|ring| - 1]
    ensures forall i :: 0 <= i < |walk.blocks| ==> walk.blocks[i].address == ring[i]
  {
    FollowsRing(t, head, ring, walk.blocks, walk.end);
    var n := |walk.blocks|;
    assert forall i :: 0 <= i < n ==> walk.blocks[i].address != ring[n];
    assert !Visited(walk.blocks, walk.end);
    OnlyTailerCloses(t, ring, n);
  }

  lemma OnlyTailerCloses(t: RingTarget, ring: seq<int>, n: nat)
    requires n < |ring|
    requires forall i, j :: 0 <= i < j < |ring| ==> ring[i] != ring[j]
    requires forall i :: 0 <= i < |ring| ==> RingReadable(t, ring[i])
    requires forall i, j :: 0 <= i < |ring| && j == i + 1 && j < |ring| ==> RingNext(t, ring[i]) == ring[j]
    ensures RingNext(t, ring[n]) == ring[0] ==> n == |ring| - 1
  {
    if n < |ring| - 1 {
      var m := n + 1;
      assert RingNext(t, ring[n]) == ring[m];
    }
  }

  lemma {:induction false} FollowsRing(t: RingTarget, head: int, ring: seq<int>, blocks: seq<WalkBlock>, stop: int)
    requires Chained(blocks, head, stop) && RingBlocks(t, head, blocks)
    requires |ring| > 0 && ring[0] == head
    requires forall i :: 0 <= i < |ring| ==> RingReadable(t, ring[i])
    requires forall i, j :: 0 <= i < |ring| && j == i + 1 && j < |ring| ==> RingNext(t, ring[i]) == ring[j]
    requires RingNext(t, ring[|ring| - 1]) == head
    ensures |blocks| < |ring| && stop == ring[|blocks|]
    ensures forall i :: 0 <= i < |blocks| ==> blocks[i].address == ring[i]
  {
    if blocks != [] {
      var n := |blocks| - 1;
      var last := blocks[n];
      FollowsRing(t, head, ring, blocks[..n], last.address);
      assert RingReadable(t, last.address) && RingNext(t, last.address) != head && last == RingBlock(t, last.address);
    }
  }

  /** An item is believed exactly when its magic, apart from the low bit, is the
      heap's and its link can be read. */
  lemma ItemBelievedIff(t: RingTarget, addr: int)
    ensures var item := t.item(addr);
            RingReadable(t, addr) <==>
              item.magic.Some? && item.next.Some? && item.magic.value - item.magic.value % 2 == 0x1EA01EA0
  {}

  /** An item of the ring: the magic with its in-use bit, and the next item's address. */
  ghost predicate ItemStored(t: RingTarget, block: WalkBlock) {
    && t.item(block.address).magic == Some(0x1EA01EA0 + if block.used then 1 else 0)
    && t.item(block.address).next == Some(block.address + block.span)
    && block.owner == (if block.used && t.memtrace then t.owner(block.address) else None)
  }

  /** The ring: blocks linked from the head to a tailer that leads back to it. */
  ghost predicate RingStored(t: RingTarget, head: int, blocks: seq<WalkBlock>, tailer: int) {
    && |blocks| < MAX_TRAVERSAL_COUNT && Chained(blocks, head, tailer)
    && (forall i :: 0 <= i < |blocks| ==> ItemStored(t, blocks[i]) && blocks[i].address != tailer)
    && (forall i, j :: 0 <= i < j < |blocks| ==> blocks[i].address != blocks[j].address)
    && RingReadable(t, tailer) && t.item(tailer).next == Some(head)
  }

  lemma ItemRead(t: RingTarget, block: WalkBlock)
    requires ItemStored(t, block)
    ensures RingReadable(t, block.address) && RingNext(t, block.address) == block.address + block.span
    ensures RingBlock(t, block.address) == block
  {}

  /** A ring the allocator left in order closes, and the walk reports just its
      blocks: their spans, which are in use, and by whom. */
  lemma StoredRingReported(t: RingTarget, head: int, blocks: seq<WalkBlock>, tailer: int, walk: HeapWalk, closed: bool)
    requires RingStored(t, head, blocks, tailer) && IsRingWalk(t, head, walk, closed)
    ensures closed && walk.blocks == blocks && walk.end == tailer
  {
    hide ItemStored, RingBlock, Chained, UsedCount, Holes, RingNext, RingReadable, RingStop, ExactByteCounts;
    var ring := MarksOf(blocks, tailer);
    ChainedFirst(blocks, head, tailer);
    forall i | 0 <= i < |blocks|
      ensures RingReadable(t, blocks[i].address) && RingNext(t, blocks[i].address) == After(blocks, tailer, i)
      ensures RingBlock(t, blocks[i].address) == blocks[i]
    {
      ChainedNext(blocks, head, tailer, i);
      ItemRead(t, blocks[i]);
    }
    TailerRead(t, tailer);
    LiveRingCloses(t, head, ring, walk, closed);
    forall i | 0 <= i < |blocks| ensures walk.blocks[i] == blocks[i] {
      assert walk.blocks[i].address == ring[i];
    }
  }

  lemma TailerRead(t: RingTarget, tailer: int)
    requires RingReadable(t, tailer)
    ensures RingNext(t, tailer) == t.item(tailer).next.value
  {}

  // ---- slab -------------------------------------------------------------------------------------

  const PAGE_TYPE_FREE := 0

  /** A slab page descriptor's class: its two low bits. */
  predicate PageFree(raw: int) {
    raw % 4 == PAGE_TYPE_FREE
  }

  /** A descriptor holds the page's type in its two low bits, its size above them;
      type 0 is free. */
  lemma PageClass(size: nat, pageType: nat)
    requires pageType < 4
    ensures PageFree(4 * size + pageType) <==> pageType == 0
  {}

  ghost predicate InRun(starts: seq<int>, runs: seq<int>, k: int, page: int) {
    0 <= k < |starts| == |runs| && starts[k] <= page < starts[k] + runs[k]
  }

  ghost predicate Covered(starts: seq<int>, runs: seq<int>, page: int) {
    exists k :: InRun(starts, runs, k, page)
  }

  /** The runs stand in order before `pages`, with a page between neighbours. */
  ghost predicate RunsApart(starts: seq<int>, runs: seq<int>, pages: int) {
    if runs == [] then starts == []
    else
      var n := |runs| - 1;
      |starts| == n + 1 && runs[n] > 0 && 0 <= starts[n] && starts[n] + runs[n] <= pages
      && RunsApart(starts[..n], runs[..n], starts[n] - 1)
  }

  lemma {:induction false} RunsWithin(starts: seq<int>, runs: seq<int>, pages: int, k: int, page: int)
    requires RunsApart(starts, runs, pages) && InRun(starts, runs, k, page)
    ensures page < pages
  {
    var n := |runs| - 1;
    if k < n {
      assert InRun(starts[..n], runs[..n], k, page);
      RunsWithin(starts[..n], runs[..n], starts[n] - 1, k, page);
    }
  }

  /** The runs are the maximal stretches of free pages, in order: apart from each
      other, and covering exactly the free pages. */
  ghost predicate FreeRuns(free: seq<bool>, starts: seq<int>, runs: seq<int>) {
    && RunsApart(starts, runs, |free|)
    && forall page :: 0 <= page < |free| ==> (free[page] <==> Covered(starts, runs, page))
  }

  lemma RunCloses(free: seq<bool>, starts: seq<int>, runs: seq<int>)
    requires FreeRuns(free, starts, runs)
    ensures FreeRuns(free + [false], starts, runs)
  {
    forall k ensures !InRun(starts, runs, k, |free|) {
      if InRun(starts, runs, k, |free|) {
        RunsWithin(starts, runs, |free|, k, |free|);
      }
    }
  }

  lemma RunOpens(free: seq<bool>, starts: seq<int>, runs: seq<int>)
    requires FreeRuns(free, starts, runs) && (free != [] ==> !free[|free| - 1])
    ensures FreeRuns(free + [true], starts + [|free|], runs + [1])
  {
    var n := |free|;
    var starts', runs' := starts + [n], runs + [1];
    if runs != [] {
      var k := |runs| - 1;
      assert starts[k] + runs[k] == n ==> InRun(starts, runs, k, n - 1);
    }
    assert starts'[..|runs|] == starts && runs'[..|runs|] == runs;
    forall page, k ensures InRun(starts', runs', k, page) <==>
        InRun(starts, runs, k, page) || (k == |runs| && page == n) {}
    assert InRun(starts', runs', |runs|, n);
    forall page | 0 <= page < n ensures free[page] <==> Covered(starts', runs', page) {
      if free[page] {
        var k :| InRun(starts, runs, k, page);
        assert InRun(starts', runs', k, page);
      }
    }
  }

  lemma RunGrows(free: seq<bool>, starts: seq<int>, runs: seq<int>, run: int)
    requires FreeRuns(free, starts, runs + [run]) && |starts| > 0 && starts[|starts| - 1] + run == |free|
    ensures FreeRuns(free + [true], starts, runs + [run + 1])
  {
    var n, last := |free|, |runs|;
    var before, after, longer := runs + [run], runs + [run + 1], free + [true];
    assert RunsApart(starts, before, n) && |starts| == last + 1 && before[last] == run;
    assert after[..last] == before[..last];
    assert InRun(starts, after, last, n);
    forall page | 0 <= page < n ensures longer[page] <==> Covered(starts, after, page) {
      LongerRunCovers(starts, runs, run, page, n);
      assert longer[page] == free[page];
    }
    assert longer[n];
  }

  lemma LongerRunCovers(starts: seq<int>, runs: seq<int>, run: int, page: int, n: int)
    requires |starts| == |runs| + 1 && starts[|runs|] + run == n && page < n
    ensures Covered(starts, runs + [run], page) <==> Covered(starts, runs + [run + 1], page)
  {
    var before, after := runs + [run], runs + [run + 1];
    if k :| InRun(starts, before, k, page) {
      assert InRun(starts, after, k, page);
    }
    if k :| InRun(starts, after, k, page) {
      assert InRun(starts, before, k, page);
    }
  }

  /** Whether the stretch of pages read so far ends inside a free run. */
  predicate EndsFree(free: seq<bool>) {
    free != [] && free[|free| - 1]
  }

  /** The free runs by recursion on the pages: lengths, and where each begins. */
  function RunsOf(free: seq<bool>): (runs: seq<int>)
    ensures EndsFree(free) ==> runs != []
  {
    if free == [] then []
    else
      var front := free[..|free| - 1];
      var runs := RunsOf(front);
      if !free[|free| - 1] then runs
      else if EndsFree(front) then runs[..|runs| - 1] + [runs[|runs| - 1] + 1]
      else runs + [1]
  }

  function StartsOf(free: seq<bool>): seq<int> {
    if free == [] then []
    else
      var front := free[..|free| - 1];
      if free[|free| - 1] && !EndsFree(front) then StartsOf(front) + [|front|] else StartsOf(front)
  }

  function TrueCount(free: seq<bool>): nat {
    if free == [] then 0 else TrueCount(free[..|free| - 1]) + (if free[|free| - 1] then 1 else 0)
  }

  /** The recursion finds exactly the maximal free runs. */
  lemma {:induction false} RunsOfMeans(free: seq<bool>)
    ensures FreeRuns(free, StartsOf(free), RunsOf(free))
    ensures EndsFree(free) ==> StartsOf(free)[|StartsOf(free)| - 1] + RunsOf(free)[|RunsOf(free)| - 1] == |free|
  {
    hide Covered;
    if free != [] {
      var front, last := free[..|free| - 1], free[|free| - 1];
      RunsOfMeans(front);
      assert free == front + [last];
      var starts, runs := StartsOf(front), RunsOf(front);
      if !last {
        RunCloses(front, starts, runs);
      } else if EndsFree(front) {
        var k := |runs| - 1;
        assert runs == runs[..k] + [runs[k]];
        RunGrows(front, starts, runs[..k], runs[k]);
      } else {
        RunOpens(front, starts, runs);
      }
    }
  }

  /** The runs hold as many pages as are free. */
  lemma {:induction false} RunsOfSum(free: seq<bool>)
    ensures Sum(RunsOf(free)) == TrueCount(free)
  {
    if free != [] {
      var front := free[..|free| - 1];
      var runs := RunsOf(front);
      RunsOfSum(front);
      if free[|free| - 1] {
        if EndsFree(front) {
          SumAppend(runs[..|runs| - 1], runs[|runs| - 1] + 1);
        } else {
          SumAppend(runs, 1);
        }
      }
    }
  }

  function Scaled(runs: seq<int>, pageSize: int): (r: seq<int>)
    ensures |r| == |runs| && forall i :: 0 <= i < |r| ==> r[i] == runs[i] * pageSize
  {
    seq(|runs|, i requires 0 <= i < |runs| => runs[i] * pageSize)
  }

  function Open(closedRuns: seq<int>, run: int): seq<int> {
    if run > 0 then closedRuns + [run] else closedRuns
  }

  lemma PageRead(free: seq<bool>, page: bool, closedRuns: seq<int>, run: int)
    requires run >= 0 && (run > 0 <==> EndsFree(free)) && Open(closedRuns, run) == RunsOf(free)
    ensures page ==> Open(closedRuns, run + 1) == RunsOf(free + [page])
    ensures !page ==> Open(closedRuns, run) == RunsOf(free + [page])
    ensures TrueCount(free + [page]) == TrueCount(free) + (if page then 1 else 0)
    ensures EndsFree(free + [page]) == page
  {
    assert (free + [page])[..|free|] == free;
    assert run > 0 ==> RunsOf(free)[..|RunsOf(free)| - 1] == closedRuns;
  }

  /** The classes of the pages read: from `index` on, until one is unreadable. */
  function SlabPages(raw: int -> Option<int>, index: int, limit: int): (free: seq<bool>)
    requires index <= limit
    ensures |free| <= limit - index
    decreases limit - index
  {
    if index == limit || raw(index).None? then [] else [PageFree(raw(index).value)] + SlabPages(raw, index + 1, limit)
  }

  lemma NoPages()
    ensures RunsOf([]) == [] && TrueCount([]) == 0 && !EndsFree([])
  {}

  lemma OnePageMore(raw: int -> Option<int>, free: seq<bool>, index: int, limit: int)
    requires index < limit && raw(index).Some?
    ensures free + [PageFree(raw(index).value)] + SlabPages(raw, index + 1, limit)
              == free + SlabPages(raw, index, limit)
  {}

  /** The pages read are readable, and the one that ended the reading is not. */
  lemma {:induction false} PagesEndUnreadable(raw: int -> Option<int>, index: int, limit: int)
    requires index <= limit
    ensures var stop := index + |SlabPages(raw, index, limit)|;
            && (stop < limit ==> raw(stop).None?)
            && forall k :: index <= k < stop ==>
                raw(k).Some? && SlabPages(raw, index, limit)[k - index] == PageFree(raw(k).value)
    decreases limit - index
  {
    if index < limit && raw(index).Some? {
      PagesEndUnreadable(raw, index + 1, limit);
    }
  }

  /** The loop over page descriptors. */
  method ReadSlabPages(raw: int -> Option<int>, limit: int)
    returns (freePages: int, usedPages: int, runs: seq<int>, corrupt: bool)
    requires limit >= 0
    ensures var free := SlabPages(raw, 0, limit);
            && runs == RunsOf(free) && freePages == TrueCount(free) && usedPages == |free| - TrueCount(free)
            && (corrupt <==> |free| < limit)
  {
    hide RunsOf, TrueCount, EndsFree, PageFree;
    ghost var free: seq<bool> := [];
    NoPages();
    freePages, usedPages, runs, corrupt := 0, 0, [], false;
    var run, index := 0, 0;
    while index < limit
      invariant 0 <= index == |free| <= limit && !corrupt && run >= 0
      invariant freePages == TrueCount(free) && usedPages == |free| - TrueCount(free)
      invariant Open(runs, run) == RunsOf(free) && (run > 0 <==> EndsFree(free))
      invariant free + SlabPages(raw, index, limit) == SlabPages(raw, 0, limit)
    {
      if raw(index).None? {
        corrupt := true;
        break;
      }
      PageRead(free, PageFree(raw(index).value), runs, run);
      OnePageMore(raw, free, index, limit);
      free := free + [PageFree(raw(index).value)];
      if PageFree(raw(index).value) {
        freePages := freePages + 1;
        run := run + 1;
      } else {
        if run > 0 {
          runs := runs + [run];
          run := 0;
        }
        usedPages := usedPages + 1;
      }
      index := index + 1;
    }
    if run > 0 {
      runs := runs + [run];
    }
    assert free == SlabPages(raw, 0, limit);
  }

  /** Reads page descriptors until one is unreadable or the budget ends; the holes
      are the maximal free runs of the pages read, in bytes. */
  method WalkSlabPages(raw: int -> Option<int>, heapStart: int, heapEnd: int, pageSize: int)
      returns (walk: Option<HeapWalk>)
    requires pageSize > 0 && heapStart < heapEnd
    ensures var npages := (heapEnd - heapStart) / pageSize;
            var limit := Min(npages, MAX_TRAVERSAL_COUNT);
            var free := SlabPages(raw, 0, limit);
            && (walk.None? <==> free == [])
            && (walk.Some? ==>
                  walk.value == HeapWalk(|free| - TrueCount(free), TrueCount(free), Scaled(RunsOf(free), pageSize),
                                         npages > MAX_TRAVERSAL_COUNT, |free| < limit, None, None, [], 0, 0))
  {
    walk := None;
    var npages := (heapEnd - heapStart) / pageSize;
    if npages <= 0 {
      return;
    }
    var truncated, limit := false, npages;
    if npages > MAX_TRAVERSAL_COUNT {
      truncated, limit := true, MAX_TRAVERSAL_COUNT;
    }
    var freePages, usedPages, runs, corrupt := ReadSlabPages(raw, limit);
    if freePages == 0 && usedPages == 0 {
      return;
    }
    walk := Some(HeapWalk(usedPages, freePages, Scaled(runs, pageSize), truncated, corrupt, None, None, [], 0, 0));
  }
}
