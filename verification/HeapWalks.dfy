/** The two bounded walks over a FreeRTOS heap: the free chain and the linear
    block extent (freertos/heap.py, `walk_free_list` and `walk_linear`). */
module HeapWalks {
  import opened Common
  import opened PointerMask
  import Arith

  /** A raw block header: the stored next pointer and the size word, both read at pointer width. */
  datatype Header = Header(next: nat, size: nat)

  /** Halted target memory: the header readable at an address, if any. */
  type Image = int -> Option<Header>

  /** What distinguishes one heap build from another. `mask` is 0 where sizes carry no allocation bit. */
  datatype Geometry = Geometry(kind: int, mask: nat, canary: nat, heapLow: Option<int>, linearLow: Option<int>,
                               heapLimit: Option<int>, freeEnd: Option<int>, alignment: Option<int>)

  datatype Block = Block(address: int, size: int, inUse: bool, nextFree: Option<int>)

  datatype Fault =
    | NullNext
    | Cycle(at: int)
    | Unreadable(at: int)
    | CarriesBit(at: int)
    | Misaligned(at: int)
    | OutsideExtent(at: int)
    | ZeroSize(at: int)
    | PastLimit(at: int)
    | EndedEarly

  datatype Reason = NoFreeList | NoBlockHeap | RegionsUnknown | FirstRegionOnly | StoppedBeforeEnd

  datatype Walk = Walk(blocks: seq<Block>, freeBytes: Option<int>, freeBlocks: nat,
                       largest: Option<int>, smallest: Option<int>, holes: Option<nat>,
                       truncated: bool, corrupt: Option<Fault>, incomplete: Option<Reason>) {
    predicate Clean() {
      !truncated && corrupt.None?
    }
  }

  const EMPTY_WALK := Walk([], None, 0, None, None, None, false, None, None)

  /** The size word's top bit, the only one the mask selects in a word of pointer width. */
  predicate Flagged(raw: nat, mask: nat) {
    mask != 0 && raw >= mask
  }

  /** The size word without the allocation bit. */
  function Plain(raw: nat, mask: nat): nat {
    if Flagged(raw, mask) then raw - mask else raw
  }

  /** With the mask at the top bit of the size word, the flag is that bit and the
      plain size all the bits below it. */
  lemma TopBit(raw: nat, mask: nat)
    requires 0 < mask && raw < 2 * mask
    ensures Flagged(raw, mask) <==> raw / mask == 1
    ensures Plain(raw, mask) == raw % mask
  {
    if raw >= mask {
      Arith.DivModUnique(raw, mask, 1, raw - mask);
    } else {
      Arith.DivModUnique(raw, mask, 0, raw);
    }
  }

  /** Addresses are aligned when the alignment is known and non-zero. */
  predicate MisalignedAt(geom: Geometry, at: int) {
    geom.alignment.Some? && geom.alignment.value > 0 && at % geom.alignment.value != 0
  }

  function AddressSet(blocks: seq<Block>): set<int> {
    set i | 0 <= i < |blocks| :: blocks[i].address
  }

  // ---- the free chain ----------------------------------------------------------------

  function Lower(geom: Geometry): int
    requires geom.heapLow.Some?
  {
    if geom.linearLow.Some? then geom.linearLow.value else geom.heapLow.value
  }

  /** What keeps the walk from taking the block at `cur`, checked in the walk's order. */
  function FreeFault(geom: Geometry, image: Image, seen: set<int>, cur: int): Option<Fault>
    requires geom.heapLow.Some?
  {
    if cur in seen then Some(Cycle(cur))
    else if image(cur).None? then Some(Unreadable(cur))
    else if Flagged(image(cur).value.size, geom.mask) then Some(CarriesBit(cur))
    else if MisalignedAt(geom, cur) then Some(Misaligned(cur))
    else if geom.heapLimit.Some? && (cur < Lower(geom) || cur >= geom.heapLimit.value) then Some(OutsideExtent(cur))
    else None
  }

  function FreeBlockAt(geom: Geometry, image: Image, cur: int): Block
    requires image(cur).Some?
  {
    Block(cur, image(cur).value.size, false, Some(Deobfuscate(image(cur).value.next, geom.canary)))
  }

  /** The statistics once one more free block has been taken. */
  function TakeFree(walk: Walk, block: Block): Walk
    requires walk.freeBytes.Some?
  {
    walk.(blocks := walk.blocks + [block],
          freeBlocks := walk.freeBlocks + 1,
          freeBytes := Some(walk.freeBytes.value + block.size),
          largest := if walk.largest.None? || block.size > walk.largest.value then Some(block.size) else walk.largest,
          smallest := if block.size != 0 && (walk.smallest.None? || block.size < walk.smallest.value)
                      then Some(block.size) else walk.smallest)
  }

  /** The rest of the walk from `cur`. */
  function FreeRun(geom: Geometry, image: Image, walk: Walk, cur: int): Walk
    requires geom.heapLow.Some? && geom.freeEnd.Some? && walk.freeBytes.Some?
    requires |walk.blocks| <= MAX_TRAVERSAL_COUNT
    decreases MAX_TRAVERSAL_COUNT - |walk.blocks|
  {
    if cur == geom.freeEnd.value then walk
    else if cur == 0 then walk.(corrupt := Some(NullNext))
    else if |walk.blocks| >= MAX_TRAVERSAL_COUNT then walk.(truncated := true)
    else
      var fault := FreeFault(geom, image, AddressSet(walk.blocks), cur);
      if fault.Some? then walk.(corrupt := fault)
      else
        var block := FreeBlockAt(geom, image, cur);
        FreeRun(geom, image, TakeFree(walk, block), block.nextFree.value)
  }

  predicate FreeWalkRuns(geom: Geometry) {
    geom.kind in {2, 4, 5} && geom.heapLow.Some? && geom.freeEnd.Some? && geom.freeEnd.value != 0
  }

  function FreeWalk(geom: Geometry, image: Image): Walk {
    if geom.kind !in {2, 4, 5} then EMPTY_WALK.(incomplete := Some(NoFreeList))
    else if !FreeWalkRuns(geom) then EMPTY_WALK
    else FreeRun(geom, image, EMPTY_WALK.(freeBytes := Some(0)), geom.heapLow.value)
  }

  /** The checks the walk makes before it takes the block at `cur`. */
  method CheckFreeBlock(geom: Geometry, image: Image, lower: int, seen: set<int>, cur: int)
      returns (fault: Option<Fault>)
    requires geom.heapLow.Some? && lower == Lower(geom)
    ensures fault == FreeFault(geom, image, seen, cur)
    ensures fault.None? ==> image(cur).Some? && Plain(image(cur).value.size, geom.mask) == image(cur).value.size
  {
    if cur in seen {
      return Some(Cycle(cur));
    }
    var values := image(cur);
    if values.None? {
      return Some(Unreadable(cur));
    }
    if Flagged(values.value.size, geom.mask) {
      return Some(CarriesBit(cur));
    }
    if MisalignedAt(geom, cur) {
      return Some(Misaligned(cur));
    }
    if geom.heapLimit.Some? && (cur < lower || cur >= geom.heapLimit.value) {
      return Some(OutsideExtent(cur));
    }
    fault := None;
  }

  /** Records one free block and keeps the extremes. */
  method RecordFree(before: Walk, block: Block) returns (walk: Walk)
    requires before.freeBytes.Some?
    ensures walk == TakeFree(before, block)
  {
    walk := before.(blocks := before.blocks + [block],
                    freeBlocks := before.freeBlocks + 1,
                    freeBytes := Some(before.freeBytes.value + block.size));
    if walk.largest.None? || block.size > walk.largest.value {
      walk := walk.(largest := Some(block.size));
    }
    if block.size != 0 && (walk.smallest.None? || block.size < walk.smallest.value) {
      walk := walk.(smallest := Some(block.size));
    }
  }

  method WalkFreeList(geom: Geometry, image: Image) returns (walk: Walk)
    ensures walk == FreeWalk(geom, image)
  {
    hide AddressSet, FreeFault, Plain, Deobfuscate, Lower;
    walk := EMPTY_WALK;
    if geom.kind !in {2, 4, 5} {
      walk := walk.(incomplete := Some(NoFreeList));
      return;
    }
    if geom.heapLow.None? || geom.freeEnd.None? || geom.freeEnd.value == 0 {
      return;
    }
    var lower := Lower(geom);
    walk := walk.(freeBytes := Some(0));
    var seen: set<int> := {};
    NoAddresses();
    var cur := geom.heapLow.value;
    var steps := 0;
    while cur != geom.freeEnd.value
      invariant steps == |walk.blocks| <= MAX_TRAVERSAL_COUNT && seen == AddressSet(walk.blocks)
      invariant walk.freeBytes.Some? && walk.Clean()
      invariant FreeRun(geom, image, walk, cur) == FreeWalk(geom, image)
      decreases MAX_TRAVERSAL_COUNT - steps
    {
      if cur == 0 {
        walk := walk.(corrupt := Some(NullNext));
        return;
      }
      if steps >= MAX_TRAVERSAL_COUNT {
        walk := walk.(truncated := true);
        return;
      }
      var fault := CheckFreeBlock(geom, image, lower, seen, cur);
      if fault.Some? {
        walk := walk.(corrupt := fault);
        return;
      }
      seen := seen + {cur};
      var size := Plain(image(cur).value.size, geom.mask);
      var nextFree := Deobfuscate(image(cur).value.next, geom.canary);
      AddressSetAppend(walk.blocks, Block(cur, size, false, Some(nextFree)));
      walk := RecordFree(walk, Block(cur, size, false, Some(nextFree)));
      cur := nextFree;
      steps := steps + 1;
    }
  }

  lemma NoAddresses()
    ensures AddressSet([]) == {}
  {}

  lemma AddressSetAppend(blocks: seq<Block>, block: Block)
    ensures AddressSet(blocks + [block]) == AddressSet(blocks) + {block.address}
  {
    var all := blocks + [block];
    forall a ensures a in AddressSet(all) <==> a in AddressSet(blocks) + {block.address} {
      if a in AddressSet(blocks) {
        var i :| 0 <= i < |blocks| && blocks[i].address == a;
        assert all[i].address == a;
      }
      assert all[|blocks|].address == block.address;
    }
  }

  // ---- the linear extent ---------------------------------------------------------------

  function LinearAllocated(geom: Geometry, raw: nat, free: Option<set<int>>, cur: int): bool {
    if geom.mask != 0 then Flagged(raw, geom.mask) else free.Some? && cur !in free.value
  }

  /** What keeps the walk from stepping over the block at `cur`; a zero size ends a heap_5 region instead. */
  function LinearFault(geom: Geometry, image: Image, limit: int, cur: int): Option<Fault> {
    if MisalignedAt(geom, cur) then Some(Misaligned(cur))
    else if image(cur).None? then Some(Unreadable(cur))
    else
      var size := Plain(image(cur).value.size, geom.mask);
      if size == 0 then (if geom.kind == 5 then None else Some(ZeroSize(cur)))
      else if cur + size > limit then Some(PastLimit(cur))
      else None
  }

  function LinearBlockAt(geom: Geometry, image: Image, free: Option<set<int>>, cur: int): Block
    requires image(cur).Some?
  {
    var raw := image(cur).value.size;
    Block(cur, Plain(raw, geom.mask), LinearAllocated(geom, raw, free, cur), None)
  }

  /** A free block opens a hole at the start of the extent or after an allocated block. */
  function TakeLinear(walk: Walk, block: Block): Walk
    requires walk.freeBytes.Some? && walk.holes.Some?
  {
    var opens := walk.blocks == [] || walk.blocks[|walk.blocks| - 1].inUse;
    if block.inUse then walk.(blocks := walk.blocks + [block])
    else walk.(blocks := walk.blocks + [block],
               freeBytes := Some(walk.freeBytes.value + block.size),
               freeBlocks := walk.freeBlocks + 1,
               holes := Some(walk.holes.value + (if opens then 1 else 0)))
  }

  /** The verdict once the loop is over at `cur`. */
  function LinearEnd(geom: Geometry, walk: Walk, limit: int, cur: int): Walk {
    if geom.kind == 5 then
      walk.(incomplete := if geom.freeEnd != Some(cur) then Some(StoppedBeforeEnd) else None)
    else if cur != limit then walk.(corrupt := Some(EndedEarly))
    else walk
  }

  function LinearRun(geom: Geometry, image: Image, free: Option<set<int>>, limit: int, walk: Walk, cur: int): Walk
    requires walk.freeBytes.Some? && walk.holes.Some?
    requires |walk.blocks| <= MAX_TRAVERSAL_COUNT
    decreases MAX_TRAVERSAL_COUNT - |walk.blocks|
  {
    if cur >= limit then LinearEnd(geom, walk, limit, cur)
    else if |walk.blocks| >= MAX_TRAVERSAL_COUNT then walk.(truncated := true)
    else
      var fault := LinearFault(geom, image, limit, cur);
      if fault.Some? then walk.(corrupt := fault)
      else
        var block := LinearBlockAt(geom, image, free, cur);
        if block.size == 0 then LinearEnd(geom, walk, limit, cur)
        else LinearRun(geom, image, free, limit, TakeLinear(walk, block), cur + block.size)
  }

  predicate LinearWalkRuns(geom: Geometry) {
    geom.kind in {2, 4, 5} && geom.linearLow.Some? && geom.heapLimit.Some? && geom.heapLimit.value != 0
  }

  function LinearStart(geom: Geometry): Walk {
    EMPTY_WALK.(incomplete := if geom.kind == 5 then Some(FirstRegionOnly) else None,
                freeBytes := Some(0), holes := Some(0))
  }

  function LinearWalk(geom: Geometry, image: Image, freeList: Option<Walk>): Walk {
    if geom.kind !in {2, 4, 5} then EMPTY_WALK.(incomplete := Some(NoBlockHeap))
    else if geom.kind == 5 && geom.linearLow.None? then EMPTY_WALK.(incomplete := Some(RegionsUnknown))
    else if !LinearWalkRuns(geom) then EMPTY_WALK
    else LinearRun(geom, image, FreeAddresses(freeList), geom.heapLimit.value, LinearStart(geom), geom.linearLow.value)
  }

  function FreeAddresses(freeList: Option<Walk>): Option<set<int>> {
    if freeList.None? then None else Some(AddressSet(freeList.value.blocks))
  }

  /** Records one block and, for a free one, the bytes and the hole it may open. */
  method CountBlock(before: Walk, block: Block, previousAllocated: Option<bool>) returns (walk: Walk)
    requires before.freeBytes.Some? && before.holes.Some?
    requires previousAllocated ==
      if before.blocks == [] then None else Some(before.blocks[|before.blocks| - 1].inUse)
    ensures walk == TakeLinear(before, block)
  {
    walk := before.(blocks := before.blocks + [block]);
    if !block.inUse {
      walk := walk.(freeBytes := Some(walk.freeBytes.value + block.size), freeBlocks := walk.freeBlocks + 1);
      if previousAllocated.None? || previousAllocated.value {
        walk := walk.(holes := Some(walk.holes.value + 1));
      }
    }
  }

  /** The checks the walk makes before it steps over the block at `cur`. */
  method CheckBlock(geom: Geometry, image: Image, limit: int, cur: int) returns (fault: Option<Fault>, size: int)
    ensures fault == LinearFault(geom, image, limit, cur)
    ensures fault.None? ==> image(cur).Some? && size == Plain(image(cur).value.size, geom.mask)
  {
    size := 0;
    if MisalignedAt(geom, cur) {
      return Some(Misaligned(cur)), size;
    }
    var values := image(cur);
    if values.None? {
      return Some(Unreadable(cur)), size;
    }
    size := Plain(values.value.size, geom.mask);
    if size == 0 {
      return if geom.kind == 5 then None else Some(ZeroSize(cur)), size;
    }
    if cur + size > limit {
      return Some(PastLimit(cur)), size;
    }
    fault := None;
  }

  method WalkLinear(geom: Geometry, image: Image, freeList: Option<Walk>) returns (walk: Walk)
    ensures walk == LinearWalk(geom, image, freeList)
  {
    hide LinearFault, LinearAllocated, Plain, FreeAddresses;
    walk := EMPTY_WALK;
    if geom.kind !in {2, 4, 5} {
      walk := walk.(incomplete := Some(NoBlockHeap));
      return;
    }
    if geom.kind == 5 && geom.linearLow.None? {
      walk := walk.(incomplete := Some(RegionsUnknown));
      return;
    }
    if geom.linearLow.None? || geom.heapLimit.None? || geom.heapLimit.value == 0 {
      return;
    }
    var limit := geom.heapLimit.value;
    if geom.kind == 5 {
      walk := walk.(incomplete := Some(FirstRegionOnly));
    }
    var free := FreeAddresses(freeList);
    walk := walk.(freeBytes := Some(0), holes := Some(0));
    var cur := geom.linearLow.value;
    var steps := 0;
    var previousAllocated: Option<bool> := None;
    while cur < limit
      invariant steps == |walk.blocks| <= MAX_TRAVERSAL_COUNT
      invariant walk.freeBytes.Some? && walk.holes.Some? && walk.Clean()
      invariant previousAllocated ==
        if walk.blocks == [] then None else Some(walk.blocks[|walk.blocks| - 1].inUse)
      invariant LinearRun(geom, image, free, limit, walk, cur) == LinearWalk(geom, image, freeList)
      decreases MAX_TRAVERSAL_COUNT - steps
    {
      if steps >= MAX_TRAVERSAL_COUNT {
        walk := walk.(truncated := true);
        return;
      }
      var fault, size := CheckBlock(geom, image, limit, cur);
      if fault.Some? {
        walk := walk.(corrupt := fault);
        return;
      }
      if size == 0 {
        break;
      }
      var inUse := LinearAllocated(geom, image(cur).value.size, free, cur);
      walk := CountBlock(walk, Block(cur, size, inUse, None), previousAllocated);
      previousAllocated := Some(inUse);
      cur := cur + size;
      steps := steps + 1;
    }
    if geom.kind == 5 {
      if geom.freeEnd != Some(cur) {
        walk := walk.(incomplete := Some(StoppedBeforeEnd));
      } else {
        walk := walk.(incomplete := None);
      }
    } else if cur != limit {
      walk := walk.(corrupt := Some(EndedEarly));
    }
  }
}
