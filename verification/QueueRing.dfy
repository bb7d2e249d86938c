/** The queued items of a FreeRTOS queue: modulo positions against the kernel's
    own stepping (freertos/navigation.py, freertos/diagnostics.py). */
module QueueRing {
  import opened Arith
  import opened Common

  /** The ring fields of a `Queue_t`; each may be unreadable. */
  datatype Ring = Ring(head: Option<int>, tail: Option<int>, write: Option<int>, read: Option<int>, length: Option<int>,
                       count: Option<int>, itemSize: Option<int>)

  datatype Item = Item(index: nat, address: int, payload: Option<seq<Byte>>)

  /** Where item `k` lies, by arithmetic. */
  function Position(head: int, tail: int, read: int, size: int, k: nat): int
    requires head < tail
  {
    head + (read + (k + 1) * size - head) % (tail - head)
  }

  /** The kernel's step to the next item (queue.c, prvCopyDataFromQueue). */
  function KernelStep(head: int, tail: int, size: int, at: int): int {
    if at + size >= tail then head else at + size
  }

  function KernelPosition(head: int, tail: int, read: int, size: int, steps: nat): int {
    if steps == 0 then read else KernelStep(head, tail, size, KernelPosition(head, tail, read, size, steps - 1))
  }

  predicate Complete(ring: Ring) {
    ring.head.Some? && ring.tail.Some? && ring.read.Some? && ring.length.Some? && ring.count.Some?
        && ring.itemSize.Some?
  }

  /** Something to dump: every field readable, storage and counts positive. */
  predicate Dumpable(ring: Ring) {
    && Complete(ring) && ring.itemSize.value > 0 && ring.count.value > 0 && ring.length.value > 0
    && ring.head.value < ring.tail.value
  }

  function ItemAt(ring: Ring, read: (int, int) -> Option<seq<Byte>>, maxPayload: int, k: nat): Item
    requires Dumpable(ring)
  {
    var at := Position(ring.head.value, ring.tail.value, ring.read.value, ring.itemSize.value, k);
    Item(k, at, if maxPayload > 0 then read(at, Min(ring.itemSize.value, maxPayload)) else None)
  }

  /** An item dumped as number `k`: its place, and what memory holds there, cut to
      the payload limit, which may forbid reading at all. */
  ghost predicate Dumped(item: Item, k: int, ring: Ring, read: (int, int) -> Option<seq<Byte>>, maxPayload: int)
    requires Dumpable(ring) && k >= 0
  {
    var size := ring.itemSize.value;
    && item.index == k
    && item.address == Position(ring.head.value, ring.tail.value, ring.read.value, size, k)
    && (maxPayload <= 0 ==> item.payload.None?)
    && (0 < maxPayload < size ==> item.payload == read(item.address, maxPayload))
    && (maxPayload >= size ==> item.payload == read(item.address, size))
  }

  method IterQueueItems(ring: Ring, read: (int, int) -> Option<seq<Byte>>, maxPayload: int) returns (items: seq<Item>)
    ensures !Dumpable(ring) ==> items == []
    ensures Dumpable(ring) ==>
      && |items| == Min(Min(ring.count.value, ring.length.value), MAX_TRAVERSAL_COUNT)
      && (forall k :: 0 <= k < |items| ==> items[k] == ItemAt(ring, read, maxPayload, k))
      && forall k :: 0 <= k < |items| ==> Dumped(items[k], k, ring, read, maxPayload)
  {
    items := [];
    if !Complete(ring) {
      return;
    }
    if ring.itemSize.value <= 0 || ring.count.value <= 0 || ring.length.value <= 0 {
      return;
    }
    var span := ring.tail.value - ring.head.value;
    if span <= 0 {
      return;
    }
    for index := 0 to Min(Min(ring.count.value, ring.length.value), MAX_TRAVERSAL_COUNT)
      invariant |items| == index
      invariant forall k :: 0 <= k < index ==> items[k] == ItemAt(ring, read, maxPayload, k)
      invariant forall k :: 0 <= k < index ==> Dumped(items[k], k, ring, read, maxPayload)
    {
      var pos := ring.head.value + (ring.read.value + (index + 1) * ring.itemSize.value - ring.head.value) % span;
      var payload := None;
      if maxPayload > 0 {
        payload := read(pos, Min(ring.itemSize.value, maxPayload));
      }
      items := items + [Item(index, pos, payload)];
    }
  }

  // ---- positions stay in the storage and never meet ------------------------------------------

  lemma PositionInStorage(head: int, tail: int, read: int, size: int, k: nat)
    requires head < tail
    ensures head <= Position(head, tail, read, size, k) < tail
  {}

  lemma SameResidue(a: int, b: int, span: int)
    requires span > 0 && a % span == b % span
    ensures a - b == (a / span - b / span) * span
  {}

  lemma NoMultipleBetween(q: int, span: int)
    requires span > 0 && 0 < q * span
    ensures q * span >= span
  {
    if q <= 0 {
      MulMonotone(q, 0, span);
    } else {
      MulMonotone(1, q, span);
    }
  }

  /** When the storage spans exactly `length` items, no two of the dumped items
      share a position, wherever the read pointer stands. */
  lemma PositionsDistinct(head: int, tail: int, read: int, size: int, length: nat, j: nat, k: nat)
    requires head < tail && size > 0 && tail - head == length * size && j < k < length
    ensures Position(head, tail, read, size, j) != Position(head, tail, read, size, k)
  {
    var span := tail - head;
    var a, b := read + (j + 1) * size - head, read + (k + 1) * size - head;
    DistributeMinus(size, k + 1, j + 1);
    MulStrict(k - j, length, size);
    MulStrict(0, k - j, size);
    if a % span == b % span {
      SameResidue(b, a, span);
      NoMultipleBetween(b / span - a / span, span);
      assert false;
    }
  }

  // ---- the kernel's own order ----------------------------------------------------------------------

  /** Whether the pointer stands at the start of a slot. */
  predicate Aligned(head: int, at: int, size: int)
    requires size > 0
  {
    (at - head) % size == 0
  }

  lemma ModStep(x: int, size: int, span: int)
    requires span > 0
    ensures (x + size) % span == (x % span + size) % span
  {
    DivMod(x, span);
    ModShift(x / span, x % span + size, span);
  }

  lemma ModShift(q: int, r: int, span: int)
    requires span > 0
    ensures (q * span + r) % span == r % span
  {
    DivMod(r, span);
    Distribute(span, q, r / span);
    DivModUnique(q * span + r, span, q + r / span, r % span);
  }

  /** One slot further by arithmetic is one slot further by arithmetic from there. */
  lemma PositionStep(head: int, tail: int, read: int, size: int, k: nat)
    requires head < tail && k > 0
    ensures Position(head, tail, read, size, k)
              == head + (Position(head, tail, read, size, k - 1) - head + size) % (tail - head)
  {
    var span, at := tail - head, read + k * size - head;
    assert read + (k + 1) * size - head == at + size by { Distribute(size, k, 1); }
    assert Position(head, tail, read, size, k) == head + (at + size) % span;
    assert Position(head, tail, read, size, k - 1) == head + at % span;
    ModStep(at, size, span);
  }

  lemma SmallMod(x: int, span: int)
    requires 0 <= x < 2 * span
    ensures x % span == if x < span then x else x - span
  {
    if x < span {
      DivModUnique(x, span, 0, x);
    } else {
      DivModUnique(x, span, 1, x - span);
    }
  }

  /** From an aligned slot the kernel's step and the modulo step agree. */
  lemma AlignedStep(head: int, tail: int, size: int, length: nat, at: int)
    requires size > 0 && length > 0 && tail - head == length * size && head <= at < tail && Aligned(head, at, size)
    ensures KernelStep(head, tail, size, at) == head + (at - head + size) % (tail - head)
    ensures head <= KernelStep(head, tail, size, at) < tail && Aligned(head, KernelStep(head, tail, size, at), size)
  {
    var slot := (at - head) / size;
    assert at - head == slot * size;
    MulMonotone(1, length, size);
    if slot >= length {
      MulMonotone(length, slot, size);
    }
    MulMonotone(slot + 1, length, size);
    Distribute(size, slot, 1);
    SmallMod(at - head + size, tail - head);
    DivModUnique(at - head + size, size, slot + 1, 0);
  }

  /** With the read pointer on a slot, the dump lists the very slots the kernel
      will read, in its order. */
  lemma {:induction false} DumpIsKernelOrder(head: int, tail: int, read: int, size: int, length: nat, k: nat)
    requires size > 0 && length > 0 && tail - head == length * size && head <= read < tail && Aligned(head, read, size)
    ensures Position(head, tail, read, size, k) == KernelPosition(head, tail, read, size, k + 1)
    ensures head <= KernelPosition(head, tail, read, size, k + 1) < tail
    ensures Aligned(head, KernelPosition(head, tail, read, size, k + 1), size)
  {
    if k == 0 {
      AlignedStep(head, tail, size, length, read);
      assert KernelPosition(head, tail, read, size, 0) == read;
    } else {
      DumpIsKernelOrder(head, tail, read, size, length, k - 1);
      AlignedStep(head, tail, size, length, KernelPosition(head, tail, read, size, k));
      PositionStep(head, tail, read, size, k);
    }
  }

  /** Until the storage ends the kernel only moves on. */
  lemma {:induction false} KernelBeforeWrap(head: int, tail: int, read: int, size: int, steps: nat)
    requires size > 0 && head <= read && read + steps * size < tail
    ensures KernelPosition(head, tail, read, size, steps) == read + steps * size
  {
    if steps > 0 {
      Distribute(size, steps - 1, 1);
      KernelBeforeWrap(head, tail, read, size, steps - 1);
    }
  }

  /** From off a slot the arithmetic never lands on the head, where the kernel wraps to. */
  lemma UnalignedNeverHead(head: int, tail: int, read: int, size: int, length: nat, k: nat)
    requires size > 0 && length > 0 && tail - head == length * size && !Aligned(head, read, size)
    ensures Position(head, tail, read, size, k) != head
  {
    var span := tail - head;
    var x := read + (k + 1) * size - head;
    if x % span == 0 {
      var q := x / span;
      Regroup(q, length, size);
      Distribute(size, q * length, -(k + 1));
      assert read - head == (q * length - (k + 1)) * size;
      DivModUnique(read - head, size, q * length - (k + 1), 0);
      assert false;
    }
  }

  lemma Regroup(q: int, length: int, size: int)
    ensures q * (length * size) == q * length * size
  {}

  /** Short of the storage's end the arithmetic only moves on, too. */
  lemma PositionBeforeWrap(head: int, tail: int, read: int, size: int, k: nat)
    requires head <= read && size > 0 && read + (k + 1) * size < tail
    ensures Position(head, tail, read, size, k) == read + (k + 1) * size
  {
    MulNonNegative(k + 1, size);
    SmallMod(read + (k + 1) * size - head, tail - head);
  }

  /** The first `n` positions follow the kernel. */
  ghost predicate FollowsKernel(head: int, tail: int, read: int, size: int, n: nat)
    requires head < tail
  {
    forall k: nat :: k < n ==> Position(head, tail, read, size, k) == KernelPosition(head, tail, read, size, k + 1)
  }

  /** The first `n` positions follow the kernel exactly when the read pointer
      stands on a slot, or they all end before the storage does. */
  lemma FollowsKernelIff(head: int, tail: int, read: int, size: int, length: nat, n: nat)
    requires size > 0 && length > 0 && tail - head == length * size && head <= read < tail && n <= length
    ensures FollowsKernel(head, tail, read, size, n) <==> Aligned(head, read, size) || read + n * size < tail
  {
    if Aligned(head, read, size) {
      forall k: nat | k < n
        ensures Position(head, tail, read, size, k) == KernelPosition(head, tail, read, size, k + 1)
      {
        DumpIsKernelOrder(head, tail, read, size, length, k);
      }
    } else if read + n * size < tail {
      forall k: nat | k < n
        ensures Position(head, tail, read, size, k) == KernelPosition(head, tail, read, size, k + 1)
      {
        MulMonotone(k + 1, n, size);
        PositionBeforeWrap(head, tail, read, size, k);
        KernelBeforeWrap(head, tail, read, size, k + 1);
      }
    } else {
      var k := WrapDeparts(head, tail, read, size, length);
      if n <= k {
        MulMonotone(n, k, size);
      }
      assert k < n;
    }
  }

  /** Over the whole ring only alignment will do. */
  lemma KernelOrderIffAligned(head: int, tail: int, read: int, size: int, length: nat)
    requires size > 0 && length > 0 && tail - head == length * size && head <= read < tail
    ensures FollowsKernel(head, tail, read, size, length) <==> Aligned(head, read, size)
  {
    FollowsKernelIff(head, tail, read, size, length, length);
  }

  /** Off a slot the kernel wraps to the head at some item, and the arithmetic
      does not. */
  lemma WrapDeparts(head: int, tail: int, read: int, size: int, length: nat) returns (k: nat)
    requires size > 0 && length > 0 && tail - head == length * size && head <= read < tail && !Aligned(head, read, size)
    ensures k < length && read + k * size < tail
    ensures Position(head, tail, read, size, k) != KernelPosition(head, tail, read, size, k + 1)
  {
    k := LastBeforeWrap(head, tail, read, size, length);
    KernelBeforeWrap(head, tail, read, size, k);
    Distribute(size, k, 1);
    assert KernelPosition(head, tail, read, size, k + 1) == head;
    UnalignedNeverHead(head, tail, read, size, length, k);
  }

  lemma LastBeforeWrap(head: int, tail: int, read: int, size: int, length: nat) returns (k: nat)
    requires size > 0 && length > 0 && tail - head == length * size && head <= read < tail
    ensures k < length && read + k * size < tail <= read + (k + 1) * size
  {
    k := 0;
    while read + (k + 1) * size < tail
      invariant k < length && read + k * size < tail
      decreases tail - read - k * size
    {
      Distribute(size, k, 1);
      if k + 1 >= length {
        MulMonotone(length, k + 1, size);
      }
      k := k + 1;
    }
  }

  // ---- the pointer checks --------------------------------------------------------------------------

  datatype Verdict = Passed | Failed | Skipped

  datatype RingVerdict = RingVerdict(count: Verdict, storage: Verdict, write: Verdict, read: Verdict)

  /** Neither a mutex, whose head is null, nor a semaphore, whose items have no size. */
  predicate DataQueue(ring: Ring) {
    ring.head.Some? && ring.head.value != 0 && ring.itemSize.Some? && ring.itemSize.value != 0
  }

  function CheckRing(ring: Ring): RingVerdict {
    var count :=
      if ring.count.None? || ring.length.None? then Skipped
      else if ring.count.value <= ring.length.value then Passed
      else Failed;
    if !DataQueue(ring) || ring.tail.None? || ring.write.None? || ring.read.None? || ring.length.None? then
      RingVerdict(count, Skipped, Skipped, Skipped)
    else
      var head, tail := ring.head.value, ring.tail.value;
      RingVerdict(count,
                  if tail - head == ring.length.value * ring.itemSize.value then Passed else Failed,
                  if head <= ring.write.value < tail then Passed else Failed,
                  if head <= ring.read.value < tail then Passed else Failed)
  }

  ghost predicate Judged(verdict: Verdict, readable: bool, holds: bool) {
    verdict == if !readable then Skipped else if holds then Passed else Failed
  }

  /** Each check by the fields alone: counts are compared whenever they can be
      read, pointers only in a queue that stores items. */
  lemma ChecksMean(ring: Ring)
    ensures var v := CheckRing(ring);
            var stores := ring.head.Some? && ring.itemSize.Some? && !(ring.head.value == 0 || ring.itemSize.value == 0);
            var readable := stores && ring.tail.Some? && ring.write.Some? && ring.read.Some? && ring.length.Some?;
            && Judged(v.count, ring.count.Some? && ring.length.Some?,
                      ring.count.Some? && ring.length.Some? && !(ring.count.value > ring.length.value))
            && Judged(v.storage, readable,
                      readable && ring.tail.value == ring.head.value + ring.length.value * ring.itemSize.value)
            && Judged(v.write, readable,
                      readable && !(ring.write.value < ring.head.value || ring.tail.value <= ring.write.value))
            && Judged(v.read, readable,
                      readable && !(ring.read.value < ring.head.value || ring.tail.value <= ring.read.value))
  {}

  /** A data queue as the kernel leaves it: its pointers on slots of its storage. */
  ghost predicate Kept(ring: Ring, slotRead: nat, slotWrite: nat) {
    && Complete(ring) && ring.write.Some? && ring.head.value != 0 && ring.itemSize.value > 0
    && 0 <= ring.count.value <= ring.length.value && slotRead < ring.length.value && slotWrite < ring.length.value
    && ring.tail.value == ring.head.value + ring.length.value * ring.itemSize.value
    && ring.read.value == ring.head.value + slotRead * ring.itemSize.value
    && ring.write.value == ring.head.value + slotWrite * ring.itemSize.value
  }

  lemma SlotInside(slot: nat, length: int, size: int)
    requires slot < length && size > 0
    ensures 0 <= slot * size < length * size
    ensures slot * size % size == 0
  {
    MulNonNegative(slot, size);
    MulStrict(slot, length, size);
    Commute(slot, size);
    DivModUnique(slot * size, size, slot, 0);
  }

  /** Such a queue passes every check, and its dump is the kernel's order. */
  lemma KeptPasses(ring: Ring, slotRead: nat, slotWrite: nat, items: seq<Item>, read: (int, int) -> Option<seq<Byte>>,
                   maxPayload: int)
    requires Kept(ring, slotRead, slotWrite) && ring.count.value > 0
    requires Dumpable(ring) ==>
      && |items| == Min(Min(ring.count.value, ring.length.value), MAX_TRAVERSAL_COUNT)
      && forall k :: 0 <= k < |items| ==> items[k] == ItemAt(ring, read, maxPayload, k)
    ensures CheckRing(ring) == RingVerdict(Passed, Passed, Passed, Passed) && Dumpable(ring)
    ensures forall k :: 0 <= k < |items| ==>
              items[k].address
              == KernelPosition(ring.head.value, ring.tail.value, ring.read.value, ring.itemSize.value, k + 1)
  {
    SlotInside(slotRead, ring.length.value, ring.itemSize.value);
    SlotInside(slotWrite, ring.length.value, ring.itemSize.value);
    forall k | 0 <= k < |items|
      ensures items[k].address
              == KernelPosition(ring.head.value, ring.tail.value, ring.read.value, ring.itemSize.value, k + 1)
    {
      DumpIsKernelOrder(ring.head.value, ring.tail.value, ring.read.value, ring.itemSize.value, ring.length.value, k);
    }
  }

  /** A data queue that passes the pointer checks and holds items is dumped whole:
      one item per queued count up to the budget, each in the storage at a place
      of its own. */
  lemma CheckedRingDumps(ring: Ring, items: seq<Item>, read: (int, int) -> Option<seq<Byte>>, maxPayload: int)
    requires var v := CheckRing(ring); v.count.Passed? && v.storage.Passed? && v.read.Passed?
    requires Complete(ring) && ring.itemSize.value > 0 && ring.count.value > 0
    requires Dumpable(ring) ==> |items| == Min(Min(ring.count.value, ring.length.value), MAX_TRAVERSAL_COUNT)
    requires Dumpable(ring) ==> forall k :: 0 <= k < |items| ==> items[k] == ItemAt(ring, read, maxPayload, k)
    ensures Dumpable(ring) && |items| == Min(ring.count.value, MAX_TRAVERSAL_COUNT)
    ensures forall k :: 0 <= k < |items| ==> ring.head.value <= items[k].address < ring.tail.value
    ensures forall j, k :: 0 <= j < k < |items| ==> items[j].address != items[k].address
  {
    forall j, k | 0 <= j < k < |items| ensures items[j].address != items[k].address {
      PositionsDistinct(ring.head.value, ring.tail.value, ring.read.value, ring.itemSize.value, ring.length.value, j,
          k);
    }
  }

  /** The dump of a ring whose storage and read pointer pass their checks lists
      the items the kernel will hand out, in its order, exactly when the read
      pointer stands on a slot or the dump ends before the storage does. */
  lemma DumpFollowsKernelIff(ring: Ring, items: seq<Item>, read: (int, int) -> Option<seq<Byte>>, maxPayload: int)
    requires var v := CheckRing(ring); v.storage.Passed? && v.read.Passed?
    requires Dumpable(ring) && |items| == Min(Min(ring.count.value, ring.length.value), MAX_TRAVERSAL_COUNT)
    requires forall k :: 0 <= k < |items| ==> items[k] == ItemAt(ring, read, maxPayload, k)
    ensures (forall k :: 0 <= k < |items| ==>
               items[k].address
               == KernelPosition(ring.head.value, ring.tail.value, ring.read.value, ring.itemSize.value, k + 1))
      <==> Aligned(ring.head.value, ring.read.value, ring.itemSize.value)
           || ring.read.value + |items| * ring.itemSize.value < ring.tail.value
  {
    var head, tail, from, size := ring.head.value, ring.tail.value, ring.read.value, ring.itemSize.value;
    FollowsKernelIff(head, tail, from, size, ring.length.value, |items|);
    assert forall k :: 0 <= k < |items| ==> items[k].address == Position(head, tail, from, size, k);
    if FollowsKernel(head, tail, from, size, |items|) {
      forall k | 0 <= k < |items| ensures items[k].address == KernelPosition(head, tail, from, size, k + 1) {
        assert Position(head, tail, from, size, k) == KernelPosition(head, tail, from, size, k + 1);
      }
    }
  }

  /** Two slots, both filled, the read pointer two bytes into the first: every
      check passes, and the second item dumped is not the kernel's. */
  lemma MisalignedDumpExample(read: (int, int) -> Option<seq<Byte>>, maxPayload: int) returns (ring: Ring)
    ensures CheckRing(ring) == RingVerdict(Passed, Passed, Passed, Passed) && Dumpable(ring)
    ensures ItemAt(ring, read, maxPayload, 1).address == 102
    ensures KernelPosition(ring.head.value, ring.tail.value, ring.read.value, ring.itemSize.value, 2) == 100
  {
    ring := Ring(Some(100), Some(108), Some(100), Some(102), Some(2), Some(2), Some(4));
    assert KernelPosition(100, 108, 102, 4, 0) == 102;
    assert KernelPosition(100, 108, 102, 4, 1) == 106;
  }
}
