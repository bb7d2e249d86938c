/** Three traversals of a kernel `List_t` - the raw diagnostic walk, the owner
    iterator and the membership scan - and the checks built on the first
    (freertos/diagnostics.py, freertos/navigation.py). */
module ListWalks {
  import opened Common

  /** Halted target memory: the unsigned integer of the given width at an address, if readable. */
  type Memory = (int, int) -> Option<nat>

  datatype Offsets = Offsets(count: int, index: int, end: int, endValue: int, endNext: int,
                             itemNext: int, itemOwner: int, integrity: Option<(int, int)>)

  /** One list: where it is, how to read it and which addresses may hold nodes.
      Without a section map every address may. */
  datatype ListAt = ListAt(mem: Memory, head: int, off: Offsets, ptr: int, ranges: seq<(int, int)>) {
    function Sentinel(): int {
      head + off.end
    }

    function First(): Option<nat> {
      mem(Sentinel() + off.endNext, ptr)
    }

    function Next(node: int): Option<nat> {
      mem(node + off.itemNext, ptr)
    }

    function Owner(node: int): Option<nat> {
      mem(node + off.itemOwner, ptr)
    }

    predicate InRange(node: int) {
      ranges == [] || exists r :: 0 <= r < |ranges| && ranges[r].0 <= node < ranges[r].1
    }
  }

  datatype Fault =
    | UnreadableHead | NullNext(from: int) | OutOfRange(node: int) | Cycle(node: int) | UnreadableItem(node: int)

  datatype Reason = NoHead | NoOffsets

  datatype Walk = Walk(items: seq<int>, owners: seq<Option<nat>>, truncated: bool,
                       corrupt: Option<Fault>, incomplete: Option<Reason>) {
    predicate Clean() {
      !truncated && corrupt.None? && incomplete.None?
    }
  }

  const EMPTY_WALK := Walk([], [], false, None, None)

  // ---- the raw walk ----------------------------------------------------------------

  function Source(list: ListAt, walk: Walk): int {
    if walk.items == [] then list.Sentinel() else walk.items[|walk.items| - 1]
  }

  function Take(list: ListAt, walk: Walk, node: int): Walk {
    walk.(items := walk.items + [node], owners := walk.owners + [list.Owner(node)])
  }

  function RawRun(list: ListAt, max: nat, walk: Walk, node: int): Walk
    requires |walk.items| <= max
    decreases max - |walk.items|
  {
    if node == list.Sentinel() then walk
    else if |walk.items| >= max then walk.(truncated := true)
    else if node == 0 then walk.(corrupt := Some(NullNext(Source(list, walk))))
    else if !list.InRange(node) then walk.(corrupt := Some(OutOfRange(node)))
    else if node in walk.items then walk.(corrupt := Some(Cycle(node)))
    else
      var taken := Take(list, walk, node);
      if list.Next(node).None? then taken.(corrupt := Some(UnreadableItem(node)))
      else RawRun(list, max, taken, list.Next(node).value)
  }

  /** The walk of a list whose head and offsets are known. */
  function RawWalk(list: ListAt, max: nat): Walk {
    if list.First().None? then EMPTY_WALK.(corrupt := Some(UnreadableHead))
    else RawRun(list, max, EMPTY_WALK, list.First().value)
  }

  method WalkListRaw(mem: Memory, head: Option<int>, offsets: Option<Offsets>, ptr: int, ranges: seq<(int, int)>,
                     max: nat)
    returns (walk: Walk)
    ensures head.None? || head.value == 0 ==> walk == EMPTY_WALK.(incomplete := Some(NoHead))
    ensures head.Some? && head.value != 0 && offsets.None? ==> walk == EMPTY_WALK.(incomplete := Some(NoOffsets))
    ensures head.Some? && head.value != 0 && offsets.Some? ==>
      walk == RawWalk(ListAt(mem, head.value, offsets.value, ptr, ranges), max)
  {
    walk := EMPTY_WALK;
    if head.None? || head.value == 0 {
      return walk.(incomplete := Some(NoHead));
    }
    if offsets.None? {
      return walk.(incomplete := Some(NoOffsets));
    }
    var list := ListAt(mem, head.value, offsets.value, ptr, ranges);
    var first := list.First();
    if first.None? {
      return walk.(corrupt := Some(UnreadableHead));
    }
    var node: int := first.value;
    var seen: set<int> := {};
    var steps := 0;
    while node != list.Sentinel()
      invariant steps == |walk.items| <= max && walk.Clean()
      invariant forall n :: n in seen <==> n in walk.items
      invariant RawRun(list, max, walk, node) == RawWalk(list, max)
      decreases max - steps
    {
      if steps >= max {
        return walk.(truncated := true);
      }
      if node == 0 {
        return walk.(corrupt := Some(NullNext(Source(list, walk))));
      }
      if !list.InRange(node) {
        return walk.(corrupt := Some(OutOfRange(node)));
      }
      if node in seen {
        return walk.(corrupt := Some(Cycle(node)));
      }
      seen := seen + {node};
      walk := walk.(items := walk.items + [node], owners := walk.owners + [list.Owner(node)]);
      var next := list.Next(node);
      if next.None? {
        return walk.(corrupt := Some(UnreadableItem(node)));
      }
      node := next.value;
      steps := steps + 1;
    }
  }

  // ---- what a healthy chain is ----------------------------------------------------------

  /** A node a healthy chain may pass through. */
  ghost predicate GoodNode(list: ListAt, node: int) {
    node != list.Sentinel() && node != 0 && list.InRange(node) && list.Next(node).Some?
  }

  /** The nodes from the sentinel's first link up to `last`, each linked to the one after it. */
  ghost predicate Path(list: ListAt, items: seq<int>, last: int) {
    && list.First().Some?
    && (forall i :: 0 <= i < |items| ==> GoodNode(list, items[i]))
    && (forall i, j :: 0 <= i < j < |items| && j == i + 1 ==> list.Next(items[i]) == Some(items[j]))
    && (if items == [] then list.First() == Some(last)
        else list.First() == Some(items[0]) && list.Next(items[|items| - 1]) == Some(last))
  }

  /** The whole list: a path that comes back to the sentinel. */
  ghost predicate Chain(list: ListAt, items: seq<int>) {
    Path(list, items, list.Sentinel())
  }

  /** Links are functions of the node, so two equal nodes lead on equally. */
  lemma {:induction false} SameSuffix(list: ListAt, items: seq<int>, i: nat, j: nat, k: nat)
    requires Chain(list, items) && i < j && j + k < |items| && items[i] == items[j]
    ensures items[i + k] == items[j + k]
  {
    if k > 0 {
      SameSuffix(list, items, i, j, k - 1);
      assert list.Next(items[i + k - 1]) == Some(items[i + k]);
      assert list.Next(items[j + k - 1]) == Some(items[j + k]);
    }
  }

  /** A chain that comes back to the sentinel never visits a node twice: no cyclic list is healthy. */
  lemma ChainDistinct(list: ListAt, items: seq<int>, i: nat, j: nat)
    requires Chain(list, items) && i < j < |items|
    ensures items[i] != items[j]
  {
    var k := |items| - 1 - j;
    assert GoodNode(list, items[i + k + 1]);
    assert list.Next(items[i + k]) == Some(items[i + k + 1]);
    if items[i] == items[j] {
      SameSuffix(list, items, i, j, k);
    }
  }

  ghost predicate OwnersRead(list: ListAt, walk: Walk) {
    |walk.owners| == |walk.items| && forall i :: 0 <= i < |walk.items| ==> walk.owners[i] == list.Owner(walk.items[i])
  }

  ghost predicate CleanMeansChain(list: ListAt, max: nat, walk: Walk) {
    walk.Clean() ==> Chain(list, walk.items) && |walk.items| <= max && OwnersRead(list, walk)
  }

  lemma {:induction false} RawRunSound(list: ListAt, max: nat, walk: Walk, node: int)
    requires |walk.items| <= max && Path(list, walk.items, node) && OwnersRead(list, walk)
    ensures CleanMeansChain(list, max, RawRun(list, max, walk, node))
    decreases max - |walk.items|
  {
    if node == list.Sentinel() || |walk.items| >= max || node == 0 || !list.InRange(node) || node in walk.items {
    } else if list.Next(node).Some? {
      var taken := Take(list, walk, node);
      assert GoodNode(list, node);
      RawRunSound(list, max, taken, list.Next(node).value);
    }
  }

  lemma {:induction false} RawRunComplete(list: ListAt, max: nat, walk: Walk, n: nat, items: seq<int>)
    requires Chain(list, items) && |items| <= max && n <= |items| && walk.items == items[..n] && walk.Clean()
    ensures var node := if n < |items| then items[n] else list.Sentinel();
            RawRun(list, max, walk, node).Clean() && RawRun(list, max, walk, node).items == items
    decreases |items| - n
  {
    if n == |items| {
      assert items[..n] == items;
    } else {
      assert GoodNode(list, items[n]);
      forall m | 0 <= m < n ensures items[m] != items[n] {
        ChainDistinct(list, items, m, n);
      }
      assert items[..n + 1] == items[..n] + [items[n]];
      RawRunComplete(list, max, Take(list, walk, items[n]), n + 1, items);
      assert n + 1 < |items| ==> list.Next(items[n]) == Some(items[n + 1]);
    }
  }

  /** The raw walk is clean exactly when the sentinel is reached within the bound
      through non-null, in-range, readable nodes, and then it lists that chain. */
  lemma RawWalkCleanIff(list: ListAt, max: nat)
    ensures RawWalk(list, max).Clean() <==> exists items :: Chain(list, items) && |items| <= max
    ensures forall items :: Chain(list, items) && |items| <= max ==> RawWalk(list, max).items == items
    ensures RawWalk(list, max).Clean() ==> OwnersRead(list, RawWalk(list, max))
  {
    if list.First().Some? {
      RawRunSound(list, max, EMPTY_WALK, list.First().value);
    }
    forall items | Chain(list, items) && |items| <= max
      ensures RawWalk(list, max).Clean() && RawWalk(list, max).items == items
    {
      RawRunComplete(list, max, EMPTY_WALK, 0, items);
    }
  }

  ghost predicate Distinct(items: seq<int>) {
    forall i, j :: 0 <= i < j < |items| ==> items[i] != items[j]
  }

  /** `items` fill the bound and the list goes on to `last`. */
  ghost predicate CutPath(list: ListAt, max: nat, items: seq<int>, last: int) {
    |items| == max && Distinct(items) && Path(list, items, last) && last != list.Sentinel()
  }

  /** The bound is reached before the sentinel, without a fault on the way. */
  ghost predicate OverLong(list: ListAt, max: nat) {
    exists items, last :: CutPath(list, max, items, last)
  }

  lemma {:induction false} CutRunSound(list: ListAt, max: nat, walk: Walk, node: int)
    requires |walk.items| <= max && Path(list, walk.items, node) && Distinct(walk.items) && walk.Clean()
    ensures RawRun(list, max, walk, node).truncated ==> OverLong(list, max)
    ensures RawRun(list, max, walk, node).truncated ==> RawRun(list, max, walk, node).corrupt.None?
    decreases max - |walk.items|
  {
    if node == list.Sentinel() || node == 0 || !list.InRange(node) || node in walk.items || list.Next(node).None? {
      assert |walk.items| >= max && node != list.Sentinel() ==> CutPath(list, max, walk.items, node);
    } else if |walk.items| >= max {
      assert CutPath(list, max, walk.items, node);
    } else {
      assert GoodNode(list, node);
      CutRunSound(list, max, Take(list, walk, node), list.Next(node).value);
    }
  }

  lemma {:induction false} CutRunComplete(list: ListAt, max: nat, walk: Walk, n: nat, items: seq<int>, last: int)
    requires CutPath(list, max, items, last) && n <= max && walk.items == items[..n]
    ensures RawRun(list, max, walk, if n < max then items[n] else last).truncated
    decreases max - n
  {
    if n < max {
      assert GoodNode(list, items[n]);
      assert items[..n + 1] == items[..n] + [items[n]];
      assert n + 1 < max ==> list.Next(items[n]) == Some(items[n + 1]);
      CutRunComplete(list, max, Take(list, walk, items[n]), n + 1, items, last);
    }
  }

  /** The raw walk is cut short exactly on a list that is longer than the bound,
      and a list that is neither that nor a complete chain has a fault. */
  lemma RawWalkCutIff(list: ListAt, max: nat)
    ensures RawWalk(list, max).truncated <==> OverLong(list, max)
    ensures RawWalk(list, max).corrupt.None? <==> RawWalk(list, max).Clean() || OverLong(list, max)
  {
    NeverIncomplete(list, max);
    if list.First().Some? {
      CutRunSound(list, max, EMPTY_WALK, list.First().value);
    }
    forall items, last | CutPath(list, max, items, last) ensures RawWalk(list, max).truncated {
      CutRunComplete(list, max, EMPTY_WALK, 0, items, last);
    }
  }

  // ---- the owner iterator -------------------------------------------------------------------

  /** How the iterator turns an item's owner field into an object, if it can. */
  type Converter<T> = Option<nat> -> Option<T>

  function Yielded<T>(list: ListAt, convert: Converter<T>, node: int): seq<T> {
    var owner := convert(list.Owner(node));
    if owner.Some? then [owner.value] else []
  }

  /** What the iterator still yields with `left` rounds to go. A node that cannot
      be dereferenced stops it, an unreadable link reads as no node. */
  function IterRun<T>(list: ListAt, convert: Converter<T>, derefs: int -> bool, left: nat,
                      seen: set<int>, node: Option<nat>): seq<T>
    decreases left
  {
    if left == 0 || node.None? || node.value == 0 || node.value == list.Sentinel() then []
    else if !list.InRange(node.value) || node.value in seen || !derefs(node.value) then []
    else
      Yielded(list, convert, node.value)
      + IterRun(list, convert, derefs, left - 1, seen + {node.value as int}, list.Next(node.value))
  }

  /** One round of the iterator. */
  lemma IterRound<T>(list: ListAt, convert: Converter<T>, derefs: int -> bool, left: nat, seen: set<int>,
                     node: Option<nat>)
    ensures left == 0 || node.None? || node.value == 0 || node.value == list.Sentinel()
            || !list.InRange(node.value) || node.value in seen || !derefs(node.value) ==>
              IterRun(list, convert, derefs, left, seen, node) == []
    ensures left > 0 && node.Some? && node.value != 0 && node.value != list.Sentinel()
            && list.InRange(node.value) && node.value !in seen && derefs(node.value) ==>
              IterRun(list, convert, derefs, left, seen, node) ==
                Yielded(list, convert, node.value)
                + IterRun(list, convert, derefs, left - 1, seen + {node.value as int}, list.Next(node.value))
  {}

  method IterList<T>(list: ListAt, convert: Converter<T>, derefs: int -> bool, max: nat) returns (owners: seq<T>)
    ensures owners == IterRun(list, convert, derefs, max, {}, list.First())
  {
    hide IterRun;
    owners := [];
    var node := list.First();
    var seen: set<int> := {};
    for round := 0 to max
      invariant owners + IterRun(list, convert, derefs, max - round, seen, node)
             == IterRun(list, convert, derefs, max, {}, list.First())
    {
      IterRound(list, convert, derefs, max - round, seen, node);
      if node.None? || node.value == 0 || node.value == list.Sentinel() {
        return;
      }
      if !list.InRange(node.value) {
        return;
      }
      if node.value in seen {
        return;
      }
      seen := seen + {node.value as int};
      if !derefs(node.value) {
        return;
      }
      var owner := convert(list.Owner(node.value));
      Reassociate(owners, Yielded(list, convert, node.value),
                  IterRun(list, convert, derefs, max - round - 1, seen, list.Next(node.value)));
      if owner.Some? {
        owners := owners + [owner.value];
      }
      node := list.Next(node.value);
    }
    IterRound(list, convert, derefs, 0, seen, node);
  }

  lemma Reassociate<T>(a: seq<T>, b: seq<T>, c: seq<T>)
    ensures a + (b + c) == a + b + c
    ensures b == [] ==> a + (b + c) == a + c
  {}

  function OwnersOf<T>(list: ListAt, convert: Converter<T>, items: seq<int>): seq<T> {
    if items == [] then [] else Yielded(list, convert, items[0]) + OwnersOf(list, convert, items[1..])
  }

  ghost predicate AllDeref(derefs: int -> bool, items: seq<int>) {
    forall i :: 0 <= i < |items| ==> derefs(items[i])
  }

  lemma {:induction false} IterFollows<T>(list: ListAt, convert: Converter<T>, derefs: int -> bool, left: nat,
                                          seen: set<int>, n: nat, items: seq<int>)
    requires Chain(list, items) && n < |items| && |items| - n <= left && AllDeref(derefs, items)
    requires forall a :: a in seen <==> a in items[..n]
    requires forall i :: 0 <= i < |items| ==> items[i] >= 0
    ensures IterRun(list, convert, derefs, left, seen, Some(items[n])) == OwnersOf(list, convert, items[n..])
    decreases |items| - n
  {
    assert GoodNode(list, items[n]);
    forall m | 0 <= m < n ensures items[m] != items[n] {
      ChainDistinct(list, items, m, n);
    }
    assert items[n..][1..] == items[n + 1..];
    assert items[..n + 1] == items[..n] + [items[n]];
    if n + 1 < |items| {
      assert list.Next(items[n]) == Some(items[n + 1]);
      IterFollows(list, convert, derefs, left - 1, seen + {items[n]}, n + 1, items);
    }
  }

  /** On a healthy list the iterator yields the convertible owners of exactly the
      walked items, in order. */
  lemma IterAgrees<T>(list: ListAt, convert: Converter<T>, derefs: int -> bool, max: nat)
    requires RawWalk(list, max).Clean() && AllDeref(derefs, RawWalk(list, max).items)
    ensures IterRun(list, convert, derefs, max, {}, list.First()) == OwnersOf(list, convert, RawWalk(list, max).items)
  {
    RawWalkCleanIff(list, max);
    var items := RawWalk(list, max).items;
    forall i | 0 <= i < |items| ensures items[i] >= 0 {
      if i > 0 {
        assert list.Next(items[i - 1]) == Some(items[i]);
      }
    }
    if items != [] {
      assert items[0..] == items;
      IterFollows(list, convert, derefs, max, {}, 0, items);
    }
  }

  // ---- the membership scan ----------------------------------------------------------------------

  function ContainsRun(list: ListAt, item: int, left: nat, node: Option<nat>): bool
    decreases left
  {
    if left == 0 || node.None? || node.value == 0 || node.value == list.Sentinel() then false
    else node.value == item || ContainsRun(list, item, left - 1, list.Next(node.value))
  }

  method ListContainsItem(list: ListAt, item: int, max: nat) returns (found: bool)
    ensures found == ContainsRun(list, item, max, list.First())
  {
    var node := list.First();
    for round := 0 to max
      invariant ContainsRun(list, item, max - round, node) == ContainsRun(list, item, max, list.First())
    {
      if node.None? || node.value == 0 || node.value == list.Sentinel() {
        return false;
      }
      if node.value == item {
        return true;
      }
      node := list.Next(node.value);
    }
    found := false;
  }

  lemma {:induction false} ContainsFollows(list: ListAt, item: int, left: nat, n: nat, items: seq<int>)
    requires Chain(list, items) && n < |items| && |items| - n <= left && items[n] >= 0
    requires forall i :: 0 <= i < |items| ==> items[i] >= 0
    ensures ContainsRun(list, item, left, Some(items[n])) <==> item in items[n..]
    decreases |items| - n
  {
    assert GoodNode(list, items[n]);
    assert items[n..] == [items[n]] + items[n + 1..];
    if n + 1 < |items| {
      assert list.Next(items[n]) == Some(items[n + 1]);
      ContainsFollows(list, item, left - 1, n + 1, items);
    }
  }

  /** On a healthy list the scan finds exactly the walked items. */
  lemma ContainsAgrees(list: ListAt, item: int, max: nat)
    requires RawWalk(list, max).Clean()
    ensures ContainsRun(list, item, max, list.First()) <==> item in RawWalk(list, max).items
  {
    RawWalkCleanIff(list, max);
    var items := RawWalk(list, max).items;
    if items != [] {
      forall i | 0 <= i < |items| ensures items[i] >= 0 {
        if i > 0 {
          assert list.Next(items[i - 1]) == Some(items[i]);
        }
      }
      assert items[0..] == items;
      ContainsFollows(list, item, max, 0, items);
    }
  }

  // ---- the list checks ---------------------------------------------------------------------------

  datatype Check = ListInit | ListIntegrity | ListCount | ListIndex | ListIntegrityBytes

  datatype Status = Passed | Failed | Skipped

  datatype Config = Config(tickBits: nat, smp: bool, integrityCheck: bool)

  function Pow2(n: nat): (p: nat)
    ensures p >= 1
  {
    if n == 0 then 1 else 2 * Pow2(n - 1)
  }

  function IntegrityMagic(tickBits: nat): nat {
    if tickBits >= 64 then 0x5A5A_5A5A_5A5A_5A5A else if tickBits >= 32 then 0x5A5A_5A5A else 0x5A5A
  }

  function StoredCount(list: ListAt): Option<nat> {
    list.mem(list.head + list.off.count, list.ptr)
  }

  function StoredIndex(list: ListAt): Option<nat> {
    list.mem(list.head + list.off.index, list.ptr)
  }

  function SentinelValue(list: ListAt, config: Config): Option<nat> {
    list.mem(list.Sentinel() + list.off.endValue, config.tickBits / 8)
  }

  function IntegrityValues(list: ListAt, config: Config): (Option<nat>, Option<nat>)
    requires list.off.integrity.Some?
  {
    (list.mem(list.head + list.off.integrity.value.0, config.tickBits / 8),
     list.mem(list.head + list.off.integrity.value.1, config.tickBits / 8))
  }

  /** Each check's status, given the raw walk of the list. */
  function StatusOf(list: ListAt, config: Config, walk: Walk, check: Check): Status {
    match check
    case ListInit =>
      if SentinelValue(list, config).None? then Skipped
      else if SentinelValue(list, config).value != Pow2(config.tickBits) - 1 then Failed
      else Passed
    case ListIntegrity =>
      if walk.corrupt.Some? then Failed else if walk.truncated then Skipped else Passed
    case ListCount =>
      if StoredCount(list).None? then Skipped
      else if walk.corrupt.Some? then Failed
      else if walk.truncated then Skipped
      else if StoredCount(list).value != |walk.items| then Failed
      else Passed
    case ListIndex =>
      if !config.smp || StoredIndex(list).None? then Skipped
      else if walk.corrupt.Some? || StoredIndex(list).value != list.Sentinel() then Failed
      else Passed
    case ListIntegrityBytes =>
      if !config.integrityCheck || list.off.integrity.None? then Skipped
      else
        var (v1, v2) := IntegrityValues(list, config);
        if v1.None? || v2.None? then Skipped
        else if v1.value != IntegrityMagic(config.tickBits) || v2.value != IntegrityMagic(config.tickBits) then Failed
        else Passed
  }

  const CHECK_ORDER := [ListInit, ListIntegrity, ListCount, ListIndex, ListIntegrityBytes]
  const SKIP_ORDER := [ListInit, ListCount, ListIndex, ListIntegrity, ListIntegrityBytes]

  /** ListIntegrity passes exactly on a complete chain within the bound. */
  lemma IntegrityPassedIff(list: ListAt, config: Config, max: nat)
    ensures StatusOf(list, config, RawWalk(list, max), ListIntegrity) == Passed
      <==> exists items :: Chain(list, items) && |items| <= max
  {
    RawWalkCleanIff(list, max);
    NeverIncomplete(list, max);
  }

  /** ListCount passes exactly when the stored count is the length of a complete
      chain; a cut, cyclic or over-long list is never passed. */
  lemma CountPassedIff(list: ListAt, config: Config, max: nat)
    ensures StatusOf(list, config, RawWalk(list, max), ListCount) == Passed
      <==> exists items :: Chain(list, items) && |items| <= max && StoredCount(list) == Some(|items|)
  {
    RawWalkCleanIff(list, max);
    NeverIncomplete(list, max);
    var walk := RawWalk(list, max);
    if StatusOf(list, config, walk, ListCount) == Passed {
      assert Chain(list, walk.items) && |walk.items| <= max;
    }
  }

  lemma {:induction false} RunNeverIncomplete(list: ListAt, max: nat, walk: Walk, node: int)
    requires |walk.items| <= max && walk.incomplete.None?
    ensures RawRun(list, max, walk, node).incomplete.None?
    decreases max - |walk.items|
  {
    if node != list.Sentinel() && |walk.items| < max && node != 0 && list.InRange(node) && node !in walk.items
       && list.Next(node).Some? {
      RunNeverIncomplete(list, max, Take(list, walk, node), list.Next(node).value);
    }
  }

  lemma NeverIncomplete(list: ListAt, max: nat)
    ensures RawWalk(list, max).incomplete.None?
  {
    if list.First().Some? {
      RunNeverIncomplete(list, max, EMPTY_WALK, list.First().value);
    }
  }

  /** What a check vouches for, in terms of the list itself. */
  ghost predicate Passes(list: ListAt, config: Config, max: nat, check: Check) {
    match check
    case ListInit => SentinelValue(list, config) == Some(Pow2(config.tickBits) - 1)
    case ListIntegrity => exists items :: Chain(list, items) && |items| <= max
    case ListCount => exists items :: Chain(list, items) && |items| <= max && StoredCount(list) == Some(|items|)
    case ListIndex =>
      && config.smp && StoredIndex(list).Some? && StoredIndex(list).value == list.Sentinel()
      && ((exists items :: Chain(list, items) && |items| <= max) || OverLong(list, max))
    case ListIntegrityBytes =>
      && config.integrityCheck && list.off.integrity.Some?
      && IntegrityValues(list, config) == (Some(IntegrityMagic(config.tickBits)), Some(IntegrityMagic(config.tickBits)))
  }

  /** When a check gives no verdict. */
  ghost predicate Skips(list: ListAt, config: Config, max: nat, check: Check) {
    match check
    case ListInit => SentinelValue(list, config).None?
    case ListIntegrity => OverLong(list, max)
    case ListCount => StoredCount(list).None? || OverLong(list, max)
    case ListIndex => !config.smp || StoredIndex(list).None?
    case ListIntegrityBytes =>
      || !config.integrityCheck || list.off.integrity.None?
      || IntegrityValues(list, config).0.None? || IntegrityValues(list, config).1.None?
  }

  ghost predicate Judged(list: ListAt, config: Config, max: nat, check: Check, status: Status) {
    (status == Passed <==> Passes(list, config, max, check)) && (status == Skipped <==> Skips(list, config, max, check))
  }

  /** Every check passes, fails or is skipped for what the list is. */
  lemma StatusJudged(list: ListAt, config: Config, max: nat, check: Check)
    ensures Judged(list, config, max, check, StatusOf(list, config, RawWalk(list, max), check))
  {
    hide RawWalk, Chain, OverLong, Pow2, IntegrityMagic;
    match check
    case ListInit =>
    case ListIntegrity =>
      IntegrityPassedIff(list, config, max);
      RawWalkCutIff(list, max);
      RawWalkCleanIff(list, max);
    case ListCount =>
      CountPassedIff(list, config, max);
      RawWalkCutIff(list, max);
      RawWalkCleanIff(list, max);
    case ListIndex =>
      RawWalkCutIff(list, max);
      RawWalkCleanIff(list, max);
    case ListIntegrityBytes =>
  }

  method CheckIntegrityBytes(list: ListAt, config: Config, ghost max: nat) returns (status: Status)
    ensures Judged(list, config, max, ListIntegrityBytes, status)
  {
    if !config.integrityCheck || list.off.integrity.None? {
      return Skipped;
    }
    var (v1, v2) := IntegrityValues(list, config);
    var expected := IntegrityMagic(config.tickBits);
    if v1.None? || v2.None? {
      status := Skipped;
    } else if v1.value != expected || v2.value != expected {
      status := Failed;
    } else {
      status := Passed;
    }
  }

  /** The checks of one list, in order: each passes exactly when the list is what
      it vouches for, and is skipped exactly when the fields cannot be compared. */
  method ListChecks(mem: Memory, head: Option<int>, offsets: Option<Offsets>, ptr: int, ranges: seq<(int, int)>,
                    config: Config, max: nat)
    returns (results: seq<(Check, Status)>)
    ensures |results| == 5
    ensures head.None? || head.value == 0 || offsets.None? ==>
      forall k :: 0 <= k < 5 ==> results[k] == (SKIP_ORDER[k], Skipped)
    ensures head.Some? && head.value != 0 && offsets.Some? ==>
      var list := ListAt(mem, head.value, offsets.value, ptr, ranges);
      forall k :: 0 <= k < 5 ==> results[k].0 == CHECK_ORDER[k] && Judged(list, config, max, results[k].0, results[k].1)
  {
    hide Judged, RawWalk, Pow2, IntegrityMagic;
    results := [];
    if head.None? || head.value == 0 || offsets.None? {
      for k := 0 to 5
        invariant |results| == k && forall m :: 0 <= m < k ==> results[m] == (SKIP_ORDER[m], Skipped)
      {
        results := results + [(SKIP_ORDER[k], Skipped)];
      }
      return;
    }
    var list := ListAt(mem, head.value, offsets.value, ptr, ranges);
    var count, index, endValue := StoredCount(list), StoredIndex(list), SentinelValue(list, config);
    var walk := WalkListRaw(mem, head, offsets, ptr, ranges, max);
    var tickMask := Pow2(config.tickBits) - 1;

    var init, integrity, counted, indexed, bytes: Status;
    if endValue.None? {
      init := Skipped;
    } else if endValue.value != tickMask {
      init := Failed;
    } else {
      init := Passed;
    }
    assert Judged(list, config, max, ListInit, init) by { StatusJudged(list, config, max, ListInit); }

    if walk.corrupt.Some? {
      integrity := Failed;
    } else if walk.truncated {
      integrity := Skipped;
    } else {
      integrity := Passed;
    }
    assert Judged(list, config, max, ListIntegrity, integrity) by { StatusJudged(list, config, max, ListIntegrity); }

    if count.None? {
      counted := Skipped;
    } else if walk.corrupt.Some? {
      counted := Failed;
    } else if walk.truncated {
      counted := Skipped;
    } else if count.value != |walk.items| {
      counted := Failed;
    } else {
      counted := Passed;
    }
    assert Judged(list, config, max, ListCount, counted) by { StatusJudged(list, config, max, ListCount); }

    if !config.smp || index.None? {
      indexed := Skipped;
    } else if walk.corrupt.Some? || index.value != list.Sentinel() {
      indexed := Failed;
    } else {
      indexed := Passed;
    }
    assert Judged(list, config, max, ListIndex, indexed) by { StatusJudged(list, config, max, ListIndex); }

    bytes := CheckIntegrityBytes(list, config, max);
    results := [(ListInit, init), (ListIntegrity, integrity), (ListCount, counted), (ListIndex, indexed),
                (ListIntegrityBytes, bytes)];
  }

  // ---- a list as the kernel leaves it --------------------------------------------------------------

  /** Every byte of a `width`-byte word is 0x5A. */
  ghost predicate AllMagic(word: nat, width: nat) {
    if width == 0 then word == 0 else word % 256 == 0x5A && AllMagic(word / 256, width - 1)
  }

  /** The sentinel's value is the largest the tick type holds. */
  lemma SentinelValues()
    ensures Pow2(16) == 0x1_0000 && Pow2(32) == 0x1_0000_0000 && Pow2(64) == 0x1_0000_0000_0000_0000
  {
    assert Pow2(4) == 16 && Pow2(8) == 256;
    hide Pow2;
    Pow2Double(8);
    Pow2Double(16);
    Pow2Double(32);
  }

  lemma Pow2Double(n: nat)
    ensures Pow2(n + n) == Pow2(n) * Pow2(n)
  {
    Pow2Sum(n, n);
  }

  lemma {:induction false} Pow2Sum(a: nat, b: nat)
    ensures Pow2(a + b) == Pow2(a) * Pow2(b)
  {
    if a > 0 {
      Pow2Sum(a - 1, b);
      assert 2 * (Pow2(a - 1) * Pow2(b)) == 2 * Pow2(a - 1) * Pow2(b);
    }
  }

  /** The integrity word repeats one byte over the whole tick type. */
  lemma MagicBytes(tickBits: nat)
    requires tickBits in {16, 32, 64}
    ensures AllMagic(IntegrityMagic(tickBits), tickBits / 8)
  {
    if tickBits == 64 {
      assert AllMagic(0x5A5A_5A5A, 4) by { assert AllMagic(0x5A5A, 2); }
      assert AllMagic(0x5A5A_5A5A_5A5A, 6);
    } else if tickBits == 32 {
      assert AllMagic(0x5A5A, 2);
    }
  }

  /** The word at a field of pointer width. */
  ghost predicate Stores(list: ListAt, at: int, word: int) {
    list.mem(at, list.ptr).Some? && list.mem(at, list.ptr).value == word
  }

  /** A list as the kernel leaves it: the sentinel inside the list head, each
      link where its field says, the count right, and in an SMP build the index
      parked on the sentinel. */
  ghost predicate Stored(list: ListAt, config: Config, items: seq<int>) {
    var sentinel := list.head + list.off.end;
    && Stores(list, list.head + list.off.count, |items|)
    && Stores(list, sentinel + list.off.endNext, if items == [] then sentinel else items[0])
    && (forall i :: 0 <= i < |items| ==> StoredItem(list, items, i))
    && (config.smp ==> Stores(list, list.head + list.off.index, sentinel))
    && list.mem(sentinel + list.off.endValue, config.tickBits / 8) == Some(Pow2(config.tickBits) - 1)
    && (config.integrityCheck && list.off.integrity.Some? ==>
          && var magic, width := Some(IntegrityMagic(config.tickBits)), config.tickBits / 8;
             && list.mem(list.head + list.off.integrity.value.0, width) == magic
             && list.mem(list.head + list.off.integrity.value.1, width) == magic)
  }

  ghost predicate StoredItem(list: ListAt, items: seq<int>, i: int)
    requires 0 <= i < |items|
  {
    var sentinel := list.head + list.off.end;
    && items[i] != sentinel && items[i] != 0
    && (list.ranges != [] ==> exists r :: 0 <= r < |list.ranges| && list.ranges[r].0 <= items[i] < list.ranges[r].1)
    && Stores(list, items[i] + list.off.itemNext, if i + 1 < |items| then items[i + 1] else sentinel)
  }

  lemma StoredIsChain(list: ListAt, config: Config, items: seq<int>)
    requires Stored(list, config, items)
    ensures Chain(list, items) && StoredCount(list) == Some(|items|)
  {
    forall i | 0 <= i < |items| ensures GoodNode(list, items[i]) {
      assert StoredItem(list, items, i);
    }
    forall i, j | 0 <= i < j < |items| && j == i + 1 ensures list.Next(items[i]) == Some(items[j]) {
      assert StoredItem(list, items, i);
    }
    if items != [] {
      assert StoredItem(list, items, |items| - 1);
    }
  }

  /** A list as the kernel leaves it, no longer than the bound, is walked item by
      item with the owner each item's field holds, and no check fails on it: only
      those the build has no field for are skipped. */
  lemma StoredPasses(list: ListAt, config: Config, max: nat, items: seq<int>)
    requires Stored(list, config, items) && |items| <= max
    ensures var walk := RawWalk(list, max);
            && walk.Clean() && walk.items == items && |walk.owners| == |items|
            && forall i :: 0 <= i < |items| ==> walk.owners[i] == list.mem(items[i] + list.off.itemOwner, list.ptr)
    ensures forall check :: StatusOf(list, config, RawWalk(list, max), check) ==
              if (check.ListIndex? && !config.smp)
                 || (check.ListIntegrityBytes? && (!config.integrityCheck || list.off.integrity.None?))
              then Skipped else Passed
  {
    hide RawWalk, Chain, IntegrityMagic, Pow2;
    StoredIsChain(list, config, items);
    RawWalkCleanIff(list, max);
    OwnersReadMeans(list, RawWalk(list, max));
  }

  lemma OwnersReadMeans(list: ListAt, walk: Walk)
    requires OwnersRead(list, walk)
    ensures |walk.owners| == |walk.items|
    ensures forall i :: 0 <= i < |walk.items| ==>
              walk.owners[i] == list.mem(walk.items[i] + list.off.itemOwner, list.ptr)
  {}

  // ---- the container an item claims -------------------------------------------------------------

  /** ItemContainer: a task's list item must be reachable from the list its
      container field names; a zero container is an unlinked item. */
  method CheckItemContainer(mem: Memory, container: Option<int>, item: int, offsets: Option<Offsets>, ptr: int,
                            ranges: seq<(int, int)>, max: nat) returns (status: Status)
    ensures container.None? || container.value == 0 ==> status == Skipped
    ensures container.Some? && container.value != 0 && offsets.None? ==> status == Failed
    ensures container.Some? && container.value != 0 && offsets.Some? ==>
      status == ContainerStatus(RawWalk(ListAt(mem, container.value, offsets.value, ptr, ranges), max), item)
  {
    if container.None? || container.value == 0 {
      return Skipped;
    }
    var walk := WalkListRaw(mem, container, offsets, ptr, ranges, max);
    if walk.corrupt.Some? {
      return Failed;
    }
    if walk.truncated {
      return Skipped;
    }
    status := if item in walk.items then Passed else Failed;
  }

  function ContainerStatus(walk: Walk, item: int): Status {
    if walk.corrupt.Some? then Failed else if walk.truncated then Skipped
    else if item in walk.items then Passed else Failed
  }

  /** It passes exactly when the item stands on a complete chain within the bound,
      and there the membership scan says the same. */
  lemma ContainerPassedIff(list: ListAt, item: int, max: nat)
    ensures ContainerStatus(RawWalk(list, max), item) == Passed
      <==> exists items :: Chain(list, items) && |items| <= max && item in items
    ensures RawWalk(list, max).Clean() ==>
      (ContainerStatus(RawWalk(list, max), item) == Passed <==> ContainsRun(list, item, max, list.First()))
  {
    RawWalkCleanIff(list, max);
    NeverIncomplete(list, max);
    var walk := RawWalk(list, max);
    if walk.Clean() {
      ContainsAgrees(list, item, max);
    }
    if ContainerStatus(walk, item) == Passed {
      assert Chain(list, walk.items) && |walk.items| <= max;
    }
  }
}
