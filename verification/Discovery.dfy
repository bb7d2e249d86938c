/** Kernel-object discovery: one pass for all kinds against one pass per kind
    (freertos/navigation.py). */
module Discovery {
  import opened Common

  /** A discovery channel by its name; the empty name is no channel. */
  datatype Channel = Channel(text: string)

  datatype Object = Object(kind: string, address: int, name: Option<string>, source: Channel,
                           extras: seq<Channel>, inferred: bool)

  const QUEUE_FAMILY := {"queue", "semaphore", "mutex"}

  // ---- classification --------------------------------------------------------------

  /** The fields of a `Queue_t` the classifier looks at; each may be unreadable. */
  datatype QueueFields = QueueFields(typeCode: Option<int>, head: Option<int>, itemSize: Option<int>)

  datatype Classification = Classification(kind: string, inferred: bool)

  /** What is known of the target: the trace facility and the queues it can read. */
  datatype Target = Target(trace: bool, queues: int -> Option<QueueFields>)

  function ClassifyQueue(target: Target, value: Option<QueueFields>): (c: Option<Classification>)
    ensures c.Some? ==> c.value.kind in QUEUE_FAMILY
    ensures c.None? <==>
      value.None? || (!(target.trace && value.value.typeCode.Some?)
                      && value.value.head.Some? && value.value.head.value != 0 && value.value.itemSize.None?)
    ensures c.Some? ==> (c.value.inferred <==> !(target.trace && value.value.typeCode.Some?))
  {
    if value.None? then None
    else
      var q := value.value;
      if target.trace && q.typeCode.Some? then
        var code := q.typeCode.value;
        Some(Classification(if code in {1, 4} then "mutex" else if code in {2, 3} then "semaphore" else "queue", false))
      else if q.head.None? || q.head.value == 0 then Some(Classification("mutex", true))
      else if q.itemSize == Some(0) then Some(Classification("semaphore", true))
      else if q.itemSize.None? then None
      else Some(Classification("queue", true))
  }

  /** Replaces a queue-family guess by what the queue itself says; an unreadable
      queue keeps the guess. */
  function Refine(target: Target, obj: Object): (r: Object)
    ensures r == obj.(kind := r.kind, inferred := r.inferred)
    ensures r.kind in QUEUE_FAMILY <==> obj.kind in QUEUE_FAMILY
    ensures obj.kind !in QUEUE_FAMILY ==> r == obj
  {
    if obj.kind !in QUEUE_FAMILY then obj
    else
      var c := ClassifyQueue(target, target.queues(obj.address));
      if c.None? then obj else obj.(kind := c.value.kind, inferred := c.value.inferred)
  }

  // ---- merging -----------------------------------------------------------------------

  function MergeSource(obj: Object, source: Channel): Object {
    if source.text == "" || source == obj.source || source in obj.extras then obj
    else obj.(extras := obj.extras + [source])
  }

  function MergeCorroboration(record: Object, later: Object): (merged: Object)
    ensures merged == record.(name := merged.name, extras := merged.extras)
  {
    var merged := MergeSource(record, later.source);
    if record.name.None? && later.name.Some? then merged.(name := later.name) else merged
  }

  // ---- specification: one record per address, in order of first sighting ---------------

  function Flatten(channels: seq<seq<Object>>): seq<Object> {
    if channels == [] then [] else Flatten(channels[..|channels| - 1]) + channels[|channels| - 1]
  }

  function Find(records: seq<Object>, address: int): (i: nat)
    ensures i <= |records|
    ensures i < |records| ==> records[i].address == address
    ensures forall k :: 0 <= k < i ==> records[k].address != address
  {
    if records == [] then 0
    else
      var n := |records| - 1;
      var i := Find(records[..n], address);
      assert forall k :: 0 <= k < n ==> records[..n][k] == records[k];
      if i < n then i else if records[n].address == address then n else |records|
  }

  /** The records once one more finding has been taken into account. */
  function Note(target: Target, records: seq<Object>, obj: Object): seq<Object> {
    if obj.address == 0 then records
    else
      var i := Find(records, obj.address);
      if i < |records| then records[i := MergeCorroboration(records[i], obj)]
      else records + [Refine(target, obj)]
  }

  function Records(target: Target, findings: seq<Object>): seq<Object> {
    if findings == [] then []
    else Note(target, Records(target, findings[..|findings| - 1]), findings[|findings| - 1])
  }

  function Select(records: seq<Object>, kind: string): seq<Object> {
    if records == [] then []
    else
      var last := records[|records| - 1];
      Select(records[..|records| - 1], kind) + (if last.kind == kind then [last] else [])
  }

  /** How many records of the kind stand before position `i`. */
  function Rank(records: seq<Object>, kind: string, i: nat): nat
    requires i <= |records|
  {
    |Select(records[..i], kind)|
  }

  lemma SelectAppend(records: seq<Object>, obj: Object, kind: string)
    ensures Select(records + [obj], kind) == Select(records, kind) + (if obj.kind == kind then [obj] else [])
  {
    assert (records + [obj])[..|records|] == records;
  }

  /** Updating a record in place updates its own kind's list in place and no other. */
  lemma {:induction false} SelectUpdate(records: seq<Object>, kind: string, i: nat, obj: Object)
    requires i < |records| && obj.kind == records[i].kind
    ensures records[i].kind == kind ==>
      && Rank(records, kind, i) < |Select(records, kind)|
      && Select(records, kind)[Rank(records, kind, i)] == records[i]
      && Select(records[i := obj], kind) == Select(records, kind)[Rank(records, kind, i) := obj]
    ensures records[i].kind != kind ==> Select(records[i := obj], kind) == Select(records, kind)
  {
    var n := |records| - 1;
    if i == n {
      assert records[i := obj][..n] == records[..n];
    } else {
      SelectUpdate(records[..n], kind, i, obj);
      assert records[i := obj][..n] == records[..n][i := obj];
      assert records[..n][..i] == records[..i];
    }
  }

  lemma RankStable(records: seq<Object>, kind: string, i: nat, j: nat, obj: Object)
    requires i < |records| && j < |records| && obj.kind == records[j].kind
    ensures Rank(records[j := obj], kind, i) == Rank(records, kind, i)
  {
    if j < i {
      assert records[j := obj][..i] == records[..i][j := obj];
      SelectUpdate(records[..i], kind, j, obj);
    } else {
      assert records[j := obj][..i] == records[..i];
    }
  }

  // ---- the one-pass discovery --------------------------------------------------------------

  function Lookup(groups: map<string, seq<Object>>, kind: string): seq<Object> {
    if kind in groups then groups[kind] else []
  }

  ghost predicate OncePerAddress(records: seq<Object>) {
    forall i, j :: 0 <= i < j < |records| ==> records[i].address != records[j].address
  }

  ghost predicate GroupsMatch(groups: map<string, seq<Object>>, records: seq<Object>) {
    forall kind :: Lookup(groups, kind) == Select(records, kind)
  }

  ghost predicate SlotsMatch(placed: map<int, (string, nat)>, records: seq<Object>) {
    forall i :: 0 <= i < |records| ==>
      records[i].address in placed && placed[records[i].address] == (records[i].kind, Rank(records, records[i].kind, i))
  }

  ghost predicate Covered(addresses: set<int>, records: seq<Object>) {
    forall a :: a in addresses ==> Find(records, a) < |records|
  }

  /** Every group holds the records of its kind, and `placed` every record's slot. */
  ghost predicate AllPlaced(groups: map<string, seq<Object>>, placed: map<int, (string, nat)>, records: seq<Object>) {
    && GroupsMatch(groups, records)
    && SlotsMatch(placed, records)
    && Covered(placed.Keys, records)
    && OncePerAddress(records)
  }

  lemma SameFind(records: seq<Object>, after: seq<Object>, a: int)
    requires |after| == |records| && forall k :: 0 <= k < |records| ==> after[k].address == records[k].address
    ensures Find(after, a) == Find(records, a)
  {
    var f, g := Find(records, a), Find(after, a);
    assert f < |records| ==> after[f].address == a;
    assert g < |after| ==> records[g].address == a;
  }

  lemma FindAppend(records: seq<Object>, obj: Object, a: int)
    ensures Find(records + [obj], a) ==
      (if Find(records, a) < |records| then Find(records, a) else if obj.address == a then |records| else |records| + 1)
  {
    assert (records + [obj])[..|records|] == records;
  }

  lemma CoveredUpdate(addresses: set<int>, records: seq<Object>, i: nat, merged: Object)
    requires Covered(addresses, records) && i < |records| && merged.address == records[i].address
    ensures Covered(addresses, records[i := merged])
  {
    forall a | a in addresses ensures Find(records[i := merged], a) < |records| {
      SameFind(records, records[i := merged], a);
    }
  }

  lemma CoveredAppend(addresses: set<int>, records: seq<Object>, obj: Object)
    requires Covered(addresses, records)
    ensures Covered(addresses + {obj.address}, records + [obj])
  {
    forall a | a in addresses + {obj.address} ensures Find(records + [obj], a) < |records| + 1 {
      FindAppend(records, obj, a);
    }
  }

  lemma GroupsUpdate(groups: map<string, seq<Object>>, records: seq<Object>, i: nat, merged: Object)
    requires GroupsMatch(groups, records) && i < |records| && merged.kind == records[i].kind
    ensures var kind := merged.kind;
            && kind in groups && Rank(records, kind, i) < |groups[kind]|
            && groups[kind][Rank(records, kind, i)] == records[i]
            && GroupsMatch(groups[kind := groups[kind][Rank(records, kind, i) := merged]], records[i := merged])
  {
    var kind := merged.kind;
    assert Lookup(groups, kind) == Select(records, kind);
    SelectUpdate(records, kind, i, merged);
    var groups' := groups[kind := groups[kind][Rank(records, kind, i) := merged]];
    forall k ensures Lookup(groups', k) == Select(records[i := merged], k) {
      assert Lookup(groups, k) == Select(records, k);
      SelectUpdate(records, k, i, merged);
    }
  }

  lemma SlotsUpdate(placed: map<int, (string, nat)>, records: seq<Object>, i: nat, merged: Object)
    requires SlotsMatch(placed, records) && i < |records|
    requires merged.kind == records[i].kind && merged.address == records[i].address
    ensures SlotsMatch(placed, records[i := merged])
  {
    var after := records[i := merged];
    forall j | 0 <= j < |after|
      ensures after[j].address in placed && placed[after[j].address] == (after[j].kind, Rank(after, after[j].kind, j))
    {
      RankStable(records, after[j].kind, j, i, merged);
    }
  }

  lemma PlacedUpdate(groups: map<string, seq<Object>>, placed: map<int, (string, nat)>, records: seq<Object>,
                     obj: Object)
    requires AllPlaced(groups, placed, records) && obj.address in placed
    ensures var (kind, position) := placed[obj.address];
            && kind in groups && position < |groups[kind]|
            && var i := Find(records, obj.address);
               && i < |records| && groups[kind][position] == records[i]
               && var merged := MergeCorroboration(groups[kind][position], obj);
                  AllPlaced(groups[kind := groups[kind][position := merged]], placed, records[i := merged])
  {
    assert obj.address in placed.Keys;
    var i := Find(records, obj.address);
    var merged := MergeCorroboration(records[i], obj);
    GroupsUpdate(groups, records, i, merged);
    SlotsUpdate(placed, records, i, merged);
    CoveredUpdate(placed.Keys, records, i, merged);
  }

  lemma GroupsAppend(groups: map<string, seq<Object>>, records: seq<Object>, obj: Object)
    requires GroupsMatch(groups, records)
    ensures GroupsMatch(groups[obj.kind := Lookup(groups, obj.kind) + [obj]], records + [obj])
  {
    var groups' := groups[obj.kind := Lookup(groups, obj.kind) + [obj]];
    forall k ensures Lookup(groups', k) == Select(records + [obj], k) {
      assert Lookup(groups, k) == Select(records, k);
      SelectAppend(records, obj, k);
    }
  }

  lemma SlotsAppend(placed: map<int, (string, nat)>, records: seq<Object>, obj: Object)
    requires SlotsMatch(placed, records) && obj.address !in placed
    ensures SlotsMatch(placed[obj.address := (obj.kind, |Select(records, obj.kind)|)], records + [obj])
  {
    var after := records + [obj];
    var placed' := placed[obj.address := (obj.kind, |Select(records, obj.kind)|)];
    forall i | 0 <= i < |after|
      ensures after[i].address in placed' && placed'[after[i].address] == (after[i].kind, Rank(after, after[i].kind, i))
    {
      assert after[..i] == records[..i];
      assert records[..|records|] == records;
    }
  }

  lemma PlacedAppend(groups: map<string, seq<Object>>, placed: map<int, (string, nat)>, records: seq<Object>,
                     obj: Object)
    requires AllPlaced(groups, placed, records) && obj.address !in placed
    ensures Find(records, obj.address) == |records|
    ensures var bucket := Lookup(groups, obj.kind);
            AllPlaced(groups[obj.kind := bucket + [obj]], placed[obj.address := (obj.kind, |bucket|)], records + [obj])
  {
    assert Lookup(groups, obj.kind) == Select(records, obj.kind);
    var placed' := placed[obj.address := (obj.kind, |Select(records, obj.kind)|)];
    GroupsAppend(groups, records, obj);
    SlotsAppend(placed, records, obj);
    CoveredAppend(placed.Keys, records, obj);
    assert placed'.Keys == placed.Keys + {obj.address};
  }

  /** One finding's turn in the one-pass loop. */
  method FileFinding(target: Target, groups: map<string, seq<Object>>, placed: map<int, (string, nat)>, finding: Object,
                     ghost records: seq<Object>)
    returns (groups': map<string, seq<Object>>, placed': map<int, (string, nat)>)
    requires AllPlaced(groups, placed, records) && (forall kind :: kind in groups ==> groups[kind] != [])
    ensures AllPlaced(groups', placed', Note(target, records, finding))
    ensures forall kind :: kind in groups' ==> groups'[kind] != []
  {
    hide GroupsMatch, SlotsMatch, Covered, OncePerAddress;
    groups', placed' := groups, placed;
    if finding.address == 0 {
      return;
    }
    if finding.address in placed {
      PlacedUpdate(groups, placed, records, finding);
      var (kind, position) := placed[finding.address];
      groups' := groups[kind := groups[kind][position := MergeCorroboration(groups[kind][position], finding)]];
      return;
    }
    var obj := Refine(target, finding);
    PlacedAppend(groups, placed, records, obj);
    var bucket := Lookup(groups, obj.kind);
    placed' := placed[obj.address := (obj.kind, |bucket|)];
    groups' := groups[obj.kind := bucket + [obj]];
  }

  lemma RecordsNext(target: Target, findings: seq<Object>, obj: Object)
    ensures Records(target, findings + [obj]) == Note(target, Records(target, findings), obj)
  {
    assert (findings + [obj])[..|findings|] == findings;
  }

  lemma FlattenNext(channels: seq<seq<Object>>, c: nat)
    requires c < |channels|
    ensures Flatten(channels[..c + 1]) == Flatten(channels[..c]) + channels[c]
  {
    assert channels[..c + 1][..c] == channels[..c];
  }

  lemma PlacedNone()
    ensures AllPlaced(map[], map[], [])
  {}

  lemma PlacedGroups(groups: map<string, seq<Object>>, placed: map<int, (string, nat)>, records: seq<Object>)
    requires AllPlaced(groups, placed, records)
    ensures forall kind :: Lookup(groups, kind) == Select(records, kind)
  {}

  method DiscoverAll(target: Target, channels: seq<seq<Object>>) returns (groups: map<string, seq<Object>>)
    ensures forall kind :: Lookup(groups, kind) == Select(Records(target, Flatten(channels)), kind)
    ensures forall kind :: kind in groups ==> groups[kind] != []
  {
    hide AllPlaced, Records, Note, Flatten, Lookup, Select;
    groups := map[];
    var placed: map<int, (string, nat)> := map[];
    ghost var findings: seq<Object> := [];
    PlacedNone();
    StartsEmpty(target, channels);
    for c := 0 to |channels|
      invariant findings == Flatten(channels[..c])
      invariant AllPlaced(groups, placed, Records(target, findings))
      invariant forall kind :: kind in groups ==> groups[kind] != []
    {
      ghost var before := findings;
      for o := 0 to |channels[c]|
        invariant findings == before + channels[c][..o]
        invariant AllPlaced(groups, placed, Records(target, findings))
        invariant forall kind :: kind in groups ==> groups[kind] != []
      {
        var obj := channels[c][o];
        groups, placed := FileFinding(target, groups, placed, obj, Records(target, findings));
        RecordsNext(target, findings, obj);
        findings := findings + [obj];
      }
      FlattenNext(channels, c);
    }
    assert channels[..|channels|] == channels;
    PlacedGroups(groups, placed, Records(target, findings));
  }

  lemma StartsEmpty(target: Target, channels: seq<seq<Object>>)
    ensures Records(target, []) == [] && Flatten(channels[..0]) == []
  {}

  // ---- the per-kind discovery -----------------------------------------------------------------

  ghost predicate RanksMatch(index: map<int, nat>, records: seq<Object>, kind: string) {
    forall i :: 0 <= i < |records| && records[i].kind == kind ==>
      records[i].address in index && index[records[i].address] == Rank(records, kind, i)
  }

  ghost predicate OthersFiltered(filtered: set<int>, records: seq<Object>, kind: string) {
    forall i :: 0 <= i < |records| && records[i].kind != kind ==> records[i].address in filtered
  }

  ghost predicate IndexedAreKind(index: map<int, nat>, records: seq<Object>, kind: string) {
    forall a :: a in index ==> Find(records, a) < |records| && records[Find(records, a)].kind == kind
  }

  /** `found` lists the records of one kind, `index` their places, `filtered` the rest. */
  ghost predicate KindIndexed(index: map<int, nat>, filtered: set<int>, found: seq<Object>, records: seq<Object>,
                              kind: string) {
    && found == Select(records, kind)
    && RanksMatch(index, records, kind)
    && OthersFiltered(filtered, records, kind)
    && IndexedAreKind(index, records, kind)
    && Covered(filtered, records)
    && OncePerAddress(records)
  }

  lemma KindsKept(index: map<int, nat>, filtered: set<int>, found: seq<Object>, records: seq<Object>, kind: string,
                  i: nat, merged: Object)
    requires KindIndexed(index, filtered, found, records, kind) && i < |records|
    requires merged.kind == records[i].kind && merged.address == records[i].address
    ensures KindIndexed(index, filtered, Select(records[i := merged], kind), records[i := merged], kind)
  {
    var after := records[i := merged];
    forall j | 0 <= j < |after| && after[j].kind == kind
      ensures after[j].address in index && index[after[j].address] == Rank(after, kind, j)
    {
      RankStable(records, kind, j, i, merged);
    }
    forall a ensures Find(after, a) == Find(records, a) {
      SameFind(records, after, a);
    }
  }

  lemma IndexedUpdate(index: map<int, nat>, filtered: set<int>, found: seq<Object>, records: seq<Object>, kind: string,
                      obj: Object)
    requires KindIndexed(index, filtered, found, records, kind) && obj.address in index
    ensures index[obj.address] < |found|
    ensures var i, position := Find(records, obj.address), index[obj.address];
            && i < |records| && found[position] == records[i]
            && var merged := MergeCorroboration(found[position], obj);
               KindIndexed(index, filtered, found[position := merged], records[i := merged], kind)
  {
    var i := Find(records, obj.address);
    var merged := MergeCorroboration(records[i], obj);
    SelectUpdate(records, kind, i, merged);
    KindsKept(index, filtered, found, records, kind, i, merged);
  }

  /** Merging into a record of another kind leaves this kind's list alone. */
  lemma IndexedElsewhere(index: map<int, nat>, filtered: set<int>, found: seq<Object>, records: seq<Object>,
                         kind: string, obj: Object)
    requires KindIndexed(index, filtered, found, records, kind) && obj.address !in index && obj.address in filtered
    ensures var i := Find(records, obj.address);
            && i < |records|
            && KindIndexed(index, filtered, found, records[i := MergeCorroboration(records[i], obj)], kind)
  {
    var i := Find(records, obj.address);
    var merged := MergeCorroboration(records[i], obj);
    SelectUpdate(records, kind, i, merged);
    KindsKept(index, filtered, found, records, kind, i, merged);
  }

  lemma RanksAppend(index: map<int, nat>, records: seq<Object>, kind: string, obj: Object)
    requires RanksMatch(index, records, kind) && obj.address !in index
    ensures obj.kind == kind ==> RanksMatch(index[obj.address := |Select(records, kind)|], records + [obj], kind)
    ensures obj.kind != kind ==> RanksMatch(index, records + [obj], kind)
  {
    var after := records + [obj];
    forall i | 0 <= i <= |records| ensures Rank(after, kind, i) == Rank(records, kind, i) {
      assert after[..i] == records[..i];
    }
    assert records[..|records|] == records;
  }

  lemma IndexedKindAppend(index: map<int, nat>, records: seq<Object>, kind: string, obj: Object, place: nat)
    requires IndexedAreKind(index, records, kind) && obj.address !in index && Find(records, obj.address) == |records|
    ensures obj.kind == kind ==> IndexedAreKind(index[obj.address := place], records + [obj], kind)
    ensures IndexedAreKind(index, records + [obj], kind)
  {
    forall a | a in index || a == obj.address
      ensures Find(records + [obj], a) == if a == obj.address then |records| else Find(records, a)
    {
      FindAppend(records, obj, a);
    }
  }

  lemma UnindexedIsNew(index: map<int, nat>, filtered: set<int>, records: seq<Object>, kind: string, address: int)
    requires RanksMatch(index, records, kind) && OthersFiltered(filtered, records, kind)
    requires address !in index && address !in filtered
    ensures Find(records, address) == |records|
  {
    hide Rank;
  }

  lemma OthersAppend(filtered: set<int>, records: seq<Object>, kind: string, obj: Object)
    requires OthersFiltered(filtered, records, kind)
    ensures obj.kind == kind ==> OthersFiltered(filtered, records + [obj], kind)
    ensures OthersFiltered(filtered + {obj.address}, records + [obj], kind)
  {}

  lemma IndexedAppend(index: map<int, nat>, filtered: set<int>, found: seq<Object>, records: seq<Object>, kind: string,
                      obj: Object)
    requires KindIndexed(index, filtered, found, records, kind) && obj.address !in index && obj.address !in filtered
    ensures Find(records, obj.address) == |records|
    ensures obj.kind == kind ==>
      KindIndexed(index[obj.address := |found|], filtered, found + [obj], records + [obj], kind)
    ensures obj.kind != kind ==> KindIndexed(index, filtered + {obj.address}, found, records + [obj], kind)
  {
    hide Select, RanksMatch, IndexedAreKind, OthersFiltered, Rank;
    UnindexedIsNew(index, filtered, records, kind, obj.address);
    OthersAppend(filtered, records, kind, obj);
    SelectAppend(records, obj, kind);
    RanksAppend(index, records, kind, obj);
    IndexedKindAppend(index, records, kind, obj, |found|);
    CoveredAppend(filtered, records, obj);
  }

  /** One finding's turn in the per-kind loop. */
  method FileOfKind(target: Target, index: map<int, nat>, filtered: set<int>, found: seq<Object>, kind: string,
                    finding: Object, ghost records: seq<Object>)
    returns (index': map<int, nat>, filtered': set<int>, found': seq<Object>)
    requires KindIndexed(index, filtered, found, records, kind)
    ensures KindIndexed(index', filtered', found', Note(target, records, finding), kind)
  {
    hide KindIndexed;
    index', filtered', found' := index, filtered, found;
    if finding.address == 0 {
      return;
    }
    if finding.address in index {
      IndexedUpdate(index, filtered, found, records, kind, finding);
      var position := index[finding.address];
      found' := found[position := MergeCorroboration(found[position], finding)];
      return;
    }
    if finding.address in filtered {
      IndexedElsewhere(index, filtered, found, records, kind, finding);
      return;
    }
    IndexedAppend(index, filtered, found, records, kind, Refine(target, finding));
    var obj := finding;
    if kind in QUEUE_FAMILY {
      obj := Refine(target, finding);
    }
    if obj.kind != kind {
      filtered' := filtered + {obj.address};
      return;
    }
    index' := index[obj.address := |found|];
    found' := found + [obj];
  }

  lemma IndexedNone(kind: string)
    ensures KindIndexed(map[], {}, [], [], kind)
  {}

  lemma IndexedFound(index: map<int, nat>, filtered: set<int>, found: seq<Object>, records: seq<Object>, kind: string)
    requires KindIndexed(index, filtered, found, records, kind)
    ensures found == Select(records, kind)
  {}

  method Discover(target: Target, channels: seq<seq<Object>>, kind: string) returns (found: seq<Object>)
    ensures found == Select(Records(target, Flatten(channels)), kind)
  {
    hide KindIndexed, Records, Note, Flatten, Select;
    var index: map<int, nat> := map[];
    var filtered: set<int> := {};
    found := [];
    ghost var findings: seq<Object> := [];
    IndexedNone(kind);
    StartsEmpty(target, channels);
    for c := 0 to |channels|
      invariant findings == Flatten(channels[..c])
      invariant KindIndexed(index, filtered, found, Records(target, findings), kind)
    {
      ghost var before := findings;
      for o := 0 to |channels[c]|
        invariant findings == before + channels[c][..o]
        invariant KindIndexed(index, filtered, found, Records(target, findings), kind)
      {
        var obj := channels[c][o];
        index, filtered, found := FileOfKind(target, index, filtered, found, kind, obj, Records(target, findings));
        RecordsNext(target, findings, obj);
        findings := findings + [obj];
      }
      FlattenNext(channels, c);
    }
    assert channels[..|channels|] == channels;
    IndexedFound(index, filtered, found, Records(target, findings), kind);
  }

  /** The per-kind scan lists exactly what the one-pass scan files under the kind. */
  method DiscoverBothWays(target: Target, channels: seq<seq<Object>>, kind: string)
    returns (groups: map<string, seq<Object>>, found: seq<Object>)
    ensures found == if kind in groups then groups[kind] else []
    ensures found == Select(Records(target, Flatten(channels)), kind)
    ensures forall k :: Lookup(groups, k) == Select(Records(target, Flatten(channels)), k)
  {
    groups := DiscoverAll(target, channels);
    found := Discover(target, channels, kind);
    assert Lookup(groups, kind) == found;
  }

  // ---- what a record says --------------------------------------------------------------------------

  /** The findings of one address, in the order the channels reported them. */
  function Sightings(findings: seq<Object>, address: int): seq<Object> {
    if findings == [] then []
    else
      var last := findings[|findings| - 1];
      Sightings(findings[..|findings| - 1], address) + (if last.address == address then [last] else [])
  }

  /** The first sighting, refined, with every later one merged in. */
  function Combine(target: Target, sightings: seq<Object>): (r: Object)
    requires sightings != []
    ensures r.address == sightings[0].address && r.source == sightings[0].source
    ensures r.kind == Refine(target, sightings[0]).kind && r.inferred == Refine(target, sightings[0]).inferred
  {
    var n := |sightings| - 1;
    if n == 0 then Refine(target, sightings[0])
    else MergeCorroboration(Combine(target, sightings[..n]), sightings[n])
  }

  // ---- which kind a record is filed under --------------------------------------------------------

  /** What a queue's own fields say it is: its type code where the trace facility
      keeps one, else the mutex marker, then the empty item. */
  ghost predicate SaysMutex(target: Target, q: QueueFields) {
    if target.trace && q.typeCode.Some? then q.typeCode.value == 1 || q.typeCode.value == 4
    else q.head.None? || q.head.value == 0
  }

  ghost predicate SaysSemaphore(target: Target, q: QueueFields) {
    if target.trace && q.typeCode.Some? then q.typeCode.value == 2 || q.typeCode.value == 3
    else q.head.Some? && q.head.value != 0 && q.itemSize.Some? && q.itemSize.value == 0
  }

  ghost predicate SaysQueue(target: Target, q: QueueFields) {
    if target.trace && q.typeCode.Some? then !(1 <= q.typeCode.value <= 4)
    else q.head.Some? && q.head.value != 0 && q.itemSize.Some? && q.itemSize.value != 0
  }

  /** The kind of the thing at `address`, when a channel first called it `guess`:
      only queue-family guesses give way, and only to what the queue can tell. */
  ghost predicate KindFits(target: Target, address: int, guess: string, kind: string) {
    var value := target.queues(address);
    if guess !in QUEUE_FAMILY || value.None? then kind == guess
    else if SaysMutex(target, value.value) then kind == "mutex"
    else if SaysSemaphore(target, value.value) then kind == "semaphore"
    else if SaysQueue(target, value.value) then kind == "queue"
    else kind == guess
  }

  lemma RefineMeans(target: Target, obj: Object)
    ensures KindFits(target, obj.address, obj.kind, Refine(target, obj).kind)
    ensures Refine(target, obj).inferred ==
      if obj.kind !in QUEUE_FAMILY || target.queues(obj.address).None? then obj.inferred
      else
        var q := target.queues(obj.address).value;
        if target.trace && q.typeCode.Some? then false
        else if SaysMutex(target, q) || SaysSemaphore(target, q) || SaysQueue(target, q) then true
        else obj.inferred
  {}

  lemma {:induction false} SelectMembers(records: seq<Object>, kind: string, r: Object)
    ensures r in Select(records, kind) <==> r in records && r.kind == kind
  {
    if records != [] {
      SelectMembers(records[..|records| - 1], kind, r);
      assert r in records <==> r in records[..|records| - 1] || r == records[|records| - 1];
    }
  }

  ghost predicate Lists(objects: seq<Object>, address: int) {
    exists r :: r in objects && r.address == address
  }

  /** An address that was seen is listed under exactly one kind: the one its queue
      tells, or the first channel's guess where it tells nothing. */
  lemma ListedUnder(target: Target, findings: seq<Object>, address: int, kind: string)
    requires address != 0 && Sightings(findings, address) != []
    ensures Lists(Select(Records(target, findings), kind), address)
       <==> KindFits(target, address, Sightings(findings, address)[0].kind, kind)
  {
    hide Records, Select, Combine, Refine, KindFits;
    var records, seen := Records(target, findings), Sightings(findings, address);
    RecordCombinesSightings(target, findings, address);
    RecordsOnce(target, findings);
    SightingsAt(findings, address);
    RefineMeans(target, seen[0]);
    var record := records[Find(records, address)];
    assert record.kind == Refine(target, seen[0]).kind;
    KindUnique(target, address, seen[0].kind, record.kind, kind);
    SelectMembers(records, kind, record);
    if r :| r in Select(records, kind) && r.address == address {
      SelectMembers(records, kind, r);
      var i :| 0 <= i < |records| && records[i] == r;
      assert i == Find(records, address);
    }
  }

  lemma KindUnique(target: Target, address: int, guess: string, one: string, other: string)
    requires KindFits(target, address, guess, one)
    ensures KindFits(target, address, guess, other) <==> one == other
  {}

  lemma {:induction false} SightingsAt(findings: seq<Object>, address: int)
    ensures forall k :: 0 <= k < |Sightings(findings, address)| ==> Sightings(findings, address)[k].address == address
  {
    if findings != [] {
      SightingsAt(findings[..|findings| - 1], address);
    }
  }

  lemma NoteElsewhere(target: Target, records: seq<Object>, obj: Object, a: int)
    requires obj.address != a
    ensures var after := Note(target, records, obj);
            && (Find(after, a) < |after| <==> Find(records, a) < |records|)
            && (Find(after, a) < |after| ==> after[Find(after, a)] == records[Find(records, a)])
  {
    var i := Find(records, obj.address);
    if obj.address != 0 {
      if i < |records| {
        SameFind(records, records[i := MergeCorroboration(records[i], obj)], a);
      } else {
        FindAppend(records, Refine(target, obj), a);
      }
    }
  }

  lemma NoteHere(target: Target, records: seq<Object>, obj: Object)
    requires obj.address != 0
    ensures var after, i := Note(target, records, obj), Find(records, obj.address);
            && i < |after| && Find(after, obj.address) == i
            && after[i] == if i < |records| then MergeCorroboration(records[i], obj) else Refine(target, obj)
  {
    var i := Find(records, obj.address);
    if i < |records| {
      SameFind(records, records[i := MergeCorroboration(records[i], obj)], obj.address);
    } else {
      FindAppend(records, Refine(target, obj), obj.address);
    }
  }

  /** An address has a record exactly when it is non-zero and was seen, and the
      record is what its own sightings combine to. */
  lemma {:induction false} RecordCombinesSightings(target: Target, findings: seq<Object>, address: int)
    ensures var records, seen := Records(target, findings), Sightings(findings, address);
            && (Find(records, address) < |records| <==> address != 0 && seen != [])
            && (address != 0 && seen != [] ==> records[Find(records, address)] == Combine(target, seen))
  {
    if findings != [] {
      var front, last := findings[..|findings| - 1], findings[|findings| - 1];
      var before := Records(target, front);
      RecordCombinesSightings(target, front, address);
      if last.address != address {
        assert Sightings(findings, address) == Sightings(front, address);
        NoteElsewhere(target, before, last, address);
      } else if address != 0 {
        NoteHere(target, before, last);
        CombineAppend(target, Sightings(front, address), last);
      }
    }
  }

  lemma CombineAppend(target: Target, sightings: seq<Object>, last: Object)
    ensures Combine(target, sightings + [last]) ==
      if sightings == [] then Refine(target, last) else MergeCorroboration(Combine(target, sightings), last)
  {
    assert (sightings + [last])[..|sightings|] == sightings;
    assert sightings == [] ==> sightings + [last] == [last];
  }

  /** Each address has at most one record, over all kinds. */
  lemma {:induction false} RecordsOnce(target: Target, findings: seq<Object>)
    ensures OncePerAddress(Records(target, findings))
  {
    if findings != [] {
      RecordsOnce(target, findings[..|findings| - 1]);
    }
  }

  /** Where an address is first reported. */
  function FirstSeen(findings: seq<Object>, address: int): nat {
    Find(findings, address)
  }

  lemma FirstSeenMeans(findings: seq<Object>, address: int)
    ensures var i := FirstSeen(findings, address);
            && i <= |findings|
            && (i < |findings| ==> findings[i].address == address)
            && forall k :: 0 <= k < i ==> findings[k].address != address
  {}

  lemma FirstSeenFront(findings: seq<Object>, address: int)
    requires findings != []
    ensures var n := |findings| - 1;
            var f := FirstSeen(findings[..n], address);
            FirstSeen(findings, address) == if f < n then f else if findings[n].address == address then n else n + 1
  {}

  ghost predicate InSightingOrder(findings: seq<Object>, records: seq<Object>) {
    && (forall i :: 0 <= i < |records| ==> FirstSeen(findings, records[i].address) < |findings|)
    && (forall i, j :: 0 <= i < j < |records| ==>
          FirstSeen(findings, records[i].address) < FirstSeen(findings, records[j].address))
  }

  /** Records stand in the order in which their addresses were first reported. */
  lemma {:induction false} RecordsInSightingOrder(target: Target, findings: seq<Object>)
    ensures InSightingOrder(findings, Records(target, findings))
  {
    hide Note, FirstSeen;
    if findings != [] {
      var n := |findings| - 1;
      var front, last := findings[..n], findings[n];
      RecordsInSightingOrder(target, front);
      if last.address != 0 && Find(Records(target, front), last.address) == |Records(target, front)| {
        RecordCombinesSightings(target, front, last.address);
        SeenIffSighted(front, last.address);
        FirstSeenMeans(front, last.address);
      }
      NoteInOrder(target, findings, Records(target, front));
    }
  }

  lemma NoteAddresses(target: Target, before: seq<Object>, obj: Object)
    ensures var after := Note(target, before, obj);
            && |before| <= |after| <= |before| + 1
            && (forall i :: 0 <= i < |before| ==> after[i].address == before[i].address)
            && (|after| > |before| ==>
                  obj.address != 0 && Find(before, obj.address) == |before| && after[|before|].address == obj.address)
  {}

  /** Noting the last finding keeps the order, if an address without a record is new. */
  lemma NoteInOrder(target: Target, findings: seq<Object>, before: seq<Object>)
    requires findings != [] && InSightingOrder(findings[..|findings| - 1], before)
    requires var last := findings[|findings| - 1];
             last.address != 0 && Find(before, last.address) == |before| ==>
               FirstSeen(findings[..|findings| - 1], last.address) == |findings| - 1
    ensures InSightingOrder(findings, Note(target, before, findings[|findings| - 1]))
  {
    hide FirstSeen, Refine, MergeCorroboration, Note;
    var n := |findings| - 1;
    forall i | 0 <= i < |before|
      ensures FirstSeen(findings, before[i].address) == FirstSeen(findings[..n], before[i].address)
    {
      FirstSeenFront(findings, before[i].address);
    }
    FirstSeenFront(findings, findings[n].address);
    NoteAddresses(target, before, findings[n]);
  }

  lemma SeenIffSighted(findings: seq<Object>, address: int)
    ensures FirstSeen(findings, address) < |findings| <==> Sightings(findings, address) != []
  {
    if findings != [] {
      SeenIffSighted(findings[..|findings| - 1], address);
    }
  }

  /** Where a channel first appears among the sightings. */
  function FirstFrom(sightings: seq<Object>, source: Channel): (k: nat)
    ensures k <= |sightings|
  {
    if sightings == [] then 0
    else
      var n := |sightings| - 1;
      var k := FirstFrom(sightings[..n], source);
      if k < n || sightings[n].source == source then k else n + 1
  }

  lemma {:induction false} FirstFromMeans(sightings: seq<Object>, source: Channel)
    ensures var k := FirstFrom(sightings, source);
            && (k < |sightings| ==> sightings[k].source == source)
            && forall j :: 0 <= j < k ==> sightings[j].source != source
  {
    if sightings != [] {
      var front := sightings[..|sightings| - 1];
      FirstFromMeans(front, source);
      forall j | 0 <= j < FirstFrom(sightings, source) ensures sightings[j].source != source {
        if j < |front| {
          assert front[j].source != source;
        }
      }
    }
  }

  lemma FirstFromAppend(sightings: seq<Object>, last: Object, source: Channel)
    ensures FirstFrom(sightings + [last], source) ==
      (if FirstFrom(sightings, source) < |sightings| || last.source == source then FirstFrom(sightings, source)
       else |sightings| + 1)
  {
    assert (sightings + [last])[..|sightings|] == sightings;
  }

  /** `source` was reported, and is neither empty nor the channel of record. */
  ghost predicate Later(source: Channel, sightings: seq<Object>)
    requires sightings != []
  {
    source.text != "" && source != sightings[0].source && FirstFrom(sightings, source) < |sightings|
  }

  ghost predicate Ascending(extras: seq<Channel>, sightings: seq<Object>) {
    forall i, j :: 0 <= i < j < |extras| ==> FirstFrom(sightings, extras[i]) < FirstFrom(sightings, extras[j])
  }

  /** The record's channels past the first: each later channel once, in the order
      of its first sighting. */
  ghost predicate LaterChannels(extras: seq<Channel>, sightings: seq<Object>)
    requires sightings != []
  {
    && (forall source :: source in extras <==> Later(source, sightings))
    && Ascending(extras, sightings)
  }

  ghost predicate FirstName(name: Option<string>, sightings: seq<Object>) {
    if name.None? then forall k :: 0 <= k < |sightings| ==> sightings[k].name.None?
    else
      exists k :: 0 <= k < |sightings| && sightings[k].name == name
                  && forall j :: 0 <= j < k ==> sightings[j].name.None?
  }

  lemma LaterAppend(sightings: seq<Object>, last: Object, source: Channel)
    requires sightings != []
    ensures Later(source, sightings + [last]) <==>
      Later(source, sightings) || (source == last.source && source.text != "" && source != sightings[0].source)
  {
    FirstFromAppend(sightings, last, source);
  }

  lemma AscendingKept(extras: seq<Channel>, sightings: seq<Object>, last: Object)
    requires Ascending(extras, sightings) && forall x :: x in extras ==> FirstFrom(sightings, x) < |sightings|
    ensures Ascending(extras, sightings + [last])
  {
    var whole := sightings + [last];
    forall i, j | 0 <= i < j < |extras| ensures FirstFrom(whole, extras[i]) < FirstFrom(whole, extras[j]) {
      FirstFromAppend(sightings, last, extras[i]);
      FirstFromAppend(sightings, last, extras[j]);
    }
  }

  lemma AscendingExtended(extras: seq<Channel>, sightings: seq<Object>, source: Channel)
    requires Ascending(extras, sightings)
    requires forall i :: 0 <= i < |extras| ==> FirstFrom(sightings, extras[i]) < FirstFrom(sightings, source)
    ensures Ascending(extras + [source], sightings)
  {
    var longer := extras + [source];
    forall i, j | 0 <= i < j < |longer| ensures FirstFrom(sightings, longer[i]) < FirstFrom(sightings, longer[j]) {
      assert longer[i] == extras[i];
    }
  }

  lemma AscendingAppend(extras: seq<Channel>, sightings: seq<Object>, last: Object)
    requires Ascending(extras, sightings) && forall x :: x in extras ==> FirstFrom(sightings, x) < |sightings|
    ensures Ascending(extras, sightings + [last])
    ensures FirstFrom(sightings, last.source) == |sightings| ==> Ascending(extras + [last.source], sightings + [last])
  {
    AscendingKept(extras, sightings, last);
    forall i | 0 <= i < |extras| ensures FirstFrom(sightings + [last], extras[i]) < |sightings| {
      FirstFromAppend(sightings, last, extras[i]);
    }
    FirstFromAppend(sightings, last, last.source);
    if FirstFrom(sightings, last.source) == |sightings| {
      AscendingExtended(extras, sightings + [last], last.source);
    }
  }

  lemma LaterChannelsAppend(extras: seq<Channel>, sightings: seq<Object>, last: Object)
    requires sightings != [] && LaterChannels(extras, sightings)
    ensures var added := last.source.text != "" && last.source != sightings[0].source && last.source !in extras;
            LaterChannels(if added then extras + [last.source] else extras, sightings + [last])
  {
    var added := last.source.text != "" && last.source != sightings[0].source && last.source !in extras;
    var extras' := if added then extras + [last.source] else extras;
    forall source ensures source in extras' <==> Later(source, sightings + [last]) {
      LaterAppend(sightings, last, source);
    }
    AscendingAppend(extras, sightings, last);
    assert added ==> !Later(last.source, sightings);
  }

  lemma FirstNameAppend(name: Option<string>, sightings: seq<Object>, last: Object)
    requires FirstName(name, sightings)
    ensures FirstName(if name.None? then last.name else name, sightings + [last])
  {
    var whole := sightings + [last];
    if name.None? {
      assert forall k :: 0 <= k < |sightings| ==> whole[k] == sightings[k];
      assert whole[|sightings|].name == last.name;
    } else {
      var k :| 0 <= k < |sightings| && sightings[k].name == name && forall j :: 0 <= j < k ==> sightings[j].name.None?;
      assert whole[k].name == name;
      assert forall j :: 0 <= j < k ==> whole[j] == sightings[j];
    }
  }

  /** What a combined record says: its name is the first one any sighting gives,
      and its extra channels are the later distinct ones, in order. Channels
      report with no extra channels of their own. */
  lemma {:induction false} CombineMeans(target: Target, sightings: seq<Object>)
    requires sightings != [] && sightings[0].extras == []
    ensures var r := Combine(target, sightings);
            FirstName(r.name, sightings) && LaterChannels(r.extras, sightings)
  {
    hide Combine, FirstName, LaterChannels, Refine;
    var n := |sightings| - 1;
    if n == 0 {
      CombineOne(target, sightings[0]);
      assert sightings == [sightings[0]];
    } else {
      var front, last := sightings[..n], sightings[n];
      assert front + [last] == sightings;
      CombineMeans(target, front);
      CombineAppend(target, front, last);
      LaterChannelsAppend(Combine(target, front).extras, front, last);
      FirstNameAppend(Combine(target, front).name, front, last);
    }
  }

  lemma CombineOne(target: Target, sighting: Object)
    requires sighting.extras == []
    ensures var r := Combine(target, [sighting]);
            FirstName(r.name, [sighting]) && LaterChannels(r.extras, [sighting])
  {
    forall source ensures !Later(source, [sighting]) {
      FirstFromMeans([sighting], source);
    }
    assert [sighting][0].name == sighting.name;
  }
}
