/** The order in which Python's stable `sorted` visits the positions of a key
    list: ascending key, and input order among equal keys. */
module StableOrder {

  predicate Before(keys: seq<int>, i: nat, j: nat)
    requires i < |keys| && j < |keys|
  {
    keys[i] < keys[j] || (keys[i] == keys[j] && i < j)
  }

  ghost predicate Ordered(keys: seq<int>, order: seq<nat>) {
    && (forall k :: 0 <= k < |order| ==> order[k] < |keys|)
    && (forall a, b :: 0 <= a < b < |order| ==> Before(keys, order[a], order[b]))
  }

  /** Places position `i`, the newest one, behind every position whose key is not larger. */
  function Insert(keys: seq<int>, order: seq<nat>, i: nat): (r: seq<nat>)
    requires i < |keys| && Ordered(keys, order)
    requires forall k :: 0 <= k < |order| ==> order[k] < i
    ensures Ordered(keys, r) && |r| == |order| + 1
    ensures forall x :: x in r <==> x in order || x == i
  {
    if order == [] || keys[order[|order| - 1]] <= keys[i] then order + [i]
    else
      var last := order[|order| - 1];
      var front := order[..|order| - 1];
      var placed := Insert(keys, front, i);
      assert order == front + [last];
      assert forall a :: 0 <= a < |placed| ==> placed[a] in placed;
      assert forall x :: x in front ==> exists a :: 0 <= a < |front| && front[a] == x && Before(keys, order[a], last);
      placed + [last]
  }

  function Order(keys: seq<int>): (order: seq<nat>)
    ensures |order| == |keys| && Ordered(keys, order)
    ensures forall i :: 0 <= i < |keys| ==> i in order
  {
    if keys == [] then []
    else
      var n := |keys| - 1;
      var front := Order(keys[..n]);
      assert forall a, b :: 0 <= a < b < n ==> Before(keys[..n], front[a], front[b]);
      Insert(keys, front, n)
  }

  /** The order lists every position once, so it is a permutation of the positions. */
  lemma OrderDistinct(keys: seq<int>)
    ensures forall a, b :: 0 <= a < b < |keys| ==> Order(keys)[a] != Order(keys)[b]
  {
    var order := Order(keys);
    forall a, b | 0 <= a < b < |keys| ensures order[a] != order[b] {
      assert Before(keys, order[a], order[b]);
    }
  }
}
