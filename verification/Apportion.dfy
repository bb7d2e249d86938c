/** Largest-remainder apportionment of grid cells to arena spans
    (gdr/heapmap.py, `_split_cells`). */
module Apportion {
  import opened Arith
  import opened Common
  import StableOrder

  /** What every caller guarantees: positive sizes adding up to the arena, and
      with reservation at least one cell for each size. */
  ghost predicate Splittable(sizes: seq<int>, arena: int, total: int, reserved: bool) {
    && sizes != []
    && (forall i :: 0 <= i < |sizes| ==> sizes[i] > 0)
    && Sum(sizes) == arena
    && total >= (if reserved then |sizes| else 0)
  }

  /** Cells left for proportional sharing once the reserved ones are set aside. */
  function Shared(n: nat, total: int, reserved: bool): int {
    if reserved then total - n else total
  }

  function Floors(sizes: seq<int>, m: int, arena: int): (q: seq<int>)
    requires arena > 0
    ensures |q| == |sizes|
  {
    seq(|sizes|, i requires 0 <= i < |sizes| => m * sizes[i] / arena)
  }

  function Remainders(sizes: seq<int>, m: int, arena: int): (r: seq<int>)
    requires arena > 0
    ensures |r| == |sizes|
  {
    seq(|sizes|, i requires 0 <= i < |sizes| => m * sizes[i] % arena)
  }

  function Negated(s: seq<int>): (r: seq<int>)
    ensures |r| == |s|
  {
    seq(|s|, i requires 0 <= i < |s| => -s[i])
  }

  /** Positions by descending remainder, ties by position. */
  function Ranked(sizes: seq<int>, m: int, arena: int): (ranked: seq<nat>)
    requires arena > 0
    ensures |ranked| == |sizes|
    ensures forall k :: 0 <= k < |ranked| ==> ranked[k] < |sizes|
  {
    StableOrder.Order(Negated(Remainders(sizes, m, arena)))
  }

  /** Cells still to hand out after every span took its floor. */
  function Extra(sizes: seq<int>, m: int, arena: int): int
    requires arena > 0
  {
    m - Sum(Floors(sizes, m, arena))
  }

  lemma {:induction false} FloorsAccount(sizes: seq<int>, m: int, arena: int)
    requires arena > 0
    ensures arena * Sum(Floors(sizes, m, arena)) + Sum(Remainders(sizes, m, arena)) == m * Sum(sizes)
  {
    if sizes != [] {
      var n := |sizes| - 1;
      FloorsAccount(sizes[..n], m, arena);
      assert Floors(sizes, m, arena)[..n] == Floors(sizes[..n], m, arena);
      assert Remainders(sizes, m, arena)[..n] == Remainders(sizes[..n], m, arena);
      DivMod(m * sizes[n], arena);
      Distribute(m, Sum(sizes[..n]), sizes[n]);
      Distribute(arena, Sum(Floors(sizes, m, arena)[..n]), Floors(sizes, m, arena)[n]);
    }
  }

  /** The number of entries of `s` above zero. */
  function Positives(s: seq<int>): nat {
    if s == [] then 0 else Positives(s[..|s| - 1]) + (if s[|s| - 1] > 0 then 1 else 0)
  }

  lemma {:induction false} SumBelowPositives(s: seq<int>, bound: int)
    requires bound > 0
    requires forall i :: 0 <= i < |s| ==> 0 <= s[i] < bound
    ensures 0 <= Sum(s) <= Positives(s) * (bound - 1)
    ensures Positives(s) <= |s|
  {
    if s != [] {
      SumBelowPositives(s[..|s| - 1], bound);
    }
  }

  /** The spare cells are exactly the remainders' worth, so fewer than there are
      spans, and more spans have a remainder than there are spare cells. */
  lemma ExtraInRange(sizes: seq<int>, arena: int, total: int, reserved: bool)
    requires Splittable(sizes, arena, total, reserved)
    ensures arena > 0
    ensures var m := Shared(|sizes|, total, reserved);
            var extra := Extra(sizes, m, arena);
            && 0 <= extra < |sizes|
            && Sum(Remainders(sizes, m, arena)) == arena * extra
            && (extra > 0 ==> extra < Positives(Remainders(sizes, m, arena)))
  {
    SumNonNegative(sizes);
    assert sizes[0] > 0;
    var m := Shared(|sizes|, total, reserved);
    var r := Remainders(sizes, m, arena);
    FloorsAccount(sizes, m, arena);
    SumBelowPositives(r, arena);
    var extra := Extra(sizes, m, arena);
    var p := Positives(r);
    DistributeMinus(arena, m, Sum(Floors(sizes, m, arena)));
    Commute(m, arena);
    Commute(extra, arena);
    DistributeMinus(extra, arena, 1);
    assert arena * extra == Sum(r);
    if extra < 0 {
      MulMonotone(extra, -1, arena);
    } else if extra > 0 && extra >= p {
      MulMonotone(p, extra, arena - 1);
    }
  }

  /** One more cell for every listed position. */
  function Bump(counts: seq<int>, winners: seq<nat>): (r: seq<int>)
    requires forall k :: 0 <= k < |winners| ==> winners[k] < |counts|
    ensures |r| == |counts|
  {
    if winners == [] then counts
    else
      var r := Bump(counts, winners[..|winners| - 1]);
      var w := winners[|winners| - 1];
      r[w := r[w] + 1]
  }

  lemma {:induction false} BumpEach(counts: seq<int>, winners: seq<nat>)
    requires forall k :: 0 <= k < |winners| ==> winners[k] < |counts|
    requires forall a, b :: 0 <= a < b < |winners| ==> winners[a] != winners[b]
    ensures forall i :: 0 <= i < |counts| ==>
              Bump(counts, winners)[i] == counts[i] + (if i in winners then 1 else 0)
    ensures Sum(Bump(counts, winners)) == Sum(counts) + |winners|
  {
    hide Sum;
    if winners != [] {
      var front, w := winners[..|winners| - 1], winners[|winners| - 1];
      BumpEach(counts, front);
      assert winners == front + [w];
      assert w !in front;
      var bumped := Bump(counts, front);
      SumUpdate(bumped, w, bumped[w] + 1);
      assert Bump(counts, winners) == bumped[w := bumped[w] + 1];
      assert forall i :: i in winners <==> i in front || i == w;
    }
  }

  /** Floors, plus the reserved cell of each span. */
  function Bases(sizes: seq<int>, m: int, arena: int, reserved: bool): (b: seq<int>)
    requires arena > 0
    ensures |b| == |sizes|
  {
    seq(|sizes|, i requires 0 <= i < |sizes| => (if reserved then 1 else 0) + Floors(sizes, m, arena)[i])
  }

  /** The apportionment as a function of its inputs. */
  ghost function Counts(sizes: seq<int>, arena: int, total: int, reserved: bool): (counts: seq<int>)
    requires Splittable(sizes, arena, total, reserved)
    ensures |counts| == |sizes|
  {
    ExtraInRange(sizes, arena, total, reserved);
    var m := Shared(|sizes|, total, reserved);
    Bump(Bases(sizes, m, arena, reserved), Ranked(sizes, m, arena)[..Extra(sizes, m, arena)])
  }

  lemma {:induction false} BasesSum(sizes: seq<int>, m: int, arena: int, reserved: bool)
    requires arena > 0
    ensures Sum(Bases(sizes, m, arena, reserved))
         == Sum(Floors(sizes, m, arena)) + (if reserved then |sizes| else 0)
  {
    if sizes != [] {
      var n := |sizes| - 1;
      BasesSum(sizes[..n], m, arena, reserved);
      assert Floors(sizes, m, arena)[..n] == Floors(sizes[..n], m, arena);
      assert Bases(sizes, m, arena, reserved)[..n] == Bases(sizes[..n], m, arena, reserved);
    }
  }

  method SplitCells(sizes: seq<int>, arena: int, total: int, reserved: bool) returns (counts: seq<int>)
    requires Splittable(sizes, arena, total, reserved)
    ensures counts == Counts(sizes, arena, total, reserved)
    ensures |counts| == |sizes| && Sum(counts) == total
  {
    hide Bases, Ranked, Sum;
    ExtraInRange(sizes, arena, total, reserved);
    var m := Shared(|sizes|, total, reserved);
    counts := Bases(sizes, m, arena, reserved);
    BasesSum(sizes, m, arena, reserved);
    var extra := total - Sum(counts);
    var ranked := Ranked(sizes, m, arena);
    ghost var bases := counts;
    for k := 0 to extra
      invariant |counts| == |sizes|
      invariant counts == Bump(bases, ranked[..k])
    {
      assert ranked[..k + 1][..k] == ranked[..k];
      counts := counts[ranked[k] := counts[ranked[k]] + 1];
    }
    CountsFacts(sizes, arena, total, reserved);
  }

  /** What a position's count is made of, and that the counts fill the grid exactly. */
  lemma CountsFacts(sizes: seq<int>, arena: int, total: int, reserved: bool)
    requires Splittable(sizes, arena, total, reserved)
    ensures arena > 0
    ensures var m := Shared(|sizes|, total, reserved);
            var counts := Counts(sizes, arena, total, reserved);
            && Sum(counts) == total
            && 0 <= Extra(sizes, m, arena) < |sizes|
            && forall i :: 0 <= i < |sizes| ==>
                 counts[i] == (if reserved then 1 else 0) + m * sizes[i] / arena
                            + (if i in Ranked(sizes, m, arena)[..Extra(sizes, m, arena)] then 1 else 0)
  {
    ExtraInRange(sizes, arena, total, reserved);
    var m := Shared(|sizes|, total, reserved);
    var keys := Negated(Remainders(sizes, m, arena));
    StableOrder.OrderDistinct(keys);
    var ranked := Ranked(sizes, m, arena);
    BasesSum(sizes, m, arena, reserved);
    BumpEach(Bases(sizes, m, arena, reserved), ranked[..Extra(sizes, m, arena)]);
  }

  /** A winner's remainder is at least as large as a loser's, and at equal
      remainders the winner stands earlier. */
  lemma WinnersLead(sizes: seq<int>, m: int, arena: int, extra: nat, i: nat, j: nat)
    requires arena > 0 && extra <= |sizes| && i < |sizes| && j < |sizes|
    requires i in Ranked(sizes, m, arena)[..extra] && j !in Ranked(sizes, m, arena)[..extra]
    ensures var r := Remainders(sizes, m, arena); r[i] > r[j] || (r[i] == r[j] && i < j)
  {
    var keys := Negated(Remainders(sizes, m, arena));
    var ranked := Ranked(sizes, m, arena);
    var a :| 0 <= a < extra && ranked[..extra][a] == i;
    assert j in ranked;
    var b :| 0 <= b < |ranked| && ranked[b] == j;
    assert b >= extra;
    assert StableOrder.Before(keys, ranked[a], ranked[b]);
  }

  /** Every span with a spare cell has a non-zero remainder. */
  lemma WinnersHaveRemainder(sizes: seq<int>, arena: int, total: int, reserved: bool, i: nat)
    requires Splittable(sizes, arena, total, reserved) && i < |sizes|
    requires arena > 0
    requires var m := Shared(|sizes|, total, reserved);
             0 <= Extra(sizes, m, arena) <= |sizes| && i in Ranked(sizes, m, arena)[..Extra(sizes, m, arena)]
    ensures Remainders(sizes, Shared(|sizes|, total, reserved), arena)[i] > 0
  {
    var m := Shared(|sizes|, total, reserved);
    var extra := Extra(sizes, m, arena);
    var r := Remainders(sizes, m, arena);
    ExtraInRange(sizes, arena, total, reserved);
    if r[i] == 0 {
      var top := Ranked(sizes, m, arena)[..extra];
      forall j: nat | j < |sizes| && j !in top ensures r[j] <= 0 {
        WinnersLead(sizes, m, arena, extra, i, j);
      }
      PositivesAmong(r, top);
      assert false;
    }
  }

  /** A list that names every positive entry is at least as long as their number. */
  lemma {:induction false} PositivesAmong(s: seq<int>, named: seq<nat>)
    requires forall i: nat :: i < |s| && s[i] > 0 ==> i in named
    ensures Positives(s) <= |named|
  {
    var hit := set i: nat | i < |s| && s[i] > 0;
    PositivesAsSet(s);
    var listed := set i: nat | i in named;
    SubsetSize(hit, listed);
    ListedSize(named);
  }

  lemma {:induction false} PositivesAsSet(s: seq<int>)
    ensures Positives(s) == |set i: nat | i < |s| && s[i] > 0|
  {
    var hit := set i: nat | i < |s| && s[i] > 0;
    if s == [] {
      assert hit == {};
    } else {
      var n := |s| - 1;
      PositivesAsSet(s[..n]);
      var before := set i: nat | i < |s[..n]| && s[..n][i] > 0;
      assert hit == before + (if s[n] > 0 then {n} else {});
    }
  }

  lemma {:induction false} ListedSize(named: seq<nat>)
    ensures |set i: nat | i in named| <= |named|
  {
    if named != [] {
      var front, last := named[..|named| - 1], named[|named| - 1];
      ListedSize(front);
      assert named == front + [last];
      assert (set i: nat | i in named) == (set i: nat | i in front) + {last};
    }
  }

  /** The anatomy of an apportionment without division: quotient, remainder and
      who won a spare cell. */
  lemma Parts(sizes: seq<int>, arena: int, total: int, reserved: bool)
    returns (q: seq<int>, r: seq<int>, won: seq<bool>)
    requires Splittable(sizes, arena, total, reserved)
    ensures arena > 0 && |q| == |r| == |won| == |sizes|
    ensures var m := Shared(|sizes|, total, reserved);
            && m >= 0
            && forall i :: 0 <= i < |sizes| ==> 0 <= r[i] < arena && m * sizes[i] == arena * q[i] + r[i]
    ensures forall i :: 0 <= i < |sizes| ==>
              Counts(sizes, arena, total, reserved)[i] == (if reserved then 1 else 0) + q[i] + (if won[i] then 1 else 0)
    ensures forall i :: 0 <= i < |sizes| && won[i] ==> r[i] > 0
    ensures forall i, j :: 0 <= i < |sizes| && 0 <= j < |sizes| && won[i] && !won[j] ==>
              r[i] > r[j] || (r[i] == r[j] && i < j)
  {
    CountsFacts(sizes, arena, total, reserved);
    var m := Shared(|sizes|, total, reserved);
    var extra := Extra(sizes, m, arena);
    var top := Ranked(sizes, m, arena)[..extra];
    q, r := Floors(sizes, m, arena), Remainders(sizes, m, arena);
    won := seq(|sizes|, i requires 0 <= i < |sizes| => i in top);
    forall i | 0 <= i < |sizes| ensures 0 <= r[i] < arena && m * sizes[i] == arena * q[i] + r[i] {
      DivMod(m * sizes[i], arena);
    }
    forall i | 0 <= i < |sizes| && won[i] ensures r[i] > 0 {
      WinnersHaveRemainder(sizes, arena, total, reserved, i);
    }
    forall i, j | 0 <= i < |sizes| && 0 <= j < |sizes| && won[i] && !won[j]
      ensures r[i] > r[j] || (r[i] == r[j] && i < j)
    {
      WinnersLead(sizes, m, arena, extra, i, j);
    }
  }

  /** Quota rule: apart from the reserved cell, a count is the floor or the
      ceiling of the span's exact share, and the share itself when that is whole. */
  lemma QuotaRule(sizes: seq<int>, arena: int, total: int, reserved: bool, i: nat)
    requires Splittable(sizes, arena, total, reserved) && i < |sizes|
    ensures arena > 0
    ensures var share := Counts(sizes, arena, total, reserved)[i] - (if reserved then 1 else 0);
            var exact := Shared(|sizes|, total, reserved) * sizes[i];
            && (share - 1) * arena < exact < (share + 1) * arena
            && forall k :: exact == k * arena ==> share == k
  {
    var q, r, won := Parts(sizes, arena, total, reserved);
    var exact := Shared(|sizes|, total, reserved) * sizes[i];
    QuotaBracket(exact, arena, q[i], r[i], won[i]);
    forall k | exact == k * arena ensures q[i] == k && !won[i] {
      QuotientUnique(exact, arena, q[i], r[i], k, 0);
    }
  }

  lemma FloorNonNegative(x: int, arena: int, q: int, r: int)
    requires arena > 0 && x >= 0 && x == arena * q + r && 0 <= r < arena
    ensures q >= 0
  {
    if q < 0 {
      MulMonotone(q, -1, arena);
    }
  }

  /** No span goes negative, and with reservation none goes without a cell. */
  lemma CountsFloor(sizes: seq<int>, arena: int, total: int, reserved: bool)
    requires Splittable(sizes, arena, total, reserved)
    ensures forall i :: 0 <= i < |sizes| ==>
              Counts(sizes, arena, total, reserved)[i] >= (if reserved then 1 else 0)
  {
    var q, r, won := Parts(sizes, arena, total, reserved);
    forall i | 0 <= i < |sizes| ensures q[i] >= 0 {
      MulNonNegative(Shared(|sizes|, total, reserved), sizes[i]);
      FloorNonNegative(Shared(|sizes|, total, reserved) * sizes[i], arena, q[i], r[i]);
    }
  }

  lemma QuotaBracket(x: int, arena: int, q: int, r: int, won: bool)
    requires arena > 0 && x == arena * q + r && 0 <= r < arena && (won ==> r > 0)
    ensures var share := q + (if won then 1 else 0); (share - 1) * arena < x < (share + 1) * arena
  {
    Distribute(arena, q, 1);
    Distribute(arena, q, 2);
    DistributeMinus(arena, q, 1);
  }

  /** A larger span never gets fewer cells, and equal spans differ by at most
      one cell, in favour of the earlier one. */
  lemma LargerGetsNoFewer(sizes: seq<int>, arena: int, total: int, reserved: bool, i: nat, j: nat)
    requires Splittable(sizes, arena, total, reserved) && i < |sizes| && j < |sizes|
    ensures var counts := Counts(sizes, arena, total, reserved);
            && (sizes[i] > sizes[j] ==> counts[i] >= counts[j])
            && (sizes[i] == sizes[j] && i < j ==> counts[j] <= counts[i] <= counts[j] + 1)
  {
    var q, r, won := Parts(sizes, arena, total, reserved);
    var m := Shared(|sizes|, total, reserved);
    if sizes[i] > sizes[j] {
      LargerShare(sizes[i], sizes[j], m, arena, q[i], r[i], q[j], r[j]);
    } else if sizes[i] == sizes[j] {
      QuotientUnique(m * sizes[i], arena, q[i], r[i], q[j], r[j]);
    }
  }

  lemma LargerShare(a: int, b: int, m: int, arena: int, qa: int, ra: int, qb: int, rb: int)
    requires a > b && m >= 0 && arena > 0
    requires m * a == arena * qa + ra && 0 <= ra < arena && m * b == arena * qb + rb && 0 <= rb < arena
    ensures qa > qb || (qa == qb && (ra > rb || (ra == rb == 0)))
  {
    if m == 0 {
      QuotientUnique(0, arena, qa, ra, 0, 0);
      QuotientUnique(0, arena, qb, rb, 0, 0);
    } else {
      MulStrict(b, a, m);
      QuotientOrder(m * b, m * a, arena, qb, rb, qa, ra);
    }
  }

  /** How far an allocation strays from the exact shares, scaled by the arena. */
  function Deviations(shares: seq<int>, sizes: seq<int>, m: int, arena: int): (d: seq<int>)
    requires |shares| == |sizes|
    ensures |d| == |sizes|
  {
    seq(|sizes|, i requires 0 <= i < |sizes| => Abs(shares[i] * arena - m * sizes[i]))
  }

  lemma DeviationAt(shares: seq<int>, sizes: seq<int>, m: int, arena: int, i: nat)
    requires |shares| == |sizes| && i < |sizes|
    ensures Deviations(shares, sizes, m, arena)[i] == Abs(shares[i] * arena - m * sizes[i])
  {}

  /** One span's deviation is supported by a line of slope `slope` at its chosen
      share: `won` tells whether the choice was one above the floor. */
  lemma SupportingLine(d: int, won: bool, r: int, arena: int, slope: int)
    requires 0 <= r < arena && -arena <= slope <= arena
    requires if won then arena - 2 * r <= slope else slope <= arena - 2 * r
    ensures var chosen := if won then 1 else 0;
            Abs(d * arena - r) >= Abs(chosen * arena - r) + slope * (d - chosen)
  {
    Commute(slope, d);
    DistributeMinus(slope, d, 1);
    if d <= 0 {
      MulNonNegative(-d, arena + slope);
      Distribute(d, arena, slope);
      MulNonNegative(-d, arena);
    } else {
      MulNonNegative(d - 1, arena - slope);
      DistributeMinus(d - 1, arena, slope);
      DistributeMinus(arena, d, 1);
      DistributeMinus(slope, d, 1);
      MulNonNegative(d - 1, arena);
    }
  }

  lemma SupportedDeviation(other: int, q: int, won: bool, x: int, r: int, arena: int, slope: int)
    requires arena > 0 && -arena <= slope <= arena && x == arena * q + r && 0 <= r < arena
    requires if won then arena - 2 * r <= slope else slope <= arena - 2 * r
    ensures var share := q + (if won then 1 else 0);
            Abs(other * arena - x) >= Abs(share * arena - x) + slope * (other - share)
  {
    SupportingLine(other - q, won, r, arena, slope);
    DistributeMinus(arena, other, q);
    Distribute(arena, q, 1);
  }

  /** The shared part of each count. */
  ghost function Shares(sizes: seq<int>, arena: int, total: int, reserved: bool): (shares: seq<int>)
    requires Splittable(sizes, arena, total, reserved)
    ensures |shares| == |sizes|
  {
    var counts := Counts(sizes, arena, total, reserved);
    seq(|sizes|, i requires 0 <= i < |sizes| => counts[i] - (if reserved then 1 else 0))
  }

  /** Optimality: no allocation of the same number of shared cells, of any
      integers at all, has a smaller total deviation. */
  lemma LeastDeviation(sizes: seq<int>, arena: int, total: int, reserved: bool, other: seq<int>)
    requires Splittable(sizes, arena, total, reserved)
    requires |other| == |sizes| && Sum(other) == Shared(|sizes|, total, reserved)
    ensures var m := Shared(|sizes|, total, reserved);
            var shares := Shares(sizes, arena, total, reserved);
            Sum(Deviations(shares, sizes, m, arena)) <= Sum(Deviations(other, sizes, m, arena))
  {
    hide Sum, Deviations, Counts, Ranked, Extra;
    var m := Shared(|sizes|, total, reserved);
    var shares := Shares(sizes, arena, total, reserved);
    var q, r, won := Parts(sizes, arena, total, reserved);
    SharesSum(Counts(sizes, arena, total, reserved), shares, if reserved then 1 else 0);
    CountsFacts(sizes, arena, total, reserved);
    SupportedSum(shares, other, sizes, m, arena, q, r, won);
  }

  /** Shares that sit on floors and won cells deviate least among those with the same sum. */
  lemma SupportedSum(shares: seq<int>, other: seq<int>, sizes: seq<int>, m: int, arena: int,
                     q: seq<int>, r: seq<int>, won: seq<bool>)
    requires arena > 0 && |shares| == |other| == |sizes| == |q| == |r| == |won|
    requires Sum(shares) == Sum(other)
    requires forall i :: 0 <= i < |sizes| ==> 0 <= r[i] < arena && m * sizes[i] == arena * q[i] + r[i]
    requires forall i :: 0 <= i < |sizes| ==> shares[i] == q[i] + (if won[i] then 1 else 0)
    requires forall i, j :: 0 <= i < |sizes| && 0 <= j < |sizes| && won[i] && !won[j] ==> r[i] >= r[j]
    ensures Sum(Deviations(shares, sizes, m, arena)) <= Sum(Deviations(other, sizes, m, arena))
  {
    hide Sum, Deviations, Abs;
    var slope := Threshold(r, won, arena);
    var low, high := Deviations(shares, sizes, m, arena), Deviations(other, sizes, m, arena);
    forall i | 0 <= i < |sizes|
      ensures high[i] >= low[i] + slope * (other[i] - shares[i])
    {
      DeviationAt(shares, sizes, m, arena, i);
      DeviationAt(other, sizes, m, arena, i);
      SupportedDeviation(other[i], q[i], won[i], m * sizes[i], r[i], arena, slope);
    }
    SumSupported(low, high, shares, other, slope);
  }

  /** The slope at which handing out one more cell stops paying: the smallest
      winning remainder sets it. */
  lemma Threshold(r: seq<int>, won: seq<bool>, arena: int) returns (slope: int)
    requires arena > 0 && |r| == |won| && forall i :: 0 <= i < |r| ==> 0 <= r[i] < arena
    requires forall i, j :: 0 <= i < |r| && 0 <= j < |r| && won[i] && !won[j] ==> r[i] >= r[j]
    ensures -arena <= slope <= arena
    ensures forall i :: 0 <= i < |r| ==>
              if won[i] then arena - 2 * r[i] <= slope else slope <= arena - 2 * r[i]
  {
    slope := -arena;
    for k := 0 to |r|
      invariant -arena <= slope <= arena
      invariant forall i :: 0 <= i < k && won[i] ==> arena - 2 * r[i] <= slope
      invariant slope == -arena || exists w :: 0 <= w < k && won[w] && slope == arena - 2 * r[w]
    {
      if won[k] && arena - 2 * r[k] > slope {
        slope := arena - 2 * r[k];
      }
    }
  }

  lemma {:induction false} SharesSum(counts: seq<int>, shares: seq<int>, base: int)
    requires |counts| == |shares|
    requires forall i :: 0 <= i < |counts| ==> shares[i] == counts[i] - base
    ensures Sum(shares) == Sum(counts) - base * |counts|
  {
    if counts != [] {
      SharesSum(counts[..|counts| - 1], shares[..|shares| - 1], base);
      assert base * |counts| == base * (|counts| - 1) + base;
    }
  }

  lemma {:induction false} SumSupported(low: seq<int>, high: seq<int>, a: seq<int>, b: seq<int>, slope: int)
    requires |low| == |high| == |a| == |b|
    requires forall i :: 0 <= i < |low| ==> high[i] >= low[i] + slope * (b[i] - a[i])
    ensures Sum(high) >= Sum(low) + slope * (Sum(b) - Sum(a))
  {
    if low != [] {
      var n := |low| - 1;
      SumSupported(low[..n], high[..n], a[..n], b[..n], slope);
      var p, q := Sum(b[..n]) - Sum(a[..n]), b[n] - a[n];
      assert slope * (p + q) == slope * p + slope * q;
    }
  }
}
