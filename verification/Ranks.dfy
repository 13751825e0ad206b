/** Average ranks by sorting and scanning blocks of equal values. */
module Ranks {
  import opened Sorting
  import opened Counting

  function CountBelow(values: seq<real>, v: real): nat {
    if values == [] then 0
    else CountBelow(values[..|values|-1], v) + (if values[|values|-1] < v then 1 else 0)
  }

  function CountEqual(values: seq<real>, v: real): nat {
    if values == [] then 0
    else CountEqual(values[..|values|-1], v) + (if values[|values|-1] == v then 1 else 0)
  }

  /** How many values are smaller, and half of how many others are equal. */
  function RankOf(values: seq<real>, v: real): real {
    CountBelow(values, v) as real + (CountEqual(values, v) as real - 1.0) / 2.0
  }

  // ---------- Counting through positions ----------

  ghost function PlacesBelow(values: seq<real>, v: real): set<nat> {
    set i: nat | i < |values| && values[i] < v
  }

  ghost function PlacesEqual(values: seq<real>, v: real): set<nat> {
    set i: nat | i < |values| && values[i] == v
  }

  lemma OnePlaceMore(values: seq<real>, n: nat, v: real)
    requires n == |values| - 1
    ensures PlacesBelow(values, v) == PlacesBelow(values[..n], v) + (if values[n] < v then {n} else {})
    ensures PlacesEqual(values, v) == PlacesEqual(values[..n], v) + (if values[n] == v then {n} else {})
  {
  }

  lemma {:induction false} CountsArePlaces(values: seq<real>, v: real)
    ensures CountBelow(values, v) == |PlacesBelow(values, v)|
    ensures CountEqual(values, v) == |PlacesEqual(values, v)|
  {
    if values == [] {
    } else {
      var n := |values| - 1;
      CountsArePlaces(values[..n], v);
      OnePlaceMore(values, n, v);
      assert n !in PlacesBelow(values[..n], v) && n !in PlacesEqual(values[..n], v);
    }
  }

  // ---------- The scan ----------

  function At(values: seq<real>, i: nat): real { if i < |values| then values[i] else 0.0 }

  function ByValue(values: seq<real>): (nat, nat) -> bool {
    (i: nat, j: nat) => At(values, i) <= At(values, j)
  }

  function UpTo(n: nat): (s: seq<nat>)
    ensures Permutation(s, n)
  {
    seq(n, i requires 0 <= i < n => i as nat)
  }

  /** Positions in order of value. */
  ghost predicate InOrder(values: seq<real>, order: seq<nat>) {
    && Permutation(order, |values|)
    && forall s, t :: 0 <= s < t < |order| ==> At(values, order[s]) <= At(values, order[t])
  }

  lemma SortedPositions(values: seq<real>)
    ensures InOrder(values, Sort(UpTo(|values|), ByValue(values)))
  {
    var order := Sort(UpTo(|values|), ByValue(values));
    SortIsSorted(UpTo(|values|), ByValue(values));
    DistinctTogether(UpTo(|values|), order);
    forall i | 0 <= i < |order| ensures order[i] < |values| {
      SameElements(UpTo(|values|), order, order[i]);
    }
    forall s, t | 0 <= s < t < |order| ensures At(values, order[s]) <= At(values, order[t]) {
      assert ByValue(values)(order[s], order[t]);
    }
  }

  /** Positions i to j of the order are exactly those holding `v`. */
  ghost predicate IsBlock(values: seq<real>, order: seq<nat>, i: nat, j: nat) {
    && i <= j < |order|
    && (forall t :: i <= t <= j ==> At(values, order[t]) == At(values, order[i]))
    && (forall t :: 0 <= t < i ==> At(values, order[t]) < At(values, order[i]))
    && (forall t :: j < t < |order| ==> At(values, order[i]) < At(values, order[t]))
  }

  lemma NotElsewhere(order: seq<nat>, i: nat, j: nat, t: nat)
    requires Distinct(order) && i <= j < |order| && t < |order|
    ensures order[t] in order[..i] <==> t < i
    ensures order[t] in order[i..j+1] <==> i <= t <= j
  {
    if order[t] in order[..i] {
      var u :| 0 <= u < i && order[u] == order[t];
    }
    if order[t] in order[i..j+1] {
      var u :| 0 <= u < j + 1 - i && order[i..j+1][u] == order[t];
      assert order[i + u] == order[t];
    }
    assert t < i ==> order[..i][t] == order[t];
    assert i <= t <= j ==> order[i..j+1][t - i] == order[t];
  }

  lemma WhereValuesSit(values: seq<real>, order: seq<nat>, i: nat, j: nat, x: nat)
    requires InOrder(values, order) && IsBlock(values, order, i, j) && x < |values|
    ensures values[x] < values[order[i]] <==> x in order[..i]
    ensures values[x] == values[order[i]] <==> x in order[i..j+1]
  {
    PermutationIsOnto(order, |values|, x);
    var t :| 0 <= t < |order| && order[t] == x;
    NotElsewhere(order, i, j, t);
    assert At(values, order[t]) == values[x];
  }

  lemma PiecesAreDistinct(order: seq<nat>, i: nat, j: nat)
    requires Distinct(order) && i <= j < |order|
    ensures Distinct(order[..i]) && Distinct(order[i..j+1])
    ensures forall x :: x in order[..i] || x in order[i..j+1] ==> x in order
  {
  }

  lemma BlockSizes(values: seq<real>, order: seq<nat>, i: nat, j: nat)
    requires InOrder(values, order) && IsBlock(values, order, i, j)
    ensures |PlacesBelow(values, values[order[i]])| == i
    ensures |PlacesEqual(values, values[order[i]])| == j + 1 - i
  {
    var v := values[order[i]];
    var below, equal := order[..i], order[i..j+1];
    PiecesAreDistinct(order, i, j);
    SetOfSeq(below);
    SetOfSeq(equal);
    forall x: nat | x < |values|
      ensures values[x] < v <==> x in below
      ensures values[x] == v <==> x in equal
    {
      WhereValuesSit(values, order, i, j, x);
    }
    assert forall x :: x in below || x in equal ==> x < |values|;
    hide IsBlock, InOrder, Permutation, Distinct;
    assert PlacesBelow(values, v) == set x | x in below;
    assert PlacesEqual(values, v) == set x | x in equal;
  }

  /** The mean position of a block is the rank its value should have. */
  lemma BlockRank(values: seq<real>, order: seq<nat>, i: nat, j: nat)
    requires InOrder(values, order) && IsBlock(values, order, i, j)
    ensures (i + j) as real / 2.0 == RankOf(values, values[order[i]])
  {
    CountsArePlaces(values, values[order[i]]);
    BlockSizes(values, order, i, j);
    hide PlacesBelow, PlacesEqual, IsBlock, CountBelow, CountEqual;
    assert RankOf(values, values[order[i]]) == i as real + ((j + 1 - i) as real - 1.0) / 2.0;
  }

  method FillBlock(out: array<real>, order: seq<nat>, i: nat, j: nat)
    requires Permutation(order, out.Length) && i <= j < |order|
    modifies out
    ensures forall t :: i <= t <= j ==> out[order[t]] == (i + j) as real / 2.0
    ensures forall t :: 0 <= t < |order| && !(i <= t <= j) ==> out[order[t]] == old(out[order[t]])
  {
    for t := i to j + 1
      invariant forall u :: i <= u < t ==> out[order[u]] == (i + j) as real / 2.0
      invariant forall u :: 0 <= u < |order| && !(i <= u < t) ==> out[order[u]] == old(out[order[u]])
    {
      out[order[t]] := (i + j) as real / 2.0;
    }
  }

  /** Gives each value its rank: stretches over a block of equal values, then fills it in. */
  method ComputeRanks(values: seq<real>) returns (out: array<real>)
    ensures out.Length == |values|
    ensures forall i :: 0 <= i < |values| ==> out[i] == RankOf(values, values[i])
  {
    var order := Sort(UpTo(|values|), ByValue(values));
    SortedPositions(values);
    hide Sort, UpTo, RankOf, CountBelow, CountEqual;
    out := new real[|values|](_ => 0.0);
    var i := 0;
    while i < |order|
      invariant 0 <= i <= |order|
      invariant forall t :: 0 <= t < i ==> out[order[t]] == RankOf(values, values[order[t]])
      invariant 0 < i < |order| ==> At(values, order[i-1]) < At(values, order[i])
    {
      var j := i;
      while j + 1 < |order| && values[order[j + 1]] == values[order[i]]
        invariant i <= j < |order|
        invariant forall t :: i <= t <= j ==> At(values, order[t]) == At(values, order[i])
      {
        j := j + 1;
      }
      BlockIsWhole(values, order, i, j);
      BlockRank(values, order, i, j);
      FillBlock(out, order, i, j);
      i := j + 1;
    }
    forall x: nat | x < |values| ensures out[x] == RankOf(values, values[x]) {
      PermutationIsOnto(order, |values|, x);
    }
  }

  lemma BlockIsWhole(values: seq<real>, order: seq<nat>, i: nat, j: nat)
    requires InOrder(values, order) && i <= j < |order|
    requires forall t :: i <= t <= j ==> At(values, order[t]) == At(values, order[i])
    requires i > 0 ==> At(values, order[i-1]) < At(values, order[i])
    requires j + 1 < |order| ==> At(values, order[j+1]) != At(values, order[i])
    ensures IsBlock(values, order, i, j)
  {
    forall t | 0 <= t < i ensures At(values, order[t]) < At(values, order[i]) {
      assert t < i - 1 ==> At(values, order[t]) <= At(values, order[i-1]);
    }
    forall t | j < t < |order| ensures At(values, order[i]) < At(values, order[t]) {
      assert At(values, order[i]) <= At(values, order[j+1]);
      assert t > j + 1 ==> At(values, order[j+1]) <= At(values, order[t]);
    }
  }

  // ---------- What the ranks are good for ----------

  /** Ranks order the positions as the values do, and tie where they tie. */
  lemma RanksKeepOrder(values: seq<real>, a: nat, b: nat)
    requires a < |values| && b < |values|
    ensures RankOf(values, values[a]) < RankOf(values, values[b]) <==> values[a] < values[b]
    ensures RankOf(values, values[a]) == RankOf(values, values[b]) <==> values[a] == values[b]
  {
    if values[a] < values[b] {
      SmallerRanksLower(values, a, b);
    } else if values[b] < values[a] {
      SmallerRanksLower(values, b, a);
    }
  }

  lemma SmallerRanksLower(values: seq<real>, a: nat, b: nat)
    requires a < |values| && b < |values| && values[a] < values[b]
    ensures RankOf(values, values[a]) < RankOf(values, values[b])
  {
    CountsArePlaces(values, values[a]);
    CountsArePlaces(values, values[b]);
    var lower := PlacesBelow(values, values[a]) + PlacesEqual(values, values[a]);
    assert a in PlacesEqual(values, values[a]) && b in PlacesEqual(values, values[b]);
    assert PlacesBelow(values, values[a]) !! PlacesEqual(values, values[a]);
    SubsetCardinality(lower, PlacesBelow(values, values[b]));
  }

  function SumOfRanks(values: seq<real>, probes: seq<real>): real {
    if probes == [] then 0.0
    else SumOfRanks(values, probes[..|probes|-1]) + RankOf(values, probes[|probes|-1])
  }

  /** Whatever ties, the ranks of n values come to n(n-1)/2, as 0 to n-1 do. */
  lemma {:induction false} RanksSum(values: seq<real>)
    ensures SumOfRanks(values, values) == (|values| * (|values| - 1)) as real / 2.0
  {
    if values == [] {
    } else {
      var n := |values| - 1;
      var rest, x := values[..n], values[n];
      RanksSum(rest);
      OneMoreValue(rest, x, rest);
      assert values == rest + [x];
      SumsMeet(n);
    }
  }

  lemma SumsMeet(n: nat)
    ensures (n * (n - 1)) as real / 2.0 + n as real == ((n + 1) * n) as real / 2.0
  {
    assert (n + 1) * n == n * (n - 1) + 2 * n;
  }

  /** A new value raises every rank above it by one and every equal one by a half, which its
      own rank makes up to one for each old value. */
  lemma {:induction false} OneMoreValue(values: seq<real>, x: real, probes: seq<real>)
    ensures SumOfRanks(values + [x], probes) - SumOfRanks(values, probes)
         == |probes| as real - CountBelow(probes, x) as real - CountEqual(probes, x) as real / 2.0
  {
    assert (values + [x])[..|values|] == values;
    if probes == [] {
    } else {
      OneMoreValue(values, x, probes[..|probes|-1]);
    }
  }
}
