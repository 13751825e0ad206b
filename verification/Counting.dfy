/** How often a number (a cluster, a label code) occurs in a sequence, and the
    pigeonhole facts that follow. */
module Counting {
  import opened Sorting

  function Count(s: seq<nat>, x: nat): nat {
    if s == [] then 0
    else Count(s[..|s|-1], x) + (if s[|s|-1] == x then 1 else 0)
  }

  lemma {:induction false} CountUpdate(s: seq<nat>, i: nat, v: nat, x: nat)
    requires i < |s|
    ensures Count(s[i := v], x) == Count(s, x) - (if s[i] == x then 1 else 0) + (if v == x then 1 else 0)
  {
    var n := |s| - 1;
    if i == n {
      assert s[i := v][..n] == s[..n];
    } else {
      assert s[i := v][..n] == s[..n][i := v];
      CountUpdate(s[..n], i, v, x);
    }
  }

  lemma {:induction false} MemberCounts(s: seq<nat>, i: nat)
    requires i < |s|
    ensures Count(s, s[i]) >= 1
  {
    if i < |s| - 1 {
      MemberCounts(s[..|s|-1], i);
    }
  }

  lemma {:induction false} TwoMembers(s: seq<nat>, i: nat, j: nat)
    requires i < j < |s| && s[i] == s[j]
    ensures Count(s, s[i]) >= 2
  {
    if j == |s| - 1 {
      MemberCounts(s[..j], i);
    } else {
      TwoMembers(s[..|s|-1], i, j);
    }
  }

  /** The last place an element occurs: its only one when it occurs once. */
  function LastPlace(s: seq<nat>, x: nat): (i: nat)
    requires Count(s, x) >= 1
    ensures i < |s| && s[i] == x
  {
    var n := |s| - 1;
    if s[n] == x then n else LastPlace(s[..n], x)
  }

  lemma OnlyPlace(s: seq<nat>, i: nat)
    requires i < |s| && Count(s, s[i]) == 1
    ensures LastPlace(s, s[i]) == i
  {
    var j := LastPlace(s, s[i]);
    if i < j { TwoMembers(s, i, j); } else if j < i { TwoMembers(s, j, i); }
  }

  lemma CountDistinct(s: seq<nat>, x: nat)
    requires Distinct(s)
    ensures Count(s, x) == if x in s then 1 else 0
  {
    if x in s {
      var i :| 0 <= i < |s| && s[i] == x;
      MemberCounts(s, i);
      AtMostOnce(s, x);
    } else {
      Absent(s, x);
    }
  }

  lemma {:induction false} Absent(s: seq<nat>, x: nat)
    requires x !in s
    ensures Count(s, x) == 0
  {
    if s == [] {
    } else {
      Absent(s[..|s|-1], x);
    }
  }

  lemma {:induction false} AtMostOnce(s: seq<nat>, x: nat)
    requires Distinct(s)
    ensures Count(s, x) <= 1
  {
    if s == [] {
    } else {
      var n := |s| - 1;
      if s[n] == x {
        Absent(s[..n], x);
      } else {
        AtMostOnce(s[..n], x);
      }
    }
  }

  function Below(k: nat): (s: set<nat>)
    ensures forall c: nat :: c in s <==> c < k
    ensures |s| == k
  {
    if k == 0 then {} else Below(k - 1) + {k - 1}
  }

  lemma SubsetCardinality<T>(a: set<T>, b: set<T>)
    requires a <= b
    ensures |a| <= |b|
    ensures |a| == |b| ==> a == b
  {
    assert b == a + (b - a);
  }

  lemma {:induction false} DistinctCardinality<T(!new)>(s: seq<T>, xs: set<T>)
    requires Distinct(s)
    requires forall x :: x in s ==> x in xs
    ensures |s| <= |xs|
  {
    if s == [] {
    } else {
      var n := |s| - 1;
      assert forall i :: 0 <= i < n ==> s[..n][i] == s[i];
      DistinctCardinality(s[..n], xs - {s[n]});
    }
  }

  /** A sequence without repetitions is as long as the set of its elements is large. */
  lemma {:induction false} DistinctSize<T(!new)>(s: seq<T>, xs: set<T>)
    requires Distinct(s)
    requires forall x :: x in s <==> x in xs
    ensures |s| == |xs|
  {
    if s == [] {
      assert xs == {};
    } else {
      var n := |s| - 1;
      assert s == s[..n] + [s[n]] && s[n] !in s[..n];
      DistinctSize(s[..n], xs - {s[n]});
    }
  }

  lemma {:induction false} SetOfSeq<T>(s: seq<T>)
    ensures |set x | x in s| <= |s|
    ensures |set x | x in s| == |s| <==> Distinct(s)
  {
    if s == [] {
      assert (set x | x in s) == {};
    } else {
      var n := |s| - 1;
      SetOfSeq(s[..n]);
      assert s == s[..n] + [s[n]];
      assert (set x | x in s) == (set x | x in s[..n]) + {s[n]};
      if Distinct(s) {
        assert s[n] !in s[..n];
      } else if Distinct(s[..n]) {
        assert s[n] in s[..n];
      }
    }
  }

  ghost predicate Within(s: seq<nat>, n: nat) {
    forall i :: 0 <= i < |s| ==> s[i] < n
  }

  ghost predicate Permutation(p: seq<nat>, n: nat) {
    |p| == n && Distinct(p) && Within(p, n)
  }

  /** A permutation of the numbers below `n` reaches every one of them. */
  lemma PermutationIsOnto(p: seq<nat>, n: nat, x: nat)
    requires Permutation(p, n) && x < n
    ensures x in p
  {
    var image := set y | y in p;
    SetOfSeq(p);
    assert image <= Below(n) by {
      assert forall y :: y in p ==> exists i :: 0 <= i < |p| && p[i] == y;
    }
    SubsetCardinality(image, Below(n));
    assert x in image;
  }
}
