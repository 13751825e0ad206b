/** The mean silhouette of a partition, over everybody or over a seeded partial
    Fisher-Yates sample, for any non-negative distance. */
module Silhouette {
  import opened Counting
  import opened KMeans
  import opened Options
  import opened Reals
  import opened Sorting

  const SILHOUETTE_MAX_CUSTOMERS: nat := 2000
  const SILHOUETTE_SAMPLE_SIZE: nat := 1000

  ghost predicate IsDistance(dist: (Point, Point) -> real) {
    forall p, q :: dist(p, q) >= 0.0
  }

  // ---------- the sample ----------

  function SwapAt(s: seq<nat>, i: nat, j: nat): seq<nat>
    requires i < |s| && j < |s|
  {
    s[i := s[j]][j := s[i]]
  }

  /** A number below n, uniform when the draw is. */
  function FloorOf(n: nat, u: real): (j: nat)
    requires n > 0 && 0.0 <= u < 1.0
    ensures j < n
  {
    ScaledDraw(n, u);
    (u * n as real).Floor
  }

  function PickFrom(n: nat, i: nat, u: real): (j: nat)
    requires i < n && 0.0 <= u < 1.0
    ensures i <= j < n
  {
    i + FloorOf(n - i, u)
  }

  /** The pool after the first `i` swaps of the shuffle. */
  function Shuffled(n: nat, v: nat -> real, i: nat): (pool: seq<nat>)
    requires i <= n && UnitStream(v)
    ensures Permutation(pool, n)
  {
    if i == 0 then seq(n, x => x)
    else SwapAt(Shuffled(n, v, i - 1), i - 1, PickFrom(n, i - 1, v(i - 1)))
  }

  function SampleSize(n: nat): nat {
    if SILHOUETTE_SAMPLE_SIZE <= n then SILHOUETTE_SAMPLE_SIZE else n
  }

  function Sample(n: nat, v: nat -> real): seq<nat>
    requires UnitStream(v)
  {
    Sort(Shuffled(n, v, SampleSize(n))[..SampleSize(n)], (x: nat, y: nat) => x <= y)
  }

  ghost predicate Ascending(s: seq<nat>) {
    forall i, j :: 0 <= i < j < |s| ==> s[i] < s[j]
  }

  /** A thousand (or everybody, if fewer) different customers, in ascending order. */
  lemma SampleIsAscending(n: nat, v: nat -> real)
    requires UnitStream(v)
    ensures |Sample(n, v)| == SampleSize(n) && Ascending(Sample(n, v)) && Within(Sample(n, v), n)
  {
    var deck := Shuffled(n, v, SampleSize(n));
    var pool := deck[..SampleSize(n)];
    assert forall i :: 0 <= i < |pool| ==> pool[i] == deck[i];
    SortedDeck(pool, n);
  }

  lemma SortedDeck(pool: seq<nat>, n: nat)
    requires Distinct(pool) && Within(pool, n)
    ensures var s := Sort(pool, (x: nat, y: nat) => x <= y); Ascending(s) && Within(s, n)
  {
    var le := (x: nat, y: nat) => x <= y;
    var s := Sort(pool, le);
    SortIsSorted(pool, le);
    DistinctTogether(pool, s);
    forall i | 0 <= i < |s| ensures s[i] < n {
      SameElements(pool, s, s[i]);
    }
    forall i, j | 0 <= i < j < |s| ensures s[i] < s[j] {
      assert le(s[i], s[j]);
    }
  }

  // ---------- one customer's score ----------

  function Members(a: seq<nat>, c: nat): (m: seq<nat>)
    ensures |m| == Count(a, c) && Within(m, |a|)
  {
    if a == [] then []
    else
      var n := |a| - 1;
      var before := Members(a[..n], c);
      if a[n] == c then before + [n] else before
  }

  /** Distances from customer `i` to the others of a list, added up. */
  function Total(dist: (Point, Point) -> real, points: seq<Point>, i: nat, others: seq<nat>): real
    requires i < |points| && Within(others, |points|)
  {
    if others == [] then 0.0
    else
      var n := |others| - 1;
      var before := Total(dist, points, i, others[..n]);
      if others[n] == i then before else before + dist(points[i], points[others[n]])
  }

  lemma {:induction false} TotalIsNonNegative(dist: (Point, Point) -> real, points: seq<Point>, i: nat, others: seq<nat>)
    requires i < |points| && Within(others, |points|) && IsDistance(dist)
    ensures Total(dist, points, i, others) >= 0.0
  {
    if others == [] {
    } else {
      TotalIsNonNegative(dist, points, i, others[..|others|-1]);
    }
  }

  /** Mean distance to the others of one's own cluster. */
  function Inside(dist: (Point, Point) -> real, points: seq<Point>, a: seq<nat>, i: nat): real
    requires i < |points| == |a| && Count(a, a[i]) >= 2
  {
    Total(dist, points, i, Members(a, a[i])) / (Count(a, a[i]) - 1) as real
  }

  function Closer(a: Option<real>, b: real): Option<real> {
    if a.None? || b < a.value then Some(b) else a
  }

  /** Least mean distance to another non-empty cluster below `k`; None without one. */
  function Outside(dist: (Point, Point) -> real, points: seq<Point>, a: seq<nat>, i: nat, k: nat): Option<real>
    requires i < |points| == |a|
  {
    if k == 0 then None
    else
      var before := Outside(dist, points, a, i, k - 1);
      if k - 1 == a[i] || Count(a, k - 1) == 0 then before
      else Closer(before, Total(dist, points, i, Members(a, k - 1)) / Count(a, k - 1) as real)
  }

  lemma {:induction false} OutsideExists(dist: (Point, Point) -> real, points: seq<Point>, a: seq<nat>, i: nat, k: nat)
    requires i < |points| == |a| && IsDistance(dist)
    ensures var o := Outside(dist, points, a, i, k);
      && (o.Some? ==> o.value >= 0.0)
      && (NoneEmpty(a, k) && (k >= 2 || (k == 1 && a[i] != 0)) ==> o.Some?)
  {
    if k == 0 {
    } else {
      OutsideExists(dist, points, a, i, k - 1);
      TotalIsNonNegative(dist, points, i, Members(a, k - 1));
      if Count(a, k - 1) > 0 {
        QuotientNonNegative(Total(dist, points, i, Members(a, k - 1)), Count(a, k - 1) as real);
      }
    }
  }

  lemma QuotientNonNegative(x: real, y: real)
    requires x >= 0.0 && y > 0.0
    ensures x / y >= 0.0
  {
  }

  function Balance(inside: real, outside: real): (s: real)
    requires inside >= 0.0 && outside >= 0.0
    ensures -1.0 <= s <= 1.0
  {
    var scale := if inside >= outside then inside else outside;
    if scale == 0.0 then 0.0
    else
      UnitQuotient(outside - inside, scale);
      (outside - inside) / scale
  }

  lemma UnitQuotient(x: real, y: real)
    requires y > 0.0 && -y <= x <= y
    ensures -1.0 <= x / y <= 1.0
  {
    var q := x / y;
    assert q * y == x;
    ProductOrder(q, 1.0, y);
    ProductOrder(-1.0, q, y);
  }

  lemma ProductOrder(p: real, q: real, y: real)
    requires y > 0.0
    ensures p > q ==> p * y > q * y
  {
    SignOfProduct(p - q, y);
  }

  /** A customer alone in their cluster scores 0. */
  function Score(dist: (Point, Point) -> real, points: seq<Point>, a: seq<nat>, k: nat, i: nat): (s: real)
    requires i < |points| == |a| && IsDistance(dist) && k >= 2 && NoneEmpty(a, k)
    ensures -1.0 <= s <= 1.0
  {
    MemberCounts(a, i);
    if Count(a, a[i]) == 1 then 0.0
    else
      OutsideExists(dist, points, a, i, k);
      TotalIsNonNegative(dist, points, i, Members(a, a[i]));
      QuotientNonNegative(Total(dist, points, i, Members(a, a[i])), (Count(a, a[i]) - 1) as real);
      Balance(Inside(dist, points, a, i), Outside(dist, points, a, i, k).value)
  }

  function ScoreSum(dist: (Point, Point) -> real, points: seq<Point>, a: seq<nat>, k: nat, chosen: seq<nat>): (s: real)
    requires |points| == |a| && IsDistance(dist) && k >= 2 && NoneEmpty(a, k) && Within(chosen, |points|)
    ensures -(|chosen| as real) <= s <= |chosen| as real
  {
    if chosen == [] then 0.0
    else
      var n := |chosen| - 1;
      ScoreSum(dist, points, a, k, chosen[..n]) + Score(dist, points, a, k, chosen[n])
  }

  function Chosen(n: nat, v: nat -> real): (s: seq<nat>)
    requires UnitStream(v)
    ensures Within(s, n) && Ascending(s)
    ensures n > 0 ==> s != []
    ensures |s| == if n > SILHOUETTE_MAX_CUSTOMERS then SILHOUETTE_SAMPLE_SIZE else n
  {
    if n > SILHOUETTE_MAX_CUSTOMERS then
      SampleIsAscending(n, v);
      Sample(n, v)
    else seq(n, i => i)
  }

  datatype Quality = Quality(silhouette: Option<real>, sample: Option<nat>)

  /** Undefined for one cluster; otherwise a mean between -1 and 1. */
  function Measure(dist: (Point, Point) -> real, points: seq<Point>, a: seq<nat>, k: nat, v: nat -> real): (q: Quality)
    requires |points| == |a| && points != [] && IsDistance(dist) && NoneEmpty(a, k) && UnitStream(v)
    ensures q.silhouette.Some? <==> k >= 2
    ensures q.silhouette.Some? ==> -1.0 <= q.silhouette.value <= 1.0
    ensures q.sample == if k >= 2 && |points| > SILHOUETTE_MAX_CUSTOMERS then Some(SILHOUETTE_SAMPLE_SIZE) else None
  {
    if k < 2 then Quality(None, None)
    else
      var chosen := Chosen(|points|, v);
      var total := ScoreSum(dist, points, a, k, chosen);
      UnitQuotient(total, |chosen| as real);
      Quality(Some(total / |chosen| as real), if |points| > SILHOUETTE_MAX_CUSTOMERS then Some(|chosen|) else None)
  }

  // ---------- the same, step by step ----------

  /** `_silhouette_sample`: swaps in a pool of every index, then sorts what was dealt. */
  method DealSample(n: nat, v: nat -> real) returns (chosen: seq<nat>)
    requires UnitStream(v)
    ensures chosen == Sample(n, v)
    ensures |chosen| == SampleSize(n) && Ascending(chosen) && Within(chosen, n)
  {
    hide Sort, Ascending, FloorOf;
    var pool := new nat[n](i => i);
    var size := SampleSize(n);
    var i := 0;
    assert pool[..] == Shuffled(n, v, 0);
    while i < size
      invariant i <= size
      invariant pool[..] == Shuffled(n, v, i)
    {
      ghost var before := pool[..];
      var j := PickFrom(n, i, v(i));
      pool[i], pool[j] := pool[j], pool[i];
      assert pool[..] == SwapAt(before, i, j);
      i := i + 1;
    }
    SampleIsAscending(n, v);
    assert pool[..size] == pool[..][..size];
    chosen := Sort(pool[..size], (x: nat, y: nat) => x <= y);
  }

  /** `_silhouette`: one pass over the chosen customers with the members of every
      cluster listed first. */
  method MeanSilhouette(dist: (Point, Point) -> real, points: seq<Point>, a: seq<nat>, k: nat, v: nat -> real)
    returns (q: Quality)
    requires |points| == |a| && points != [] && IsDistance(dist) && Within(a, k) && NoneEmpty(a, k) && UnitStream(v)
    ensures q == Measure(dist, points, a, k, v)
  {
    var n := |points|;
    if k < 2 {
      return Quality(None, None);
    }
    var chosen := seq(n, i => i);
    if n > SILHOUETTE_MAX_CUSTOMERS {
      chosen := DealSample(n, v);
    }
    assert chosen == Chosen(n, v);
    var total := SumScores(dist, points, a, k, chosen);
    q := Quality(Some(total / |chosen| as real), if n > SILHOUETTE_MAX_CUSTOMERS then Some(|chosen|) else None);
  }

  method SumScores(dist: (Point, Point) -> real, points: seq<Point>, a: seq<nat>, k: nat, chosen: seq<nat>)
    returns (total: real)
    requires |points| == |a| && IsDistance(dist) && k >= 2 && Within(a, k) && NoneEmpty(a, k) && Within(chosen, |points|)
    ensures total == ScoreSum(dist, points, a, k, chosen)
  {
    var members := ListMembers(a, k);
    total := 0.0;
    for t := 0 to |chosen|
      invariant total == ScoreSum(dist, points, a, k, chosen[..t])
    {
      assert chosen[..t+1][..t] == chosen[..t];
      var score := ScoreOne(dist, points, a, k, chosen[t], members);
      total := total + score;
    }
    assert chosen[..|chosen|] == chosen;
  }

  method ScoreOne(dist: (Point, Point) -> real, points: seq<Point>, a: seq<nat>, k: nat, i: nat, members: seq<seq<nat>>)
    returns (score: real)
    requires i < |points| == |a| && IsDistance(dist) && k >= 2 && Within(a, k) && NoneEmpty(a, k)
    requires |members| == k && forall c :: 0 <= c < k ==> members[c] == Members(a, c)
    ensures score == Score(dist, points, a, k, i)
  {
    var own := a[i];
    if |members[own]| == 1 {
      return 0.0;
    }
    MemberCounts(a, i);
    var inside := Total(dist, points, i, members[own]) / (|members[own]| - 1) as real;
    var outside: Option<real> := None;
    for c := 0 to k
      invariant outside == Outside(dist, points, a, i, c)
    {
      if c != own && members[c] != [] {
        outside := Closer(outside, Total(dist, points, i, members[c]) / |members[c]| as real);
      }
    }
    OutsideExists(dist, points, a, i, k);
    TotalIsNonNegative(dist, points, i, members[own]);
    QuotientNonNegative(Total(dist, points, i, members[own]), (|members[own]| - 1) as real);
    score := Balance(inside, outside.value);
  }

  method ListMembers(a: seq<nat>, k: nat) returns (members: seq<seq<nat>>)
    requires Within(a, k)
    ensures |members| == k && forall c :: 0 <= c < k ==> members[c] == Members(a, c)
  {
    members := seq(k, c => []);
    for index := 0 to |a|
      invariant |members| == k
      invariant forall c :: 0 <= c < k ==> members[c] == Members(a[..index], c)
    {
      assert a[..index+1][..index] == a[..index];
      members := members[a[index] := members[a[index]] + [index]];
    }
    assert a[..|a|] == a;
  }
}
