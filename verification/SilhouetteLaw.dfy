/** What a silhouette means: each score over plain sums of distances, its sign and its ends, and
    the partitions that score 1. */
module SilhouetteLaw {
  import opened Counting
  import opened KMeans
  import opened Options
  import opened Reals
  import opened Silhouette
  import opened Sorting

  // ---------- mean distances ----------

  /** Distances from customer `i` to the others of cluster `c` among the first `n`, added up. */
  function Distances(dist: (Point, Point) -> real, points: seq<Point>, a: seq<nat>, i: nat, c: nat, n: nat): real
    requires i < |points| == |a| && n <= |a|
  {
    if n == 0 then 0.0
    else
      Distances(dist, points, a, i, c, n - 1)
      + (if a[n-1] == c && n - 1 != i then dist(points[i], points[n-1]) else 0.0)
  }

  /** How many others of cluster `c` there are among the first `n`. */
  function Others(a: seq<nat>, i: nat, c: nat, n: nat): nat
    requires n <= |a|
  {
    if n == 0 then 0 else Others(a, i, c, n - 1) + (if a[n-1] == c && n - 1 != i then 1 else 0)
  }

  function MeanTo(dist: (Point, Point) -> real, points: seq<Point>, a: seq<nat>, i: nat, c: nat): real
    requires i < |points| == |a| && Others(a, i, c, |a|) >= 1
  {
    Distances(dist, points, a, i, c, |a|) / Others(a, i, c, |a|) as real
  }

  lemma TotalOneMore(dist: (Point, Point) -> real, points: seq<Point>, i: nat, others: seq<nat>, j: nat)
    requires i < |points| && Within(others, |points|) && j < |points|
    ensures Within(others + [j], |points|)
    ensures (Total(dist, points, i, others + [j])
             == Total(dist, points, i, others) + (if j != i then dist(points[i], points[j]) else 0.0))
  {
    assert (others + [j])[..|others|] == others;
  }

  lemma MembersOneMore(a: seq<nat>, c: nat, n: nat)
    requires 0 < n <= |a|
    ensures Members(a[..n], c) == Members(a[..n-1], c) + (if a[n-1] == c then [n - 1] else [])
  {
    assert a[..n][..n-1] == a[..n-1];
  }

  lemma {:induction false} TotalIsDistances(dist: (Point, Point) -> real, points: seq<Point>, a: seq<nat>, i: nat, c: nat, n: nat)
    requires i < |points| == |a| && n <= |a|
    ensures Within(Members(a[..n], c), |points|)
    ensures Total(dist, points, i, Members(a[..n], c)) == Distances(dist, points, a, i, c, n)
  {
    if n == 0 {
    } else {
      TotalIsDistances(dist, points, a, i, c, n - 1);
      MembersOneMore(a, c, n);
      var before := Members(a[..n-1], c);
      hide Members, Total;
      if a[n-1] == c {
        TotalOneMore(dist, points, i, before, n - 1);
      } else {
        assert before + [] == before;
      }
    }
  }

  lemma {:induction false} OthersAreCounted(a: seq<nat>, i: nat, c: nat, n: nat)
    requires n <= |a|
    ensures Others(a, i, c, n) == Count(a[..n], c) - (if i < n && a[i] == c then 1 else 0)
  {
    if n == 0 {
    } else {
      OthersAreCounted(a, i, c, n - 1);
      assert a[..n][..n-1] == a[..n-1];
    }
  }

  lemma InsideIsMean(dist: (Point, Point) -> real, points: seq<Point>, a: seq<nat>, i: nat)
    requires i < |points| == |a|
    ensures Count(a, a[i]) == Others(a, i, a[i], |a|) + 1
    ensures Count(a, a[i]) >= 2 ==> Inside(dist, points, a, i) == MeanTo(dist, points, a, i, a[i])
  {
    OthersAreCounted(a, i, a[i], |a|);
    TotalIsDistances(dist, points, a, i, a[i], |a|);
    assert a[..|a|] == a;
  }

  lemma OtherMean(dist: (Point, Point) -> real, points: seq<Point>, a: seq<nat>, i: nat, c: nat)
    requires i < |points| == |a| && c != a[i]
    ensures Count(a, c) == Others(a, i, c, |a|)
    ensures Count(a, c) >= 1 ==> Total(dist, points, i, Members(a, c)) / Count(a, c) as real == MeanTo(dist, points, a, i, c)
  {
    OthersAreCounted(a, i, c, |a|);
    TotalIsDistances(dist, points, a, i, c, |a|);
    assert a[..|a|] == a;
  }

  ghost predicate IsOther(a: seq<nat>, i: nat, k: nat, c: nat)
    requires i < |a|
  {
    c < k && c != a[i] && Others(a, i, c, |a|) >= 1
  }

  /** The least mean distance to another cluster that holds somebody. */
  ghost predicate IsOutside(dist: (Point, Point) -> real, points: seq<Point>, a: seq<nat>, i: nat, k: nat, least: real)
    requires i < |points| == |a|
  {
    && (forall c: nat :: IsOther(a, i, k, c) ==> least <= MeanTo(dist, points, a, i, c))
    && (exists c: nat :: IsOther(a, i, k, c) && least == MeanTo(dist, points, a, i, c))
  }

  lemma {:induction false} OutsideIsLeast(dist: (Point, Point) -> real, points: seq<Point>, a: seq<nat>, i: nat, k: nat)
    requires i < |points| == |a|
    ensures var o := Outside(dist, points, a, i, k);
      if o.Some? then IsOutside(dist, points, a, i, k, o.value) else forall c: nat :: !IsOther(a, i, k, c)
  {
    hide MeanTo, Others, Total, Members;
    if k == 0 {
    } else {
      OutsideIsLeast(dist, points, a, i, k - 1);
      forall c: nat | c != k - 1 ensures IsOther(a, i, k, c) == IsOther(a, i, k - 1, c) {
      }
      if k - 1 != a[i] {
        OtherMean(dist, points, a, i, k - 1);
      }
    }
  }

  // ---------- one score ----------

  /** The balance of two mean distances: their difference over the larger of them. */
  ghost predicate IsBalance(inside: real, outside: real, s: real) {
    && Product(s, if inside >= outside then inside else outside) == outside - inside
    && (inside == outside ==> s == 0.0)
  }

  lemma QuotientTimes(x: real, y: real)
    requires y > 0.0
    ensures Product(x / y, y) == x
    ensures (x / y > 0.0 <==> x > 0.0) && (x / y == 0.0 <==> x == 0.0) && (x / y == 1.0 <==> x == y)
  {
    var q := x / y;
    assert q * y == x;
    SignOfProduct(q, y);
    SignOfProduct(-q, y);
    if q == 1.0 {
      assert x == 1.0 * y;
    }
  }

  /** A score is above 0 exactly when the customer is nearer its own cluster than any other, 0
      exactly when it is as near, and 1 exactly when it coincides with its own and no other. */
  lemma BalanceLaw(inside: real, outside: real)
    requires inside >= 0.0 && outside >= 0.0
    ensures var s := Balance(inside, outside);
      && IsBalance(inside, outside, s)
      && (s > 0.0 <==> inside < outside) && (s == 0.0 <==> inside == outside)
      && (s == 1.0 <==> inside == 0.0 && outside > 0.0)
  {
    var scale := if inside >= outside then inside else outside;
    if scale > 0.0 {
      QuotientTimes(outside - inside, scale);
    }
  }

  /** What a customer's score is. */
  ghost predicate IsScore(dist: (Point, Point) -> real, points: seq<Point>, a: seq<nat>, k: nat, i: nat, s: real)
    requires i < |points| == |a|
  {
    if Others(a, i, a[i], |a|) == 0 then s == 0.0
    else exists outside :: IsOutside(dist, points, a, i, k, outside) && IsBalance(MeanTo(dist, points, a, i, a[i]), outside, s)
  }

  /** Nearer its own cluster, on average, than the nearest other one. */
  ghost predicate NearerOwn(dist: (Point, Point) -> real, points: seq<Point>, a: seq<nat>, k: nat, i: nat)
    requires i < |points| == |a|
  {
    && Others(a, i, a[i], |a|) >= 1
    && forall c: nat :: IsOther(a, i, k, c) ==> MeanTo(dist, points, a, i, a[i]) < MeanTo(dist, points, a, i, c)
  }

  ghost predicate AtOwn(dist: (Point, Point) -> real, points: seq<Point>, a: seq<nat>, k: nat, i: nat)
    requires i < |points| == |a|
  {
    && Others(a, i, a[i], |a|) >= 1 && MeanTo(dist, points, a, i, a[i]) == 0.0
    && forall c: nat :: IsOther(a, i, k, c) ==> MeanTo(dist, points, a, i, c) > 0.0
  }

  lemma ScoreLaw(dist: (Point, Point) -> real, points: seq<Point>, a: seq<nat>, k: nat, i: nat)
    requires i < |points| == |a| && IsDistance(dist) && k >= 2 && NoneEmpty(a, k)
    ensures var s := Score(dist, points, a, k, i);
      && IsScore(dist, points, a, k, i, s)
      && (s > 0.0 <==> NearerOwn(dist, points, a, k, i))
      && (s == 1.0 <==> AtOwn(dist, points, a, k, i))
  {
    InsideIsMean(dist, points, a, i);
    OutsideIsLeast(dist, points, a, i, k);
    OutsideExists(dist, points, a, i, k);
    hide MeanTo, Others, Outside, Balance, IsBalance;
    if Count(a, a[i]) >= 2 {
      TotalIsNonNegative(dist, points, i, Members(a, a[i]));
      QuotientNonNegative(Total(dist, points, i, Members(a, a[i])), (Count(a, a[i]) - 1) as real);
      BalanceLaw(Inside(dist, points, a, i), Outside(dist, points, a, i, k).value);
    } else {
      MemberCounts(a, i);
    }
  }

  // ---------- the mean of the scores ----------

  function Sum(scores: seq<real>): real {
    if scores == [] then 0.0 else Sum(scores[..|scores|-1]) + scores[|scores|-1]
  }

  lemma {:induction false} ScoresAddUp(dist: (Point, Point) -> real, points: seq<Point>, a: seq<nat>, k: nat, chosen: seq<nat>)
    returns (scores: seq<real>)
    requires |points| == |a| && IsDistance(dist) && k >= 2 && NoneEmpty(a, k) && Within(chosen, |points|)
    ensures |scores| == |chosen| && Sum(scores) == ScoreSum(dist, points, a, k, chosen)
    ensures forall t :: 0 <= t < |chosen| ==> IsScore(dist, points, a, k, chosen[t], scores[t])
    ensures forall t :: 0 <= t < |chosen| ==> scores[t] == Score(dist, points, a, k, chosen[t])
  {
    hide Score, IsScore;
    if chosen == [] {
      scores := [];
    } else {
      var n := |chosen| - 1;
      var before := ScoresAddUp(dist, points, a, k, chosen[..n]);
      ScoreLaw(dist, points, a, k, chosen[n]);
      scores := before + [Score(dist, points, a, k, chosen[n])];
      assert scores[..n] == before;
    }
  }

  /** Whom the mean is taken over: everybody in order, or the sample past the limit. */
  ghost predicate IsSurvey(n: nat, v: nat -> real, chosen: seq<nat>)
    requires UnitStream(v)
  {
    if n > SILHOUETTE_MAX_CUSTOMERS then chosen == Sample(n, v)
    else |chosen| == n && forall i :: 0 <= i < n ==> chosen[i] == i
  }

  /** The silhouette is the mean of the scores of everybody, or of the sample. */
  lemma MeasureIsMeanScore(dist: (Point, Point) -> real, points: seq<Point>, a: seq<nat>, k: nat, v: nat -> real)
    returns (chosen: seq<nat>, scores: seq<real>)
    requires |points| == |a| && points != [] && IsDistance(dist) && NoneEmpty(a, k) && UnitStream(v) && k >= 2
    ensures IsSurvey(|points|, v, chosen) && Within(chosen, |points|) && |scores| == |chosen| > 0
    ensures forall t :: 0 <= t < |chosen| ==> IsScore(dist, points, a, k, chosen[t], scores[t])
    ensures Measure(dist, points, a, k, v).silhouette == Some(Sum(scores) / |chosen| as real)
  {
    hide Sample, IsScore, ScoreSum;
    chosen := Chosen(|points|, v);
    scores := ScoresAddUp(dist, points, a, k, chosen);
  }

  lemma {:induction false} FullSum(dist: (Point, Point) -> real, points: seq<Point>, a: seq<nat>, k: nat, chosen: seq<nat>)
    requires |points| == |a| && IsDistance(dist) && k >= 2 && NoneEmpty(a, k) && Within(chosen, |points|)
    ensures (ScoreSum(dist, points, a, k, chosen) == |chosen| as real
             <==> forall t :: 0 <= t < |chosen| ==> Score(dist, points, a, k, chosen[t]) == 1.0)
  {
    hide Score;
    if chosen == [] {
    } else {
      FullSum(dist, points, a, k, chosen[..|chosen|-1]);
    }
  }

  /** A silhouette is 1 exactly when everybody it is taken over coincides with the others of a
      cluster of two or more, and with no other cluster. */
  lemma PerfectExactly(dist: (Point, Point) -> real, points: seq<Point>, a: seq<nat>, k: nat, v: nat -> real) returns (chosen: seq<nat>)
    requires |points| == |a| && points != [] && IsDistance(dist) && NoneEmpty(a, k) && UnitStream(v) && k >= 2
    ensures IsSurvey(|points|, v, chosen) && Within(chosen, |points|)
    ensures (Measure(dist, points, a, k, v).silhouette == Some(1.0)
             <==> forall t :: 0 <= t < |chosen| ==> AtOwn(dist, points, a, k, chosen[t]))
  {
    hide Sample, AtOwn, Score, ScoreSum;
    chosen := Chosen(|points|, v);
    FullSum(dist, points, a, k, chosen);
    QuotientTimes(ScoreSum(dist, points, a, k, chosen), |chosen| as real);
    forall t | 0 <= t < |chosen|
      ensures Score(dist, points, a, k, chosen[t]) == 1.0 <==> AtOwn(dist, points, a, k, chosen[t])
    {
      ScoreLaw(dist, points, a, k, chosen[t]);
    }
  }

  // ---------- coinciding ----------

  lemma {:induction false} NoDistances(dist: (Point, Point) -> real, points: seq<Point>, a: seq<nat>, i: nat, c: nat, n: nat)
    requires i < |points| == |a| && n <= |a| && IsDistance(dist)
    ensures Distances(dist, points, a, i, c, n) >= 0.0
    ensures (Distances(dist, points, a, i, c, n) == 0.0
             <==> forall j :: 0 <= j < n && a[j] == c && j != i ==> dist(points[i], points[j]) == 0.0)
  {
    if n == 0 {
    } else {
      NoDistances(dist, points, a, i, c, n - 1);
      assert dist(points[i], points[n-1]) >= 0.0;
    }
  }

  /** A mean distance is 0 exactly when every distance is. */
  lemma MeanIsZeroExactly(dist: (Point, Point) -> real, points: seq<Point>, a: seq<nat>, i: nat, c: nat)
    requires i < |points| == |a| && IsDistance(dist) && Others(a, i, c, |a|) >= 1
    ensures MeanTo(dist, points, a, i, c) >= 0.0
    ensures (MeanTo(dist, points, a, i, c) == 0.0
             <==> forall j :: 0 <= j < |a| && a[j] == c && j != i ==> dist(points[i], points[j]) == 0.0)
  {
    NoDistances(dist, points, a, i, c, |a|);
    QuotientTimes(Distances(dist, points, a, i, c, |a|), Others(a, i, c, |a|) as real);
  }

  /** Coinciding with one's own, and with no other cluster, distance by distance. */
  lemma AtOwnExactly(dist: (Point, Point) -> real, points: seq<Point>, a: seq<nat>, k: nat, i: nat)
    requires i < |points| == |a| && IsDistance(dist)
    ensures (AtOwn(dist, points, a, k, i) <==>
               && (exists j :: 0 <= j < |a| && a[j] == a[i] && j != i)
               && (forall j :: 0 <= j < |a| && a[j] == a[i] && j != i ==> dist(points[i], points[j]) == 0.0)
               && (forall c: nat :: c < k && c != a[i] && c in a ==>
                     exists j :: 0 <= j < |a| && a[j] == c && dist(points[i], points[j]) > 0.0))
  {
    hide MeanTo, Others;
    OthersExactly(a, i, a[i], |a|);
    if Others(a, i, a[i], |a|) >= 1 {
      MeanIsZeroExactly(dist, points, a, i, a[i]);
    }
    forall c: nat | c != a[i]
      ensures Others(a, i, c, |a|) >= 1 <==> c in a
      ensures (Others(a, i, c, |a|) >= 1 ==>
                 (MeanTo(dist, points, a, i, c) > 0.0 <==> exists j :: 0 <= j < |a| && a[j] == c && dist(points[i], points[j]) > 0.0))
    {
      OthersExactly(a, i, c, |a|);
      if Others(a, i, c, |a|) >= 1 {
        MeanIsZeroExactly(dist, points, a, i, c);
        assert forall j :: 0 <= j < |a| ==> dist(points[i], points[j]) >= 0.0;
      }
    }
  }

  lemma {:induction false} OthersExactly(a: seq<nat>, i: nat, c: nat, n: nat)
    requires n <= |a|
    ensures Others(a, i, c, n) >= 1 <==> exists j :: 0 <= j < n && a[j] == c && j != i
  {
    if n == 0 {
    } else {
      OthersExactly(a, i, c, n - 1);
    }
  }

  // ---------- the sample ----------

  /** A draw picks among what is left in proportion: the whole part of its share of the places. */
  lemma PickIsProportional(n: nat, i: nat, u: real)
    requires i < n && 0.0 <= u < 1.0
    ensures var j := PickFrom(n, i, u); i <= j < n && (j - i) as real <= u * (n - i) as real < (j - i + 1) as real
  {
    ScaledDraw(n - i, u);
  }

  /** The draw for a place. */
  ghost function DrawFor(n: nat, i: nat, j: nat): (u: real)
    requires i <= j < n
    ensures 0.0 <= u < 1.0
  {
    ShareIsUnit((j - i) as real, (n - i) as real);
    (j - i) as real / (n - i) as real
  }

  lemma ShareIsUnit(x: real, y: real)
    requires 0.0 <= x < y
    ensures 0.0 <= x / y < 1.0 && x / y * y == x
  {
    var q := x / y;
    assert q * y == x;
  }

  lemma DrawPicks(n: nat, i: nat, j: nat)
    requires i <= j < n
    ensures PickFrom(n, i, DrawFor(n, i, j)) == j
  {
    ShareIsUnit((j - i) as real, (n - i) as real);
    PickIsProportional(n, i, DrawFor(n, i, j));
  }

  /** What was dealt stays dealt. */
  lemma {:induction false} DealtStays(n: nat, v: nat -> real, i: nat, m: nat)
    requires i <= m <= n && UnitStream(v)
    ensures Shuffled(n, v, m)[..i] == Shuffled(n, v, i)[..i]
    decreases m
  {
    if i < m {
      DealtStays(n, v, i, m - 1);
    }
  }

  lemma {:induction false} SameDraws(n: nat, v: nat -> real, w: nat -> real, m: nat)
    requires m <= n && UnitStream(v) && UnitStream(w) && forall t: nat :: t < m ==> v(t) == w(t)
    ensures Shuffled(n, v, m) == Shuffled(n, w, m)
  {
    if m == 0 {
    } else {
      SameDraws(n, v, w, m - 1);
    }
  }

  lemma DealOneMore(n: nat, v: nat -> real, m: nat)
    requires m < n && UnitStream(v)
    ensures var pool, j := Shuffled(n, v, m), PickFrom(n, m, v(m));
      && Shuffled(n, v, m + 1) == SwapAt(pool, m, j) && Permutation(pool, n)
      && Shuffled(n, v, m + 1)[..m] == pool[..m] && Shuffled(n, v, m + 1)[m] == pool[j]
  {
  }

  /** Who is still in the pool, from place m on. */
  lemma StillThere(n: nat, pool: seq<nat>, target: seq<nat>, m: nat) returns (j: nat)
    requires Permutation(pool, n) && Distinct(target) && Within(target, n) && m < |target| && m < n && pool[..m] == target[..m]
    ensures m <= j < n && pool[j] == target[m]
  {
    PermutationIsOnto(pool, n, target[m]);
    j :| 0 <= j < n && pool[j] == target[m];
    assert forall t :: 0 <= t < m ==> pool[t] == pool[..m][t] && target[..m][t] == target[t] && target[t] != target[m];
  }

  /** Every choice of customers, in every order, is dealt by some draws. */
  lemma {:induction false} EveryDealHappens(n: nat, target: seq<nat>) returns (v: nat -> real)
    requires Distinct(target) && Within(target, n) && |target| <= n
    ensures UnitStream(v) && Shuffled(n, v, |target|)[..|target|] == target
  {
    hide Shuffled, PickFrom, FloorOf, DrawFor;
    if target == [] {
      v := (t: nat) => 0.0;
    } else {
      var m := |target| - 1;
      assert target == target[..m] + [target[m]];
      var before := EveryDealHappens(n, target[..m]);
      DealOneMore(n, before, m);
      var pool := Shuffled(n, before, m);
      var j := StillThere(n, pool, target, m);
      var u := DrawFor(n, m, j);
      v := (t: nat) => if t == m then u else before(t);
      SameDraws(n, v, before, m);
      DrawPicks(n, m, j);
      DealOneMore(n, v, m);
      var dealt := Shuffled(n, v, m + 1);
      assert dealt[..m + 1] == dealt[..m] + [dealt[m]];
    }
  }

  lemma SamePlace(pool: seq<nat>, j: nat, k: nat)
    requires Distinct(pool) && j < |pool| && k < |pool| && pool[j] == pool[k]
    ensures j == k
  {
  }

  lemma LastPickIsFixed(n: nat, v: nat -> real, w: nat -> real, m: nat)
    requires m < n && UnitStream(v) && UnitStream(w) && Shuffled(n, v, m) == Shuffled(n, w, m)
    requires Shuffled(n, v, m + 1)[m] == Shuffled(n, w, m + 1)[m]
    ensures PickFrom(n, m, v(m)) == PickFrom(n, m, w(m)) && Shuffled(n, v, m + 1) == Shuffled(n, w, m + 1)
  {
    DealOneMore(n, v, m);
    DealOneMore(n, w, m);
    DealtPools(n, v, m);
    hide Shuffled, SwapAt, Permutation, PickFrom, UnitStream;
    SamePlace(Shuffled(n, v, m), PickFrom(n, m, v(m)), PickFrom(n, m, w(m)));
  }

  lemma OneLessStays(n: nat, v: nat -> real, m: nat, t: nat)
    requires t < m < n && UnitStream(v)
    ensures Shuffled(n, v, m + 1)[t] == Shuffled(n, v, m)[t]
  {
    DealOneMore(n, v, m);
    DealtPools(n, v, m);
    DealtPools(n, v, m + 1);
    assert Shuffled(n, v, m + 1)[..m][t] == Shuffled(n, v, m)[..m][t];
  }

  ghost predicate DealtAlike(n: nat, v: nat -> real, w: nat -> real, m: nat)
    requires m <= n && UnitStream(v) && UnitStream(w)
  {
    forall t: nat :: t < m ==> Shuffled(n, v, m)[t] == Shuffled(n, w, m)[t]
  }

  ghost predicate PickedAlike(n: nat, v: nat -> real, w: nat -> real, m: nat)
    requires m <= n && UnitStream(v) && UnitStream(w)
  {
    forall t: nat :: t < m ==> PickFrom(n, t, v(t)) == PickFrom(n, t, w(t))
  }

  /** And by no other picks: two deals that come out alike were picked alike. */
  lemma {:induction false} DealFixesPicks(n: nat, v: nat -> real, w: nat -> real, m: nat)
    requires m <= n && UnitStream(v) && UnitStream(w) && DealtAlike(n, v, w, m)
    ensures PickedAlike(n, v, w, m) && Shuffled(n, v, m) == Shuffled(n, w, m)
  {
    if m == 0 {
    } else {
      hide Shuffled, PickFrom, FloorOf, UnitStream;
      var k: nat := m - 1;
      assert Shuffled(n, v, m)[k] == Shuffled(n, w, m)[k];
      forall t: nat | t < k ensures Shuffled(n, v, k)[t] == Shuffled(n, w, k)[t] {
        OneLessStays(n, v, k, t);
        OneLessStays(n, w, k, t);
      }
      DealFixesPicks(n, v, w, k);
      LastPickIsFixed(n, v, w, k);
      forall t: nat | t < m ensures PickFrom(n, t, v(t)) == PickFrom(n, t, w(t)) {
        assert t < k || t == k;
      }
    }
  }

  lemma DealtPools(n: nat, v: nat -> real, m: nat)
    requires m <= n && UnitStream(v)
    ensures Distinct(Shuffled(n, v, m)) && |Shuffled(n, v, m)| == n
  {
  }
}
