/** The pieces of Lloyd's algorithm over exact reals: nearest centroid, k-means++
    start, empty-cluster refill and means, each as the function the imperative
    code of `KMeansFit` is proved to compute, with what makes each piece safe. */
module KMeans {
  import opened Counting
  import opened Reals
  import opened Sorting

  datatype Point = Point(r: real, f: real, m: real)

  ghost predicate UnitStream(u: nat -> real) {
    forall i: nat :: 0.0 <= u(i) < 1.0
  }

  function Squared(a: Point, b: Point): (d: real)
    ensures d >= 0.0
    ensures d == 0.0 <==> a == b
  {
    Square(a.r - b.r) + Square(a.f - b.f) + Square(a.m - b.m)
  }

  // ---------- nearest ----------

  /** `c` is at least as near as every centroid, and strictly nearer than the
      lower-numbered ones. */
  ghost predicate IsNearest(p: Point, cs: seq<Point>, c: nat) {
    && c < |cs|
    && (forall j :: 0 <= j < |cs| ==> Squared(p, cs[c]) <= Squared(p, cs[j]))
    && (forall j :: 0 <= j < c ==> Squared(p, cs[c]) < Squared(p, cs[j]))
  }

  function Nearest(p: Point, cs: seq<Point>): (c: nat)
    requires cs != []
    ensures IsNearest(p, cs, c)
  {
    if |cs| == 1 then 0
    else
      var n := |cs| - 1;
      var c := Nearest(p, cs[..n]);
      assert forall j :: 0 <= j < n ==> cs[..n][j] == cs[j];
      if Squared(p, cs[n]) < Squared(p, cs[c]) then n else c
  }

  function Assign(points: seq<Point>, cs: seq<Point>): (a: seq<nat>)
    requires cs != []
    ensures |a| == |points|
    ensures forall i :: 0 <= i < |a| ==> IsNearest(points[i], cs, a[i])
  {
    seq(|points|, i requires 0 <= i < |points| => Nearest(points[i], cs))
  }

  // ---------- cluster sizes ----------

  ghost predicate NoneEmpty(a: seq<nat>, k: nat) {
    forall c: nat :: c < k ==> Count(a, c) >= 1
  }

  /** The pigeonhole: with an empty cluster and at least as many customers as
      clusters, some cluster can spare one. */
  lemma SomeoneCanMove(a: seq<nat>, k: nat, empty: nat)
    requires Within(a, k) && |a| >= k && empty < k && Count(a, empty) == 0
    ensures exists i :: 0 <= i < |a| && Count(a, a[i]) >= 2
  {
    if forall i :: 0 <= i < |a| ==> Count(a, a[i]) < 2 {
      forall i, j | 0 <= i < j < |a| ensures a[i] != a[j] {
        if a[i] == a[j] { TwoMembers(a, i, j); }
      }
      forall x | x in a ensures x in Below(k) - {empty} {
        var i :| 0 <= i < |a| && a[i] == x;
        MemberCounts(a, i);
      }
      DistinctCardinality(a, Below(k) - {empty});
      assert false;
    }
  }

  // ---------- the empty-cluster refill ----------

  function OwnDistance(points: seq<Point>, a: seq<nat>, cs: seq<Point>, i: nat): (d: real)
    requires i < |a| == |points| && a[i] < |cs|
    ensures d >= 0.0
  {
    Squared(points[i], cs[a[i]])
  }

  /** `d` is the customer the policy moves: the farthest from their own centroid
      among clusters holding at least two, the lowest index on a tie. */
  ghost predicate IsDonor(points: seq<Point>, a: seq<nat>, cs: seq<Point>, d: nat)
    requires |a| == |points| && Within(a, |cs|)
  {
    && d < |a| && Count(a, a[d]) >= 2
    && (forall j :: 0 <= j < |a| && Count(a, a[j]) >= 2
          ==> OwnDistance(points, a, cs, j) <= OwnDistance(points, a, cs, d))
    && (forall j :: 0 <= j < d && Count(a, a[j]) >= 2
          ==> OwnDistance(points, a, cs, j) < OwnDistance(points, a, cs, d))
  }

  /** The scan for the donor among the first `n` customers; -1 when none can move. */
  function DonorUpTo(points: seq<Point>, a: seq<nat>, cs: seq<Point>, n: nat): (d: int)
    requires |a| == |points| && Within(a, |cs|) && n <= |a|
    ensures -1 <= d < n
  {
    if n == 0 then -1
    else
      var d := DonorUpTo(points, a, cs, n - 1);
      if Count(a, a[n-1]) < 2 then d
      else if d < 0 || OwnDistance(points, a, cs, n - 1) > OwnDistance(points, a, cs, d) then n - 1
      else d
  }

  lemma {:induction false} DonorUpToIsFarthest(points: seq<Point>, a: seq<nat>, cs: seq<Point>, n: nat)
    requires |a| == |points| && Within(a, |cs|) && n <= |a|
    ensures var d := DonorUpTo(points, a, cs, n);
      if d < 0 then forall j :: 0 <= j < n ==> Count(a, a[j]) < 2
      else
        && Count(a, a[d]) >= 2
        && (forall j :: 0 <= j < n && Count(a, a[j]) >= 2
              ==> OwnDistance(points, a, cs, j) <= OwnDistance(points, a, cs, d))
        && (forall j :: 0 <= j < d && Count(a, a[j]) >= 2
              ==> OwnDistance(points, a, cs, j) < OwnDistance(points, a, cs, d))
  {
    if n == 0 {
    } else {
      DonorUpToIsFarthest(points, a, cs, n - 1);
    }
  }

  function Donor(points: seq<Point>, a: seq<nat>, cs: seq<Point>, empty: nat): (d: nat)
    requires |a| == |points| && Within(a, |cs|) && |a| >= |cs|
    requires empty < |cs| && Count(a, empty) == 0
    ensures d < |a| && Count(a, a[d]) >= 2
  {
    SomeoneCanMove(a, |cs|, empty);
    DonorUpToIsFarthest(points, a, cs, |a|);
    DonorUpTo(points, a, cs, |a|)
  }

  lemma DonorIsFarthest(points: seq<Point>, a: seq<nat>, cs: seq<Point>, empty: nat)
    requires |a| == |points| && Within(a, |cs|) && |a| >= |cs|
    requires empty < |cs| && Count(a, empty) == 0
    ensures IsDonor(points, a, cs, Donor(points, a, cs, empty))
  {
    DonorUpToIsFarthest(points, a, cs, |a|);
  }

  /** The donor moves into the empty cluster. */
  function Move(points: seq<Point>, a: seq<nat>, cs: seq<Point>, empty: nat): (b: seq<nat>)
    requires |a| == |points| && Within(a, |cs|) && |a| >= |cs|
    requires empty < |cs| && Count(a, empty) == 0
    ensures |b| == |a| && Within(b, |cs|)
  {
    a[Donor(points, a, cs, empty) := empty]
  }

  /** Every cluster from `e` up that is empty receives its donor, lowest first. */
  function RefillFrom(points: seq<Point>, a: seq<nat>, cs: seq<Point>, e: nat): (b: seq<nat>)
    requires |a| == |points| && Within(a, |cs|) && |a| >= |cs| && e <= |cs|
    ensures |b| == |a| && Within(b, |cs|)
    decreases |cs| - e
  {
    if e == |cs| then a
    else if Count(a, e) != 0 then RefillFrom(points, a, cs, e + 1)
    else RefillFrom(points, Move(points, a, cs, e), cs, e + 1)
  }

  function Refill(points: seq<Point>, a: seq<nat>, cs: seq<Point>): (b: seq<nat>)
    requires |a| == |points| && Within(a, |cs|) && |a| >= |cs|
    ensures |b| == |a| && Within(b, |cs|)
  {
    RefillFrom(points, a, cs, 0)
  }

  /** How many of the clusters from `e` up are empty. */
  function EmptyFrom(a: seq<nat>, k: nat, e: nat): nat
    requires e <= k
    decreases k - e
  {
    if e == k then 0 else (if Count(a, e) == 0 then 1 else 0) + EmptyFrom(a, k, e + 1)
  }

  lemma {:induction false} SameEmpty(a: seq<nat>, b: seq<nat>, k: nat, e: nat)
    requires e <= k
    requires forall c: nat :: e <= c < k ==> (Count(a, c) == 0 <==> Count(b, c) == 0)
    ensures EmptyFrom(a, k, e) == EmptyFrom(b, k, e)
    decreases k - e
  {
    if e < k { SameEmpty(a, b, k, e + 1); }
  }

  /** The state of a refill half way: clusters below `e` are filled, and a customer
      is either where they started or alone in a cluster that started empty. */
  ghost predicate Refilling(a0: seq<nat>, a: seq<nat>, k: nat, e: nat) {
    && |a| == |a0| && Within(a, k)
    && (forall c: nat :: c < e && c < k ==> Count(a, c) >= 1)
    && (forall c: nat :: e <= c < k ==> (Count(a, c) == 0 <==> Count(a0, c) == 0))
    && (forall i :: 0 <= i < |a| && a[i] != a0[i] ==> Count(a0, a[i]) == 0 && Count(a, a[i]) == 1)
  }

  lemma RefillStep(points: seq<Point>, a0: seq<nat>, a: seq<nat>, cs: seq<Point>, e: nat)
    requires |a| == |points| && Within(a, |cs|) && |a| >= |cs| && e < |cs|
    requires Refilling(a0, a, |cs|, e) && Count(a, e) == 0
    ensures Refilling(a0, Move(points, a, cs, e), |cs|, e + 1)
  {
    var d := Donor(points, a, cs, e);
    var b := a[d := e];
    forall c: nat ensures Count(b, c) == Count(a, c) - (if a[d] == c then 1 else 0) + (if e == c then 1 else 0) {
      CountUpdate(a, d, e, c);
    }
    MemberCounts(a, d);
    forall i | 0 <= i < |b| && b[i] != a0[i]
      ensures Count(a0, b[i]) == 0 && Count(b, b[i]) == 1
    {
      if i != d {
        assert b[i] == a[i];
        assert a[i] != a[d] by {
          assert a[i] != a0[i] ==> Count(a, a[i]) == 1;
        }
        assert a[i] != e by { MemberCounts(a, i); }
      }
    }
  }

  lemma SkipStep(a0: seq<nat>, a: seq<nat>, k: nat, e: nat)
    requires e < k && Refilling(a0, a, k, e) && Count(a, e) != 0
    ensures Refilling(a0, a, k, e + 1)
  {
  }

  lemma RefillFromUnfolds(points: seq<Point>, a: seq<nat>, cs: seq<Point>, e: nat)
    requires |a| == |points| && Within(a, |cs|) && |a| >= |cs| && e < |cs|
    ensures Count(a, e) != 0 ==> RefillFrom(points, a, cs, e) == RefillFrom(points, a, cs, e + 1)
    ensures Count(a, e) == 0 ==> RefillFrom(points, a, cs, e) == RefillFrom(points, Move(points, a, cs, e), cs, e + 1)
  {
  }

  lemma {:induction false} RefillFromEffect(points: seq<Point>, a0: seq<nat>, a: seq<nat>, cs: seq<Point>, e: nat)
    requires |a| == |points| && Within(a, |cs|) && |a| >= |cs| && e <= |cs|
    requires Refilling(a0, a, |cs|, e)
    ensures Refilling(a0, RefillFrom(points, a, cs, e), |cs|, |cs|)
    decreases |cs| - e
  {
    if e < |cs| {
      RefillFromUnfolds(points, a, cs, e);
      if Count(a, e) != 0 {
        SkipStep(a0, a, |cs|, e);
        RefillFromEffect(points, a0, a, cs, e + 1);
      } else {
        RefillStep(points, a0, a, cs, e);
        RefillFromEffect(points, a0, Move(points, a, cs, e), cs, e + 1);
      }
    }
  }

  /** What a refill guarantees: no cluster is left empty, and whoever moved is alone
      in a cluster nobody was in. */
  lemma RefillEffect(points: seq<Point>, a: seq<nat>, cs: seq<Point>)
    requires |a| == |points| && Within(a, |cs|) && |a| >= |cs|
    ensures NoneEmpty(Refill(points, a, cs), |cs|)
    ensures var b := Refill(points, a, cs);
      forall i :: 0 <= i < |a| && b[i] != a[i] ==> (Count(a, b[i]) == 0 && Count(b, b[i]) == 1)
    ensures NoneEmpty(a, |cs|) ==> Refill(points, a, cs) == a
  {
    RefillFromEffect(points, a, a, cs, 0);
    var b := Refill(points, a, cs);
    if NoneEmpty(a, |cs|) {
      assert forall i :: 0 <= i < |a| ==> Count(a, b[i]) >= 1;
    }
  }

  // ---------- means ----------

  function Plus(a: Point, b: Point): Point {
    Point(a.r + b.r, a.f + b.f, a.m + b.m)
  }

  function SumOf(points: seq<Point>, a: seq<nat>, c: nat): Point
    requires |points| == |a|
  {
    if a == [] then Point(0.0, 0.0, 0.0)
    else
      var n := |a| - 1;
      var before := SumOf(points[..n], a[..n], c);
      if a[n] == c then Plus(before, points[n]) else before
  }

  function MeanOf(points: seq<Point>, a: seq<nat>, c: nat): Point
    requires |points| == |a| && Count(a, c) >= 1
  {
    var n := Count(a, c) as real;
    var s := SumOf(points, a, c);
    Point(s.r / n, s.f / n, s.m / n)
  }

  function Means(points: seq<Point>, a: seq<nat>, k: nat): (cs: seq<Point>)
    requires |points| == |a| && NoneEmpty(a, k)
    ensures |cs| == k
  {
    seq(k, c requires 0 <= c < k => MeanOf(points, a, c))
  }

  // ---------- the k-means++ start ----------

  function SumSeq(w: seq<real>): real {
    if w == [] then 0.0 else SumSeq(w[..|w|-1]) + w[|w|-1]
  }

  ghost predicate NonNegative(w: seq<real>) {
    forall i :: 0 <= i < |w| ==> w[i] >= 0.0
  }

  lemma {:induction false} PrefixSums(w: seq<real>, n: nat)
    requires NonNegative(w) && n <= |w|
    ensures 0.0 <= SumSeq(w[..n]) <= SumSeq(w)
    ensures SumSeq(w) > 0.0 ==> exists i :: 0 <= i < |w| && w[i] > 0.0
    ensures (exists i :: 0 <= i < n && w[i] > 0.0) ==> SumSeq(w[..n]) > 0.0
  {
    if w == [] {
      assert w[..n] == [];
    } else {
      var l := |w| - 1;
      if n == |w| {
        assert w[..n] == w;
        PrefixSums(w[..l], l);
        assert w[..l][..l] == w[..l];
        assert forall i :: 0 <= i < l ==> w[..l][i] == w[i];
      } else {
        PrefixSums(w[..l], n);
        assert w[..l][..n] == w[..n];
        assert forall i :: 0 <= i < l ==> w[..l][i] == w[i];
      }
    }
  }

  /** Inverse-transform sampling: `i` is where the running total of the positive
      weights first reaches `target`. */
  ghost predicate IsDraw(w: seq<real>, target: real, i: nat) {
    && i < |w| && w[i] > 0.0
    && SumSeq(w[..i+1]) >= target
    && (forall j :: 0 <= j < i && w[j] > 0.0 ==> SumSeq(w[..j+1]) < target)
  }

  lemma DrawIsUnique(w: seq<real>, target: real, i: nat, j: nat)
    requires IsDraw(w, target, i) && IsDraw(w, target, j)
    ensures i == j
  {
  }

  function DrawFrom(w: seq<real>, target: real, i: nat, pick: int): (d: int)
    requires i <= |w|
    decreases |w| - i
  {
    if i == |w| then pick
    else if w[i] <= 0.0 then DrawFrom(w, target, i + 1, pick)
    else if SumSeq(w[..i+1]) >= target then i
    else DrawFrom(w, target, i + 1, i)
  }

  lemma SumSeqStep(w: seq<real>, i: nat)
    requires i < |w|
    ensures SumSeq(w[..i+1]) == SumSeq(w[..i]) + w[i]
  {
    assert w[..i+1][..i] == w[..i];
  }

  lemma {:induction false} DrawFromIsDraw(w: seq<real>, target: real, i: nat, pick: int)
    requires NonNegative(w) && i <= |w| && SumSeq(w) > 0.0 && SumSeq(w) >= target
    requires forall j :: 0 <= j < i && w[j] > 0.0 ==> SumSeq(w[..j+1]) < target
    requires SumSeq(w[..i]) < target || forall j :: 0 <= j < i ==> w[j] <= 0.0
    ensures var d := DrawFrom(w, target, i, pick); d >= 0 && IsDraw(w, target, d)
    decreases |w| - i
  {
    hide SumSeq;
    if i == |w| {
      assert w[..i] == w;
      PrefixSums(w, |w|);
      assert false;
    } else {
      SumSeqStep(w, i);
      if w[i] <= 0.0 {
        DrawFromIsDraw(w, target, i + 1, pick);
      } else if SumSeq(w[..i+1]) < target {
        DrawFromIsDraw(w, target, i + 1, i);
      }
    }
  }

  function Draw(w: seq<real>, target: real): (d: nat)
    requires NonNegative(w) && SumSeq(w) > 0.0 && SumSeq(w) >= target
    ensures IsDraw(w, target, d)
  {
    DrawFromIsDraw(w, target, 0, -1);
    DrawFrom(w, target, 0, -1)
  }

  function FirstUnused(chosen: seq<nat>, n: nat, i: nat): (d: nat)
    requires i <= n && (forall j :: 0 <= j < i ==> j in chosen)
    requires exists j :: i <= j < n && j !in chosen
    ensures d < n && d !in chosen && (forall j :: 0 <= j < d ==> j in chosen)
    decreases n - i
  {
    if i !in chosen then i else FirstUnused(chosen, n, i + 1)
  }

  lemma SomeUnused(chosen: seq<nat>, n: nat)
    requires |chosen| < n
    ensures exists j :: 0 <= j < n && j !in chosen
  {
    if forall j :: 0 <= j < n ==> j in chosen {
      var used := set x | x in chosen;
      assert Below(n) <= used;
      SetOfSeq(chosen);
      SubsetCardinality(Below(n), used);
      assert false;
    }
  }

  function Min(a: real, b: real): real {
    if a <= b then a else b
  }

  /** Squared distance of one customer to the nearest centre chosen so far. */
  function Weight(points: seq<Point>, chosen: seq<nat>, i: nat): (w: real)
    requires chosen != [] && Within(chosen, |points|) && i < |points|
    ensures w >= 0.0
  {
    var n := |chosen| - 1;
    var d := Squared(points[i], points[chosen[n]]);
    if n == 0 then d else Min(Weight(points, chosen[..n], i), d)
  }

  lemma {:induction false} WeightIsNearestDistance(points: seq<Point>, chosen: seq<nat>, i: nat)
    requires chosen != [] && Within(chosen, |points|) && i < |points|
    ensures forall j :: 0 <= j < |chosen| ==> Weight(points, chosen, i) <= Squared(points[i], points[chosen[j]])
    ensures exists j :: 0 <= j < |chosen| && Weight(points, chosen, i) == Squared(points[i], points[chosen[j]])
  {
    var n := |chosen| - 1;
    if n > 0 {
      WeightIsNearestDistance(points, chosen[..n], i);
      assert forall j :: 0 <= j < n ==> chosen[..n][j] == chosen[j];
    }
    assert Weight(points, chosen, i) <= Squared(points[i], points[chosen[n]]);
  }

  function Weights(points: seq<Point>, chosen: seq<nat>): (w: seq<real>)
    requires chosen != [] && Within(chosen, |points|)
    ensures |w| == |points| && NonNegative(w)
  {
    seq(|points|, i requires 0 <= i < |points| => Weight(points, chosen, i))
  }

  /** The first centre's position: uniform over the customers. */
  function FirstPick(n: nat, u: real): (d: nat)
    requires n > 0 && 0.0 <= u < 1.0
    ensures d < n
    ensures d as real <= u * n as real < d as real + 1.0
  {
    ScaledDraw(n, u);
    AtMost((u * n as real).Floor, n - 1)
  }

  function AtMost(i: int, limit: int): int {
    if i <= limit then i else limit
  }

  lemma ScaledDraw(n: nat, u: real)
    requires n > 0 && 0.0 <= u < 1.0
    ensures 0.0 <= u * n as real < n as real
  {
  }

  function NextPick(points: seq<Point>, chosen: seq<nat>, u: real): (d: nat)
    requires 0 < |chosen| < |points| && 0.0 <= u < 1.0 && Within(chosen, |points|)
    ensures d < |points| && d !in chosen
  {
    var w := Weights(points, chosen);
    if SumSeq(w) > 0.0 then
      ScaledTarget(u, SumSeq(w));
      var d := Draw(w, Product(u, SumSeq(w)));
      PositiveIsUnchosen(points, chosen, d);
      d
    else
      SomeUnused(chosen, |points|);
      FirstUnused(chosen, |points|, 0)
  }

  /** A next centre is drawn in proportion to squared distance while any is left; once every
      customer coincides with a centre it is the first one not used. */
  lemma NextPickLaw(points: seq<Point>, chosen: seq<nat>, u: real)
    requires 0 < |chosen| < |points| && 0.0 <= u < 1.0 && Within(chosen, |points|)
    ensures var w, d := Weights(points, chosen), NextPick(points, chosen, u);
            && (SumSeq(w) > 0.0 ==> IsDraw(w, Product(u, SumSeq(w)), d))
            && (SumSeq(w) <= 0.0 ==> forall j :: 0 <= j < d ==> j in chosen)
  {
    var w := Weights(points, chosen);
    hide Weights, SumSeq, Product, IsDraw;
    if SumSeq(w) > 0.0 {
      ScaledTarget(u, SumSeq(w));
    } else {
      SomeUnused(chosen, |points|);
    }
  }

  lemma ScaledTarget(u: real, total: real)
    requires 0.0 <= u < 1.0 && total > 0.0
    ensures Product(u, total) <= total
  {
  }

  lemma PositiveIsUnchosen(points: seq<Point>, chosen: seq<nat>, d: nat)
    requires chosen != [] && Within(chosen, |points|) && d < |points|
    requires Weight(points, chosen, d) > 0.0
    ensures d !in chosen && points[d] !in PointsAt(points, chosen)
  {
    WeightIsNearestDistance(points, chosen, d);
    forall j | 0 <= j < |chosen| ensures points[chosen[j]] != points[d] {
      assert Weight(points, chosen, d) <= Squared(points[d], points[chosen[j]]);
    }
  }

  datatype Start = Start(chosen: seq<nat>, draws: nat)

  /** k-means++: `k` customers chosen one after the other. A draw is consumed for
      the first centre and for each later one the weights decide. */
  function Choose(points: seq<Point>, k: nat, u: nat -> real): (s: Start)
    requires 1 <= k <= |points| && UnitStream(u)
    ensures |s.chosen| == k && Within(s.chosen, |points|)
  {
    if k == 1 then Start([FirstPick(|points|, u(0))], 1)
    else
      var s := Choose(points, k - 1, u);
      var d := NextPick(points, s.chosen, u(s.draws));
      Start(s.chosen + [d], if SumSeq(Weights(points, s.chosen)) > 0.0 then s.draws + 1 else s.draws)
  }

  function PointsAt(points: seq<Point>, chosen: seq<nat>): (cs: seq<Point>)
    requires Within(chosen, |points|)
    ensures |cs| == |chosen|
    ensures forall i :: 0 <= i < |cs| ==> cs[i] == points[chosen[i]]
  {
    seq(|chosen|, i requires 0 <= i < |chosen| => points[chosen[i]])
  }

  function InitialCentroids(points: seq<Point>, k: nat, u: nat -> real): (cs: seq<Point>)
    requires 1 <= k <= |points| && UnitStream(u)
    ensures |cs| == k
  {
    PointsAt(points, Choose(points, k, u).chosen)
  }

  /** The start stands on `k` different customers. */
  lemma {:induction false} StartIsDistinctCustomers(points: seq<Point>, k: nat, u: nat -> real)
    requires 1 <= k <= |points| && UnitStream(u)
    ensures Distinct(Choose(points, k, u).chosen)
    ensures InitialCentroids(points, k, u) == PointsAt(points, Choose(points, k, u).chosen)
  {
    hide Weights, SumSeq;
    if k == 1 {
    } else {
      StartIsDistinctCustomers(points, k - 1, u);
      var s := Choose(points, k - 1, u);
      var d := NextPick(points, s.chosen, u(s.draws));
      assert Choose(points, k, u).chosen == s.chosen + [d];
    }
  }

  /** One draw for the first centre and one for every later one the weights decided. */
  ghost function DrawsTaken(points: seq<Point>, chosen: seq<nat>, j: nat): nat
    requires 1 <= j <= |chosen| && Within(chosen, |points|)
  {
    if j == 1 then 1
    else DrawsTaken(points, chosen, j - 1) + (if SumSeq(Weights(points, chosen[..j-1])) > 0.0 then 1 else 0)
  }

  /** What may be chosen after some centres: the weighted draw, or the first customer not used. */
  ghost predicate LawfulPick(points: seq<Point>, chosen: seq<nat>, u: real, d: nat)
    requires 0 < |chosen| && Within(chosen, |points|)
  {
    var w := Weights(points, chosen);
    if SumSeq(w) > 0.0 then IsDraw(w, Product(u, SumSeq(w)), d)
    else d !in chosen && forall j :: 0 <= j < d ==> j in chosen
  }

  lemma {:induction false} DrawsOfPrefix(points: seq<Point>, chosen: seq<nat>, d: nat, j: nat)
    requires 1 <= j <= |chosen| && Within(chosen, |points|) && d < |points|
    ensures DrawsTaken(points, chosen + [d], j) == DrawsTaken(points, chosen, j)
  {
    hide Weights, SumSeq;
    if j > 1 {
      DrawsOfPrefix(points, chosen, d, j - 1);
      assert (chosen + [d])[..j-1] == chosen[..j-1];
    }
  }

  /** Every centre is the lawful pick after those before it, under the draw that their
      weighted picks have left next. */
  ghost predicate FollowsLaw(points: seq<Point>, chosen: seq<nat>, u: nat -> real)
    requires Within(chosen, |points|)
  {
    forall j :: 1 <= j < |chosen| ==> LawfulPick(points, chosen[..j], u(DrawsTaken(points, chosen, j)), chosen[j])
  }

  lemma LawExtends(points: seq<Point>, chosen: seq<nat>, d: nat, u: nat -> real)
    requires chosen != [] && Within(chosen, |points|) && d < |points| && FollowsLaw(points, chosen, u)
    requires LawfulPick(points, chosen, u(DrawsTaken(points, chosen, |chosen|)), d)
    ensures FollowsLaw(points, chosen + [d], u)
  {
    hide LawfulPick, DrawsTaken;
    var more := chosen + [d];
    assert chosen[..|chosen|] == chosen;
    forall j | 1 <= j < |more| ensures LawfulPick(points, more[..j], u(DrawsTaken(points, more, j)), more[j]) {
      DrawsOfPrefix(points, chosen, d, j);
      assert more[..j] == chosen[..j];
    }
  }

  /** The whole start is fixed by its law. */
  lemma {:induction false} PicksFollowTheLaw(points: seq<Point>, k: nat, u: nat -> real)
    requires 1 <= k <= |points| && UnitStream(u)
    ensures var s := Choose(points, k, u);
      && s.chosen[0] == FirstPick(|points|, u(0))
      && s.draws == DrawsTaken(points, s.chosen, k)
      && FollowsLaw(points, s.chosen, u)
  {
    hide Weights, SumSeq, LawfulPick, NextPick, FollowsLaw, FirstPick;
    if k == 1 {
      OnePickIsLawful(points, Choose(points, 1, u).chosen, u);
    } else {
      var s := Choose(points, k - 1, u);
      var d := NextPick(points, s.chosen, u(s.draws));
      PicksFollowTheLaw(points, k - 1, u);
      NextIsLawful(points, s.chosen, u(s.draws));
      LawExtends(points, s.chosen, d, u);
      DrawsOfPrefix(points, s.chosen, d, k - 1);
      assert (s.chosen + [d])[..k-1] == s.chosen;
    }
  }

  lemma OnePickIsLawful(points: seq<Point>, chosen: seq<nat>, u: nat -> real)
    requires |chosen| == 1 && Within(chosen, |points|)
    ensures FollowsLaw(points, chosen, u)
  {
  }

  lemma NextIsLawful(points: seq<Point>, chosen: seq<nat>, u: real)
    requires 0 < |chosen| < |points| && 0.0 <= u < 1.0 && Within(chosen, |points|)
    ensures LawfulPick(points, chosen, u, NextPick(points, chosen, u))
  {
    NextPickLaw(points, chosen, u);
  }

  /** A centre is repeated only once every customer already stands on one. */
  lemma RepeatMeansExhausted(points: seq<Point>, chosen: seq<nat>, u: real)
    requires 0 < |chosen| < |points| && 0.0 <= u < 1.0 && Within(chosen, |points|)
    requires points[NextPick(points, chosen, u)] in PointsAt(points, chosen)
    ensures forall p :: p in points ==> p in PointsAt(points, chosen)
  {
    var w := Weights(points, chosen);
    var cs := PointsAt(points, chosen);
    if SumSeq(w) > 0.0 {
      PositiveIsUnchosen(points, chosen, NextPick(points, chosen, u));
      assert false;
    }
    forall p | p in points ensures p in cs {
      var i :| 0 <= i < |points| && points[i] == p;
      assert w[..|w|] == w;
      PrefixSums(w, |w|);
      assert w[i] == 0.0;
      WeightIsNearestDistance(points, chosen, i);
      var c :| 0 <= c < |chosen| && Weight(points, chosen, i) == Squared(points[i], points[chosen[c]]);
      assert cs[c] == points[i];
    }
  }
}
