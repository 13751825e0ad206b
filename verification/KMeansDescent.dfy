/** One iteration of the fit never increases the sum of squared distances to the
    nearest centroid, refills included. */
module KMeansDescent {
  import opened Counting
  import opened KMeans
  import opened Reals

  /** Sum over customers of the squared distance to the centroid they are assigned. */
  function AssignedCost(points: seq<Point>, a: seq<nat>, cs: seq<Point>): (cost: real)
    requires |a| == |points| && Within(a, |cs|)
    ensures cost >= 0.0
  {
    if a == [] then 0.0
    else
      var n := |a| - 1;
      AssignedCost(points[..n], a[..n], cs) + Squared(points[n], cs[a[n]])
  }

  /** Sum over customers of the squared distance to their nearest centroid. */
  function Cost(points: seq<Point>, cs: seq<Point>): real
    requires cs != []
  {
    AssignedCost(points, Assign(points, cs), cs)
  }

  lemma {:induction false} CostTermwise(points: seq<Point>, a: seq<nat>, cs: seq<Point>, b: seq<nat>, ds: seq<Point>)
    requires |a| == |points| == |b| && Within(a, |cs|) && Within(b, |ds|)
    requires forall i :: 0 <= i < |points| ==> Squared(points[i], cs[a[i]]) <= Squared(points[i], ds[b[i]])
    ensures AssignedCost(points, a, cs) <= AssignedCost(points, b, ds)
  {
    if a == [] {
    } else {
      var n := |a| - 1;
      CostTermwise(points[..n], a[..n], cs, b[..n], ds);
    }
  }

  /** No assignment costs less than the nearest one. */
  lemma NearestIsCheapest(points: seq<Point>, a: seq<nat>, cs: seq<Point>)
    requires cs != [] && |a| == |points| && Within(a, |cs|)
    ensures Cost(points, cs) <= AssignedCost(points, a, cs)
  {
    CostTermwise(points, Assign(points, cs), cs, a, cs);
  }

  // ---------- the mean minimises ----------

  /** How much one axis of a cluster of `n` customers with coordinate sum `s` saves
      when its centre moves from `q` to `x`. */
  function AxisGain(s: real, n: real, q: real, x: real): real {
    Product(x - q, 2.0 * s - n * (q + x))
  }

  lemma AxisStep(s: real, n: real, q: real, x: real, p: real)
    ensures AxisGain(s + p, n + 1.0, q, x) == AxisGain(s, n, q, x) + (Square(p - q) - Square(p - x))
  {
  }

  lemma AxisGainAtMean(s: real, n: real, q: real)
    requires n > 0.0
    ensures AxisGain(s, n, q, s / n) >= 0.0
  {
    var x := s / n;
    assert s == n * x;
    assert 2.0 * s - n * (q + x) == n * (x - q);
    assert Product(x - q, n * (x - q)) == n * Square(x - q);
    ScaleNonNegative(n, Square(x - q));
  }

  lemma ScaleNonNegative(n: real, y: real)
    requires n >= 0.0 && y >= 0.0
    ensures n * y >= 0.0
  {
  }

  function Gain(points: seq<Point>, a: seq<nat>, c: nat, q: Point, x: Point): real
    requires |a| == |points|
  {
    var s := SumOf(points, a, c);
    var n := Count(a, c) as real;
    AxisGain(s.r, n, q.r, x.r) + AxisGain(s.f, n, q.f, x.f) + AxisGain(s.m, n, q.m, x.m)
  }

  lemma GainStep(points: seq<Point>, a: seq<nat>, c: nat, q: Point, x: Point)
    requires a != [] && |a| == |points|
    ensures var n := |a| - 1;
      Gain(points, a, c, q, x) == Gain(points[..n], a[..n], c, q, x)
        + (if a[n] == c then Squared(points[n], q) - Squared(points[n], x) else 0.0)
  {
    var n := |a| - 1;
    if a[n] == c {
      var s := SumOf(points[..n], a[..n], c);
      var k := Count(a[..n], c) as real;
      assert Count(a, c) as real == k + 1.0;
      AxisStep(s.r, k, q.r, x.r, points[n].r);
      AxisStep(s.f, k, q.f, x.f, points[n].f);
      AxisStep(s.m, k, q.m, x.m, points[n].m);
    }
  }

  /** Moving one centre changes the cost by exactly that cluster's gain. */
  lemma {:induction false} ReplaceOneCentre(points: seq<Point>, a: seq<nat>, cs: seq<Point>, c: nat, x: Point)
    requires |a| == |points| && Within(a, |cs|) && c < |cs|
    ensures AssignedCost(points, a, cs) - AssignedCost(points, a, cs[c := x]) == Gain(points, a, c, cs[c], x)
  {
    if a == [] {
      EmptyGain(cs[c], x);
    } else {
      var n := |a| - 1;
      ReplaceOneCentre(points[..n], a[..n], cs, c, x);
      GainStep(points, a, c, cs[c], x);
    }
  }

  lemma EmptyGain(q: Point, x: Point)
    ensures Gain([], [], 0, q, x) == 0.0
    ensures forall c: nat :: Gain([], [], c, q, x) == 0.0
  {
    assert AxisGain(0.0, 0.0, q.r, x.r) == 0.0;
    assert AxisGain(0.0, 0.0, q.f, x.f) == 0.0;
    assert AxisGain(0.0, 0.0, q.m, x.m) == 0.0;
  }

  lemma MeanBeatsAnyCentre(points: seq<Point>, a: seq<nat>, cs: seq<Point>, c: nat)
    requires |a| == |points| && Within(a, |cs|) && c < |cs| && Count(a, c) >= 1
    ensures AssignedCost(points, a, cs[c := MeanOf(points, a, c)]) <= AssignedCost(points, a, cs)
  {
    var x := MeanOf(points, a, c);
    var s := SumOf(points, a, c);
    var n := Count(a, c) as real;
    ReplaceOneCentre(points, a, cs, c, x);
    AxisGainAtMean(s.r, n, cs[c].r);
    AxisGainAtMean(s.f, n, cs[c].f);
    AxisGainAtMean(s.m, n, cs[c].m);
  }

  /** For a fixed assignment no centres do better than the means. */
  lemma {:induction false} MeansMinimise(points: seq<Point>, a: seq<nat>, cs: seq<Point>, j: nat)
    requires |a| == |points| && Within(a, |cs|) && NoneEmpty(a, |cs|) && j <= |cs|
    ensures var means := Means(points, a, |cs|);
      AssignedCost(points, a, means[..j] + cs[j..]) <= AssignedCost(points, a, cs)
  {
    var means := Means(points, a, |cs|);
    if j == 0 {
      assert means[..0] + cs[0..] == cs;
    } else {
      MeansMinimise(points, a, cs, j - 1);
      var before := means[..j-1] + cs[j-1..];
      MeanBeatsAnyCentre(points, a, before, j - 1);
      assert before[j - 1 := MeanOf(points, a, j - 1)] == means[..j] + cs[j..];
    }
  }

  // ---------- no other centres do as well ----------

  /** No other centres cost less for this assignment. */
  ghost predicate BestCentres(points: seq<Point>, a: seq<nat>, cs: seq<Point>)
    requires |a| == |points| && Within(a, |cs|)
  {
    forall qs: seq<Point> :: |qs| == |cs| ==> AssignedCost(points, a, cs) <= AssignedCost(points, a, qs)
  }

  lemma MeansAreBest(points: seq<Point>, a: seq<nat>, k: nat)
    requires |a| == |points| && Within(a, k) && NoneEmpty(a, k)
    ensures BestCentres(points, a, Means(points, a, k))
  {
    var means := Means(points, a, k);
    forall qs: seq<Point> | |qs| == k ensures AssignedCost(points, a, means) <= AssignedCost(points, a, qs) {
      MeansMinimise(points, a, qs, k);
      assert means[..k] + qs[k..] == means;
    }
  }

  lemma SquareOfNone(n: real, y: real)
    requires n > 0.0 && y >= 0.0 && n * y <= 0.0
    ensures y == 0.0
  {
  }

  lemma AxisGainExactly(s: real, n: real, q: real)
    requires n > 0.0 && AxisGain(s, n, q, s / n) <= 0.0
    ensures q == s / n
  {
    var x := s / n;
    assert s == n * x;
    assert 2.0 * s - n * (q + x) == n * (x - q);
    assert Product(x - q, n * (x - q)) == n * Square(x - q);
    SquareOfNone(n, Square(x - q));
  }

  /** A centre other than the mean costs more. */
  lemma MeanBeatsStrictly(points: seq<Point>, a: seq<nat>, cs: seq<Point>, c: nat)
    requires |a| == |points| && Within(a, |cs|) && c < |cs| && Count(a, c) >= 1
    requires AssignedCost(points, a, cs) <= AssignedCost(points, a, cs[c := MeanOf(points, a, c)])
    ensures cs[c] == MeanOf(points, a, c)
  {
    var x := MeanOf(points, a, c);
    var s := SumOf(points, a, c);
    var n := Count(a, c) as real;
    ReplaceOneCentre(points, a, cs, c, x);
    hide AxisGain, AssignedCost, SumOf;
    AxisGainAtMean(s.r, n, cs[c].r);
    AxisGainAtMean(s.f, n, cs[c].f);
    AxisGainAtMean(s.m, n, cs[c].m);
    AxisGainExactly(s.r, n, cs[c].r);
    AxisGainExactly(s.f, n, cs[c].f);
    AxisGainExactly(s.m, n, cs[c].m);
  }

  /** The best centres are the means and no others. */
  lemma OnlyMeansAreBest(points: seq<Point>, a: seq<nat>, cs: seq<Point>)
    requires |a| == |points| && Within(a, |cs|) && NoneEmpty(a, |cs|)
    ensures BestCentres(points, a, cs) <==> cs == Means(points, a, |cs|)
  {
    hide AssignedCost, MeanOf;
    MeansAreBest(points, a, |cs|);
    if BestCentres(points, a, cs) {
      forall c | 0 <= c < |cs| ensures cs[c] == MeanOf(points, a, c) {
        var qs := cs[c := MeanOf(points, a, c)];
        assert AssignedCost(points, a, cs) <= AssignedCost(points, a, qs);
        MeanBeatsStrictly(points, a, cs, c);
      }
      assert cs == Means(points, a, |cs|);
    }
  }

  // ---------- the iteration ----------

  /** The centres a refill leaves behind: the old one where somebody was, the moved
      customer's own point where nobody was. */
  function CentresAfterRefill(points: seq<Point>, cs: seq<Point>, a: seq<nat>, b: seq<nat>): (qs: seq<Point>)
    requires |points| == |b| && NoneEmpty(b, |cs|)
    ensures |qs| == |cs|
  {
    seq(|cs|, c requires 0 <= c < |cs| => if Count(a, c) >= 1 then cs[c] else points[LastPlace(b, c)])
  }

  /** Under those centres the refill costs nothing: a moved customer is its own
      cluster's centre, and everybody else stayed. */
  lemma RefillCostsNothing(points: seq<Point>, cs: seq<Point>, a: seq<nat>, b: seq<nat>)
    requires cs != [] && |points| == |a| == |b| && Within(a, |cs|) && Within(b, |cs|) && NoneEmpty(b, |cs|)
    requires forall i :: 0 <= i < |a| && b[i] != a[i] ==> (Count(a, b[i]) == 0 && Count(b, b[i]) == 1)
    ensures AssignedCost(points, b, CentresAfterRefill(points, cs, a, b)) <= AssignedCost(points, a, cs)
  {
    var qs := CentresAfterRefill(points, cs, a, b);
    forall i | 0 <= i < |b| ensures Squared(points[i], qs[b[i]]) <= Squared(points[i], cs[a[i]]) {
      if b[i] == a[i] {
        MemberCounts(a, i);
      } else {
        OnlyPlace(b, i);
      }
    }
    CostTermwise(points, b, qs, a, cs);
  }

  /** Nearest assignment, refill, means: the centroids of the next iteration. */
  function NextCentroids(points: seq<Point>, cs: seq<Point>): (next: seq<Point>)
    requires cs != [] && |points| >= |cs|
    ensures |next| == |cs|
  {
    var a := Assign(points, cs);
    RefillEffect(points, a, cs);
    Means(points, Refill(points, a, cs), |cs|)
  }

  /** The next centroids are the best there are for the refilled nearest assignment. */
  lemma NextCentroidsAreBest(points: seq<Point>, cs: seq<Point>)
    requires cs != [] && |points| >= |cs|
    ensures BestCentres(points, Refill(points, Assign(points, cs), cs), NextCentroids(points, cs))
  {
    var a := Assign(points, cs);
    RefillEffect(points, a, cs);
    MeansAreBest(points, Refill(points, a, cs), |cs|);
  }

  /** The descent of Lloyd's algorithm, refills included. */
  lemma IterationNeverIncreasesCost(points: seq<Point>, cs: seq<Point>)
    requires cs != [] && |points| >= |cs|
    ensures Cost(points, NextCentroids(points, cs)) <= Cost(points, cs)
  {
    var a := Assign(points, cs);
    RefillEffect(points, a, cs);
    var b := Refill(points, a, cs);
    var qs := CentresAfterRefill(points, cs, a, b);
    RefillCostsNothing(points, cs, a, b);
    var next := Means(points, b, |cs|);
    MeansMinimise(points, b, qs, |cs|);
    assert next[..|cs|] + qs[|cs|..] == next;
    NearestIsCheapest(points, b, next);
  }
}
