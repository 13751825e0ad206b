/** The whole fit: its steps as loops over running values, each proved to compute the
    functions of `KMeans`, and what a finished fit guarantees. */
module KMeansFit {
  import opened Counting
  import opened KMeans
  import opened KMeansDescent
  import opened Reals
  import opened Silhouette
  import opened Sorting

  // ---------- the loops ----------

  method FindNearest(point: Point, cs: seq<Point>) returns (best: nat)
    requires cs != []
    ensures IsNearest(point, cs, best)
    ensures best == Nearest(point, cs)
  {
    best := 0;
    var bestDistance := Squared(point, cs[0]);
    for index := 1 to |cs|
      invariant best < index && bestDistance == Squared(point, cs[best])
      invariant forall j :: 0 <= j < index ==> bestDistance <= Squared(point, cs[j])
      invariant forall j :: 0 <= j < best ==> bestDistance < Squared(point, cs[j])
    {
      var distance := Squared(point, cs[index]);
      if distance < bestDistance {
        best, bestDistance := index, distance;
      }
    }
  }

  /** The scan over customers that may move: strict comparison, so the lowest index
      wins a tie. */
  method FindDonor(points: seq<Point>, assignments: array<nat>, sizes: array<nat>, cs: seq<Point>, ghost empty: nat)
    returns (donor: nat)
    requires assignments.Length == |points| >= |cs| == sizes.Length && Within(assignments[..], |cs|)
    requires forall c: nat :: c < |cs| ==> sizes[c] == Count(assignments[..], c)
    requires empty < |cs| && Count(assignments[..], empty) == 0
    ensures donor == Donor(points, assignments[..], cs, empty)
    ensures IsDonor(points, assignments[..], cs, donor)
  {
    ghost var a := assignments[..];
    var found, farthest := -1, -1.0;
    for index := 0 to |points|
      invariant found == DonorUpTo(points, a, cs, index)
      invariant farthest == if found < 0 then -1.0 else OwnDistance(points, a, cs, found)
    {
      assert a[index] == assignments[index];
      var cluster := assignments[index];
      if sizes[cluster] >= 2 {
        var distance := Squared(points[index], cs[cluster]);
        if distance > farthest {
          found, farthest := index, distance;
        }
      }
    }
    DonorIsFarthest(points, a, cs, empty);
    donor := found;
  }

  lemma MoveKeepsOthers(points: seq<Point>, a: seq<nat>, cs: seq<Point>, e: nat)
    requires |a| == |points| && Within(a, |cs|) && |a| >= |cs| && e < |cs| && Count(a, e) == 0
    ensures var d := Donor(points, a, cs, e); var b := Move(points, a, cs, e);
      forall c: nat :: Count(b, c) == if c == e then 1 else if c == a[d] then Count(a, c) - 1 else Count(a, c)
    ensures EmptyFrom(Move(points, a, cs, e), |cs|, e + 1) == EmptyFrom(a, |cs|, e + 1)
  {
    var d := Donor(points, a, cs, e);
    forall c: nat { CountUpdate(a, d, e, c); }
    SameEmpty(Move(points, a, cs, e), a, |cs|, e + 1);
  }

  /** `refill_empty_clusters`: in place, one empty cluster after the other. */
  method RefillInPlace(points: seq<Point>, assignments: array<nat>, cs: seq<Point>) returns (moved: nat)
    requires assignments.Length == |points| >= |cs| && Within(assignments[..], |cs|)
    modifies assignments
    ensures assignments[..] == Refill(points, old(assignments[..]), cs)
    ensures NoneEmpty(assignments[..], |cs|)
    ensures moved == EmptyFrom(old(assignments[..]), |cs|, 0)
  {
    hide Count, Donor, NoneEmpty;
    ghost var a0 := assignments[..];
    var sizes := CountSizes(assignments, |cs|);
    moved := 0;
    for empty := 0 to |cs|
      invariant Within(assignments[..], |cs|)
      invariant forall c: nat :: c < |cs| ==> sizes[c] == Count(assignments[..], c)
      invariant RefillFrom(points, assignments[..], cs, empty) == Refill(points, a0, cs)
      invariant moved + EmptyFrom(assignments[..], |cs|, empty) == EmptyFrom(a0, |cs|, 0)
    {
      if sizes[empty] == 0 {
        ghost var a := assignments[..];
        RefillFromUnfolds(points, a, cs, empty);
        MoveKeepsOthers(points, a, cs, empty);
        var donor := FindDonor(points, assignments, sizes, cs, empty);
        assert a[donor] == assignments[donor];
        sizes[assignments[donor]] := sizes[assignments[donor]] - 1;
        assignments[donor] := empty;
        sizes[empty] := 1;
        moved := moved + 1;
        assert assignments[..] == Move(points, a, cs, empty);
      }
    }
    RefillEffect(points, a0, cs);
  }

  method CountSizes(assignments: array<nat>, k: nat) returns (sizes: array<nat>)
    requires Within(assignments[..], k)
    ensures fresh(sizes) && sizes.Length == k
    ensures forall c: nat :: c < k ==> sizes[c] == Count(assignments[..], c)
  {
    sizes := new nat[k](c => 0);
    for i := 0 to assignments.Length
      invariant forall c: nat :: c < k ==> sizes[c] == Count(assignments[..i], c)
    {
      assert assignments[..i+1][..i] == assignments[..i];
      assert assignments[i] == assignments[..][i];
      sizes[assignments[i]] := sizes[assignments[i]] + 1;
    }
    assert assignments[..assignments.Length] == assignments[..];
  }

  method ComputeMeans(points: seq<Point>, a: seq<nat>, k: nat) returns (means: seq<Point>)
    requires |points| == |a| && Within(a, k) && NoneEmpty(a, k)
    ensures means == Means(points, a, k)
  {
    var sums := new Point[k](c => Point(0.0, 0.0, 0.0));
    var counts := new nat[k](c => 0);
    for i := 0 to |a|
      invariant forall c: nat :: c < k ==> sums[c] == SumOf(points[..i], a[..i], c) && counts[c] == Count(a[..i], c)
    {
      assert a[..i+1][..i] == a[..i] && points[..i+1][..i] == points[..i];
      counts[a[i]] := counts[a[i]] + 1;
      sums[a[i]] := Plus(sums[a[i]], points[i]);
    }
    assert a[..|a|] == a && points[..|a|] == points;
    means := [];
    for c := 0 to k
      invariant |means| == c && forall d :: 0 <= d < c ==> means[d] == MeanOf(points, a, d)
    {
      var n := counts[c] as real;
      means := means + [Point(sums[c].r / n, sums[c].f / n, sums[c].m / n)];
    }
  }

  /** The weighted draw: zero weights are skipped, the last positive one is kept for
      the case that the target is never reached. */
  method PickWeighted(w: seq<real>, target: real) returns (pick: nat)
    requires NonNegative(w) && SumSeq(w) > 0.0 && SumSeq(w) >= target
    ensures pick == Draw(w, target)
    ensures IsDraw(w, target, pick)
  {
    DrawFromIsDraw(w, target, 0, -1);
    var running, last := 0.0, -1;
    for index := 0 to |w|
      invariant running == SumSeq(w[..index])
      invariant DrawFrom(w, target, index, last) == Draw(w, target)
    {
      assert w[..index+1][..index] == w[..index];
      if w[index] > 0.0 {
        last := index;
        running := running + w[index];
        if running >= target {
          return index;
        }
      }
    }
    pick := last;
  }

  /** One more centre: drawn by weight, or the first unused customer once every
      weight is zero. */
  method PickNext(points: seq<Point>, chosen: seq<nat>, nearest: seq<real>, u: real) returns (pick: nat)
    requires 0 < |chosen| < |points| && 0.0 <= u < 1.0 && Within(chosen, |points|)
    requires nearest == Weights(points, chosen)
    ensures pick == NextPick(points, chosen, u)
  {
    hide SumSeq, Draw, Weights, FirstUnused;
    var total := SumSeq(nearest);
    if total > 0.0 {
      ScaledTarget(u, total);
      pick := PickWeighted(nearest, Product(u, total));
    } else {
      SomeUnused(chosen, |points|);
      pick := FirstUnused(chosen, |points|, 0);
    }
  }

  method PickStart(points: seq<Point>, k: nat, u: nat -> real) returns (centres: seq<Point>)
    requires 1 <= k <= |points| && UnitStream(u)
    ensures centres == InitialCentroids(points, k, u)
  {
    hide NextPick, FirstPick, SumSeq, Squared, Weights;
    var n := |points|;
    var chosen, draws := [FirstPick(n, u(0))], 1;
    centres := [points[chosen[0]]];
    var nearest := seq(n, i requires 0 <= i < n => Squared(points[i], points[chosen[0]]));
    FirstWeights(points, chosen[0]);
    while |centres| < k
      invariant 1 <= |centres| == |chosen| <= k
      invariant Choose(points, |chosen|, u) == Start(chosen, draws)
      invariant centres == PointsAt(points, chosen)
      invariant nearest == Weights(points, chosen)
    {
      var pick := PickNext(points, chosen, nearest, u(draws));
      if SumSeq(nearest) > 0.0 {
        draws := draws + 1;
      }
      WeightsStep(points, chosen, pick);
      chosen := chosen + [pick];
      centres := centres + [points[pick]];
      nearest := seq(n, i requires 0 <= i < n => Min(nearest[i], Squared(points[i], points[pick])));
    }
  }

  lemma FirstWeights(points: seq<Point>, first: nat)
    requires first < |points|
    ensures Weights(points, [first]) == seq(|points|, i requires 0 <= i < |points| => Squared(points[i], points[first]))
  {
    hide Squared;
  }

  lemma WeightsStep(points: seq<Point>, chosen: seq<nat>, pick: nat)
    requires chosen != [] && Within(chosen, |points|) && pick < |points|
    ensures Weights(points, chosen + [pick]) == seq(|points|, i requires 0 <= i < |points| =>
      Min(Weights(points, chosen)[i], Squared(points[i], points[pick])))
  {
    var more := chosen + [pick];
    assert more[..|chosen|] == chosen;
  }

  // ---------- the fit as a function ----------

  datatype Params = Params(k: nat, maxIterations: nat, tolerance: real) {
    predicate Valid() {
      k >= 1 && maxIterations >= 1 && tolerance >= 0.0
    }
  }

  datatype Row = Row(id: int, point: Point)

  /** Everything besides the rows that a fit depends on: the parameters, the two
      random streams their seed stands for, and how distances are measured. */
  datatype Setting = Setting(params: Params, start: nat -> real, sample: nat -> real, dist: (Point, Point) -> real) {
    ghost predicate Valid() {
      params.Valid() && UnitStream(start) && UnitStream(sample) && IsDistance(dist)
    }
  }

  function LargestMove(dist: (Point, Point) -> real, old_: seq<Point>, new_: seq<Point>): (m: real)
    requires |old_| == |new_| > 0
    ensures forall i :: 0 <= i < |old_| ==> dist(old_[i], new_[i]) <= m
    ensures exists i :: 0 <= i < |old_| && dist(old_[i], new_[i]) == m
  {
    var n := |old_| - 1;
    var d := dist(old_[n], new_[n]);
    if n == 0 then d
    else
      var before := LargestMove(dist, old_[..n], new_[..n]);
      assert forall i :: 0 <= i < n ==> old_[..n][i] == old_[i] && new_[..n][i] == new_[i];
      if d > before then d else before
  }

  datatype Loop = Loop(centroids: seq<Point>, events: nat, iterations: nat, shift: real)

  /** At most `left` more iterations, stopping early within the tolerance. */
  function Iterate(points: seq<Point>, cs: seq<Point>, s: Setting, left: nat): (l: Loop)
    requires cs != [] && |points| >= |cs| && left >= 1
    ensures |l.centroids| == |cs| && 1 <= l.iterations <= left
    decreases left
  {
    var next := NextCentroids(points, cs);
    var moved := EmptyFrom(Assign(points, cs), |cs|, 0);
    var shift := LargestMove(s.dist, cs, next);
    if shift <= s.params.tolerance || left == 1 then Loop(next, moved, 1, shift)
    else
      Resume(Iterate(points, next, s, left - 1), moved, 1)
  }

  /** A later loop's tally added to what was counted before it. */
  function Resume(rest: Loop, events: nat, iterations: nat): Loop {
    Loop(rest.centroids, events + rest.events, iterations + rest.iterations, rest.shift)
  }

  lemma IterateUnfolds(points: seq<Point>, cs: seq<Point>, s: Setting, left: nat)
    requires cs != [] && |points| >= |cs| && left >= 1
    ensures var next := NextCentroids(points, cs);
      var moved := EmptyFrom(Assign(points, cs), |cs|, 0);
      var shift := LargestMove(s.dist, cs, next);
      Iterate(points, cs, s, left) ==
        if shift <= s.params.tolerance || left == 1 then Loop(next, moved, 1, shift)
        else Resume(Iterate(points, next, s, left - 1), moved, 1)
  {
  }

  datatype Fit = Fit(
    ids: seq<int>, points: seq<Point>, assignments: seq<nat>, centroids: seq<Point>,
    iterations: nat, converged: bool, shift: real, events: nat, inertia: real,
    quality: Quality, sizes: seq<nat>)

  datatype Outcome = Fitted(fit: Fit) | Mismatched | Repeated | TooFew

  function Descending(): (nat, nat) -> bool {
    (x: nat, y: nat) => x >= y
  }

  function SizesOf(a: seq<nat>, k: nat): seq<nat> {
    seq(k, c requires 0 <= c < k => Count(a, c))
  }

  /** The fit over customers already in id order. */
  function FitOrdered(rows: seq<Row>, s: Setting): Fit
    requires s.Valid() && |rows| >= s.params.k
  {
    var k := s.params.k;
    var ids := seq(|rows|, i requires 0 <= i < |rows| => rows[i].id);
    var points := seq(|rows|, i requires 0 <= i < |rows| => rows[i].point);
    var l := Iterate(points, InitialCentroids(points, k, s.start), s, s.params.maxIterations);
    var nearest := Assign(points, l.centroids);
    var a := Refill(points, nearest, l.centroids);
    RefillEffect(points, nearest, l.centroids);
    Fit(ids, points, a, l.centroids, l.iterations, l.shift <= s.params.tolerance, l.shift,
        l.events + EmptyFrom(nearest, k, 0), AssignedCost(points, a, l.centroids),
        Measure(s.dist, points, a, k, s.sample), Sort(SizesOf(a, k), Descending()))
  }

  function ById(): (Row, Row) -> bool {
    (x: Row, y: Row) => x.id <= y.id
  }

  function Rows(ids: seq<int>, points: seq<Point>): (rows: seq<Row>)
    requires |ids| == |points|
    ensures |rows| == |ids|
  {
    seq(|ids|, i requires 0 <= i < |ids| => Row(ids[i], points[i]))
  }

  function FitCustomers(ids: seq<int>, points: seq<Point>, s: Setting): Outcome
    requires s.Valid()
  {
    if |ids| != |points| then Mismatched
    else if |set i | i in ids| != |ids| then Repeated
    else if |ids| < s.params.k then TooFew
    else Fitted(FitOrdered(Sort(Rows(ids, points), ById()), s))
  }

  // ---------- the loops of the fit ----------

  method AssignNearest(points: seq<Point>, cs: seq<Point>) returns (assignments: array<nat>)
    requires cs != []
    ensures fresh(assignments) && assignments[..] == Assign(points, cs)
  {
    assignments := new nat[|points|];
    for i := 0 to |points|
      invariant forall j :: 0 <= j < i ==> assignments[j] == Nearest(points[j], cs)
    {
      assignments[i] := FindNearest(points[i], cs);
    }
  }

  /** Nearest assignment, refill, means. */
  method RunIteration(points: seq<Point>, cs: seq<Point>) returns (updated: seq<Point>, moved: nat)
    requires cs != [] && |points| >= |cs|
    ensures updated == NextCentroids(points, cs)
    ensures BestCentres(points, Refill(points, Assign(points, cs), cs), updated)
    ensures moved == EmptyFrom(Assign(points, cs), |cs|, 0)
  {
    NextCentroidsAreBest(points, cs);
    hide BestCentres;
    var assignments := AssignNearest(points, cs);
    moved := RefillInPlace(points, assignments, cs);
    updated := ComputeMeans(points, assignments[..], |cs|);
  }

  method RunLoop(points: seq<Point>, start: seq<Point>, s: Setting) returns (l: Loop)
    requires s.Valid() && start != [] && |points| >= |start|
    ensures l == Iterate(points, start, s, s.params.maxIterations)
  {
    hide NextCentroids, Assign, EmptyFrom, LargestMove, Iterate;
    var limit := s.params.maxIterations;
    var centroids, events, iterations := start, 0, 0;
    while true
      invariant |centroids| == |start| && iterations < limit
      invariant Iterate(points, start, s, limit)
             == Resume(Iterate(points, centroids, s, limit - iterations), events, iterations)
      decreases limit - iterations
    {
      IterateUnfolds(points, centroids, s, limit - iterations);
      iterations := iterations + 1;
      var updated, moved := RunIteration(points, centroids);
      events := events + moved;
      var shift := LargestMove(s.dist, centroids, updated);
      centroids := updated;
      if shift <= s.params.tolerance || iterations == limit {
        return Loop(centroids, events, iterations, shift);
      }
    }
  }

  method FitInOrder(rows: seq<Row>, s: Setting) returns (fit: Fit)
    requires s.Valid() && |rows| >= s.params.k
    ensures fit == FitOrdered(rows, s)
  {
    hide Iterate, InitialCentroids, Refill, Assign, EmptyFrom, AssignedCost, Measure, Sort, SizesOf;
    var n, k := |rows|, s.params.k;
    var data := seq(n, i requires 0 <= i < n => rows[i].point);
    var start := PickStart(data, k, s.start);
    var l := RunLoop(data, start, s);
    var a, moved, sizes := FinalPartition(data, l.centroids);
    var quality := MeanSilhouette(s.dist, data, a, k, s.sample);
    fit := Fit(seq(n, i requires 0 <= i < n => rows[i].id), data, a, l.centroids, l.iterations,
               l.shift <= s.params.tolerance, l.shift, l.events + moved,
               AssignedCost(data, a, l.centroids), quality, Sort(sizes, Descending()));
  }

  method FinalPartition(data: seq<Point>, cs: seq<Point>) returns (a: seq<nat>, moved: nat, sizes: seq<nat>)
    requires cs != [] && |data| >= |cs|
    ensures a == Refill(data, Assign(data, cs), cs) && NoneEmpty(a, |cs|)
    ensures moved == EmptyFrom(Assign(data, cs), |cs|, 0)
    ensures sizes == SizesOf(a, |cs|)
  {
    var assignments := AssignNearest(data, cs);
    moved := RefillInPlace(data, assignments, cs);
    var counted := CountSizes(assignments, |cs|);
    a, sizes := assignments[..], counted[..];
  }

  method FitMethod(ids: seq<int>, points: seq<Point>, s: Setting) returns (outcome: Outcome)
    requires s.Valid()
    ensures outcome == FitCustomers(ids, points, s)
  {
    if |ids| != |points| { return Mismatched; }
    if |set i | i in ids| != |ids| { return Repeated; }
    if |ids| < s.params.k { return TooFew; }
    var fit := FitInOrder(Sort(Rows(ids, points), ById()), s);
    outcome := Fitted(fit);
  }

  // ---------- what a fit guarantees ----------

  /** A fit whose clusters can be ranked: aligned, one row per customer, every
      assignment a cluster and every cluster held by somebody. */
  ghost predicate Sound(fit: Fit) {
    && |fit.ids| == |fit.points| == |fit.assignments|
    && Distinct(fit.ids)
    && Within(fit.assignments, |fit.centroids|)
    && NoneEmpty(fit.assignments, |fit.centroids|)
  }

  lemma RowsAreTieFree(ids: seq<int>, points: seq<Point>)
    requires |ids| == |points| && Distinct(ids)
    ensures TieFree(Rows(ids, points), ById()) && TotalPreorder(ById())
    ensures forall i, j :: 0 <= i < j < |ids| ==> Rows(ids, points)[i].id != Rows(ids, points)[j].id
  {
  }

  lemma SortedIdsAreDistinct(rows: seq<Row>) returns (t: seq<Row>)
    requires forall i, j :: 0 <= i < j < |rows| ==> rows[i].id != rows[j].id
    ensures t == Sort(rows, ById())
    ensures forall i, j :: 0 <= i < j < |t| ==> t[i].id < t[j].id
  {
    t := Sort(rows, ById());
    SortIsSorted(rows, ById());
    DistinctTogether(rows, t);
    forall i, j | 0 <= i < j < |t| ensures t[i].id < t[j].id {
      SameElements(rows, t, t[i]);
      SameElements(rows, t, t[j]);
      assert ById()(t[i], t[j]);
    }
  }

  lemma OrderedFitIsSound(rows: seq<Row>, s: Setting)
    requires s.Valid() && |rows| >= s.params.k
    requires forall i, j :: 0 <= i < j < |rows| ==> rows[i].id < rows[j].id
    ensures var fit := FitOrdered(rows, s);
      && Sound(fit) && |fit.centroids| == s.params.k && |fit.ids| == |rows|
      && (forall i, j :: 0 <= i < j < |fit.ids| ==> fit.ids[i] < fit.ids[j])
      && (fit.quality.silhouette.Some? <==> s.params.k >= 2)
      && (s.params.k >= 2 ==> -1.0 <= fit.quality.silhouette.value <= 1.0)
  {
    hide Iterate, InitialCentroids, Refill, Assign, EmptyFrom, AssignedCost, Measure, Sort, SizesOf;
    var fit := FitOrdered(rows, s);
    assert forall i :: 0 <= i < |rows| ==> fit.ids[i] == rows[i].id;
    RefillEffect(fit.points, Assign(fit.points, fit.centroids), fit.centroids);
  }

  /** A fit happens exactly when the rows pair up, no customer repeats and there are
      at least `k`; then it is sound, its silhouette (for k >= 2) is within [-1, 1],
      and customers are in ascending id order. */
  lemma FitIsSound(ids: seq<int>, points: seq<Point>, s: Setting)
    requires s.Valid()
    ensures var o := FitCustomers(ids, points, s);
      && (o.Fitted? <==> |ids| == |points| && Distinct(ids) && |ids| >= s.params.k)
      && (o.Fitted? ==>
            && Sound(o.fit) && |o.fit.centroids| == s.params.k && |o.fit.ids| == |ids|
            && (forall i, j :: 0 <= i < j < |o.fit.ids| ==> o.fit.ids[i] < o.fit.ids[j])
            && (o.fit.quality.silhouette.Some? <==> s.params.k >= 2)
            && (s.params.k >= 2 ==> -1.0 <= o.fit.quality.silhouette.value <= 1.0))
  {
    hide FitOrdered, Sort;
    SetOfSeq(ids);
    if |ids| == |points| && Distinct(ids) && |ids| >= s.params.k {
      RowsAreTieFree(ids, points);
      var t := SortedIdsAreDistinct(Rows(ids, points));
      OrderedFitIsSound(t, s);
    }
  }

  /** Nobody is stored away from their nearest final centroid, except whoever had to
      move alone into a cluster nobody was nearest to. */
  lemma StoredPartitionIsNearest(ids: seq<int>, points: seq<Point>, s: Setting, i: nat)
    requires s.Valid() && FitCustomers(ids, points, s).Fitted?
    requires i < |FitCustomers(ids, points, s).fit.assignments|
    ensures var fit := FitCustomers(ids, points, s).fit;
      i < |fit.points| && fit.centroids != []
      && (var c := Nearest(fit.points[i], fit.centroids);
          fit.assignments[i] == c
          || (Count(Assign(fit.points, fit.centroids), fit.assignments[i]) == 0
              && Count(fit.assignments, fit.assignments[i]) == 1))
  {
    hide InitialCentroids, Iterate, Refill, AssignedCost, Measure, SizesOf, Sort, EmptyFrom, Count;
    var fit := FitCustomers(ids, points, s).fit;
    RefillEffect(fit.points, Assign(fit.points, fit.centroids), fit.centroids);
  }

  lemma {:induction false} IterateDescends(points: seq<Point>, cs: seq<Point>, s: Setting, left: nat)
    requires cs != [] && |points| >= |cs| && left >= 1
    ensures Cost(points, Iterate(points, cs, s, left).centroids) <= Cost(points, cs)
    decreases left
  {
    hide NextCentroids, KMeansDescent.Cost, Assign, EmptyFrom;
    IterationNeverIncreasesCost(points, cs);
    IterateUnfolds(points, cs, s, left);
    var next := NextCentroids(points, cs);
    if LargestMove(s.dist, cs, next) > s.params.tolerance && left > 1 {
      IterateDescends(points, next, s, left - 1);
    }
  }

  lemma OrderedFitDescends(rows: seq<Row>, s: Setting)
    requires s.Valid() && |rows| >= s.params.k
    ensures var fit := FitOrdered(rows, s);
      && fit.centroids != [] && |fit.points| >= s.params.k
      && Cost(fit.points, fit.centroids) <= Cost(fit.points, InitialCentroids(fit.points, s.params.k, s.start))
      && Cost(fit.points, fit.centroids) <= fit.inertia
      && (NoneEmpty(Assign(fit.points, fit.centroids), s.params.k) ==> fit.inertia == Cost(fit.points, fit.centroids))
  {
    hide InitialCentroids, Assign, Iterate, Refill, AssignedCost, Measure, SizesOf, Sort, EmptyFrom, NoneEmpty;
    var points := seq(|rows|, i requires 0 <= i < |rows| => rows[i].point);
    var l := Iterate(points, InitialCentroids(points, s.params.k, s.start), s, s.params.maxIterations);
    IterateDescends(points, InitialCentroids(points, s.params.k, s.start), s, s.params.maxIterations);
    RefillEffect(points, Assign(points, l.centroids), l.centroids);
    NearestIsCheapest(points, Refill(points, Assign(points, l.centroids), l.centroids), l.centroids);
  }

  /** Over the whole fit: the final centroids cost no more than the k-means++ start,
      and the stored inertia is at least that cost, exactly it when the last refill
      moved nobody. */
  lemma FitDescends(ids: seq<int>, points: seq<Point>, s: Setting)
    requires s.Valid() && FitCustomers(ids, points, s).Fitted?
    ensures var fit := FitCustomers(ids, points, s).fit;
      && fit.centroids != [] && |fit.points| >= s.params.k
      && Cost(fit.points, fit.centroids) <= Cost(fit.points, InitialCentroids(fit.points, s.params.k, s.start))
      && Cost(fit.points, fit.centroids) <= fit.inertia
      && (NoneEmpty(Assign(fit.points, fit.centroids), s.params.k) ==> fit.inertia == Cost(fit.points, fit.centroids))
  {
    hide FitOrdered, InitialCentroids, Assign, KMeansDescent.Cost, NoneEmpty, Sort, Rows;
    OrderedFitDescends(Sort(Rows(ids, points), ById()), s);
  }

  lemma {:induction false} RowIds(ids: seq<int>, points: seq<Point>, ids': seq<int>, points': seq<Point>)
    requires |ids| == |points| && |ids'| == |points'|
    requires multiset(Rows(ids, points)) == multiset(Rows(ids', points'))
    requires Distinct(ids)
    ensures |ids| == |ids'| && Distinct(ids')
  {
    var rows, rows' := Rows(ids, points), Rows(ids', points');
    assert |multiset(rows)| == |rows| && |multiset(rows')| == |rows'|;
    assert Distinct(rows);
    DistinctTogether(rows, rows');
    forall i, j | 0 <= i < j < |ids'| ensures ids'[i] != ids'[j] {
      SameElements(rows, rows', rows'[i]);
      SameElements(rows, rows', rows'[j]);
      assert rows'[i] != rows'[j];
    }
  }

  /** The order rows arrive in cannot reach the result, refusals included. */
  lemma FitForgetsRowOrder(ids: seq<int>, points: seq<Point>, ids': seq<int>, points': seq<Point>, s: Setting)
    requires s.Valid() && |ids| == |points| && |ids'| == |points'|
    requires multiset(Rows(ids, points)) == multiset(Rows(ids', points'))
    ensures FitCustomers(ids, points, s) == FitCustomers(ids', points', s)
  {
    assert |multiset(Rows(ids, points))| == |ids| && |multiset(Rows(ids', points'))| == |ids'|;
    SetOfSeq(ids);
    SetOfSeq(ids');
    if Distinct(ids) {
      RowIds(ids, points, ids', points');
      RowsAreTieFree(ids, points);
      SortForgetsOrder(Rows(ids, points), Rows(ids', points'), ById());
    } else if Distinct(ids') {
      RowIds(ids', points', ids, points);
    }
  }
}
