/** What a fit does, round by round, told without the functions that compute it: who is nearest
    to which centre, who moves into an empty cluster, and which centres come next. */
module LloydRuns {
  import opened Counting
  import opened KMeans
  import opened KMeansDescent
  import opened KMeansFit
  import opened Silhouette
  import opened Sorting

  // ---------- the refill ----------

  /** Of the clusters below `k`, `e` is the first nobody is in. */
  ghost predicate FirstEmpty(a: seq<nat>, k: nat, e: nat) {
    e < k && e !in a && forall c: nat :: c < e ==> c in a
  }

  /** One move: the farthest customer that can be spared goes into the first empty cluster. */
  ghost predicate Moves(points: seq<Point>, cs: seq<Point>, a: seq<nat>, b: seq<nat>)
    requires |a| == |points| && Within(a, |cs|)
  {
    exists e: nat, d: nat :: FirstEmpty(a, |cs|, e) && IsDonor(points, a, cs, d) && b == a[d := e]
  }

  ghost predicate AllHeld(a: seq<nat>, k: nat) {
    forall c: nat :: c < k ==> c in a
  }

  /** Moves follow one another from `a` until no cluster is empty. */
  ghost predicate Refills(points: seq<Point>, cs: seq<Point>, states: seq<seq<nat>>)
  {
    && states != []
    && (forall t :: 0 <= t < |states| ==> |states[t]| == |points| && Within(states[t], |cs|))
    && (forall t :: 0 <= t < |states| - 1 ==> Moves(points, cs, states[t], states[t+1]))
    && AllHeld(states[|states|-1], |cs|)
  }

  lemma CountedIsIn(a: seq<nat>, c: nat)
    ensures Count(a, c) >= 1 <==> c in a
  {
    if c in a {
      var i :| 0 <= i < |a| && a[i] == c;
      MemberCounts(a, i);
    } else {
      Absent(a, c);
    }
  }

  lemma MoveFills(points: seq<Point>, a: seq<nat>, cs: seq<Point>, e: nat)
    requires |a| == |points| && Within(a, |cs|) && |a| >= |cs| && e < |cs| && Count(a, e) == 0 && AllHeld(a, e)
    ensures Moves(points, cs, a, Move(points, a, cs, e))
    ensures AllHeld(Move(points, a, cs, e), e + 1)
    ensures EmptyFrom(Move(points, a, cs, e), |cs|, e + 1) == EmptyFrom(a, |cs|, e + 1)
  {
    var d := Donor(points, a, cs, e);
    var b := a[d := e];
    DonorIsFarthest(points, a, cs, e);
    CountedIsIn(a, e);
    assert FirstEmpty(a, |cs|, e);
    forall c: nat ensures (Count(a, c) >= 1 && c != e <==> Count(b, c) >= 1 && c != e) && (Count(b, c) >= 1 <==> c in b) {
      CountUpdate(a, d, e, c);
      CountedIsIn(b, c);
    }
    forall c: nat | c < e ensures c in b {
      CountedIsIn(a, c);
    }
    assert b[d] == e;
    SameEmpty(b, a, |cs|, e + 1);
  }

  /** The refill is such a chain, with one move for every cluster that was empty. */
  lemma {:induction false} RefillFromMoves(points: seq<Point>, a: seq<nat>, cs: seq<Point>, e: nat) returns (states: seq<seq<nat>>)
    requires |a| == |points| && Within(a, |cs|) && |a| >= |cs| && e <= |cs| && AllHeld(a, e)
    ensures Refills(points, cs, states) && states[0] == a && states[|states|-1] == RefillFrom(points, a, cs, e)
    ensures |states| == 1 + EmptyFrom(a, |cs|, e)
    decreases |cs| - e
  {
    hide Moves, Donor, Move, RefillFrom;
    if e == |cs| {
      states := [a];
      RefillEnds(points, a, cs);
    } else {
      RefillFromUnfolds(points, a, cs, e);
      if Count(a, e) != 0 {
        CountedIsIn(a, e);
        states := RefillFromMoves(points, a, cs, e + 1);
      } else {
        MoveFills(points, a, cs, e);
        var rest := RefillFromMoves(points, Move(points, a, cs, e), cs, e + 1);
        MoveThenRefill(points, cs, a, rest);
        states := [a] + rest;
      }
    }
  }

  lemma RefillEnds(points: seq<Point>, a: seq<nat>, cs: seq<Point>)
    requires |a| == |points| && Within(a, |cs|) && |a| >= |cs|
    ensures RefillFrom(points, a, cs, |cs|) == a
  {
  }

  lemma MoveThenRefill(points: seq<Point>, cs: seq<Point>, a: seq<nat>, rest: seq<seq<nat>>)
    requires |a| == |points| && Within(a, |cs|) && Refills(points, cs, rest) && Moves(points, cs, a, rest[0])
    ensures Refills(points, cs, [a] + rest)
  {
    hide Moves, AllHeld;
  }

  lemma RefillMoves(points: seq<Point>, a: seq<nat>, cs: seq<Point>) returns (states: seq<seq<nat>>)
    requires |a| == |points| && Within(a, |cs|) && |a| >= |cs|
    ensures Refills(points, cs, states) && states[0] == a && states[|states|-1] == Refill(points, a, cs)
    ensures |states| == 1 + EmptyFrom(a, |cs|, 0)
  {
    states := RefillFromMoves(points, a, cs, 0);
  }

  // ---------- one round, and the next ----------

  /** The centres a round starts from, who was where from nearest to refilled, and the centres it
      ends with. */
  datatype Round = Round(from: seq<Point>, states: seq<seq<nat>>, to: seq<Point>)

  /** Everybody at their nearest centre, the lowest number on a tie, then refilled. */
  ghost predicate IsPartition(points: seq<Point>, cs: seq<Point>, states: seq<seq<nat>>) {
    && Refills(points, cs, states)
    && forall i :: 0 <= i < |points| ==> IsNearest(points[i], cs, states[0][i])
  }

  ghost predicate IsRound(points: seq<Point>, r: Round) {
    && |r.from| == |r.to|
    && IsPartition(points, r.from, r.states)
    && BestCentres(points, r.states[|r.states|-1], r.to)
  }

  /** Some centre is further than the tolerance from where it was. */
  ghost predicate Unsettled(r: Round, s: Setting)
    requires |r.from| == |r.to|
  {
    exists c :: 0 <= c < |r.from| && s.dist(r.from[c], r.to[c]) > s.params.tolerance
  }

  /** Rounds that follow one another, each but the last unsettled. */
  ghost predicate AreRounds(points: seq<Point>, rounds: seq<Round>, s: Setting) {
    && rounds != []
    && (forall t :: 0 <= t < |rounds| ==> IsRound(points, rounds[t]))
    && (forall t :: 0 <= t < |rounds| - 1 ==> rounds[t].to == rounds[t+1].from && Unsettled(rounds[t], s))
  }

  /** How many customers moved into empty clusters. */
  ghost function MovesIn(rounds: seq<Round>): int {
    if rounds == [] then 0 else MovesIn(rounds[1..]) + |rounds[0].states| - 1
  }

  lemma NextIsRound(points: seq<Point>, cs: seq<Point>) returns (r: Round)
    requires cs != [] && |points| >= |cs|
    ensures IsRound(points, r) && r.from == cs && r.to == NextCentroids(points, cs)
    ensures |r.states| == 1 + EmptyFrom(Assign(points, cs), |cs|, 0)
  {
    var a := Assign(points, cs);
    var states := RefillMoves(points, a, cs);
    RefillEffect(points, a, cs);
    MeansAreBest(points, Refill(points, a, cs), |cs|);
    hide BestCentres, Refills;
    r := Round(cs, states, NextCentroids(points, cs));
  }

  lemma UnsettledExactly(r: Round, s: Setting)
    requires |r.from| == |r.to| > 0
    ensures Unsettled(r, s) <==> LargestMove(s.dist, r.from, r.to) > s.params.tolerance
  {
  }

  lemma {:induction false} IterateIsRounds(points: seq<Point>, cs: seq<Point>, s: Setting, left: nat) returns (rounds: seq<Round>)
    requires cs != [] && |points| >= |cs| && left >= 1
    ensures var l := Iterate(points, cs, s, left);
      && AreRounds(points, rounds, s) && rounds[0].from == cs
      && |rounds| == l.iterations <= left && rounds[|rounds|-1].to == l.centroids && MovesIn(rounds) == l.events
      && |rounds[|rounds|-1].from| == |l.centroids|
      && l.shift == LargestMove(s.dist, rounds[|rounds|-1].from, l.centroids)
      && (|rounds| < left ==> !Unsettled(rounds[|rounds|-1], s))
    decreases left
  {
    hide NextCentroids, Assign, EmptyFrom, IsRound, Unsettled;
    var r := NextIsRound(points, cs);
    assert |r.from| == |r.to|;
    UnsettledExactly(r, s);
    IterateUnfolds(points, cs, s, left);
    if LargestMove(s.dist, cs, r.to) <= s.params.tolerance || left == 1 {
      rounds := [r];
      assert rounds[1..] == [];
    } else {
      var rest := IterateIsRounds(points, r.to, s, left - 1);
      rounds := [r] + rest;
      assert rounds[1..] == rest;
    }
  }

  // ---------- the whole fit ----------

  ghost predicate LargestShift(r: Round, s: Setting, shift: real)
    requires |r.from| == |r.to|
  {
    && (forall c :: 0 <= c < |r.from| ==> s.dist(r.from[c], r.to[c]) <= shift)
    && (exists c :: 0 <= c < |r.from| && s.dist(r.from[c], r.to[c]) == shift)
  }

  /** The rounds and the final partition that a fit reports on. */
  ghost predicate ReportsRun(fit: Fit, s: Setting, rounds: seq<Round>, final: seq<seq<nat>>)
    requires s.Valid()
  {
    && AreRounds(fit.points, rounds, s)
    && (var last := rounds[|rounds|-1];
        && |rounds| == fit.iterations <= s.params.maxIterations
        && last.to == fit.centroids
        && (fit.converged <==> !Unsettled(last, s))
        && (fit.iterations < s.params.maxIterations ==> fit.converged)
        && LargestShift(last, s, fit.shift))
    && IsPartition(fit.points, fit.centroids, final)
    && fit.assignments == final[|final|-1]
    && fit.events == MovesIn(rounds) + |final| - 1
    && Within(fit.assignments, |fit.centroids|)
    && fit.inertia == AssignedCost(fit.points, fit.assignments, fit.centroids)
    && NoneEmpty(fit.assignments, |fit.centroids|) && fit.points != []
    && fit.quality == Measure(s.dist, fit.points, fit.assignments, |fit.centroids|, s.sample)
    && multiset(fit.sizes) == multiset(SizesOf(fit.assignments, |fit.centroids|))
    && (forall i, j :: 0 <= i < j < |fit.sizes| ==> fit.sizes[i] >= fit.sizes[j])
  }

  lemma LargestMoveIsShift(r: Round, s: Setting)
    requires |r.from| == |r.to| > 0
    ensures LargestShift(r, s, LargestMove(s.dist, r.from, r.to))
  {
  }

  lemma SizesDescend(sizes: seq<nat>)
    ensures multiset(Sort(sizes, Descending())) == multiset(sizes)
    ensures var t := Sort(sizes, Descending()); forall i, j :: 0 <= i < j < |t| ==> t[i] >= t[j]
  {
    SortIsSorted(sizes, Descending());
    var t := Sort(sizes, Descending());
    forall i, j | 0 <= i < j < |t| ensures t[i] >= t[j] {
      assert Descending()(t[i], t[j]);
    }
  }

  lemma OrderedFitReportsRun(rows: seq<Row>, s: Setting) returns (rounds: seq<Round>, final: seq<seq<nat>>)
    requires s.Valid() && |rows| >= s.params.k
    ensures var fit := FitOrdered(rows, s);
      && |fit.ids| == |fit.points| == |rows| && Rows(fit.ids, fit.points) == rows
      && ReportsRun(fit, s, rounds, final)
      && rounds[0].from == InitialCentroids(fit.points, s.params.k, s.start)
  {
    hide InitialCentroids, Iterate, Refill, Assign, EmptyFrom, AssignedCost, Measure, SizesOf, Sort, IsRound, Unsettled,
      Refills, MovesIn, LargestMove, Descending, LargestShift, UnitStream;
    var points := seq(|rows|, i requires 0 <= i < |rows| => rows[i].point);
    rounds := IterateIsRounds(points, InitialCentroids(points, s.params.k, s.start), s, s.params.maxIterations);
    var fit := FitOrdered(rows, s);
    assert fit.points == points;
    RefillEffect(points, Assign(points, fit.centroids), fit.centroids);
    var last := rounds[|rounds|-1];
    assert |last.from| == |last.to|;
    UnsettledExactly(last, s);
    LargestMoveIsShift(last, s);
    final := RefillMoves(points, Assign(points, fit.centroids), fit.centroids);
    SizesDescend(SizesOf(fit.assignments, s.params.k));
  }

  /** The whole fit: over the customers in id order, rounds from the k-means++ start, each the
      nearest partition, refilled, and the best centres for it; one round after another while some
      centre moves further than the tolerance, up to the limit; and a last partition, which the
      assignments, the moves counted, the inertia and the sizes are taken from. */
  lemma FitReportsRun(ids: seq<int>, points: seq<Point>, s: Setting) returns (rounds: seq<Round>, final: seq<seq<nat>>)
    requires s.Valid() && FitCustomers(ids, points, s).Fitted?
    ensures var fit := FitCustomers(ids, points, s).fit;
      && |fit.ids| == |fit.points| && |ids| == |points|
      && multiset(Rows(fit.ids, fit.points)) == multiset(Rows(ids, points))
      && ReportsRun(fit, s, rounds, final)
      && |fit.points| >= s.params.k
      && rounds[0].from == InitialCentroids(fit.points, s.params.k, s.start)
  {
    hide FitOrdered, Rows, ReportsRun, InitialCentroids;
    var rows := Sort(Rows(ids, points), ById());
    SortIsSorted(Rows(ids, points), ById());
    rounds, final := OrderedFitReportsRun(rows, s);
  }
}
