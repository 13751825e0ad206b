/** Which cluster comes before which, told over the centroids and the members themselves, and what
    that means for the labels of their customers. */
module ClusterOrder {
  import opened ClusterLabels
  import opened Counting
  import opened KMeans
  import opened KMeansFit
  import opened Sorting

  /** Best first: the centroid with the larger sum; of equal sums the larger R, then F, then M. */
  ghost predicate BetterPoint(p: Point, q: Point) {
    var x, y := p.r + p.f + p.m, q.r + q.f + q.m;
    x > y || (x == y && (p.r > q.r || (p.r == q.r && (p.f > q.f || (p.f == q.f && p.m > q.m)))))
  }

  /** Some member of the one cluster has a smaller id than every member of the other. */
  ghost predicate HoldsLeast(fit: Fit, c: nat, d: nat)
    requires Sound(fit)
  {
    exists i :: 0 <= i < |fit.ids| && fit.assignments[i] == c && LeastIn(fit, i, d)
  }

  ghost predicate LeastIn(fit: Fit, i: nat, d: nat)
    requires Sound(fit) && i < |fit.ids|
  {
    forall j :: 0 <= j < |fit.ids| && fit.assignments[j] == d ==> fit.ids[i] < fit.ids[j]
  }

  lemma KeysOrdered(fit: Fit, r: nat, s: nat) returns (x: Key, y: Key)
    requires Sound(fit) && r < s < |fit.centroids|
    ensures Permutation(RankClusters(fit), |fit.centroids|)
    ensures x == KeyOf(fit, RankClusters(fit)[r]) && y == KeyOf(fit, RankClusters(fit)[s]) && Before()(x, y)
  {
    hide KeyOf, Before;
    RankIsPermutation(fit);
    BeforeIsTotal();
    var keys, sorted := Keys(fit), Sort(Keys(fit), Before());
    SortIsSorted(keys, Before());
    x, y := sorted[r], sorted[s];
    SameElements(keys, sorted, x);
    SameElements(keys, sorted, y);
    KeysCarryNumbers(fit, x);
    KeysCarryNumbers(fit, y);
  }

  lemma KeysCarryNumbers(fit: Fit, x: Key)
    requires Sound(fit) && x in Keys(fit)
    ensures x.cluster < |fit.centroids| && x == KeyOf(fit, x.cluster)
  {
    var c :| 0 <= c < |Keys(fit)| && Keys(fit)[c] == x;
  }

  /** Of two ranks the earlier holds the better centroid, or an equal one and the smaller least
      customer. */
  lemma RankIsBestFirst(fit: Fit, r: nat, s: nat)
    requires Sound(fit) && r < s < |fit.centroids|
    ensures Permutation(RankClusters(fit), |fit.centroids|)
    ensures var c, d := RankClusters(fit)[r], RankClusters(fit)[s];
      || BetterPoint(fit.centroids[c], fit.centroids[d])
      || (fit.centroids[c] == fit.centroids[d] && HoldsLeast(fit, c, d))
  {
    var x, y := KeysOrdered(fit, r, s);
    hide RankClusters;
    var c, d := RankClusters(fit)[r], RankClusters(fit)[s];
    if fit.centroids[c] == fit.centroids[d] {
      var i :| 0 <= i < |fit.ids| && fit.assignments[i] == c && fit.ids[i] == x.least;
      forall j | 0 <= j < |fit.ids| && fit.assignments[j] == d ensures fit.ids[i] < fit.ids[j] {
        assert fit.ids[i] <= fit.ids[j] && i != j;
      }
      assert LeastIn(fit, i, d);
    }
  }

  /** Better one way is not better the other way, so the order is the only one of its kind. */
  lemma BetterIsOneWay(p: Point, q: Point)
    ensures !(BetterPoint(p, q) && BetterPoint(q, p)) && (BetterPoint(p, q) || BetterPoint(q, p) || p == q)
  {
  }

  /** The position a customer's label has in the vocabulary. */
  ghost predicate LabelledAt(fit: Fit, vocabulary: seq<nat>, i: nat, p: nat)
    requires Sound(fit) && i < |fit.ids| && LabelPairs(fit, vocabulary).Labelled?
  {
    p < |vocabulary| && fit.ids[i] in LabelPairs(fit, vocabulary).value && LabelPairs(fit, vocabulary).value[fit.ids[i]] == vocabulary[p]
  }

  lemma RankOfCluster(fit: Fit, vocabulary: seq<nat>, i: nat) returns (r: nat)
    requires Sound(fit) && i < |fit.ids| && LabelPairs(fit, vocabulary).Labelled?
    ensures Pairable(|fit.centroids|, vocabulary) && r < |fit.centroids| && RankClusters(fit)[r] == fit.assignments[i]
    ensures LabelledAt(fit, vocabulary, i, LabelIndex(r, |fit.centroids|, |vocabulary|))
  {
    hide RankClusters, LabelIndex, LabelClusters, LabelPairs, Sound;
    RankIsPermutation(fit);
    AssignmentIsCluster(fit, i);
    PermutationIsOnto(RankClusters(fit), |fit.centroids|, fit.assignments[i]);
    r :| 0 <= r < |fit.centroids| && RankClusters(fit)[r] == fit.assignments[i];
    ClustersAreLabelledByRank(fit, vocabulary, r);
  }

  lemma AssignmentIsCluster(fit: Fit, i: nat)
    requires Sound(fit) && i < |fit.ids|
    ensures |fit.assignments| == |fit.ids| && fit.assignments[i] < |fit.centroids|
  {
  }

  /** A customer of a better cluster never gets a later label, and gets a strictly earlier one
      when there are labels enough. */
  lemma BetterClusterBetterLabel(fit: Fit, vocabulary: seq<nat>, i: nat, j: nat) returns (p: nat, q: nat)
    requires Sound(fit) && i < |fit.ids| && j < |fit.ids| && LabelPairs(fit, vocabulary).Labelled?
    requires BetterPoint(fit.centroids[fit.assignments[i]], fit.centroids[fit.assignments[j]])
    ensures LabelledAt(fit, vocabulary, i, p) && LabelledAt(fit, vocabulary, j, q)
    ensures p <= q && (|fit.centroids| <= |vocabulary| ==> p < q)
  {
    var k, v := |fit.centroids|, |vocabulary|;
    var r := RankOfCluster(fit, vocabulary, i);
    var s := RankOfCluster(fit, vocabulary, j);
    hide RankClusters, LabelIndex, LabelPairs, LabelledAt;
    BetterIsOneWay(fit.centroids[fit.assignments[i]], fit.centroids[fit.assignments[j]]);
    if s < r {
      RankIsBestFirst(fit, s, r);
    }
    assert r < s;
    LabelIndexIsMonotone(r, s, k, v);
    p, q := LabelIndex(r, k, v), LabelIndex(s, k, v);
  }

  /** Customers are labelled exactly when there are two clusters or more and a label. */
  lemma LabelledExactly(fit: Fit, vocabulary: seq<nat>)
    requires Sound(fit)
    ensures LabelPairs(fit, vocabulary).Labelled? <==> |fit.centroids| >= 2 && vocabulary != []
    ensures LabelClusters(fit, vocabulary).Labelled? <==> |fit.centroids| >= 2 && vocabulary != []
  {
    hide RankClusters, LabelIndex, Sound;
  }
}
