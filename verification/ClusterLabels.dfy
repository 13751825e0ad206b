/** From clusters to stable labels: the order of clusters by what they contain, the
    proportional pairing of that order with a vocabulary, and why neither depends on
    what the clusters are called. Labels and customers are opaque ordered codes. */
module ClusterLabels {
  import opened Counting
  import opened KMeans
  import opened KMeansFit
  import opened Sorting

  // ---------- the order of clusters ----------

  /** What a cluster is ordered by, with its number carried along but never compared. */
  datatype Key = Key(cluster: nat, sum: real, r: real, f: real, m: real, least: int)

  /** Best first: higher sum, then higher R, F, M, then the smaller least member. */
  function Before(): (Key, Key) -> bool {
    (x: Key, y: Key) =>
      x.sum > y.sum || (x.sum == y.sum &&
      (x.r > y.r || (x.r == y.r &&
      (x.f > y.f || (x.f == y.f &&
      (x.m > y.m || (x.m == y.m && x.least <= y.least)))))))
  }

  /** The smallest id among a cluster's members. */
  function LeastMember(ids: seq<int>, a: seq<nat>, c: nat): (least: int)
    requires |ids| == |a| && Count(a, c) >= 1
    ensures exists i :: 0 <= i < |a| && a[i] == c && ids[i] == least
    ensures forall i :: 0 <= i < |a| && a[i] == c ==> least <= ids[i]
  {
    var n := |a| - 1;
    var last := a[n] == c;
    if Count(a[..n], c) == 0 then
      NotCounted(a[..n], c);
      ids[n]
    else
      var before := LeastMember(ids[..n], a[..n], c);
      assert forall i :: 0 <= i < n ==> a[..n][i] == a[i] && ids[..n][i] == ids[i];
      if last && ids[n] < before then ids[n] else before
  }

  lemma NotCounted(a: seq<nat>, c: nat)
    requires Count(a, c) == 0
    ensures c !in a
  {
    if c in a {
      var i :| 0 <= i < |a| && a[i] == c;
      MemberCounts(a, i);
    }
  }

  function KeyOf(fit: Fit, c: nat): Key
    requires Sound(fit) && c < |fit.centroids|
  {
    var p := fit.centroids[c];
    Key(c, p.r + p.f + p.m, p.r, p.f, p.m, LeastMember(fit.ids, fit.assignments, c))
  }

  function Keys(fit: Fit): (keys: seq<Key>)
    requires Sound(fit)
    ensures |keys| == |fit.centroids|
  {
    seq(|fit.centroids|, c requires 0 <= c < |fit.centroids| => KeyOf(fit, c))
  }

  function Clusters(keys: seq<Key>): (clusters: seq<nat>)
    ensures |clusters| == |keys|
  {
    seq(|keys|, r requires 0 <= r < |keys| => keys[r].cluster)
  }

  /** Cluster numbers, best first. */
  function RankClusters(fit: Fit): (rank: seq<nat>)
    requires Sound(fit)
    ensures |rank| == |fit.centroids|
  {
    Clusters(Sort(Keys(fit), Before()))
  }

  lemma BeforeIsTotal()
    ensures TotalPreorder(Before())
  {
  }

  /** No two clusters tie: their least members are different customers. */
  lemma KeysAreTieFree(fit: Fit)
    requires Sound(fit)
    ensures TieFree(Keys(fit), Before()) && Distinct(Keys(fit))
  {
    var keys := Keys(fit);
    forall c, d | 0 <= c < |keys| && 0 <= d < |keys| && keys[c].least == keys[d].least
      ensures c == d
    {
      var i :| 0 <= i < |fit.ids| && fit.assignments[i] == c && fit.ids[i] == keys[c].least;
      var j :| 0 <= j < |fit.ids| && fit.assignments[j] == d && fit.ids[j] == keys[d].least;
      assert i == j;
    }
  }

  /** Every cluster has exactly one position in the order. */
  lemma RankIsPermutation(fit: Fit)
    requires Sound(fit)
    ensures Permutation(RankClusters(fit), |fit.centroids|)
  {
    var keys, sorted := Keys(fit), Sort(Keys(fit), Before());
    KeysAreTieFree(fit);
    DistinctTogether(keys, sorted);
    forall r | 0 <= r < |sorted| ensures sorted[r].cluster < |keys| && sorted[r] == keys[sorted[r].cluster] {
      SameElements(keys, sorted, sorted[r]);
    }
  }

  // ---------- proportional pairing with the vocabulary ----------

  const MIN_CLUSTERS: nat := 2

  /** `rank * (v - 1) / (k - 1)` rounded to the nearest, a half to the worse side. */
  function LabelIndex(rank: nat, k: nat, v: nat): nat
    requires rank < k && k >= MIN_CLUSTERS && v >= 1
  {
    (2 * rank * (v - 1) + (k - 1)) / (2 * (k - 1))
  }

  lemma DivisionBounds(n: nat, d: nat)
    requires d > 0
    ensures n / d * d <= n < n / d * d + d
  {
  }

  /** Twice the distance from the exact position is at most one step, and a tie goes
      up: this is the only position that does so. */
  lemma LabelIndexIsNearest(rank: nat, k: nat, v: nat)
    requires rank < k && k >= MIN_CLUSTERS && v >= 1
    ensures var i := LabelIndex(rank, k, v);
      -(k - 1) <= 2 * rank * (v - 1) - 2 * (k - 1) * i < k - 1
  {
    var d := 2 * (k - 1);
    var n := 2 * rank * (v - 1) + (k - 1);
    DivisionBounds(n, d);
    var i := LabelIndex(rank, k, v);
    assert i * d == d * i;
  }

  lemma MultipleOrder(d: nat, i: int, j: int)
    requires d > 0 && d * i < d * j
    ensures i < j
  {
  }

  lemma NearestIsUnique(rank: nat, k: nat, v: nat, j: int)
    requires rank < k && k >= MIN_CLUSTERS && v >= 1
    requires -(k - 1) <= 2 * rank * (v - 1) - 2 * (k - 1) * j < k - 1
    ensures j == LabelIndex(rank, k, v)
  {
    LabelIndexIsNearest(rank, k, v);
    var i := LabelIndex(rank, k, v);
    var d := 2 * (k - 1);
    assert d * (i + 1) == d * i + d && d * (j + 1) == d * j + d;
    MultipleOrder(d, i, j + 1);
    MultipleOrder(d, j, i + 1);
  }

  /** The best cluster takes the best label and the worst the worst. */
  lemma EndpointsAreAnchored(k: nat, v: nat)
    requires k >= MIN_CLUSTERS && v >= 1
    ensures LabelIndex(0, k, v) == 0
    ensures LabelIndex(k - 1, k, v) == v - 1
  {
    NearestIsUnique(0, k, v, 0);
    assert 2 * (k - 1) * (v - 1) - 2 * (k - 1) * (v - 1) == 0;
    NearestIsUnique(k - 1, k, v, v - 1);
  }

  lemma NeighbouringMultiples(d: int, i: int)
    ensures d * (i - 1) == d * i - d && d * (i + 2) == d * i + 2 * d
  {
  }

  /** The nearest multiples of d to two numbers `gap` apart. */
  lemma NearestMoves(d: int, n: int, gap: nat, i: int, j: int)
    requires d > 0 && -d <= 2 * (n - d * i) < d && -d <= 2 * (n + gap - d * j) < d
    ensures i <= j && (gap >= d ==> i + 1 <= j) && (gap <= d ==> j <= i + 1)
  {
    NeighbouringMultiples(d, i);
    var x, y := d * i, d * j;
    assert d * (i - 1) < y;
    MultipleOrder(d, i - 1, j);
    if gap >= d {
      MultipleOrder(d, i, j);
    }
    if gap <= d {
      MultipleOrder(d, j, i + 2);
    }
  }

  /** One rank further moves the label forward, by at least one position when there
      are labels to spare and by at most one when there are clusters to spare. */
  lemma LabelStep(rank: nat, k: nat, v: nat)
    requires rank + 1 < k && k >= MIN_CLUSTERS && v >= 1
    ensures var i, j := LabelIndex(rank, k, v), LabelIndex(rank + 1, k, v);
      i <= j && (k <= v ==> i + 1 <= j) && (k >= v ==> j <= i + 1)
  {
    hide LabelIndex;
    LabelIndexIsNearest(rank, k, v);
    LabelIndexIsNearest(rank + 1, k, v);
    NextMultiple(rank, v - 1);
    NearestMoves(2 * (k - 1), 2 * rank * (v - 1), 2 * (v - 1), LabelIndex(rank, k, v), LabelIndex(rank + 1, k, v));
  }

  lemma NextMultiple(rank: nat, steps: nat)
    ensures 2 * (rank + 1) * steps == 2 * rank * steps + 2 * steps
  {
  }

  lemma {:induction false} LabelIndexIsMonotone(rank: nat, later: nat, k: nat, v: nat)
    requires rank <= later < k && k >= MIN_CLUSTERS && v >= 1
    ensures LabelIndex(rank, k, v) <= LabelIndex(later, k, v) <= v - 1
    ensures k <= v ==> LabelIndex(rank, k, v) + (later - rank) <= LabelIndex(later, k, v)
    decreases k - rank
  {
    if rank + 1 < k {
      LabelStep(rank, k, v);
      if rank < later {
        LabelIndexIsMonotone(rank + 1, later, k, v);
      } else {
        LabelIndexIsMonotone(rank + 1, rank + 1, k, v);
      }
    } else {
      EndpointsAreAnchored(k, v);
    }
  }

  /** The label positions in rank order. */
  function Positions(k: nat, v: nat): (p: seq<nat>)
    requires k >= MIN_CLUSTERS && v >= 1
    ensures |p| == k
  {
    seq(k, r requires 0 <= r < k => LabelIndex(r, k, v))
  }

  lemma {:induction false} InjectiveClimbs(k: nat, v: nat, rank: nat)
    requires k >= MIN_CLUSTERS && v >= 1 && rank < k && Distinct(Positions(k, v))
    ensures LabelIndex(rank, k, v) >= rank
  {
    if rank == 0 {
    } else {
      InjectiveClimbs(k, v, rank - 1);
      LabelStep(rank - 1, k, v);
      assert Positions(k, v)[rank - 1] != Positions(k, v)[rank];
    }
  }

  /** No two clusters share a label exactly when there are at least as many labels. */
  lemma InjectiveIffEnoughLabels(k: nat, v: nat)
    requires k >= MIN_CLUSTERS && v >= 1
    ensures Distinct(Positions(k, v)) <==> k <= v
  {
    if Distinct(Positions(k, v)) {
      InjectiveClimbs(k, v, k - 1);
      EndpointsAreAnchored(k, v);
    }
    if k <= v {
      forall i, j | 0 <= i < j < k ensures Positions(k, v)[i] != Positions(k, v)[j] {
        LabelIndexIsMonotone(i, j, k, v);
      }
    }
  }

  ghost predicate Covers(k: nat, v: nat)
    requires k >= MIN_CLUSTERS && v >= 1
  {
    forall x: nat :: x < v ==> x in Positions(k, v)
  }

  lemma {:induction false} OntoDoesNotSkip(k: nat, v: nat, rank: nat)
    requires k >= MIN_CLUSTERS && v >= 1 && rank < k && Covers(k, v)
    ensures LabelIndex(rank, k, v) <= rank
  {
    if rank == 0 {
      EndpointsAreAnchored(k, v);
    } else {
      OntoDoesNotSkip(k, v, rank - 1);
      var i, j := LabelIndex(rank - 1, k, v), LabelIndex(rank, k, v);
      if j > i + 1 {
        LabelIndexIsMonotone(rank, rank, k, v);
        assert i + 1 in Positions(k, v);
        var r :| 0 <= r < k && Positions(k, v)[r] == i + 1;
        if r < rank { LabelIndexIsMonotone(r, rank - 1, k, v); } else { LabelIndexIsMonotone(rank, r, k, v); }
        assert false;
      }
    }
  }

  lemma {:induction false} ReachedBy(k: nat, v: nat, rank: nat, x: nat)
    requires k >= MIN_CLUSTERS && v >= 1 && k >= v && rank < k && x <= LabelIndex(rank, k, v)
    ensures x in Positions(k, v)
  {
    if x == LabelIndex(rank, k, v) {
      assert Positions(k, v)[rank] == x;
    } else if rank == 0 {
      EndpointsAreAnchored(k, v);
    } else {
      LabelStep(rank - 1, k, v);
      ReachedBy(k, v, rank - 1, x);
    }
  }

  /** Every label is used exactly when there are at least as many clusters. */
  lemma OntoIffEnoughClusters(k: nat, v: nat)
    requires k >= MIN_CLUSTERS && v >= 1
    ensures Covers(k, v) <==> k >= v
  {
    EndpointsAreAnchored(k, v);
    if Covers(k, v) {
      OntoDoesNotSkip(k, v, k - 1);
    }
    if k >= v {
      forall x: nat | x < v ensures x in Positions(k, v) {
        ReachedBy(k, v, k - 1, x);
      }
    }
  }

  // ---------- labels, and what a run records of the pairing ----------

  datatype Labelling<+T> = Labelled(value: T) | SizeMismatch

  predicate Pairable(k: nat, vocabulary: seq<nat>) {
    k >= MIN_CLUSTERS && vocabulary != []
  }

  function LabelsByRank(k: nat, vocabulary: seq<nat>): (labels: seq<nat>)
    requires Pairable(k, vocabulary)
    ensures |labels| == k
  {
    seq(k, r requires 0 <= r < k =>
      LabelIndexIsMonotone(r, r, k, |vocabulary|);
      vocabulary[LabelIndex(r, k, |vocabulary|)])
  }

  datatype Mapping = Mapping(byRank: seq<nat>, clustersPerLabel: map<nat, nat>, shared: seq<nat>, unused: seq<nat>)

  function Filtered(vocabulary: seq<nat>, keep: nat -> bool): (kept: seq<nat>)
    ensures forall x :: x in kept <==> x in vocabulary && keep(x)
  {
    if vocabulary == [] then []
    else
      var rest := Filtered(vocabulary[1..], keep);
      assert vocabulary == [vocabulary[0]] + vocabulary[1..];
      if keep(vocabulary[0]) then [vocabulary[0]] + rest else rest
  }

  function DescribeMapping(k: nat, vocabulary: seq<nat>): Labelling<Mapping> {
    if !Pairable(k, vocabulary) then SizeMismatch
    else
      var byRank := LabelsByRank(k, vocabulary);
      Labelled(Mapping(
        byRank,
        map code | code in vocabulary :: Count(byRank, code),
        Filtered(vocabulary, TakenTwice(byRank)),
        Filtered(vocabulary, NeverTaken(byRank))))
  }

  function TakenTwice(byRank: seq<nat>): nat -> bool {
    (code: nat) => Count(byRank, code) > 1
  }

  function NeverTaken(byRank: seq<nat>): nat -> bool {
    (code: nat) => Count(byRank, code) == 0
  }

  /** Labels repeat, and go missing, exactly as their positions do. */
  lemma LabelsMirrorPositions(k: nat, vocabulary: seq<nat>)
    requires Pairable(k, vocabulary) && Distinct(vocabulary)
    ensures var byRank, v := LabelsByRank(k, vocabulary), |vocabulary|;
      && (Distinct(byRank) <==> Distinct(Positions(k, v)))
      && ((forall x :: 0 <= x < v ==> vocabulary[x] in byRank) <==> Covers(k, v))
  {
    hide LabelIndex;
    var v := |vocabulary|;
    var byRank, p := LabelsByRank(k, vocabulary), Positions(k, v);
    forall r | 0 <= r < k ensures p[r] < v && byRank[r] == vocabulary[p[r]] {
      LabelIndexIsMonotone(r, r, k, v);
    }
    forall x: nat | x < v ensures vocabulary[x] in byRank <==> x in p {
      if vocabulary[x] in byRank {
        var r :| 0 <= r < k && byRank[r] == vocabulary[x];
        assert p[r] == x;
      }
      if x in p {
        var r :| 0 <= r < k && p[r] == x;
        assert byRank[r] == vocabulary[x];
      }
    }
  }

  /** Labels shared by clusters exist exactly when clusters outnumber labels, unused
      labels exactly when labels outnumber clusters. */
  lemma MappingReconciles(k: nat, vocabulary: seq<nat>)
    requires Pairable(k, vocabulary) && Distinct(vocabulary)
    ensures DescribeMapping(k, vocabulary).Labelled?
    ensures var m := DescribeMapping(k, vocabulary).value;
      && (m.shared == [] <==> k <= |vocabulary|)
      && (m.unused == [] <==> k >= |vocabulary|)
  {
    hide Filtered, LabelIndex, Positions, Covers;
    var byRank := LabelsByRank(k, vocabulary);
    LabelsMirrorPositions(k, vocabulary);
    InjectiveIffEnoughLabels(k, |vocabulary|);
    OntoIffEnoughClusters(k, |vocabulary|);
    LabelsComeFromVocabulary(k, vocabulary);
    SharedIffRepeated(byRank, vocabulary);
    UnusedIffMissing(byRank, vocabulary);
  }

  lemma LabelsComeFromVocabulary(k: nat, vocabulary: seq<nat>)
    requires Pairable(k, vocabulary)
    ensures forall r :: 0 <= r < k ==> LabelsByRank(k, vocabulary)[r] in vocabulary
  {
    forall r: nat | r < k ensures LabelIndex(r, k, |vocabulary|) < |vocabulary| {
      LabelIndexIsMonotone(r, r, k, |vocabulary|);
    }
  }

  lemma SharedIffRepeated(byRank: seq<nat>, vocabulary: seq<nat>)
    requires forall r :: 0 <= r < |byRank| ==> byRank[r] in vocabulary
    ensures Filtered(vocabulary, TakenTwice(byRank)) == [] <==> Distinct(byRank)
  {
    var shared := Filtered(vocabulary, TakenTwice(byRank));
    if Distinct(byRank) {
      if shared != [] {
        assert shared[0] in shared;
        CountDistinct(byRank, shared[0]);
      }
    } else {
      var r, s :| 0 <= r < s < |byRank| && byRank[r] == byRank[s];
      TwoMembers(byRank, r, s);
      assert byRank[r] in shared;
    }
  }

  lemma UnusedIffMissing(byRank: seq<nat>, vocabulary: seq<nat>)
    ensures Filtered(vocabulary, NeverTaken(byRank)) == []
       <==> forall x :: 0 <= x < |vocabulary| ==> vocabulary[x] in byRank
  {
    var unused := Filtered(vocabulary, NeverTaken(byRank));
    forall x | 0 <= x < |vocabulary| ensures vocabulary[x] in unused <==> vocabulary[x] !in byRank {
      var code := vocabulary[x];
      if code in byRank {
        var r :| 0 <= r < |byRank| && byRank[r] == code;
        MemberCounts(byRank, r);
      } else {
        Absent(byRank, code);
      }
    }
    if unused != [] {
      assert unused[0] in unused;
    }
  }

  function PositionOf(s: seq<nat>, x: nat): (i: nat)
    requires x in s
    ensures i < |s| && s[i] == x
  {
    if s[0] == x then 0 else 1 + PositionOf(s[1..], x)
  }

  /** The label of every cluster, in cluster-number order. */
  function LabelClusters(fit: Fit, vocabulary: seq<nat>): (labels: Labelling<seq<nat>>)
    requires Sound(fit)
    ensures labels.Labelled? <==> Pairable(|fit.centroids|, vocabulary)
    ensures labels.Labelled? ==> |labels.value| == |fit.centroids|
  {
    var k := |fit.centroids|;
    if !Pairable(k, vocabulary) then SizeMismatch
    else
      RankIsPermutation(fit);
      Labelled(seq(k, c requires 0 <= c < k =>
        PermutationIsOnto(RankClusters(fit), k, c);
        LabelsByRank(k, vocabulary)[PositionOf(RankClusters(fit), c)]))
  }

  /** The cluster of each rank carries the label the vocabulary holds for that rank. */
  lemma ClustersAreLabelledByRank(fit: Fit, vocabulary: seq<nat>, r: nat)
    requires Sound(fit) && r < |fit.centroids| && LabelClusters(fit, vocabulary).Labelled?
    ensures Permutation(RankClusters(fit), |fit.centroids|)
    ensures LabelIndex(r, |fit.centroids|, |vocabulary|) < |vocabulary|
    ensures (LabelClusters(fit, vocabulary).value[RankClusters(fit)[r]]
             == vocabulary[LabelIndex(r, |fit.centroids|, |vocabulary|)])
  {
    hide Sound, LabelIndex;
    RankIsPermutation(fit);
    LabelIndexIsMonotone(r, r, |fit.centroids|, |vocabulary|);
    PositionIsUnique(RankClusters(fit), RankClusters(fit)[r], r);
  }

  /** Each customer's label: the label of the cluster they are in. */
  function LabelPairs(fit: Fit, vocabulary: seq<nat>): (pairs: Labelling<map<int, nat>>)
    requires Sound(fit)
    ensures pairs.Labelled? <==> LabelClusters(fit, vocabulary).Labelled?
    ensures pairs.Labelled? ==> (forall i :: 0 <= i < |fit.ids| ==>
      (fit.ids[i] in pairs.value
       && pairs.value[fit.ids[i]] == LabelClusters(fit, vocabulary).value[fit.assignments[i]]))
    ensures pairs.Labelled? ==> pairs.value.Keys == set i | i in fit.ids
  {
    match LabelClusters(fit, vocabulary)
    case SizeMismatch => SizeMismatch
    case Labelled(labels) => Labelled(Zipped(fit.ids, fit.assignments, labels))
  }

  function Zipped(ids: seq<int>, a: seq<nat>, labels: seq<nat>): (m: map<int, nat>)
    requires |ids| == |a| && Within(a, |labels|) && Distinct(ids)
    ensures m.Keys == set i | i in ids
    ensures forall i :: 0 <= i < |ids| ==> ids[i] in m && m[ids[i]] == labels[a[i]]
  {
    map i | 0 <= i < |ids| :: ids[i] := labels[a[i]]
  }

  // ---------- names do not matter ----------

  /** `other` is `fit` with cluster `c` called `pi[c]`. */
  ghost predicate Renames(fit: Fit, other: Fit, pi: seq<nat>) {
    && Permutation(pi, |fit.centroids|)
    && |other.centroids| == |fit.centroids|
    && other.ids == fit.ids && other.points == fit.points
    && |other.assignments| == |fit.assignments|
    && (forall c :: 0 <= c < |pi| ==> other.centroids[pi[c]] == fit.centroids[c])
    && (forall i :: 0 <= i < |fit.assignments| ==>
          fit.assignments[i] < |pi| && other.assignments[i] == pi[fit.assignments[i]])
  }

  function Rename(key: Key, pi: seq<nat>): Key
    requires key.cluster < |pi|
  {
    key.(cluster := pi[key.cluster])
  }

  lemma RenamedIsSound(fit: Fit, other: Fit, pi: seq<nat>)
    requires Sound(fit) && Renames(fit, other, pi)
    ensures Sound(other)
  {
    forall d: nat | d < |other.centroids| ensures Count(other.assignments, d) >= 1 {
      PermutationIsOnto(pi, |pi|, d);
      var c :| 0 <= c < |pi| && pi[c] == d;
      var i := LastPlace(fit.assignments, c);
      MemberCounts(other.assignments, i);
    }
  }

  /** A cluster keeps its key when it is renamed. */
  lemma KeyIsContents(fit: Fit, other: Fit, pi: seq<nat>, c: nat)
    requires Sound(fit) && Sound(other) && Renames(fit, other, pi) && c < |pi|
    ensures KeyOf(other, pi[c]) == Rename(KeyOf(fit, c), pi)
  {
    var x := LeastMember(fit.ids, fit.assignments, c);
    var y := LeastMember(other.ids, other.assignments, pi[c]);
    var i :| 0 <= i < |fit.ids| && fit.assignments[i] == c && fit.ids[i] == x;
    var j :| 0 <= j < |other.ids| && other.assignments[j] == pi[c] && other.ids[j] == y;
    assert other.assignments[i] == pi[c];
    assert fit.assignments[j] == c;
  }

  /** Renaming every cluster renames the order entry by entry. */
  lemma RankFollowsRenaming(fit: Fit, other: Fit, pi: seq<nat>)
    requires Sound(fit) && Sound(other) && Renames(fit, other, pi)
    ensures forall r :: 0 <= r < |pi| ==>
      RankClusters(fit)[r] < |pi| && RankClusters(other)[r] == pi[RankClusters(fit)[r]]
  {
    hide KeyOf, Sort;
    var k := |pi|;
    var keys, sorted := Keys(fit), Sort(Keys(fit), Before());
    RankIsPermutation(fit);
    assert forall r :: 0 <= r < k ==> sorted[r].cluster == RankClusters(fit)[r];
    var renamed := seq(k, r requires 0 <= r < k => Rename(sorted[r], pi));
    BeforeIsTotal();
    SortIsSorted(keys, Before());
    assert Sorted(renamed, Before()) by {
      forall i, j | 0 <= i < j < k ensures Before()(renamed[i], renamed[j]) {
        assert Before()(sorted[i], sorted[j]);
      }
    }
    RenamedKeys(fit, other, pi, sorted, renamed);
    KeysAreTieFree(other);
    SortIsSorted(Keys(other), Before());
    forall x | x in renamed ensures x in Keys(other) { SameElements(renamed, Keys(other), x); }
    SortedIsUnique(renamed, Sort(Keys(other), Before()), Before());
  }

  lemma RenamedKeys(fit: Fit, other: Fit, pi: seq<nat>, sorted: seq<Key>, renamed: seq<Key>)
    requires Sound(fit) && Sound(other) && Renames(fit, other, pi)
    requires multiset(sorted) == multiset(Keys(fit)) && |sorted| == |renamed| == |pi|
    requires forall r :: 0 <= r < |pi| ==> sorted[r].cluster < |pi| && renamed[r] == Rename(sorted[r], pi)
    ensures multiset(renamed) == multiset(Keys(other))
  {
    hide KeyOf;
    var keys := Keys(fit);
    KeysAreTieFree(fit);
    KeysAreTieFree(other);
    DistinctTogether(keys, sorted);
    forall r | 0 <= r < |pi| ensures sorted[r] == keys[sorted[r].cluster] && renamed[r] == Keys(other)[renamed[r].cluster] {
      SameElements(keys, sorted, sorted[r]);
      KeyClusters(fit);
      KeyIsContents(fit, other, pi, sorted[r].cluster);
      KeyClusters(other);
    }
    assert Distinct(renamed) by {
      forall i, j | 0 <= i < j < |renamed| ensures renamed[i] != renamed[j] {
        assert sorted[i] != sorted[j];
      }
    }
    forall x | x in Keys(other) ensures x in renamed {
      var d :| 0 <= d < |pi| && Keys(other)[d] == x;
      PermutationIsOnto(pi, |pi|, d);
      var c :| 0 <= c < |pi| && pi[c] == d;
      KeyIsContents(fit, other, pi, c);
      KeyClusters(fit);
      assert keys[c] in keys;
      SameElements(keys, sorted, keys[c]);
      var r :| 0 <= r < |pi| && sorted[r] == keys[c];
      assert renamed[r] == x;
    }
    SameSetSameMultiset(renamed, Keys(other));
  }

  lemma KeyClusters(fit: Fit)
    requires Sound(fit)
    ensures forall c :: 0 <= c < |Keys(fit)| ==> Keys(fit)[c].cluster == c
  {
  }

  lemma PositionIsUnique(s: seq<nat>, x: nat, i: nat)
    requires Distinct(s) && i < |s| && s[i] == x
    ensures PositionOf(s, x) == i
  {
  }

  /** Renaming every cluster of a fit changes no customer's label. */
  lemma LabelsForgetNames(fit: Fit, other: Fit, pi: seq<nat>, vocabulary: seq<nat>)
    requires Sound(fit) && Renames(fit, other, pi)
    ensures Sound(other)
    ensures LabelPairs(fit, vocabulary) == LabelPairs(other, vocabulary)
  {
    RenamedIsSound(fit, other, pi);
    var k := |pi|;
    if Pairable(k, vocabulary) {
      RankIsPermutation(fit);
      RankIsPermutation(other);
      RankFollowsRenaming(fit, other, pi);
      var labels, labels' := LabelClusters(fit, vocabulary).value, LabelClusters(other, vocabulary).value;
      forall c | 0 <= c < k ensures labels[c] == labels'[pi[c]] {
        PermutationIsOnto(RankClusters(fit), k, c);
        var r := PositionOf(RankClusters(fit), c);
        PositionIsUnique(RankClusters(other), pi[c], r);
      }
      SamePairs(fit, other, vocabulary);
    }
  }

  lemma SamePairs(fit: Fit, other: Fit, vocabulary: seq<nat>)
    requires Sound(fit) && Sound(other) && fit.ids == other.ids
    requires LabelClusters(fit, vocabulary).Labelled? && LabelClusters(other, vocabulary).Labelled?
    requires forall i :: 0 <= i < |fit.ids| ==>
      LabelClusters(fit, vocabulary).value[fit.assignments[i]]
        == LabelClusters(other, vocabulary).value[other.assignments[i]]
    ensures LabelPairs(fit, vocabulary) == LabelPairs(other, vocabulary)
  {
    hide LabelClusters;
    var m, n := LabelPairs(fit, vocabulary).value, LabelPairs(other, vocabulary).value;
    forall x | x in m ensures x in n && m[x] == n[x] {
      var i :| 0 <= i < |fit.ids| && fit.ids[i] == x;
    }
    assert m.Keys == n.Keys;
    assert m == n;
  }

  /** From rows to labels: neither the order rows arrive in nor the names the fit
      gives its clusters can reach a customer's label. */
  lemma LabelsDependOnRowsAlone(
    ids: seq<int>, points: seq<Point>, ids': seq<int>, points': seq<Point>, s: Setting,
    other: Fit, pi: seq<nat>, vocabulary: seq<nat>)
    requires s.Valid() && |ids| == |points| && |ids'| == |points'|
    requires multiset(Rows(ids, points)) == multiset(Rows(ids', points'))
    requires FitCustomers(ids, points, s).Fitted?
    requires FitCustomers(ids', points', s).Fitted? ==> Renames(FitCustomers(ids', points', s).fit, other, pi)
    ensures Sound(FitCustomers(ids, points, s).fit) && Sound(other)
    ensures LabelPairs(FitCustomers(ids, points, s).fit, vocabulary) == LabelPairs(other, vocabulary)
  {
    hide FitCustomers, LabelPairs;
    FitForgetsRowOrder(ids, points, ids', points', s);
    FitIsSound(ids, points, s);
    LabelsForgetNames(FitCustomers(ids, points, s).fit, other, pi, vocabulary);
  }
}
