/** The adjusted Rand index of two labellings of the same items. */
module RandIndex {
  import opened Sorting
  import opened GroupSums

  function Tally<T(==)>(s: seq<T>, x: T): nat {
    if s == [] then 0 else Tally(s[..|s|-1], x) + (if s[|s|-1] == x then 1 else 0)
  }

  /** Pairs one can draw from c items. */
  function Pairs(c: nat): real { (c * (c - 1)) as real / 2.0 }

  function Zip<A, B>(a: seq<A>, b: seq<B>): seq<(A, B)>
    requires |a| == |b|
  {
    seq(|a|, i requires 0 <= i < |a| => (a[i], b[i]))
  }

  function PairsOf<T(==)>(s: seq<T>): T -> real { (x: T) => Pairs(Tally(s, x)) }

  /** Pairs within every group of equal labels, over the counter's entries. */
  function PairsWithin<T(==)>(s: seq<T>): real { SumOver(Keys(s), PairsOf(s)) }

  /** The index from the pairs alike under both labellings, under each, and all pairs. */
  function IndexOf(c: real, x: real, y: real, p: real): real
    requires p > 0.0
  {
    var expected := x * y / p;
    var top := (x + y) / 2.0;
    if top == expected then 1.0 else (c - expected) / (top - expected)
  }

  datatype Score = Score(value: real) | LengthsDiffer | DividesByZero

  function AdjustedRand<A(==), B(==)>(a: seq<A>, b: seq<B>): Score {
    if |a| != |b| then LengthsDiffer
    else if |a| < 2 then DividesByZero
    else
      PairsArePositive(|a|);
      Score(IndexOf(PairsWithin(Zip(a, b)), PairsWithin(a), PairsWithin(b), Pairs(|a|)))
  }

  lemma PairsArePositive(n: nat)
    ensures n >= 2 ==> Pairs(n) > 0.0
    ensures Pairs(n) >= 0.0
  {
  }

  // ---------- Counting the pairs themselves ----------

  /** Pairs of places that hold equal labels. */
  function Alike<T(==)>(s: seq<T>): nat {
    if s == [] then 0 else Alike(s[..|s|-1]) + Tally(s[..|s|-1], s[|s|-1])
  }

  lemma OnePairMore(c: nat)
    ensures Pairs(c + 1) == Pairs(c) + c as real
  {
    assert (c + 1) * c == c * (c - 1) + 2 * c;
  }

  lemma {:induction false} NoneTallied<T>(s: seq<T>, x: T)
    requires x !in s
    ensures Tally(s, x) == 0
  {
    if s == [] {
    } else {
      NoneTallied(s[..|s|-1], x);
    }
  }

  lemma TallyOneMore<T>(s: seq<T>, x: T, y: T)
    ensures Tally(s + [x], y) == Tally(s, y) + (if x == y then 1 else 0)
  {
    assert (s + [x])[..|s|] == s;
  }

  lemma OthersKeepTheirPairs<T>(s: seq<T>, x: T, y: T)
    requires y != x
    ensures PairsOf(s + [x])(y) == PairsOf(s)(y)
  {
    TallyOneMore(s, x, y);
    hide Tally, Pairs;
  }

  lemma ItsPairsGrow<T>(s: seq<T>, x: T)
    ensures PairsOf(s + [x])(x) == PairsOf(s)(x) + Tally(s, x) as real
    ensures x !in s ==> PairsOf(s)(x) == 0.0
  {
    TallyOneMore(s, x, x);
    OnePairMore(Tally(s, x));
    if x !in s {
      NoneTallied(s, x);
    }
    hide Tally;
  }

  lemma PairsOneMore<T>(s: seq<T>, x: T)
    ensures PairsWithin(s + [x]) == PairsWithin(s) + Tally(s, x) as real
  {
    var f, g := PairsOf(s), PairsOf(s + [x]);
    ItsPairsGrow(s, x);
    forall i | 0 <= i < |s| && s[i] != x ensures f(s[i]) == g(s[i]) {
      OthersKeepTheirPairs(s, x, s[i]);
    }
    hide Tally, Pairs, PairsOf, Keys, SumOver;
    SumOverOneMore(s, x, f, g);
  }

  /** Summing c(c-1)/2 over the groups counts each pair of equal labels once. */
  lemma {:induction false} PairsWithinCountsAlike<T>(s: seq<T>)
    ensures PairsWithin(s) == Alike(s) as real
  {
    if s == [] {
    } else {
      var n := |s| - 1;
      PairsWithinCountsAlike(s[..n]);
      PairsOneMore(s[..n], s[n]);
      hide PairsWithin, Tally;
      assert s == s[..n] + [s[n]];
    }
  }

  lemma {:induction false} TallyIsBounded<T>(s: seq<T>, x: T)
    ensures Tally(s, x) <= |s|
    ensures Tally(s, x) == |s| <==> forall i :: 0 <= i < |s| ==> s[i] == x
  {
    if s == [] {
    } else {
      TallyIsBounded(s[..|s|-1], x);
    }
  }

  ghost predicate AllSame<T>(s: seq<T>) {
    forall i, j :: 0 <= i < j < |s| ==> s[i] == s[j]
  }

  /** At most every pair is alike, and all are exactly in the one-group labelling. */
  lemma {:induction false} AlikeIsBounded<T>(s: seq<T>)
    ensures Alike(s) as real <= Pairs(|s|)
    ensures Alike(s) as real == Pairs(|s|) ==> AllSame(s)
  {
    if s == [] {
    } else {
      var n := |s| - 1;
      AlikeIsBounded(s[..n]);
      TallyIsBounded(s[..n], s[n]);
      OnePairMore(n);
    }
  }

  lemma {:induction false} NoneAlike<T>(s: seq<T>)
    requires Alike(s) == 0
    ensures Distinct(s)
  {
    if s == [] {
    } else {
      var n := |s| - 1;
      NoneAlike(s[..n]);
      forall i | 0 <= i < n ensures s[i] != s[n] {
        SomeTallied(s[..n], i);
      }
    }
  }

  lemma {:induction false} SomeTallied<T>(s: seq<T>, i: nat)
    requires i < |s|
    ensures Tally(s, s[i]) > 0
  {
    if i < |s| - 1 {
      SomeTallied(s[..|s|-1], i);
    }
  }

  // ---------- Cells of the cross-table ----------

  lemma ZipDropsLast<A, B>(a: seq<A>, b: seq<B>)
    requires |a| == |b| > 0
    ensures Zip(a, b)[..|a|-1] == Zip(a[..|a|-1], b[..|a|-1])
  {
  }

  lemma {:induction false} CellTally<A, B>(a: seq<A>, b: seq<B>, x: A, y: B)
    requires |a| == |b|
    ensures Tally(Zip(a, b), (x, y)) <= Tally(a, x)
    ensures Tally(Zip(a, b), (x, y)) == Tally(a, x) <==> forall i :: 0 <= i < |a| && a[i] == x ==> b[i] == y
    ensures Tally(Zip(a, b), (x, y)) == Tally(Zip(b, a), (y, x))
  {
    if a == [] {
    } else {
      var n := |a| - 1;
      CellTally(a[..n], b[..n], x, y);
      ZipDropsLast(a, b);
      ZipDropsLast(b, a);
    }
  }

  /** Items alike in `a` are alike in `b`. */
  ghost predicate Refines<A, B>(a: seq<A>, b: seq<B>)
    requires |a| == |b|
  {
    forall i, j :: 0 <= i < j < |a| && a[i] == a[j] ==> b[i] == b[j]
  }

  /** Pairs alike under both labellings are among those alike under one, and are all of them
      exactly when the one refines the other. */
  lemma {:induction false} CellsAlike<A, B>(a: seq<A>, b: seq<B>)
    requires |a| == |b|
    ensures Alike(Zip(a, b)) <= Alike(a)
    ensures Alike(Zip(a, b)) == Alike(a) <==> Refines(a, b)
    ensures Alike(Zip(a, b)) == Alike(Zip(b, a))
  {
    hide Tally;
    if a == [] {
    } else {
      var n := |a| - 1;
      CellsAlike(a[..n], b[..n]);
      CellTally(a[..n], b[..n], a[n], b[n]);
      ZipDropsLast(a, b);
      ZipDropsLast(b, a);
    }
  }

  // ---------- The index ----------

  /** The index in terms of counted pairs. */
  lemma IndexCountsPairs<A, B>(a: seq<A>, b: seq<B>)
    requires |a| == |b| >= 2
    ensures Pairs(|a|) > 0.0
    ensures PairsWithin(a) == Alike(a) as real && PairsWithin(b) == Alike(b) as real
    ensures PairsWithin(Zip(a, b)) == Alike(Zip(a, b)) as real
  {
    PairsArePositive(|a|);
    PairsWithinCountsAlike(a);
    PairsWithinCountsAlike(b);
    PairsWithinCountsAlike(Zip(a, b));
  }

  lemma ScoreIsSymmetric<A, B>(a: seq<A>, b: seq<B>)
    ensures AdjustedRand(a, b) == AdjustedRand(b, a)
  {
    if |a| == |b| >= 2 {
      IndexCountsPairs(a, b);
      IndexCountsPairs(b, a);
      CellsAlike(a, b);
    }
  }

  lemma ProductKeepsOrder(x: real, y: real, z: real)
    requires x >= 0.0 && y <= z
    ensures x * y <= x * z
  {
  }

  lemma QuotientAtMost(x: real, y: real, p: real)
    requires p > 0.0 && x <= y * p
    ensures x / p <= y
  {
  }

  /** What is expected by chance never exceeds either side. */
  lemma ExpectedIsBelow(x: real, y: real, p: real)
    requires 0.0 <= x <= p && 0.0 <= y <= p && p > 0.0
    ensures x * y / p <= x && x * y / p <= y
    ensures x * y / p == (x + y) / 2.0 <==> x == y && (x == 0.0 || x == p)
  {
    ProductKeepsOrder(x, y, p);
    ProductKeepsOrder(y, x, p);
    QuotientAtMost(x * y, x, p);
    QuotientAtMost(x * y, y, p);
    if x * y / p == (x + y) / 2.0 {
      assert x == y;
    }
    SquareMeetsBound(x, p);
  }

  lemma SquareMeetsBound(x: real, p: real)
    requires p > 0.0
    ensures x * x / p == x <==> x == 0.0 || x == p
  {
    var q := x * x / p;
    assert q * p == x * x;
    if q == x {
      assert x * (p - x) == 0.0;
    }
  }

  lemma QuotientIsOne(x: real, y: real)
    requires x <= y && y > 0.0
    ensures x / y <= 1.0
    ensures x / y == 1.0 <==> x == y
  {
    QuotientAtMost(x, 1.0, y);
    if x / y == 1.0 {
      assert x == 1.0 * y;
    }
  }

  ghost predicate SamePartition<A, B>(a: seq<A>, b: seq<B>) {
    |a| == |b| && forall i, j :: 0 <= i < j < |a| ==> (a[i] == a[j] <==> b[i] == b[j])
  }

  /** The index is at most 1, and exactly 1 when, and only when, the two labellings are the
      same partition under other names. */
  lemma ScoreIsOneForTheSamePartition<A, B>(a: seq<A>, b: seq<B>)
    requires |a| == |b| >= 2
    ensures AdjustedRand(a, b).Score? && AdjustedRand(a, b).value <= 1.0
    ensures AdjustedRand(a, b).value == 1.0 <==> SamePartition(a, b)
  {
    IndexCountsPairs(a, b);
    CellsAlike(a, b);
    CellsAlike(b, a);
    AlikeIsBounded(a);
    AlikeIsBounded(b);
    var x, y, p := Alike(a) as real, Alike(b) as real, Pairs(|a|);
    hide Alike, Pairs, PairsWithin, Tally, Zip;
    ScoreFromCounts(Alike(Zip(a, b)) as real, x, y, p);
    if Alike(Zip(a, b)) == Alike(a) == Alike(b) {
      assert SamePartition(a, b);
    }
    if x == y && (x == 0.0 || x == p) {
      OneOrAllGroups(a, b);
    }
  }

  lemma ScoreFromExpected(c: real, x: real, y: real, expected: real)
    requires c <= x && c <= y && expected <= x && expected <= y && expected != (x + y) / 2.0
    ensures (c - expected) / ((x + y) / 2.0 - expected) <= 1.0
    ensures (c - expected) / ((x + y) / 2.0 - expected) == 1.0 <==> c == x == y
  {
    QuotientIsOne(c - expected, (x + y) / 2.0 - expected);
  }

  lemma ScoreFromCounts(c: real, x: real, y: real, p: real)
    requires 0.0 <= x <= p && 0.0 <= y <= p && p > 0.0 && c <= x && c <= y
    ensures IndexOf(c, x, y, p) <= 1.0
    ensures IndexOf(c, x, y, p) == 1.0 <==> (x == y && (x == 0.0 || x == p)) || c == x == y
  {
    var expected := x * y / p;
    ExpectedIsBelow(x, y, p);
    if expected != (x + y) / 2.0 {
      ScoreFromExpected(c, x, y, expected);
      assert IndexOf(c, x, y, p) == (c - expected) / ((x + y) / 2.0 - expected);
    }
  }

  lemma OneOrAllGroups<A, B>(a: seq<A>, b: seq<B>)
    requires |a| == |b|
    requires Alike(a) == Alike(b) && (Alike(a) == 0 || Alike(a) as real == Pairs(|a|))
    ensures SamePartition(a, b)
  {
    if Alike(a) == 0 {
      NoneAlike(a);
      NoneAlike(b);
    } else {
      AlikeIsBounded(a);
      AlikeIsBounded(b);
    }
  }

  /** In particular a labelling scores 1 against itself under any renaming of its labels. */
  lemma RenamingScoresOne<A(!new), B(!new)>(a: seq<A>, rename: A -> B)
    requires |a| >= 2
    requires forall x, y :: x in a && y in a && rename(x) == rename(y) ==> x == y
    ensures AdjustedRand(a, seq(|a|, i requires 0 <= i < |a| => rename(a[i]))) == Score(1.0)
  {
    var b := seq(|a|, i requires 0 <= i < |a| => rename(a[i]));
    ScoreIsOneForTheSamePartition(a, b);
  }

  // ---------- Corrected for chance ----------

  lemma IndexBalances(c: real, x: real, y: real, p: real)
    requires p > 0.0
    ensures var expected, top := x * y / p, (x + y) / 2.0;
      if top == expected then IndexOf(c, x, y, p) == 1.0
      else IndexOf(c, x, y, p) * (top - expected) == c - expected
  {
    var expected, top := x * y / p, (x + y) / 2.0;
    if top != expected {
      var q := (c - expected) / (top - expected);
      assert q * (top - expected) == c - expected;
    }
  }

  /** The index measures what two labellings have in common beyond the pairs expected by chance,
      against the most there could be: it is the share of (the mean of both counts of pairs less
      what is expected) that the pairs in common less what is expected make up. */
  lemma ScoreIsBeyondChance<A, B>(a: seq<A>, b: seq<B>)
    requires |a| == |b| >= 2
    ensures Pairs(|a|) > 0.0
    ensures var c, x, y, p := Alike(Zip(a, b)) as real, Alike(a) as real, Alike(b) as real, Pairs(|a|);
      var expected, top := x * y / p, (x + y) / 2.0;
      && AdjustedRand(a, b).Score?
      && (if top == expected then AdjustedRand(a, b).value == 1.0
          else AdjustedRand(a, b).value * (top - expected) == c - expected)
  {
    hide Alike, Pairs, PairsWithin, Zip, IndexOf;
    IndexCountsPairs(a, b);
    IndexBalances(Alike(Zip(a, b)) as real, Alike(a) as real, Alike(b) as real, Pairs(|a|));
  }

  lemma ZeroOverAnything(x: real, y: real, z: real)
    requires z != 0.0 && x * z == y
    ensures y == 0.0 ==> x == 0.0
  {
  }

  lemma AllOrNothingExpected(x: real, y: real, p: real)
    requires p > 0.0 && (x == p || x == 0.0)
    ensures x * y / p == if x == p then y else 0.0
  {
    if x == p {
      var q := x * y / p;
      assert q * p == y * p;
    }
  }

  lemma {:induction false} AllSameIsAlike<A>(a: seq<A>)
    ensures AllSame(a) ==> Alike(a) as real == Pairs(|a|)
    ensures Distinct(a) ==> Alike(a) == 0
  {
    if a == [] {
    } else {
      var n := |a| - 1;
      AllSameIsAlike(a[..n]);
      TallyIsBounded(a[..n], a[n]);
      OnePairMore(n);
      if Distinct(a) {
        NoneTallied(a[..n], a[n]);
      }
    }
  }

  /** Everything together has every pair alike, everything apart none, and in common with another
      labelling they have that one's pairs, or none. */
  lemma NothingTold<A, B>(a: seq<A>, b: seq<B>)
    requires |a| == |b| && (AllSame(a) || Distinct(a))
    ensures (Alike(a) as real == Pairs(|a|) && Alike(Zip(a, b)) == Alike(b)) || (Alike(a) == 0 && Alike(Zip(a, b)) == 0)
  {
    hide Alike, Pairs, Zip;
    CellsAlike(a, b);
    CellsAlike(b, a);
    AllSameIsAlike(a);
  }

  /** A labelling that puts everything together, or everything apart, tells nothing: it scores 0
      against any labelling but its own partition. */
  lemma NothingToldScoresZero<A, B>(a: seq<A>, b: seq<B>)
    requires |a| == |b| >= 2 && (AllSame(a) || Distinct(a)) && !SamePartition(a, b)
    ensures AdjustedRand(a, b) == Score(0.0)
  {
    hide AdjustedRand, Alike, Pairs, Zip, SamePartition, AllSame, Distinct;
    ScoreIsBeyondChance(a, b);
    ScoreIsOneForTheSamePartition(a, b);
    NothingTold(a, b);
    var c, x, y, p := Alike(Zip(a, b)) as real, Alike(a) as real, Alike(b) as real, Pairs(|a|);
    AllOrNothingExpected(x, y, p);
    ZeroOverAnything(AdjustedRand(a, b).value, c - x * y / p, (x + y) / 2.0 - x * y / p);
  }
}
