/** The share of a variable's spread that lies between groups. */
module EtaSquared {
  import opened GroupSums
  import opened Reals

  function Sum(vs: seq<real>): real {
    if vs == [] then 0.0 else Sum(vs[..|vs|-1]) + vs[|vs|-1]
  }

  function Mean(vs: seq<real>): real
    requires vs != []
  {
    Sum(vs) / |vs| as real
  }

  /** Sum of squared distances from one centre. */
  function Spread(vs: seq<real>, centre: real): real {
    if vs == [] then 0.0 else Spread(vs[..|vs|-1], centre) + Square(vs[|vs|-1] - centre)
  }

  /** The values of one group, in order. */
  function Of(values: seq<real>, groups: seq<nat>, g: nat): seq<real>
    requires |values| == |groups|
  {
    if values == [] then []
    else
      var n := |values| - 1;
      Of(values[..n], groups[..n], g) + (if groups[n] == g then [values[n]] else [])
  }

  /** One group's part: its size times the squared distance of its mean. */
  function Between(vs: seq<real>, mean: real): real {
    if vs == [] then 0.0 else Product(|vs| as real, Square(Mean(vs) - mean))
  }

  function Within(vs: seq<real>): real {
    if vs == [] then 0.0 else Spread(vs, Mean(vs))
  }

  function BetweenOf(values: seq<real>, groups: seq<nat>, mean: real): nat -> real
    requires |values| == |groups|
  {
    (g: nat) => Between(Of(values, groups, g), mean)
  }

  datatype Share = Share(value: real) | NoData | LengthsDiffer

  /** Constant values share nothing, and are answered before the groups are looked at. */
  function Eta(values: seq<real>, groups: seq<nat>): Share {
    if values == [] then NoData
    else
      var mean := Mean(values);
      var total := Spread(values, mean);
      if total == 0.0 then Share(0.0)
      else if |values| != |groups| then LengthsDiffer
      else Share(SumOver(Keys(groups), BetweenOf(values, groups, mean)) / total)
  }

  // ---------- The loops ----------

  lemma OfOneMore(values: seq<real>, groups: seq<nat>, v: real, h: nat, g: nat)
    requires |values| == |groups|
    ensures Of(values + [v], groups + [h], g) == Of(values, groups, g) + (if h == g then [v] else [])
  {
    assert (values + [v])[..|values|] == values && (groups + [h])[..|groups|] == groups;
  }

  lemma {:induction false} OfNone(values: seq<real>, groups: seq<nat>, g: nat)
    requires |values| == |groups| && g !in groups
    ensures Of(values, groups, g) == []
  {
    if values == [] {
    } else {
      OfNone(values[..|values|-1], groups[..|values|-1], g);
    }
  }

  /** A dictionary that holds the list of every group. */
  ghost predicate Grouped(byGroup: map<nat, seq<real>>, values: seq<real>, groups: seq<nat>)
    requires |values| == |groups|
  {
    && (forall g :: g in byGroup <==> g in groups)
    && (forall g :: g in byGroup ==> byGroup[g] == Of(values, groups, g))
  }

  lemma GroupedOneMore(byGroup: map<nat, seq<real>>, values: seq<real>, groups: seq<nat>, v: real, h: nat)
    requires |values| == |groups| && Grouped(byGroup, values, groups)
    ensures Grouped(byGroup[h := (if h in byGroup then byGroup[h] else []) + [v]], values + [v], groups + [h])
  {
    var after := byGroup[h := (if h in byGroup then byGroup[h] else []) + [v]];
    if h !in byGroup {
      OfNone(values, groups, h);
    }
    hide Of;
    forall g | g in after ensures after[g] == Of(values + [v], groups + [h], g) {
      OfOneMore(values, groups, v, h, g);
    }
  }

  lemma NothingGrouped()
    ensures Grouped(map[], [], []) && Keys<nat>([]) == []
  {
  }

  /** One turn of the loop. */
  lemma NextIsGrouped(byGroup: map<nat, seq<real>>, values: seq<real>, groups: seq<nat>, v: real, g: nat)
    requires |values| == |groups| && Grouped(byGroup, values, groups)
    ensures Keys(groups + [g]) == if g in byGroup then Keys(groups) else Keys(groups) + [g]
    ensures Grouped(byGroup[g := (if g in byGroup then byGroup[g] else []) + [v]], values + [v], groups + [g])
  {
    GroupedOneMore(byGroup, values, groups, v, g);
    KeysOneMore(groups, g);
    hide Keys, Of;
  }

  /** Fills a dictionary of lists, keys in order of first occurrence. */
  method GroupValues(values: seq<real>, groups: seq<nat>) returns (byGroup: map<nat, seq<real>>, order: seq<nat>)
    requires |values| == |groups|
    ensures order == Keys(groups) && Grouped(byGroup, values, groups)
  {
    NothingGrouped();
    hide Grouped, Keys, Of;
    byGroup, order := map[], [];
    ghost var seenValues, seenGroups: seq<nat> := [], [];
    for i := 0 to |values|
      invariant seenValues == values[..i] && seenGroups == groups[..i]
      invariant order == Keys(seenGroups) && Grouped(byGroup, seenValues, seenGroups)
    {
      var v, g := values[i], groups[i];
      NextIsGrouped(byGroup, seenValues, seenGroups, v, g);
      seenValues, seenGroups := seenValues + [v], seenGroups + [g];
      if g !in byGroup {
        order := order + [g];
      }
      byGroup := byGroup[g := (if g in byGroup then byGroup[g] else []) + [v]];
    }
    assert seenValues == values && seenGroups == groups;
  }

  method SquaredDistances(values: seq<real>, centre: real) returns (total: real)
    ensures total == Spread(values, centre)
  {
    total := 0.0;
    for i := 0 to |values|
      invariant total == Spread(values[..i], centre)
    {
      assert values[..i+1][..i] == values[..i];
      total := total + Square(values[i] - centre);
    }
    assert values[..|values|] == values;
  }

  lemma GroupIsThere(byGroup: map<nat, seq<real>>, values: seq<real>, groups: seq<nat>, i: nat)
    requires |values| == |groups| && Grouped(byGroup, values, groups) && i < |Keys(groups)|
    ensures Keys(groups)[i] in byGroup && byGroup[Keys(groups)[i]] == Of(values, groups, Keys(groups)[i])
  {
    assert Keys(groups)[i] in groups;
  }

  method SumBetween(values: seq<real>, groups: seq<nat>, mean: real) returns (between: real)
    requires |values| == |groups|
    ensures between == SumOver(Keys(groups), BetweenOf(values, groups, mean))
  {
    hide Keys, Of, Between, Grouped;
    var byGroup, order := GroupValues(values, groups);
    between := 0.0;
    for i := 0 to |order|
      invariant between == SumOver(order[..i], BetweenOf(values, groups, mean))
    {
      assert order[..i+1][..i] == order[..i];
      GroupIsThere(byGroup, values, groups, i);
      between := between + Between(byGroup[order[i]], mean);
    }
    assert order[..|order|] == order;
  }

  method ComputeEta(values: seq<real>, groups: seq<nat>) returns (share: Share)
    ensures share == Eta(values, groups)
  {
    hide Mean, Spread, SumOver, BetweenOf, Keys;
    if values == [] {
      return NoData;
    }
    var mean := Mean(values);
    var total := SquaredDistances(values, mean);
    if total == 0.0 {
      return Share(0.0);
    }
    if |values| != |groups| {
      return LengthsDiffer;
    }
    var between := SumBetween(values, groups, mean);
    share := Share(between / total);
  }

  // ---------- The decomposition ----------

  function SumOfSquares(vs: seq<real>): real {
    if vs == [] then 0.0 else SumOfSquares(vs[..|vs|-1]) + Square(vs[|vs|-1])
  }

  lemma {:induction false} SpreadExpands(vs: seq<real>, centre: real)
    ensures Spread(vs, centre)
         == SumOfSquares(vs) - 2.0 * Product(centre, Sum(vs)) + Product(|vs| as real, Square(centre))
  {
    if vs == [] {
    } else {
      var n := |vs| - 1;
      SpreadExpands(vs[..n], centre);
      OneTermExpands(vs[n], centre, Sum(vs[..n]), n);
    }
  }

  lemma OneTermExpands(v: real, centre: real, sum: real, n: nat)
    ensures Square(v - centre) == Square(v) - 2.0 * Product(centre, v) + Square(centre)
    ensures Product(centre, sum + v) == Product(centre, sum) + Product(centre, v)
    ensures Product((n + 1) as real, Square(centre)) == Product(n as real, Square(centre)) + Square(centre)
  {
  }

  lemma {:induction false} SpreadNotNegative(vs: seq<real>, centre: real)
    ensures Spread(vs, centre) >= 0.0
    ensures Spread(vs, centre) == 0.0 <==> forall i :: 0 <= i < |vs| ==> vs[i] == centre
  {
    if vs == [] {
    } else {
      SpreadNotNegative(vs[..|vs|-1], centre);
    }
  }

  lemma AboutTheMean(q: real, s: real, n: real, m: real, c: real)
    requires n > 0.0 && m == s / n
    ensures (q - 2.0 * Product(c, s) + Product(n, Square(c))
             == (q - 2.0 * Product(m, s) + Product(n, Square(m))) + Product(n, Square(m - c)))
    ensures Product(n, Square(m - c)) >= 0.0
  {
    assert s == m * n;
    assert Square(m - c) == Square(m) - 2.0 * (m * c) + Square(c);
    assert n * Square(m - c) == n * Square(m) - 2.0 * (n * (m * c)) + n * Square(c);
    assert c * s == n * (m * c);
    assert m * s == n * Square(m);
  }

  /** The spread of a group about any centre is its spread about its own mean and its size
      times the squared distance between the two. */
  lemma GroupDecomposes(vs: seq<real>, centre: real)
    ensures Spread(vs, centre) == Within(vs) + Between(vs, centre)
    ensures Within(vs) >= 0.0 && Between(vs, centre) >= 0.0
  {
    if vs != [] {
      SpreadExpands(vs, centre);
      SpreadExpands(vs, Mean(vs));
      SpreadNotNegative(vs, Mean(vs));
      AboutTheMean(SumOfSquares(vs), Sum(vs), |vs| as real, Mean(vs), centre);
      hide Spread, Square, Sum, SumOfSquares, Product, Mean;
      assert Spread(vs, centre) == Within(vs) + Between(vs, centre);
      assert Within(vs) >= 0.0 && Between(vs, centre) >= 0.0;
    }
  }

  function SpreadOf(values: seq<real>, groups: seq<nat>, centre: real): nat -> real
    requires |values| == |groups|
  {
    (g: nat) => Spread(Of(values, groups, g), centre)
  }

  function WithinOf(values: seq<real>, groups: seq<nat>): nat -> real
    requires |values| == |groups|
  {
    (g: nat) => Within(Of(values, groups, g))
  }

  /** Adding up group by group loses nothing. */
  lemma {:induction false} GroupsCoverValues(values: seq<real>, groups: seq<nat>, centre: real)
    requires |values| == |groups|
    ensures SumOver(Keys(groups), SpreadOf(values, groups, centre)) == Spread(values, centre)
  {
    hide SumOver, Keys, SpreadOf, Square;
    if values == [] {
      assert groups == [];
      NoGroups(SpreadOf(values, groups, centre));
    } else {
      var n := |values| - 1;
      GroupsCoverValues(values[..n], groups[..n], centre);
      GroupGetsOneMore(values[..n], groups[..n], values[n], groups[n], centre);
      assert groups == groups[..n] + [groups[n]] && values == values[..n] + [values[n]];
    }
  }

  lemma NoGroups(f: nat -> real)
    ensures SumOver(Keys<nat>([]), f) == 0.0
  {
  }

  lemma SpreadOneMore(values: seq<real>, groups: seq<nat>, v: real, g: nat, h: nat, centre: real)
    requires |values| == |groups|
    ensures SpreadOf(values + [v], groups + [g], centre)(h)
         == SpreadOf(values, groups, centre)(h) + (if h == g then Square(v - centre) else 0.0)
  {
    hide Square;
    var mine := Of(values, groups, h);
    assert (values + [v])[..|values|] == values && (groups + [g])[..|groups|] == groups;
    assert Of(values + [v], groups + [g], h) == mine + (if g == h then [v] else []);
    assert g == h ==> (mine + [v])[..|mine|] == mine && Spread(mine + [v], centre) == Spread(mine, centre) + Square(v - centre);
    assert g != h ==> mine + [] == mine;
  }

  lemma GroupGetsOneMore(values: seq<real>, groups: seq<nat>, v: real, g: nat, centre: real)
    requires |values| == |groups|
    ensures SumOver(Keys(groups + [g]), SpreadOf(values + [v], groups + [g], centre))
         == SumOver(Keys(groups), SpreadOf(values, groups, centre)) + Square(v - centre)
  {
    var before, after := SpreadOf(values, groups, centre), SpreadOf(values + [v], groups + [g], centre);
    if g !in groups {
      OfNone(values, groups, g);
    }
    assert g !in groups ==> before(g) == 0.0;
    hide Of, SpreadOf, Spread, Keys, SumOver, Square;
    forall h: nat ensures after(h) == before(h) + (if h == g then Square(v - centre) else 0.0) {
      SpreadOneMore(values, groups, v, g, h, centre);
    }
    SumOverOneMore(groups, g, before, after);
  }

  lemma {:induction false} SumsAdd(keys: seq<nat>, whole: nat -> real, part: nat -> real, other: nat -> real)
    requires forall g :: whole(g) == part(g) + other(g) && part(g) >= 0.0 && other(g) >= 0.0
    ensures SumOver(keys, whole) == SumOver(keys, part) + SumOver(keys, other)
    ensures SumOver(keys, part) >= 0.0 && SumOver(keys, other) >= 0.0
  {
    if keys == [] {
    } else {
      SumsAdd(keys[..|keys|-1], whole, part, other);
    }
  }

  /** Total spread is spread between groups plus spread within them. */
  lemma TotalIsBetweenPlusWithin(values: seq<real>, groups: seq<nat>, centre: real)
    requires |values| == |groups|
    ensures var between := SumOver(Keys(groups), BetweenOf(values, groups, centre));
            var within := SumOver(Keys(groups), WithinOf(values, groups));
            between >= 0.0 && within >= 0.0 && Spread(values, centre) == between + within
  {
    GroupsCoverValues(values, groups, centre);
    forall g: nat {
      GroupDecomposes(Of(values, groups, g), centre);
    }
    SumsAdd(Keys(groups), SpreadOf(values, groups, centre), WithinOf(values, groups),
            BetweenOf(values, groups, centre));
  }

  lemma ShareOfTotal(part: real, rest: real, total: real)
    requires part >= 0.0 && rest >= 0.0 && total == part + rest && total != 0.0
    ensures 0.0 <= part / total <= 1.0
    ensures part / total == 1.0 <==> rest == 0.0
    ensures part / total == 0.0 <==> part == 0.0
  {
    var q := part / total;
    assert q * total == part;
  }

  ghost predicate AllEqual(vs: seq<real>) {
    forall i, j :: 0 <= i < j < |vs| ==> vs[i] == vs[j]
  }

  lemma NoSpreadWithin(vs: seq<real>)
    ensures Within(vs) == 0.0 <==> AllEqual(vs)
  {
    if vs != [] {
      SpreadNotNegative(vs, Mean(vs));
      SpreadNotNegative(vs, vs[0]);
      GroupDecomposes(vs, vs[0]);
    }
  }

  lemma {:induction false} GroupHolds(values: seq<real>, groups: seq<nat>, g: nat, v: real)
    requires |values| == |groups|
    ensures v in Of(values, groups, g) <==> exists i :: 0 <= i < |values| && groups[i] == g && values[i] == v
  {
    if values == [] {
    } else {
      var n := |values| - 1;
      GroupHolds(values[..n], groups[..n], g, v);
      assert forall i :: 0 <= i < n ==> values[..n][i] == values[i] && groups[..n][i] == groups[i];
    }
  }

  /** Members of one group share one value. */
  ghost predicate GroupsAreConstant(values: seq<real>, groups: seq<nat>)
    requires |values| == |groups|
  {
    forall i, j :: 0 <= i < |values| && 0 <= j < |values| && groups[i] == groups[j] ==> values[i] == values[j]
  }

  lemma MembersEqual(vs: seq<real>, x: real, y: real)
    requires AllEqual(vs) && x in vs && y in vs
    ensures x == y
  {
    var i :| 0 <= i < |vs| && vs[i] == x;
    var j :| 0 <= j < |vs| && vs[j] == y;
  }

  lemma OneGroupIsConstant(values: seq<real>, groups: seq<nat>, g: nat)
    requires |values| == |groups| && GroupsAreConstant(values, groups)
    ensures AllEqual(Of(values, groups, g))
  {
    var vs := Of(values, groups, g);
    forall i, j | 0 <= i < j < |vs| ensures vs[i] == vs[j] {
      GroupHolds(values, groups, g, vs[i]);
      GroupHolds(values, groups, g, vs[j]);
    }
  }

  lemma ConstantGroupsFixValues(values: seq<real>, groups: seq<nat>)
    requires |values| == |groups|
    requires forall i :: 0 <= i < |groups| ==> AllEqual(Of(values, groups, groups[i]))
    ensures GroupsAreConstant(values, groups)
  {
    forall i, j | 0 <= i < |values| && 0 <= j < |values| && groups[i] == groups[j] ensures values[i] == values[j] {
      GroupHolds(values, groups, groups[i], values[i]);
      GroupHolds(values, groups, groups[i], values[j]);
      MembersEqual(Of(values, groups, groups[i]), values[i], values[j]);
    }
  }

  lemma {:induction false} ZeroSum(keys: seq<nat>, f: nat -> real)
    requires forall g :: f(g) >= 0.0
    ensures SumOver(keys, f) >= 0.0
    ensures SumOver(keys, f) == 0.0 <==> forall i :: 0 <= i < |keys| ==> f(keys[i]) == 0.0
  {
    if keys == [] {
    } else {
      ZeroSum(keys[..|keys|-1], f);
    }
  }

  lemma WithinOfOne(values: seq<real>, groups: seq<nat>, g: nat)
    requires |values| == |groups|
    ensures WithinOf(values, groups)(g) >= 0.0
    ensures WithinOf(values, groups)(g) == 0.0 <==> AllEqual(Of(values, groups, g))
  {
    hide Spread, AllEqual, Of, Within;
    GroupDecomposes(Of(values, groups, g), 0.0);
    NoSpreadWithin(Of(values, groups, g));
  }

  lemma NoWithinMeansConstant(values: seq<real>, groups: seq<nat>)
    requires |values| == |groups|
    ensures SumOver(Keys(groups), WithinOf(values, groups)) == 0.0 <==> GroupsAreConstant(values, groups)
  {
    hide SumOver, Keys, Within, WithinOf, Of, AllEqual, GroupsAreConstant;
    var keys, f := Keys(groups), WithinOf(values, groups);
    forall g: nat ensures f(g) >= 0.0 && (f(g) == 0.0 <==> AllEqual(Of(values, groups, g))) {
      WithinOfOne(values, groups, g);
    }
    ZeroSum(keys, f);
    if GroupsAreConstant(values, groups) {
      forall i | 0 <= i < |keys| ensures f(keys[i]) == 0.0 {
        OneGroupIsConstant(values, groups, keys[i]);
      }
    } else if SumOver(keys, f) == 0.0 {
      forall i | 0 <= i < |groups| ensures AllEqual(Of(values, groups, groups[i])) {
        assert groups[i] in keys;
      }
      ConstantGroupsFixValues(values, groups);
    }
  }

  /** Eta squared always lies in [0, 1]. For values that are not all the same it is 1 exactly
      when the group alone decides the value. */
  lemma EtaIsAShare(values: seq<real>, groups: seq<nat>)
    requires values != [] && |values| == |groups|
    ensures Eta(values, groups).Share? && 0.0 <= Eta(values, groups).value <= 1.0
    ensures (!AllEqual(values) ==>
               (Eta(values, groups).value == 1.0 <==> GroupsAreConstant(values, groups)))
    ensures AllEqual(values) ==> Eta(values, groups) == Share(0.0)
  {
    var mean := Mean(values);
    var total := Spread(values, mean);
    TotalIsBetweenPlusWithin(values, groups, mean);
    NoWithinMeansConstant(values, groups);
    NoSpreadWithin(values);
    hide Spread, SumOver, Keys, BetweenOf, WithinOf, Mean;
    if total != 0.0 {
      ShareOfTotal(SumOver(Keys(groups), BetweenOf(values, groups, mean)),
                   SumOver(Keys(groups), WithinOf(values, groups)), total);
    }
  }
}
