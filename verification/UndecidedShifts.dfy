/** What money can and cannot decide in a shift report: who is undecided. */
module UndecidedShifts {
  import opened ConsumptionShift
  import opened Options
  import opened Sorting

  /** Channels and stores are ranked one way, categories another. */
  datatype Dimension = ByGroup | ByCategory

  function LeaderIn(d: Dimension, groups: seq<Total>, base: int): Option<Leader> {
    match d
    case ByGroup => GroupLeader(groups, base)
    case ByCategory => CategoryLeader(groups, base)
  }

  /** No item has more purchases, so some spending would make this one lead. */
  ghost predicate CanLead(groups: seq<Total>, id: nat) {
    exists i :: 0 <= i < |groups| && groups[i].id == id && Most(groups, groups[i].purchases)
  }

  ghost predicate Most(groups: seq<Total>, purchases: int) {
    forall i :: 0 <= i < |groups| ==> groups[i].purchases <= purchases
  }

  ghost predicate OneTop(groups: seq<Total>) {
    forall x: nat, y: nat :: CanLead(groups, x) && CanLead(groups, y) ==> x == y
  }

  ghost predicate NoCommonTop(xs: seq<Total>, ys: seq<Total>) {
    forall id: nat :: !(CanLead(xs, id) && CanLead(ys, id))
  }

  /** One item alone can lead each period, or no item can lead both. */
  ghost predicate Settled(xs: seq<Total>, ys: seq<Total>) {
    (OneTop(xs) && OneTop(ys)) || NoCommonTop(xs, ys)
  }

  lemma LeaderCanLead(d: Dimension, groups: seq<Total>, base: int)
    requires OneRowEach(groups)
    ensures LeaderIn(d, groups, base).None? <==> groups == []
    ensures (LeaderIn(d, groups, base).Some? ==>
               var leader := LeaderIn(d, groups, base).value;
               Leads(leader, groups) && leader.base == base && CanLead(groups, leader.id))
  {
    hide RankDominant, BestOther, Sort;
    GroupLeaderLeads(groups, base);
    CategoryLeaderLeads(groups, base);
    if LeaderIn(d, groups, base).Some? {
      var leader := LeaderIn(d, groups, base).value;
      var i :| 0 <= i < |groups| && CountOf(groups[i]) == Count(leader.id, leader.name, leader.purchases);
      assert Most(groups, groups[i].purchases);
    }
  }

  lemma TopsCarry(xs: seq<Total>, ys: seq<Total>, id: nat)
    requires SameCounts(xs, ys) && CanLead(xs, id)
    ensures CanLead(ys, id)
  {
    var i :| 0 <= i < |xs| && xs[i].id == id && Most(xs, xs[i].purchases);
    assert Holds(xs, CountOf(xs[i])) && Holds(ys, CountOf(xs[i]));
    var j :| 0 <= j < |ys| && CountOf(ys[j]) == CountOf(xs[i]);
    forall k | 0 <= k < |ys| ensures ys[k].purchases <= ys[j].purchases {
      assert Holds(ys, CountOf(ys[k])) && Holds(xs, CountOf(ys[k]));
      var l :| 0 <= l < |xs| && CountOf(xs[l]) == CountOf(ys[k]);
    }
    assert Most(ys, ys[j].purchases);
  }

  /** With a second item that can lead, whoever leads is tied. */
  lemma SecondTopTies(leader: Leader, groups: seq<Total>, other: nat)
    requires Leads(leader, groups) && CanLead(groups, other) && other != leader.id
    ensures Tied(leader)
  {
    var i :| 0 <= i < |groups| && groups[i].id == other && Most(groups, groups[i].purchases);
    var j :| 0 <= j < |groups| && CountOf(groups[j]) == Count(leader.id, leader.name, leader.purchases);
    assert groups[j].purchases <= groups[i].purchases;
  }

  // ---------- Spending that makes a chosen item lead ----------

  function Favoured(groups: seq<Total>, id: nat): seq<Total> {
    seq(|groups|, i requires 0 <= i < |groups| =>
      groups[i].(units := if groups[i].id == id then 1 else 0, spend := if groups[i].id == id then 1.0 else 0.0))
  }

  lemma FavouredKeepsCounts(groups: seq<Total>, id: nat)
    requires OneRowEach(groups)
    ensures SameCounts(groups, Favoured(groups, id))
    ensures OneRowEach(Favoured(groups, id))
    ensures CanLead(groups, id) ==> CanLead(Favoured(groups, id), id)
  {
    CountsMatch(groups, Favoured(groups, id));
    if CanLead(groups, id) {
      TopsCarry(groups, Favoured(groups, id), id);
    }
  }

  /** Nothing ranks before an item that has the most purchases and all the spend. */
  lemma FavouriteLeads(d: Dimension, groups: seq<Total>, id: nat, base: int)
    requires OneRowEach(groups) && CanLead(groups, id)
    ensures LeaderIn(d, Favoured(groups, id), base).Some?
    ensures LeaderIn(d, Favoured(groups, id), base).value.id == id
  {
    var all := Favoured(groups, id);
    FavouredKeepsCounts(groups, id);
    var i :| 0 <= i < |all| && all[i].id == id && Most(all, all[i].purchases);
    match d
    case ByGroup =>
      var top := RankDominant(all).value;
      var k :| 0 <= k < |all| && all[k] == top;
      assert !RanksBefore(all[i], top);
      assert all[k].purchases <= all[i].purchases;
    case ByCategory =>
      FirstCategory(all, all[i]);
  }

  lemma FirstCategory(groups: seq<Total>, x: Total)
    requires x in groups && Most(groups, x.purchases)
    requires forall i :: 0 <= i < |groups| && groups[i].id != x.id ==> groups[i].units < x.units
    ensures groups != [] && Sort(groups, CategoryOrder())[0].id == x.id
  {
    var ranked := Sort(groups, CategoryOrder());
    SortIsSorted(groups, CategoryOrder());
    SameElements(groups, ranked, x);
    SameElements(groups, ranked, ranked[0]);
    var j :| 0 <= j < |ranked| && ranked[j] == x;
    var k :| 0 <= k < |groups| && groups[k] == ranked[0];
    assert j > 0 ==> CategoryOrder()(ranked[0], ranked[j]);
    assert groups[k].purchases <= x.purchases;
  }

  // ---------- When money decides ----------

  /** One dimension is undecided, or not, whatever was spent and bought in either period. */
  ghost predicate Steady(d: Dimension, xs: seq<Total>, ys: seq<Total>, baseX: int, baseY: int) {
    forall xs', ys' :: SameCounts(xs, xs') && SameCounts(ys, ys') ==>
      (Undecided(LeaderIn(d, xs', baseX), LeaderIn(d, ys', baseY))
       <==> Undecided(LeaderIn(d, xs, baseX), LeaderIn(d, ys, baseY)))
  }

  lemma LeadersStayPut(d: Dimension, xs: seq<Total>, xs': seq<Total>, base: int)
    requires SameCounts(xs, xs')
    ensures AgreeWhenClear(LeaderIn(d, xs, base), LeaderIn(d, xs', base))
    ensures LeaderIn(d, xs, base).Some? ==> CanLead(xs, LeaderIn(d, xs, base).value.id)
    ensures LeaderIn(d, xs, base).Some? ==> CanLead(xs, LeaderIn(d, xs', base).value.id)
  {
    GroupLeadersAgree(xs, xs', base);
    CategoryLeadersAgree(xs, xs', base);
    LeaderCanLead(d, xs, base);
    LeaderCanLead(d, xs', base);
    hide CanLead, GroupLeader, CategoryLeader, Leads;
    assert SameCounts(xs', xs);
    if LeaderIn(d, xs, base).Some? {
      TopsCarry(xs', xs, LeaderIn(d, xs', base).value.id);
    }
  }

  lemma SteadyWhenSettled(d: Dimension, xs: seq<Total>, ys: seq<Total>, baseX: int, baseY: int)
    requires OneRowEach(xs) && OneRowEach(ys)
    requires Settled(xs, ys)
    ensures Steady(d, xs, ys, baseX, baseY)
  {
    hide CanLead, LeaderIn, SameCounts;
    forall xs', ys' | SameCounts(xs, xs') && SameCounts(ys, ys')
      ensures Undecided(LeaderIn(d, xs', baseX), LeaderIn(d, ys', baseY))
         <==> Undecided(LeaderIn(d, xs, baseX), LeaderIn(d, ys, baseY))
    {
      LeadersStayPut(d, xs, xs', baseX);
      LeadersStayPut(d, ys, ys', baseY);
    }
  }

  /** Two spendings that disagree: one where `common` leads both periods, and one where a tied
      `other` leads one of them. */
  lemma MoneyDecides(d: Dimension, xs: seq<Total>, ys: seq<Total>, baseX: int, baseY: int, common: nat, other: nat)
    requires OneRowEach(xs) && OneRowEach(ys) && other != common && CanLead(xs, common) && CanLead(ys, common)
    ensures !Undecided(LeaderIn(d, Favoured(xs, common), baseX), LeaderIn(d, Favoured(ys, common), baseY))
    ensures (CanLead(xs, other) ==>
               Undecided(LeaderIn(d, Favoured(xs, other), baseX), LeaderIn(d, Favoured(ys, common), baseY)))
    ensures (CanLead(ys, other) ==>
               Undecided(LeaderIn(d, Favoured(xs, common), baseX), LeaderIn(d, Favoured(ys, other), baseY)))
  {
    hide CanLead, LeaderIn, Favoured, SameCounts;
    FavouriteLeads(d, xs, common, baseX);
    FavouriteLeads(d, ys, common, baseY);
    if CanLead(xs, other) {
      OtherIsTied(d, xs, baseX, common, other);
    }
    if CanLead(ys, other) {
      OtherIsTied(d, ys, baseY, common, other);
    }
  }

  lemma OtherIsTied(d: Dimension, xs: seq<Total>, base: int, common: nat, other: nat)
    requires OneRowEach(xs) && other != common && CanLead(xs, common) && CanLead(xs, other)
    ensures LeaderIn(d, Favoured(xs, other), base).Some?
    ensures LeaderIn(d, Favoured(xs, other), base).value.id == other
    ensures Tied(LeaderIn(d, Favoured(xs, other), base).value)
  {
    hide CanLead, LeaderIn, Favoured, Leads;
    FavouriteLeads(d, xs, other, base);
    FavouredKeepsCounts(xs, other);
    TopsCarry(xs, Favoured(xs, other), common);
    LeaderCanLead(d, Favoured(xs, other), base);
    SecondTopTies(LeaderIn(d, Favoured(xs, other), base).value, Favoured(xs, other), common);
  }

  /** Money cannot change whether a dimension is undecided exactly when one item alone can lead
      each period, or no item can lead both: otherwise two spendings of the same purchases
      differ. */
  lemma MoneyIsSilentExactly(d: Dimension, xs: seq<Total>, ys: seq<Total>, baseX: int, baseY: int)
    requires OneRowEach(xs) && OneRowEach(ys)
    ensures Steady(d, xs, ys, baseX, baseY) <==> Settled(xs, ys)
  {
    hide CanLead, LeaderIn, Favoured, SameCounts, Steady;
    if Settled(xs, ys) {
      SteadyWhenSettled(d, xs, ys, baseX, baseY);
    } else {
      var common: nat :| CanLead(xs, common) && CanLead(ys, common);
      if !OneTop(xs) {
        var x: nat, y: nat :| CanLead(xs, x) && CanLead(xs, y) && x != y;
        var other := if x != common then x else y;
        MoneyDecides(d, xs, ys, baseX, baseY, common, other);
        NotSteady(d, xs, ys, baseX, baseY, common, other, common);
      } else {
        var x: nat, y: nat :| CanLead(ys, x) && CanLead(ys, y) && x != y;
        var other := if x != common then x else y;
        MoneyDecides(d, xs, ys, baseX, baseY, common, other);
        NotSteady(d, xs, ys, baseX, baseY, common, common, other);
      }
    }
  }

  lemma NotSteady(d: Dimension, xs: seq<Total>, ys: seq<Total>, baseX: int, baseY: int,
                  common: nat, x: nat, y: nat)
    requires OneRowEach(xs) && OneRowEach(ys)
    requires !Undecided(LeaderIn(d, Favoured(xs, common), baseX), LeaderIn(d, Favoured(ys, common), baseY))
    requires Undecided(LeaderIn(d, Favoured(xs, x), baseX), LeaderIn(d, Favoured(ys, y), baseY))
    ensures !Steady(d, xs, ys, baseX, baseY)
  {
    hide LeaderIn, Favoured, SameCounts, Undecided;
    FavouredKeepsCounts(xs, common);
    FavouredKeepsCounts(ys, common);
    FavouredKeepsCounts(xs, x);
    FavouredKeepsCounts(ys, y);
  }

  // ---------- In a report ----------

  /** One customer with one purchase through each of two channels, both in one store. */
  function TwoChannels(spend: real): Totals {
    Totals(map[0 := [Total(1, 1, 1, 0, spend), Total(2, 2, 1, 0, 5.0)]], map[0 := [Total(3, 3, 2, 0, spend + 5.0)]],
           map[], None)
  }

  function OnlyLeaders(totals: Totals): map<nat, CustomerLeaders> {
    if LeadersOf(totals, 0).Some? then map[0 := LeadersOf(totals, 0).value] else map[]
  }

  lemma LeadersOfTwoChannels(spend: real)
    requires spend != 5.0
    ensures var first, second := Leader(1, 1, 1, 2, Some(1)), Leader(2, 2, 1, 2, Some(1));
            LeadersOf(TwoChannels(spend), 0)
            == Some(CustomerLeaders(if spend > 5.0 then first else second, Leader(3, 3, 2, 2, None), None))
    ensures AreLeaders(OnlyLeaders(TwoChannels(spend)), TwoChannels(spend), TwoChannels(spend).channels.Keys)
  {
    var x, y, store := Total(1, 1, 1, 0, spend), Total(2, 2, 1, 0, 5.0), Total(3, 3, 2, 0, spend + 5.0);
    LeaderOfTwo(x, y, 2);
    assert [x, y][..1] == [x] && [x][..0] == [];
    assert Purchases([x]) == 1;
    assert Purchases([x, y]) == 2;
    assert [store][..0] == [];
    assert RankDominant([store]) == Some(store) && BestOther([store], 3) == None;
    assert Sort<Total>([], CategoryOrder()) == [];
  }

  lemma SameTwoChannels(spend: real, other: real)
    ensures SamePurchases(TwoChannels(spend), TwoChannels(other))
  {
    var x, y := TwoChannels(spend), TwoChannels(other);
    forall c: nat ensures SameRows(x, y, c) {
      CountsMatch(Rows(x.channels, c), Rows(y.channels, c));
      CountsMatch(Rows(x.stores, c), Rows(y.stores, c));
      CountsMatch(Rows(x.categories, c), Rows(y.categories, c));
    }
  }

  lemma ReportOnOne(was: CustomerLeaders, now: CustomerLeaders)
    ensures ReportOver([0], map[0 := was], map[0 := now]).undecided
         == if !Claimed(ShiftOf(0, was, now)) && AnyUndecided(was, now) then 1 else 0
    ensures Lists([0], map[0 := was], map[0 := now])
  {
    assert [0][..0] == [];
    hide Claimed, ShiftOf, AnyUndecided;
  }

  /** So a report's undecided count does depend on spend: the same purchases give one undecided
      customer or none. */
  lemma UndecidedDependsOnSpend()
    ensures var rich, poor := TwoChannels(9.0), TwoChannels(1.0);
            && SamePurchases(rich, poor)
            && AreLeaders(OnlyLeaders(rich), rich, rich.channels.Keys)
            && AreLeaders(OnlyLeaders(poor), poor, poor.channels.Keys)
            && Lists([0], OnlyLeaders(rich), OnlyLeaders(poor)) && Lists([0], OnlyLeaders(rich), OnlyLeaders(rich))
            && ReportOver([0], OnlyLeaders(rich), OnlyLeaders(poor)).undecided == 1
            && ReportOver([0], OnlyLeaders(rich), OnlyLeaders(rich)).undecided == 0
  {
    hide LeadersOf, SamePurchases, AreLeaders, TwoChannels, ReportOver, Lists;
    SameTwoChannels(9.0, 1.0);
    LeadersOfTwoChannels(9.0);
    LeadersOfTwoChannels(1.0);
    var rich, poor := LeadersOf(TwoChannels(9.0), 0).value, LeadersOf(TwoChannels(1.0), 0).value;
    ReportOnOne(rich, poor);
    ReportOnOne(rich, rich);
  }
}
