/** Changes of a customer's leading channel, store or category between two periods. */
module ConsumptionShift {
  import opened Options
  import opened Sorting

  const MIN_PURCHASES_PER_PERIOD := 3

  /** One channel, store or category of one customer in one period. Units are read for
      categories only. */
  datatype Total = Total(id: nat, name: nat, purchases: int, units: int, spend: real)

  /** Who led, with how clearly: the base of its share, and the next one's purchases. */
  datatype Leader = Leader(id: nat, name: nat, purchases: int, base: int, runnerUp: Option<int>)

  predicate TooFew(leader: Leader) { leader.base < MIN_PURCHASES_PER_PERIOD }

  predicate Tied(leader: Leader) { leader.runnerUp == Some(leader.purchases) }

  predicate Decisive(leader: Leader) { !TooFew(leader) && !Tied(leader) }

  // ---------- Ranking ----------

  /** Most purchases, then highest spend, then lowest id. */
  predicate RanksBefore(x: Total, y: Total) {
    x.purchases > y.purchases
    || (x.purchases == y.purchases && (x.spend > y.spend || (x.spend == y.spend && x.id < y.id)))
  }

  function RankDominant(groups: seq<Total>): (top: Option<Total>)
    ensures top.None? <==> groups == []
    ensures top.Some? ==> top.value in groups
    ensures top.Some? ==> forall i :: 0 <= i < |groups| ==> !RanksBefore(groups[i], top.value)
  {
    if groups == [] then None
    else
      var before := RankDominant(groups[..|groups|-1]);
      var last := groups[|groups|-1];
      if before.None? || RanksBefore(last, before.value) then Some(last) else before
  }

  /** Most purchases, then units, then spend, then lowest id. */
  function CategoryOrder(): (Total, Total) -> bool {
    (x: Total, y: Total) =>
      x.purchases > y.purchases
      || (x.purchases == y.purchases
          && (x.units > y.units
              || (x.units == y.units && (x.spend > y.spend || (x.spend == y.spend && x.id <= y.id)))))
  }

  /** The most purchases among groups with another id. */
  function BestOther(groups: seq<Total>, id: nat): (best: Option<int>)
    ensures best.None? <==> forall i :: 0 <= i < |groups| ==> groups[i].id == id
    ensures best.Some? ==> exists i :: 0 <= i < |groups| && groups[i].id != id && groups[i].purchases == best.value
    ensures (best.Some? ==>
               forall i :: 0 <= i < |groups| && groups[i].id != id ==> groups[i].purchases <= best.value)
  {
    if groups == [] then None
    else
      var before := BestOther(groups[..|groups|-1], id);
      var last := groups[|groups|-1];
      if last.id == id || (before.Some? && before.value >= last.purchases) then
        before
      else Some(last.purchases)
  }

  function GroupLeader(groups: seq<Total>, base: int): Option<Leader> {
    var top := RankDominant(groups);
    if top.None? then None
    else Some(Leader(top.value.id, top.value.name, top.value.purchases, base, BestOther(groups, top.value.id)))
  }

  function CategoryLeader(groups: seq<Total>, lined: int): Option<Leader> {
    var ranked := Sort(groups, CategoryOrder());
    if ranked == [] then None
    else
      var runnerUp := if |ranked| > 1 then Some(ranked[1].purchases) else None;
      Some(Leader(ranked[0].id, ranked[0].name, ranked[0].purchases, lined, runnerUp))
  }

  // ---------- Leaders of one period ----------

  datatype CustomerLeaders = CustomerLeaders(channel: Leader, store: Leader, category: Option<Leader>)

  /** The totals of one period by customer; `lined` may be left out. */
  datatype Totals = Totals(channels: map<nat, seq<Total>>, stores: map<nat, seq<Total>>,
                           categories: map<nat, seq<Total>>, lined: Option<map<nat, int>>)

  function Purchases(groups: seq<Total>): int {
    if groups == [] then 0 else Purchases(groups[..|groups|-1]) + groups[|groups|-1].purchases
  }

  function Rows(table: map<nat, seq<Total>>, customer: nat): seq<Total> {
    if customer in table then table[customer] else []
  }

  function LinedOf(totals: Totals, customer: nat, purchases: int): int {
    if totals.lined.None? then purchases
    else if customer in totals.lined.value then totals.lined.value[customer] else 0
  }

  /** None when the customer has no channel or no store to lead. */
  function LeadersOf(totals: Totals, customer: nat): Option<CustomerLeaders> {
    var purchases := Purchases(Rows(totals.channels, customer));
    var channel := GroupLeader(Rows(totals.channels, customer), purchases);
    var store := GroupLeader(Rows(totals.stores, customer), purchases);
    if channel.None? || store.None? then None
    else
      Some(CustomerLeaders(channel.value, store.value,
                           CategoryLeader(Rows(totals.categories, customer), LinedOf(totals, customer, purchases))))
  }

  ghost predicate AreLeaders(leaders: map<nat, CustomerLeaders>, totals: Totals, customers: set<nat>) {
    && (forall c :: c in leaders <==> c in customers && LeadersOf(totals, c).Some?)
    && (forall c :: c in leaders ==> Some(leaders[c]) == LeadersOf(totals, c))
  }

  /** Every customer with a channel row is ranked; one of them without any entry for stores
      is an error (false). */
  method BuildLeaders(totals: Totals) returns (ok: bool, leaders: map<nat, CustomerLeaders>)
    ensures ok <==> totals.channels.Keys <= totals.stores.Keys
    ensures ok ==> AreLeaders(leaders, totals, totals.channels.Keys)
  {
    hide LeadersOf;
    leaders := map[];
    var rest := totals.channels.Keys;
    while rest != {}
      invariant rest <= totals.channels.Keys
      invariant AreLeaders(leaders, totals, totals.channels.Keys - rest)
      invariant totals.channels.Keys - rest <= totals.stores.Keys
      decreases |rest|
    {
      var customer :| customer in rest;
      if customer !in totals.stores {
        return false, leaders;
      }
      var found := LeadersOf(totals, customer);
      if found.Some? {
        leaders := leaders[customer := found.value];
      }
      rest := rest - {customer};
    }
    ok := true;
  }

  // ---------- Comparing two periods ----------

  datatype Shift = Shift(before: Leader, after: Leader)

  predicate Differs(before: Option<Leader>, after: Option<Leader>) {
    before.Some? && after.Some? && (before.value.id != after.value.id)
  }

  function Changed(before: Option<Leader>, after: Option<Leader>): Option<Shift> {
    if Differs(before, after) && Decisive(before.value) && Decisive(after.value)
    then Some(Shift(before.value, after.value)) else None
  }

  predicate Undecided(before: Option<Leader>, after: Option<Leader>) {
    Differs(before, after) && Changed(before, after).None?
  }

  datatype Side = Earlier | Later
  datatype CustomerShift =
    CustomerShift(customer: nat, channel: Option<Shift>, store: Option<Shift>, category: Option<Shift>)
  datatype Absence = Absence(customer: nat, side: Side)
  datatype Report = Report(shifts: seq<CustomerShift>, absences: seq<Absence>,
                           compared: nat, steady: int, undecided: nat)

  function ShiftOf(customer: nat, was: CustomerLeaders, now: CustomerLeaders): CustomerShift {
    CustomerShift(customer, Changed(Some(was.channel), Some(now.channel)),
                  Changed(Some(was.store), Some(now.store)), Changed(was.category, now.category))
  }

  predicate Claimed(shift: CustomerShift) {
    shift.channel.Some? || shift.store.Some? || shift.category.Some?
  }

  predicate AnyUndecided(was: CustomerLeaders, now: CustomerLeaders) {
    Undecided(Some(was.channel), Some(now.channel)) || Undecided(Some(was.store), Some(now.store))
    || Undecided(was.category, now.category)
  }

  /** The report over the customers listed, one after the other. */
  function ReportOver(ids: seq<nat>, before: map<nat, CustomerLeaders>, after: map<nat, CustomerLeaders>): Report {
    if ids == [] then Report([], [], 0, 0, 0)
    else
      var r := ReportOver(ids[..|ids|-1], before, after);
      var c := ids[|ids|-1];
      if c !in before then r.(absences := r.absences + [Absence(c, Earlier)])
      else if c !in after then r.(absences := r.absences + [Absence(c, Later)])
      else
        var shift := ShiftOf(c, before[c], after[c]);
        if Claimed(shift) then r.(shifts := r.shifts + [shift], compared := r.compared + 1)
        else
          r.(compared := r.compared + 1, steady := r.steady + 1,
             undecided := r.undecided + (if AnyUndecided(before[c], after[c]) then 1 else 0))
  }

  ghost predicate Ascending(ids: seq<nat>) {
    forall i, j :: 0 <= i < j < |ids| ==> ids[i] < ids[j]
  }

  /** Every customer of either period, in ascending order. */
  ghost predicate Lists(ids: seq<nat>, before: map<nat, CustomerLeaders>, after: map<nat, CustomerLeaders>) {
    Ascending(ids) && forall c :: c in ids <==> c in before || c in after
  }

  function InsertAscending(x: nat, ids: seq<nat>): (r: seq<nat>)
    ensures forall y :: y in r <==> y == x || y in ids
  {
    if ids == [] || x < ids[0] then [x] + ids
    else
      assert ids == [ids[0]] + ids[1..];
      [ids[0]] + InsertAscending(x, ids[1..])
  }

  lemma {:induction false} InsertKeepsAscending(x: nat, ids: seq<nat>)
    requires Ascending(ids) && x !in ids
    ensures Ascending(InsertAscending(x, ids))
  {
    if ids != [] && !(x < ids[0]) {
      var rest := InsertAscending(x, ids[1..]);
      InsertKeepsAscending(x, ids[1..]);
      forall i | 0 <= i < |rest| ensures ids[0] < rest[i] {
        assert rest[i] in rest;
      }
    }
  }

  method ListSorted(customers: set<nat>) returns (ids: seq<nat>)
    ensures Ascending(ids) && forall c :: c in ids <==> c in customers
  {
    ids := [];
    var rest := customers;
    while rest != {}
      invariant rest <= customers && Ascending(ids)
      invariant forall c :: c in ids <==> c in customers && c !in rest
      decreases |rest|
    {
      var c :| c in rest;
      InsertKeepsAscending(c, ids);
      ids := InsertAscending(c, ids);
      rest := rest - {c};
    }
  }

  method ComparePeriods(before: map<nat, CustomerLeaders>, after: map<nat, CustomerLeaders>)
    returns (report: Report)
    ensures exists ids :: Lists(ids, before, after) && report == ReportOver(ids, before, after)
  {
    var sorted := ListSorted(before.Keys + after.Keys);
    var shifts, absences, compared, undecided := [], [], 0, 0;
    hide Claimed, AnyUndecided, ShiftOf;
    for i := 0 to |sorted|
      invariant compared >= |shifts| && undecided >= 0
      invariant Report(shifts, absences, compared, compared - |shifts|, undecided)
             == ReportOver(sorted[..i], before, after)
    {
      assert sorted[..i+1][..i] == sorted[..i];
      var c := sorted[i];
      if c !in before {
        absences := absences + [Absence(c, Earlier)];
        continue;
      }
      if c !in after {
        absences := absences + [Absence(c, Later)];
        continue;
      }
      compared := compared + 1;
      var shift := ShiftOf(c, before[c], after[c]);
      if Claimed(shift) {
        shifts := shifts + [shift];
      } else if AnyUndecided(before[c], after[c]) {
        undecided := undecided + 1;
      }
    }
    assert sorted[..|sorted|] == sorted;
    report := Report(shifts, absences, compared, compared - |shifts|, undecided);
    assert Lists(sorted, before, after);
  }

  // ---------- The report reconciles ----------

  /** Every customer is compared or absent, every compared customer shifted or unchanged, and
      the undecided are among the unchanged. */
  lemma {:induction false} ReportReconciles(ids: seq<nat>, before: map<nat, CustomerLeaders>,
                                            after: map<nat, CustomerLeaders>)
    ensures var r := ReportOver(ids, before, after);
            && |ids| == r.compared + |r.absences|
            && r.compared == |r.shifts| + r.steady
            && 0 <= r.undecided <= r.steady
  {
    if ids == [] {
    } else {
      ReportReconciles(ids[..|ids|-1], before, after);
    }
  }

  // ---------- What a claimed shift depends on ----------

  /** A row without what was spent or bought in units. */
  datatype Count = Count(id: nat, name: nat, purchases: int)

  ghost function CountOf(total: Total): Count { Count(total.id, total.name, total.purchases) }

  /** Rows of one period name each item once, as grouping by item makes them. */
  ghost predicate OneRowEach(groups: seq<Total>) {
    forall i, j :: 0 <= i < j < |groups| ==> groups[i].id != groups[j].id
  }

  ghost predicate Holds(groups: seq<Total>, count: Count) {
    exists i :: 0 <= i < |groups| && CountOf(groups[i]) == count
  }

  /** The same items with the same purchases, whatever the spend, units and order. */
  ghost predicate SameCounts(xs: seq<Total>, ys: seq<Total>) {
    && OneRowEach(xs) && OneRowEach(ys)
    && forall count :: Holds(xs, count) <==> Holds(ys, count)
  }

  /** What both rankings promise: no item has more purchases than the leader, and the
      runner-up has the most of the others. */
  ghost predicate Leads(leader: Leader, groups: seq<Total>) {
    && Holds(groups, Count(leader.id, leader.name, leader.purchases))
    && (forall i :: 0 <= i < |groups| ==> groups[i].purchases <= leader.purchases)
    && (leader.runnerUp.None? <==> forall i :: 0 <= i < |groups| ==> groups[i].id == leader.id)
    && (leader.runnerUp.Some? ==>
          && (exists i :: 0 <= i < |groups| && groups[i].id != leader.id
                          && groups[i].purchases == leader.runnerUp.value)
          && (forall i :: 0 <= i < |groups| && groups[i].id != leader.id ==>
                groups[i].purchases <= leader.runnerUp.value))
  }

  lemma GroupLeaderLeads(groups: seq<Total>, base: int)
    ensures GroupLeader(groups, base).None? <==> groups == []
    ensures GroupLeader(groups, base).Some? ==> Leads(GroupLeader(groups, base).value, groups)
  {
    var top := RankDominant(groups);
    if top.Some? {
      var i :| 0 <= i < |groups| && groups[i] == top.value;
      assert CountOf(groups[i]) == Count(top.value.id, top.value.name, top.value.purchases);
    }
  }

  lemma OneIdPerPlace(groups: seq<Total>, ranked: seq<Total>)
    requires OneRowEach(groups) && multiset(ranked) == multiset(groups)
    ensures OneRowEach(ranked)
  {
    assert Distinct(groups);
    DistinctTogether(groups, ranked);
    forall i, j | 0 <= i < j < |ranked| ensures ranked[i].id != ranked[j].id {
      SameElements(groups, ranked, ranked[i]);
      SameElements(groups, ranked, ranked[j]);
    }
  }

  /** The ranking holds the same rows, most purchases first. */
  ghost predicate Ranks(ranked: seq<Total>, groups: seq<Total>) {
    && (forall i :: 0 <= i < |groups| ==> groups[i] in ranked)
    && (forall j :: 0 <= j < |ranked| ==> ranked[j] in groups)
    && (forall i, j :: 0 <= i < j < |ranked| ==> ranked[j].purchases <= ranked[i].purchases)
  }

  lemma CategoriesAreRanked(groups: seq<Total>)
    ensures Ranks(Sort(groups, CategoryOrder()), groups)
  {
    var ranked := Sort(groups, CategoryOrder());
    SortIsSorted(groups, CategoryOrder());
    forall i | 0 <= i < |groups| ensures groups[i] in ranked {
      SameElements(groups, ranked, groups[i]);
    }
    forall j | 0 <= j < |ranked| ensures ranked[j] in groups {
      SameElements(groups, ranked, ranked[j]);
    }
    forall i, j | 0 <= i < j < |ranked| ensures ranked[j].purchases <= ranked[i].purchases {
      assert CategoryOrder()(ranked[i], ranked[j]);
    }
  }

  lemma CategoryLeaderLeads(groups: seq<Total>, lined: int)
    requires OneRowEach(groups)
    ensures CategoryLeader(groups, lined).None? <==> groups == []
    ensures CategoryLeader(groups, lined).Some? ==> Leads(CategoryLeader(groups, lined).value, groups)
  {
    var ranked := Sort(groups, CategoryOrder());
    CategoriesAreRanked(groups);
    OneIdPerPlace(groups, ranked);
    hide Sort;
    if ranked != [] {
      LeadsFromRanking(groups, ranked, lined);
    }
  }

  lemma LeadsFromRanking(groups: seq<Total>, ranked: seq<Total>, lined: int)
    requires OneRowEach(ranked) && ranked != [] && Ranks(ranked, groups)
    ensures Leads(Leader(ranked[0].id, ranked[0].name, ranked[0].purchases, lined,
                         if |ranked| > 1 then Some(ranked[1].purchases) else None), groups)
  {
    assert ranked[0] in groups;
    var i :| 0 <= i < |groups| && groups[i] == ranked[0];
    assert CountOf(groups[i]) == Count(ranked[0].id, ranked[0].name, ranked[0].purchases);
    if |ranked| > 1 {
      assert ranked[1] in groups;
      var k :| 0 <= k < |groups| && groups[k] == ranked[1];
      assert groups[k].id != ranked[0].id;
    }
    forall i | 0 <= i < |groups|
      ensures groups[i].purchases <= ranked[0].purchases
      ensures groups[i].id != ranked[0].id ==> |ranked| > 1 && groups[i].purchases <= ranked[1].purchases
    {
      var j :| 0 <= j < |ranked| && ranked[j] == groups[i];
    }
  }

  /** A clear leader is the only item with the most purchases, so nothing else can have led:
      the same counts give the same clear leader, or none on either side. */
  lemma ClearLeaderIsCounted(x: Leader, xs: seq<Total>, y: Leader, ys: seq<Total>)
    requires Leads(x, xs) && Leads(y, ys) && SameCounts(xs, ys) && x.base == y.base
    ensures Decisive(x) == Decisive(y)
    ensures Decisive(x) ==> x == y
  {
    if Decisive(x) {
      ClearLeaderCarries(x, xs, y, ys);
    } else if Decisive(y) {
      ClearLeaderCarries(y, ys, x, xs);
    }
  }

  lemma ClearLeaderCarries(x: Leader, xs: seq<Total>, y: Leader, ys: seq<Total>)
    requires Leads(x, xs) && Leads(y, ys) && SameCounts(xs, ys) && x.base == y.base && Decisive(x)
    ensures x == y
  {
    assert Holds(xs, Count(y.id, y.name, y.purchases));
    assert Holds(ys, Count(x.id, x.name, x.purchases));
    var i :| 0 <= i < |xs| && CountOf(xs[i]) == Count(y.id, y.name, y.purchases);
    var j :| 0 <= j < |ys| && CountOf(ys[j]) == Count(x.id, x.name, x.purchases);
    assert y.purchases == x.purchases;
    assert y.id == x.id;
    var k :| 0 <= k < |xs| && CountOf(xs[k]) == Count(x.id, x.name, x.purchases);
    assert i == k;
    RunnerUpCarries(x, xs, y, ys);
    RunnerUpCarries(y, ys, x, xs);
  }

  lemma RunnerUpCarries(x: Leader, xs: seq<Total>, y: Leader, ys: seq<Total>)
    requires Leads(x, xs) && Leads(y, ys) && SameCounts(xs, ys) && x.id == y.id
    ensures x.runnerUp.Some? ==> y.runnerUp.Some? && x.runnerUp.value <= y.runnerUp.value
  {
    if x.runnerUp.Some? {
      var i :| 0 <= i < |xs| && xs[i].id != x.id && xs[i].purchases == x.runnerUp.value;
      assert Holds(xs, CountOf(xs[i]));
      assert Holds(ys, CountOf(xs[i]));
      var j :| 0 <= j < |ys| && CountOf(ys[j]) == CountOf(xs[i]);
    }
  }

  ghost predicate SameRows(x: Totals, y: Totals, customer: nat) {
    && SameCounts(Rows(x.channels, customer), Rows(y.channels, customer))
    && SameCounts(Rows(x.stores, customer), Rows(y.stores, customer))
    && SameCounts(Rows(x.categories, customer), Rows(y.categories, customer))
  }

  /** Two periods' totals that differ in spend, units and order of rows at most. */
  ghost predicate SamePurchases(x: Totals, y: Totals) {
    && x.channels.Keys == y.channels.Keys && x.lined == y.lined
    && forall customer: nat :: SameRows(x, y, customer)
  }

  /** Leaders that agree wherever they are clear. */
  ghost predicate AgreeWhenClear(x: Option<Leader>, y: Option<Leader>) {
    && x.Some? == y.Some?
    && (x.Some? ==> Decisive(x.value) == Decisive(y.value) && (Decisive(x.value) ==> x == y))
  }

  lemma NothingToHold(groups: seq<Total>)
    ensures groups == [] <==> forall count :: !Holds(groups, count)
  {
    if groups != [] {
      assert Holds(groups, CountOf(groups[0]));
    }
  }

  lemma {:induction false} PurchasesWithout(groups: seq<Total>, i: nat)
    requires i < |groups|
    ensures Purchases(groups) == Purchases(groups[..i] + groups[i+1..]) + groups[i].purchases
  {
    var n := |groups| - 1;
    if i == n {
      assert groups[..i] + groups[i+1..] == groups[..n];
    } else {
      PurchasesWithout(groups[..n], i);
      var rest := groups[..i] + groups[i+1..];
      assert rest[..|rest|-1] == groups[..n][..i] + groups[..n][i+1..];
      assert rest[|rest|-1] == groups[n];
    }
  }

  lemma HoldsWithout(groups: seq<Total>, i: nat, count: Count)
    requires OneRowEach(groups) && i < |groups|
    ensures OneRowEach(groups[..i] + groups[i+1..])
    ensures Holds(groups[..i] + groups[i+1..], count) <==> Holds(groups, count) && count != CountOf(groups[i])
  {
    var rest := groups[..i] + groups[i+1..];
    if k :| 0 <= k < |rest| && CountOf(rest[k]) == count {
      assert rest[k] == groups[if k < i then k else k + 1];
    }
    if k :| 0 <= k < |groups| && CountOf(groups[k]) == count && k != i {
      assert rest[if k < i then k else k - 1] == groups[k];
    }
  }

  /** The number of purchases is a matter of counts, not of the order of rows. */
  lemma {:induction false} SamePurchaseSum(xs: seq<Total>, ys: seq<Total>)
    requires SameCounts(xs, ys)
    ensures Purchases(xs) == Purchases(ys)
    decreases |xs|
  {
    NothingToHold(xs);
    NothingToHold(ys);
    if xs == [] {
    } else {
      var n := |xs| - 1;
      var count := CountOf(xs[n]);
      assert Holds(xs, count) && Holds(ys, count);
      var i: nat :| i < |ys| && CountOf(ys[i]) == count;
      var fewer := ys[..i] + ys[i+1..];
      PurchasesWithout(ys, i);
      assert xs[..n] + xs[n+1..] == xs[..n];
      HoldsWithout(ys, i, count);
      forall c ensures Holds(xs[..n], c) <==> Holds(fewer, c) {
        HoldsWithout(xs, n, c);
        HoldsWithout(ys, i, c);
      }
      SamePurchaseSum(xs[..n], fewer);
    }
  }

  lemma GroupLeadersAgree(xs: seq<Total>, ys: seq<Total>, base: int)
    requires SameCounts(xs, ys)
    ensures AgreeWhenClear(GroupLeader(xs, base), GroupLeader(ys, base))
  {
    NothingToHold(xs);
    NothingToHold(ys);
    GroupLeaderLeads(xs, base);
    GroupLeaderLeads(ys, base);
    assert xs == [] <==> ys == [];
    hide RankDominant, BestOther, Leads, SameCounts;
    if xs != [] {
      ClearLeaderIsCounted(GroupLeader(xs, base).value, xs, GroupLeader(ys, base).value, ys);
    }
  }

  lemma CategoryLeadersAgree(xs: seq<Total>, ys: seq<Total>, lined: int)
    requires SameCounts(xs, ys)
    ensures AgreeWhenClear(CategoryLeader(xs, lined), CategoryLeader(ys, lined))
  {
    NothingToHold(xs);
    NothingToHold(ys);
    CategoryLeaderLeads(xs, lined);
    CategoryLeaderLeads(ys, lined);
    assert xs == [] <==> ys == [];
    hide Sort, Leads, SameCounts;
    if xs != [] {
      ClearLeaderIsCounted(CategoryLeader(xs, lined).value, xs, CategoryLeader(ys, lined).value, ys);
    }
  }

  ghost predicate LeadersAgree(x: CustomerLeaders, y: CustomerLeaders) {
    && AgreeWhenClear(Some(x.channel), Some(y.channel))
    && AgreeWhenClear(Some(x.store), Some(y.store))
    && AgreeWhenClear(x.category, y.category)
  }

  lemma SameBases(x: Totals, y: Totals, customer: nat)
    requires SamePurchases(x, y)
    ensures SameRows(x, y, customer)
    ensures Purchases(Rows(x.channels, customer)) == Purchases(Rows(y.channels, customer))
  {
    assert SameRows(x, y, customer);
    SamePurchaseSum(Rows(x.channels, customer), Rows(y.channels, customer));
  }

  lemma CustomersAgree(x: Totals, y: Totals, customer: nat)
    requires SamePurchases(x, y)
    ensures LeadersOf(x, customer).Some? == LeadersOf(y, customer).Some?
    ensures (LeadersOf(x, customer).Some? ==>
               LeadersAgree(LeadersOf(x, customer).value, LeadersOf(y, customer).value))
  {
    hide GroupLeader, CategoryLeader, Purchases, Rows, SameCounts;
    SameBases(x, y, customer);
    var purchases := Purchases(Rows(x.channels, customer));
    assert LinedOf(x, customer, purchases) == LinedOf(y, customer, purchases);
    hide SamePurchases, LinedOf;
    GroupLeadersAgree(Rows(x.channels, customer), Rows(y.channels, customer), purchases);
    GroupLeadersAgree(Rows(x.stores, customer), Rows(y.stores, customer), purchases);
    CategoryLeadersAgree(Rows(x.categories, customer), Rows(y.categories, customer),
                         LinedOf(x, customer, purchases));
  }

  /** Only clear leaders make a shift, so agreeing leaders make the same one. */
  lemma SameChange(x: Option<Leader>, x2: Option<Leader>, y: Option<Leader>, y2: Option<Leader>)
    requires AgreeWhenClear(x, y) && AgreeWhenClear(x2, y2)
    ensures Changed(x, x2) == Changed(y, y2)
  {
  }

  lemma SameShift(customer: nat, was: CustomerLeaders, now: CustomerLeaders, was2: CustomerLeaders, now2: CustomerLeaders)
    requires LeadersAgree(was, was2) && LeadersAgree(now, now2)
    ensures ShiftOf(customer, was, now) == ShiftOf(customer, was2, now2)
  {
    SameChange(Some(was.channel), Some(now.channel), Some(was2.channel), Some(now2.channel));
    SameChange(Some(was.store), Some(now.store), Some(was2.store), Some(now2.store));
    SameChange(was.category, now.category, was2.category, now2.category);
  }

  ghost predicate MapsAgree(x: map<nat, CustomerLeaders>, y: map<nat, CustomerLeaders>) {
    && (forall c :: c in x <==> c in y)
    && (forall c :: c in x ==> LeadersAgree(x[c], y[c]))
  }

  /** The two reports agree on everything but who is undecided. */
  lemma {:induction false} ReportsAgree(ids: seq<nat>, before: map<nat, CustomerLeaders>, after: map<nat, CustomerLeaders>,
                                        before2: map<nat, CustomerLeaders>, after2: map<nat, CustomerLeaders>)
    requires MapsAgree(before, before2) && MapsAgree(after, after2)
    ensures var r, r2 := ReportOver(ids, before, after), ReportOver(ids, before2, after2);
            r == r2.(undecided := r.undecided)
  {
    if ids == [] {
    } else {
      var c := ids[|ids|-1];
      ReportsAgree(ids[..|ids|-1], before, after, before2, after2);
      if c in before && c in after {
        SameShift(c, before[c], after[c], before2[c], after2[c]);
      }
      hide LeadersAgree, ShiftOf, Claimed, AnyUndecided;
    }
  }

  lemma EntriesAgree(x: Totals, y: Totals, lx: map<nat, CustomerLeaders>, ly: map<nat, CustomerLeaders>, c: nat)
    requires SamePurchases(x, y)
    requires AreLeaders(lx, x, x.channels.Keys) && AreLeaders(ly, y, y.channels.Keys)
    ensures c in lx <==> c in ly
    ensures c in lx && c in ly ==> LeadersAgree(lx[c], ly[c])
  {
    CustomersAgree(x, y, c);
    assert c in x.channels.Keys <==> c in y.channels.Keys;
    hide LeadersOf, LeadersAgree, SamePurchases;
  }

  lemma TotalsGiveAgreeingMaps(x: Totals, y: Totals, lx: map<nat, CustomerLeaders>, ly: map<nat, CustomerLeaders>)
    requires SamePurchases(x, y)
    requires AreLeaders(lx, x, x.channels.Keys) && AreLeaders(ly, y, y.channels.Keys)
    ensures MapsAgree(lx, ly)
  {
    hide LeadersAgree, SamePurchases, AreLeaders;
    forall c: nat
      ensures c in lx <==> c in ly
      ensures c in lx && c in ly ==> LeadersAgree(lx[c], ly[c])
    {
      EntriesAgree(x, y, lx, ly, c);
    }
  }

  /** A report's claimed shifts, with the leaders they name, its absences and its unchanged
      count depend on purchase counts alone: other spend, other units or another order of
      rows changes none of them. */
  lemma ShiftsDependOnCountsAlone(earlier: Totals, later: Totals, earlier2: Totals, later2: Totals,
                                  before: map<nat, CustomerLeaders>, after: map<nat, CustomerLeaders>,
                                  before2: map<nat, CustomerLeaders>, after2: map<nat, CustomerLeaders>,
                                  ids: seq<nat>, ids2: seq<nat>)
    requires SamePurchases(earlier, earlier2) && SamePurchases(later, later2)
    requires AreLeaders(before, earlier, earlier.channels.Keys) && AreLeaders(after, later, later.channels.Keys)
    requires AreLeaders(before2, earlier2, earlier2.channels.Keys) && AreLeaders(after2, later2, later2.channels.Keys)
    requires Lists(ids, before, after) && Lists(ids2, before2, after2)
    ensures var r, r2 := ReportOver(ids, before, after), ReportOver(ids2, before2, after2);
            r.shifts == r2.shifts && r.absences == r2.absences && r.compared == r2.compared && r.steady == r2.steady
  {
    TotalsGiveAgreeingMaps(earlier, earlier2, before, before2);
    TotalsGiveAgreeingMaps(later, later2, after, after2);
    hide AreLeaders, SamePurchases, LeadersAgree;
    assert forall c :: c in ids <==> c in ids2;
    ListingIsUnique(ids, ids2);
    hide Lists;
    ReportsAgree(ids, before, after, before2, after2);
  }

  lemma ListingIsUnique(ids: seq<nat>, ids2: seq<nat>)
    requires Ascending(ids) && Ascending(ids2) && forall c :: c in ids <==> c in ids2
    ensures ids == ids2
  {
    assert Distinct(ids) && Distinct(ids2);
    SameSetSameMultiset(ids, ids2);
    SortedIsUnique(ids, ids2, (x: nat, y: nat) => x <= y);
  }

  lemma CountsMatch(xs: seq<Total>, ys: seq<Total>)
    requires OneRowEach(xs) && |xs| == |ys|
    requires forall i :: 0 <= i < |xs| ==> CountOf(xs[i]) == CountOf(ys[i])
    ensures SameCounts(xs, ys)
  {
    forall i, j | 0 <= i < j < |ys| ensures ys[i].id != ys[j].id {
      assert CountOf(xs[i]) == CountOf(ys[i]) && CountOf(xs[j]) == CountOf(ys[j]);
    }
  }

  lemma LeaderOfTwo(x: Total, y: Total, base: int)
    requires x.id != y.id
    ensures var top, other := if RanksBefore(y, x) then y else x, if RanksBefore(y, x) then x else y;
            GroupLeader([x, y], base) == Some(Leader(top.id, top.name, top.purchases, base, Some(other.purchases)))
  {
    var groups := [x, y];
    assert groups[..1] == [x] && [x][..0] == [];
    assert RankDominant([x]) == Some(x);
    assert RankDominant(groups) == Some(if RanksBefore(y, x) then y else x);
    var top := RankDominant(groups).value;
    assert BestOther([x], top.id) == if x.id == top.id then None else Some(x.purchases);
    hide RankDominant;
  }

  // ---------- Periods ----------

  datatype Instant = Instant(hasZone: bool, at: int)
  datatype Period = Period(start: Instant, end: Instant)
  datatype Ordered = Ordered(earlier: Period, later: Period) | NoTimezone | Empty | Overlap

  function Check(period: Period): Option<Ordered> {
    if !period.start.hasZone || !period.end.hasZone then Some(NoTimezone)
    else if !(period.start.at < period.end.at) then Some(Empty)
    else None
  }

  function OrderPeriods(first: Period, second: Period): Ordered {
    if Check(first).Some? then Check(first).value
    else if Check(second).Some? then Check(second).value
    else
      var pair := if second.start.at < first.start.at then (second, first) else (first, second);
      if pair.0.end.at > pair.1.start.at then Overlap else Ordered(pair.0, pair.1)
  }

  ghost predicate Includes(period: Period, at: int) {
    period.start.at <= at < period.end.at
  }

  /** Two sound periods are compared exactly when no instant lies in both, whichever is passed
      first, and the earlier then ends before the later begins; adjacent ones are allowed. */
  lemma PeriodsAreDisjoint(first: Period, second: Period)
    requires Check(first).None? && Check(second).None?
    ensures OrderPeriods(first, second) == OrderPeriods(second, first)
    ensures OrderPeriods(first, second).Ordered? <==> !exists at :: Includes(first, at) && Includes(second, at)
    ensures (OrderPeriods(first, second).Ordered? ==>
               var o := OrderPeriods(first, second);
               o.earlier.end.at <= o.later.start.at && {o.earlier, o.later} == {first, second})
  {
    if OrderPeriods(first, second).Overlap? {
      var at := if first.start.at < second.start.at then second.start.at else first.start.at;
      assert Includes(first, at) && Includes(second, at);
    }
  }
}
