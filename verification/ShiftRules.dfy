/** The rules of a shift report, over the purchases themselves: who leads, when a change is
    claimed, and which customer ends up in which list. */
module ShiftRules {
  import opened ConsumptionShift
  import opened Options
  import opened Sorting
  import opened UndecidedShifts

  // ---------- who leads ----------

  /** Ahead among channels or stores: more purchases, then more spent, then the lower id. */
  ghost predicate Ahead(x: Total, y: Total) {
    || x.purchases > y.purchases
    || (x.purchases == y.purchases && x.spend > y.spend)
    || (x.purchases == y.purchases && x.spend == y.spend && x.id < y.id)
  }

  /** Ahead among categories: more purchases, then more units, then more spent, then the lower id. */
  ghost predicate AheadByUnits(x: Total, y: Total) {
    || x.purchases > y.purchases
    || (x.purchases == y.purchases && x.units > y.units)
    || (x.purchases == y.purchases && x.units == y.units && x.spend > y.spend)
    || (x.purchases == y.purchases && x.units == y.units && x.spend == y.spend && x.id < y.id)
  }

  ghost predicate InFront(d: Dimension, x: Total, y: Total) {
    match d
    case ByGroup => Ahead(x, y)
    case ByCategory => AheadByUnits(x, y)
  }

  /** The i-th item is ahead of every other. */
  ghost predicate First(d: Dimension, groups: seq<Total>, i: int) {
    0 <= i < |groups| && forall j :: 0 <= j < |groups| && j != i ==> InFront(d, groups[i], groups[j])
  }

  lemma FirstGroup(groups: seq<Total>, base: int) returns (i: int)
    requires OneRowEach(groups) && groups != []
    ensures First(ByGroup, groups, i)
    ensures GroupLeader(groups, base).Some?
    ensures var l := GroupLeader(groups, base).value; l.id == groups[i].id && l.name == groups[i].name
    ensures GroupLeader(groups, base).value.purchases == groups[i].purchases && GroupLeader(groups, base).value.base == base
  {
    var top := RankDominant(groups).value;
    i :| 0 <= i < |groups| && groups[i] == top;
    forall j | 0 <= j < |groups| && j != i ensures Ahead(groups[i], groups[j]) {
      assert !RanksBefore(groups[j], top);
      assert groups[i].id != groups[j].id;
    }
  }

  lemma FirstInCategories(groups: seq<Total>, base: int) returns (i: int)
    requires OneRowEach(groups) && groups != []
    ensures First(ByCategory, groups, i)
    ensures CategoryLeader(groups, base).Some?
    ensures var l := CategoryLeader(groups, base).value; l.id == groups[i].id && l.name == groups[i].name
    ensures CategoryLeader(groups, base).value.purchases == groups[i].purchases && CategoryLeader(groups, base).value.base == base
  {
    var ranked := Sort(groups, CategoryOrder());
    SortIsSorted(groups, CategoryOrder());
    OneIdPerPlace(groups, ranked);
    SameElements(groups, ranked, ranked[0]);
    i :| 0 <= i < |groups| && groups[i] == ranked[0];
    hide Sort;
    forall j | 0 <= j < |groups| && j != i ensures AheadByUnits(groups[i], groups[j]) {
      SameElements(groups, ranked, groups[j]);
      var k :| 0 <= k < |ranked| && ranked[k] == groups[j];
      assert k > 0;
      assert CategoryOrder()(ranked[0], ranked[k]);
    }
  }

  /** The leader is the item ahead of all others, with what it has to its name. */
  lemma LeaderIsFirst(d: Dimension, groups: seq<Total>, base: int) returns (i: int)
    requires OneRowEach(groups) && groups != []
    ensures First(d, groups, i)
    ensures LeaderIn(d, groups, base).Some?
    ensures var l := LeaderIn(d, groups, base).value; l.id == groups[i].id && l.name == groups[i].name && l.purchases == groups[i].purchases
    ensures LeaderIn(d, groups, base).value.base == base
  {
    match d
    case ByGroup => i := FirstGroup(groups, base);
    case ByCategory => i := FirstInCategories(groups, base);
  }

  // ---------- when a change is claimed ----------

  /** The only item with that many purchases or more. */
  ghost predicate Alone(groups: seq<Total>, i: int) {
    0 <= i < |groups| && forall j :: 0 <= j < |groups| && j != i ==> groups[j].purchases < groups[i].purchases
  }

  /** A period is clear on an item: three purchases or more, and the item alone on top. */
  ghost predicate ClearOn(groups: seq<Total>, base: int, id: nat) {
    base >= 3 && exists i :: Alone(groups, i) && groups[i].id == id
  }

  lemma DecisiveExactly(d: Dimension, groups: seq<Total>, base: int)
    requires OneRowEach(groups) && groups != []
    ensures LeaderIn(d, groups, base).Some?
    ensures var l := LeaderIn(d, groups, base).value; Decisive(l) <==> ClearOn(groups, base, l.id)
    ensures forall id :: ClearOn(groups, base, id) ==> id == LeaderIn(d, groups, base).value.id
  {
    LeaderCanLead(d, groups, base);
    var l := LeaderIn(d, groups, base).value;
    hide LeaderIn, CanLead, OneRowEach, ClearOn, Alone;
    DecisiveLeads(l, groups);
  }

  /** Of a leader of some items. */
  lemma DecisiveLeads(l: Leader, groups: seq<Total>)
    requires Leads(l, groups) && OneRowEach(groups)
    ensures Decisive(l) <==> ClearOn(groups, l.base, l.id)
    ensures forall id :: ClearOn(groups, l.base, id) ==> id == l.id
  {
    var i :| 0 <= i < |groups| && CountOf(groups[i]) == Count(l.id, l.name, l.purchases);
    if Decisive(l) {
      forall j | 0 <= j < |groups| && j != i ensures groups[j].purchases < groups[i].purchases {
        assert groups[j].id != l.id;
      }
      assert Alone(groups, i);
    }
    forall id | ClearOn(groups, l.base, id) ensures id == l.id && Decisive(l) {
      var k :| Alone(groups, k) && groups[k].id == id;
      assert groups[i].purchases >= groups[k].purchases;
    }
  }

  /** A shift is claimed exactly when each period is clear on an item, and not on the same one; it
      then goes from the earlier period's to the later one's. */
  lemma ClaimedExactly(d: Dimension, xs: seq<Total>, ys: seq<Total>, baseX: int, baseY: int)
    requires OneRowEach(xs) && OneRowEach(ys)
    ensures var c := Changed(LeaderIn(d, xs, baseX), LeaderIn(d, ys, baseY));
      && (c.Some? <==> exists x, y :: ClearOn(xs, baseX, x) && ClearOn(ys, baseY, y) && x != y)
      && (c.Some? ==> ClearOn(xs, baseX, c.value.before.id) && ClearOn(ys, baseY, c.value.after.id))
  {
    hide LeaderIn, ClearOn;
    LeaderCanLead(d, xs, baseX);
    LeaderCanLead(d, ys, baseY);
    NobodyClear(xs, baseX);
    NobodyClear(ys, baseY);
    if xs != [] {
      DecisiveExactly(d, xs, baseX);
    }
    if ys != [] {
      DecisiveExactly(d, ys, baseY);
    }
  }

  lemma NobodyClear(groups: seq<Total>, base: int)
    ensures groups == [] ==> forall id :: !ClearOn(groups, base, id)
  {
  }

  /** Somebody is undecided on a dimension exactly when another item leads, and no shift is claimed. */
  lemma UndecidedExactly(d: Dimension, xs: seq<Total>, ys: seq<Total>, baseX: int, baseY: int)
    requires OneRowEach(xs) && OneRowEach(ys)
    ensures (Undecided(LeaderIn(d, xs, baseX), LeaderIn(d, ys, baseY))
             <==> && (exists i, j :: First(d, xs, i) && First(d, ys, j) && xs[i].id != ys[j].id)
                  && !exists x, y :: ClearOn(xs, baseX, x) && ClearOn(ys, baseY, y) && x != y)
  {
    hide ClearOn;
    ClaimedExactly(d, xs, ys, baseX, baseY);
    LeaderCanLead(d, xs, baseX);
    LeaderCanLead(d, ys, baseY);
    hide LeaderIn, CanLead, Decisive, Leads;
    if xs != [] && ys != [] {
      var i := LeaderIsFirst(d, xs, baseX);
      var j := LeaderIsFirst(d, ys, baseY);
      OneFirst(d, xs, i);
      OneFirst(d, ys, j);
    }
  }

  lemma OneFirst(d: Dimension, groups: seq<Total>, i: int)
    requires OneRowEach(groups) && First(d, groups, i)
    ensures forall j :: First(d, groups, j) ==> j == i
  {
    forall j | First(d, groups, j) ensures j == i {
      assert j != i ==> InFront(d, groups[i], groups[j]) && InFront(d, groups[j], groups[i]);
    }
  }

  // ---------- which list ----------

  /** Both periods rank the customer; a shift of theirs is claimed; none is, and one is undecided. */
  ghost predicate IsCompared(c: nat, before: map<nat, CustomerLeaders>, after: map<nat, CustomerLeaders>) {
    c in before && c in after
  }

  ghost predicate IsClaimed(c: nat, before: map<nat, CustomerLeaders>, after: map<nat, CustomerLeaders>) {
    c in before && c in after && Claimed(ShiftOf(c, before[c], after[c]))
  }

  ghost predicate IsUndecided(c: nat, before: map<nat, CustomerLeaders>, after: map<nat, CustomerLeaders>) {
    c in before && c in after && !Claimed(ShiftOf(c, before[c], after[c])) && AnyUndecided(before[c], after[c])
  }

  ghost function ComparedIn(ids: seq<nat>, before: map<nat, CustomerLeaders>, after: map<nat, CustomerLeaders>): set<nat> {
    set c | c in ids && IsCompared(c, before, after)
  }

  ghost function ClaimedIn(ids: seq<nat>, before: map<nat, CustomerLeaders>, after: map<nat, CustomerLeaders>): set<nat> {
    set c | c in ids && IsClaimed(c, before, after)
  }

  ghost function UndecidedIn(ids: seq<nat>, before: map<nat, CustomerLeaders>, after: map<nat, CustomerLeaders>): set<nat> {
    set c | c in ids && IsUndecided(c, before, after)
  }

  lemma WithOne(s: set<nat>, t: set<nat>, c: nat, yes: bool)
    requires c !in s && t == if yes then s + {c} else s
    ensures |t| == |s| + (if yes then 1 else 0)
  {
  }

  lemma OneMoreCompared(fewer: seq<nat>, c: nat, before: map<nat, CustomerLeaders>, after: map<nat, CustomerLeaders>)
    requires c !in fewer
    ensures |ComparedIn(fewer + [c], before, after)| == |ComparedIn(fewer, before, after)| + (if IsCompared(c, before, after) then 1 else 0)
  {
    hide IsCompared;
    var s, t := ComparedIn(fewer, before, after), ComparedIn(fewer + [c], before, after);
    assert c !in s && t == if IsCompared(c, before, after) then s + {c} else s;
    hide ComparedIn;
    WithOne(s, t, c, IsCompared(c, before, after));
  }

  lemma OneMoreClaimed(fewer: seq<nat>, c: nat, before: map<nat, CustomerLeaders>, after: map<nat, CustomerLeaders>)
    requires c !in fewer
    ensures |ClaimedIn(fewer + [c], before, after)| == |ClaimedIn(fewer, before, after)| + (if IsClaimed(c, before, after) then 1 else 0)
  {
    hide IsClaimed;
    var s, t := ClaimedIn(fewer, before, after), ClaimedIn(fewer + [c], before, after);
    assert c !in s && t == if IsClaimed(c, before, after) then s + {c} else s;
    hide ClaimedIn;
    WithOne(s, t, c, IsClaimed(c, before, after));
  }

  lemma OneMoreUndecided(fewer: seq<nat>, c: nat, before: map<nat, CustomerLeaders>, after: map<nat, CustomerLeaders>)
    requires c !in fewer
    ensures |UndecidedIn(fewer + [c], before, after)| == |UndecidedIn(fewer, before, after)| + (if IsUndecided(c, before, after) then 1 else 0)
  {
    hide IsUndecided;
    var s, t := UndecidedIn(fewer, before, after), UndecidedIn(fewer + [c], before, after);
    assert c !in s && t == if IsUndecided(c, before, after) then s + {c} else s;
    hide UndecidedIn;
    WithOne(s, t, c, IsUndecided(c, before, after));
  }

  lemma ReportOneMore(fewer: seq<nat>, c: nat, before: map<nat, CustomerLeaders>, after: map<nat, CustomerLeaders>)
    ensures var r, more := ReportOver(fewer, before, after), ReportOver(fewer + [c], before, after);
      && more.compared == r.compared + (if IsCompared(c, before, after) then 1 else 0)
      && |more.shifts| == |r.shifts| + (if IsClaimed(c, before, after) then 1 else 0)
      && more.undecided == r.undecided + (if IsUndecided(c, before, after) then 1 else 0)
  {
    hide Claimed, ShiftOf, AnyUndecided;
    assert (fewer + [c])[..|fewer|] == fewer;
  }

  /** The report's numbers count those customers. */
  lemma {:induction false} ReportCounts(ids: seq<nat>, before: map<nat, CustomerLeaders>, after: map<nat, CustomerLeaders>)
    requires Ascending(ids)
    ensures var r := ReportOver(ids, before, after);
      && r.compared == |ComparedIn(ids, before, after)|
      && |r.shifts| == |ClaimedIn(ids, before, after)|
      && r.undecided == |UndecidedIn(ids, before, after)|
  {
    hide IsCompared, IsClaimed, IsUndecided;
    if ids == [] {
      assert ComparedIn([], before, after) == {} && ClaimedIn([], before, after) == {} && UndecidedIn([], before, after) == {};
    } else {
      var n := |ids| - 1;
      assert ids == ids[..n] + [ids[n]] && ids[n] !in ids[..n];
      hide ReportOver, ComparedIn, ClaimedIn, UndecidedIn;
      ReportCounts(ids[..n], before, after);
      OneMoreCompared(ids[..n], ids[n], before, after);
      OneMoreClaimed(ids[..n], ids[n], before, after);
      OneMoreUndecided(ids[..n], ids[n], before, after);
      ReportOneMore(ids[..n], ids[n], before, after);
      assert ReportOver(ids, before, after).compared == |ComparedIn(ids, before, after)|;
      assert |ReportOver(ids, before, after).shifts| == |ClaimedIn(ids, before, after)|;
      assert ReportOver(ids, before, after).undecided == |UndecidedIn(ids, before, after)|;
    }
  }

  /** A customer ranked in one period only is listed as absent from the other, and a claimed shift
      is listed with what it changes from and to. */
  lemma {:induction false} ReportSaysOf(ids: seq<nat>, before: map<nat, CustomerLeaders>, after: map<nat, CustomerLeaders>, c: nat)
    ensures var r := ReportOver(ids, before, after);
      && (Absence(c, Earlier) in r.absences <==> c in ids && c !in before)
      && (Absence(c, Later) in r.absences <==> c in ids && c in before && c !in after)
      && forall s: CustomerShift :: (s in r.shifts && s.customer == c <==>
           c in ids && c in before && c in after && Claimed(s) && s == ShiftOf(c, before[c], after[c]))
  {
    hide Claimed, AnyUndecided, Changed;
    if ids == [] {
    } else {
      var n := |ids| - 1;
      ReportSaysOf(ids[..n], before, after, c);
      assert ids == ids[..n] + [ids[n]];
    }
  }

  ghost function AbsentIn(r: Report): seq<nat> { seq(|r.absences|, i requires 0 <= i < |r.absences| => r.absences[i].customer) }

  ghost function ShiftedIn(r: Report): seq<nat> { seq(|r.shifts|, i requires 0 <= i < |r.shifts| => r.shifts[i].customer) }

  lemma ListsOneMore(fewer: seq<nat>, c: nat, before: map<nat, CustomerLeaders>, after: map<nat, CustomerLeaders>)
    ensures var r, more := ReportOver(fewer, before, after), ReportOver(fewer + [c], before, after);
      && (AbsentIn(more) == AbsentIn(r) || AbsentIn(more) == AbsentIn(r) + [c])
      && (ShiftedIn(more) == ShiftedIn(r) || ShiftedIn(more) == ShiftedIn(r) + [c])
  {
    hide Claimed, AnyUndecided, Changed;
    assert (fewer + [c])[..|fewer|] == fewer;
  }

  /** Picked from the ids, in their order. */
  ghost predicate Picked(xs: seq<nat>, ids: seq<nat>) {
    Ascending(xs) && forall i :: 0 <= i < |xs| ==> xs[i] in ids
  }

  lemma PickedOneMore(xs: seq<nat>, fewer: seq<nat>, c: nat)
    requires Ascending(fewer + [c]) && Picked(xs, fewer)
    ensures Picked(xs, fewer + [c]) && Picked(xs + [c], fewer + [c])
  {
    var ids := fewer + [c];
    assert c == ids[|fewer|];
    forall i | 0 <= i < |xs| ensures xs[i] < c && xs[i] in ids {
      var j :| 0 <= j < |fewer| && fewer[j] == xs[i];
      assert ids[j] == xs[i];
    }
  }

  /** Lists follow the customers' order. */
  lemma {:induction false} ListsAscend(ids: seq<nat>, before: map<nat, CustomerLeaders>, after: map<nat, CustomerLeaders>)
    requires Ascending(ids)
    ensures Picked(AbsentIn(ReportOver(ids, before, after)), ids)
    ensures Picked(ShiftedIn(ReportOver(ids, before, after)), ids)
  {
    if ids == [] {
    } else {
      var n := |ids| - 1;
      ListsAscend(ids[..n], before, after);
      ListsOneMore(ids[..n], ids[n], before, after);
      assert ids == ids[..n] + [ids[n]];
      PickedOneMore(AbsentIn(ReportOver(ids[..n], before, after)), ids[..n], ids[n]);
      PickedOneMore(ShiftedIn(ReportOver(ids[..n], before, after)), ids[..n], ids[n]);
      hide ReportOver, AbsentIn, ShiftedIn, Picked;
      assert Picked(AbsentIn(ReportOver(ids, before, after)), ids);
      assert Picked(ShiftedIn(ReportOver(ids, before, after)), ids);
    }
  }

  // ---------- what leaders are taken over ----------

  /** A customer is ranked over their own rows: channels and stores by all their purchases, categories
      by the purchases with product lines, or by all when those are not known. */
  lemma RankedOverOwnRows(t: Totals, c: nat)
    ensures LeadersOf(t, c).Some? <==> c in t.channels && t.channels[c] != [] && c in t.stores && t.stores[c] != []
    ensures (LeadersOf(t, c).Some? ==>
               var l, bought := LeadersOf(t, c).value, Purchases(t.channels[c]);
               && Some(l.channel) == LeaderIn(ByGroup, t.channels[c], bought)
               && Some(l.store) == LeaderIn(ByGroup, t.stores[c], bought)
               && (c !in t.categories ==> l.category == None)
               && (c in t.categories && t.lined.None? ==> l.category == LeaderIn(ByCategory, t.categories[c], bought))
               && (c in t.categories && t.lined.Some? && c in t.lined.value ==>
                     l.category == LeaderIn(ByCategory, t.categories[c], t.lined.value[c]))
               && (c in t.categories && t.lined.Some? && c !in t.lined.value ==>
                     l.category == LeaderIn(ByCategory, t.categories[c], 0)))
  {
    hide RankDominant, BestOther, Purchases;
  }

  // ---------- which periods ----------

  ghost predicate Zoned(p: Period) { p.start.hasZone && p.end.hasZone }

  /** Two periods are refused first for a bound without a zone or an empty span, of the first and then
      of the second, and then for sharing an instant; otherwise the earlier one comes first. */
  lemma PeriodsDecide(first: Period, second: Period)
    ensures var o := OrderPeriods(first, second);
      if !Zoned(first) then o == NoTimezone
      else if first.end.at <= first.start.at then o == Empty
      else if !Zoned(second) then o == NoTimezone
      else if second.end.at <= second.start.at then o == Empty
      else if exists at :: Includes(first, at) && Includes(second, at) then o == Overlap
      else o == if first.end.at <= second.start.at then Ordered(first, second) else Ordered(second, first)
  {
    if Check(first).None? && Check(second).None? {
      PeriodsAreDisjoint(first, second);
    }
  }
}
