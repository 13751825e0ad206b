/** The outcome counts of an experiment's arms, and what they count: assignments, one by one, with
    a sale of the assigned customer's own in their window. */
module ExperimentCounts {
  import opened Counting
  import opened ExperimentArms
  import opened Experiments
  import opened ExperimentRuns

  // ---------- outcome counts ----------

  /** Assignments of one arm, among the first `n`, for which `p` holds. */
  function CountWhere(assignments: seq<Assignment>, e: nat, group: nat, n: nat, p: nat -> bool): nat
    requires n <= |assignments|
  {
    if n == 0 then 0
    else
      var a := assignments[n-1];
      CountWhere(assignments, e, group, n - 1, p) + (if a.experiment == e && a.group == group && p(n - 1) then 1 else 0)
  }

  ghost predicate InArm(a: Assignment, e: nat, group: nat) {
    a.experiment == e && a.group == group
  }

  lemma {:induction false} CountCongruence(assignments: seq<Assignment>, e: nat, group: nat, n: nat, p: nat -> bool, q: nat -> bool)
    requires n <= |assignments|
    requires forall i: nat :: i < n && InArm(assignments[i], e, group) ==> p(i) == q(i)
    ensures CountWhere(assignments, e, group, n, p) == CountWhere(assignments, e, group, n, q)
  {
    if n == 0 {
    } else {
      CountCongruence(assignments, e, group, n - 1, p, q);
      assert InArm(assignments[n-1], e, group) <==> assignments[n-1].experiment == e && assignments[n-1].group == group;
    }
  }

  lemma {:induction false} CountIsZero(assignments: seq<Assignment>, e: nat, group: nat, n: nat, p: nat -> bool)
    requires n <= |assignments|
    ensures CountWhere(assignments, e, group, n, p) == 0 <==> forall i: nat :: i < n && InArm(assignments[i], e, group) ==> !p(i)
  {
    if n == 0 {
    } else {
      CountIsZero(assignments, e, group, n - 1, p);
      assert InArm(assignments[n-1], e, group) <==> assignments[n-1].experiment == e && assignments[n-1].group == group;
    }
  }

  lemma {:induction false} CountSplits(assignments: seq<Assignment>, e: nat, group: nat, n: nat, p: nat -> bool, q: nat -> bool)
    requires n <= |assignments|
    ensures CountWhere(assignments, e, group, n, p)
         == CountWhere(assignments, e, group, n, (i: nat) => p(i) && q(i)) + CountWhere(assignments, e, group, n, (i: nat) => p(i) && !q(i))
  {
    if n == 0 {
    } else {
      CountSplits(assignments, e, group, n - 1, p, q);
    }
  }

  /** Whether an assignment has a recorded conversion. */
  function HasConversion(db: Db): nat -> bool {
    (i: nat) => exists l :: l in db.conversions && l.assignment == i
  }

  /** Whether the assigned customer has a sale in [assigned_at, assigned_at + window). */
  function HasQualifyingSale(db: Db): nat -> bool {
    (i: nat) => i < |db.assignments| && db.assignments[i].experiment < |db.experiments|
      && exists t :: 0 <= t < |db.sales|
           && Qualifies(db.assignments[i], db.experiments[db.assignments[i].experiment].windowDays, db.sales[t])
  }

  function WindowOpen(db: Db, now: int): nat -> bool {
    (i: nat) => i < |db.assignments| && db.assignments[i].experiment < |db.experiments|
      && db.assignments[i].at + db.experiments[db.assignments[i].experiment].windowDays * DAY > now
  }

  function Everyone(): nat -> bool { (i: nat) => true }
  function Both(p: nat -> bool, q: nat -> bool): nat -> bool { (i: nat) => p(i) && q(i) }
  function Not(p: nat -> bool): nat -> bool { (i: nat) => !p(i) }

  datatype GroupConversion = GroupConversion(
    group: Group, total: nat, converted: nat, pending: nat, notConverted: nat, unrecorded: nat)

  function CountArm(db: Db, e: nat, group: nat, p: nat -> bool): nat {
    CountWhere(db.assignments, e, group, |db.assignments|, p)
  }

  function OutcomeOf(db: Db, e: nat, group: Group, now: int): GroupConversion {
    var converted, open, qualifies := HasConversion(db), WindowOpen(db, now), HasQualifyingSale(db);
    GroupConversion(
      group,
      CountArm(db, e, group.id, Everyone()),
      CountArm(db, e, group.id, converted),
      CountArm(db, e, group.id, Both(Not(converted), open)),
      CountArm(db, e, group.id, Both(Not(converted), Not(open))),
      CountArm(db, e, group.id, Both(Not(converted), qualifies)))
  }

  /** One row per arm, control first. */
  function ListGroupConversion(db: Db, e: nat, now: int): (rows: seq<GroupConversion>)
    requires e < |db.experiments|
    ensures |rows| == |db.experiments[e].groups|
    ensures forall g :: 0 <= g < |rows| ==> rows[g] == OutcomeOf(db, e, db.experiments[e].groups[g], now)
  {
    seq(|db.experiments[e].groups|, g requires 0 <= g < |db.experiments[e].groups| => OutcomeOf(db, e, db.experiments[e].groups[g], now))
  }

  lemma {:induction false} EveryoneIsInTheArm(assignments: seq<Assignment>, e: nat, group: nat, n: nat)
    requires n <= |assignments|
    ensures CountWhere(assignments, e, group, n, Everyone()) == ArmCount(assignments[..n], e, group)
  {
    if n == 0 {
    } else {
      EveryoneIsInTheArm(assignments, e, group, n - 1);
      assert assignments[..n][..n-1] == assignments[..n-1];
    }
  }

  function TotalAssigned(rows: seq<GroupConversion>): nat {
    if rows == [] then 0 else TotalAssigned(rows[..|rows|-1]) + rows[|rows|-1].total
  }

  lemma {:induction false} TotalsAreArms(db: Db, e: nat, rows: seq<GroupConversion>, groups: seq<Group>, now: int)
    requires |rows| == |groups|
    requires forall g :: 0 <= g < |rows| ==> rows[g] == OutcomeOf(db, e, groups[g], now)
    ensures TotalAssigned(rows) == ArmTotal(db.assignments, e, groups)
  {
    hide HasConversion, WindowOpen, HasQualifyingSale, CountWhere, ArmCount;
    if rows == [] {
    } else {
      var n := |rows| - 1;
      TotalsAreArms(db, e, rows[..n], groups[..n], now);
      EveryoneIsInTheArm(db.assignments, e, groups[n].id, |db.assignments|);
      assert db.assignments[..|db.assignments|] == db.assignments;
    }
  }

  /** The rows leave nobody out and count nobody twice: their totals come to the assignments of
      the experiment. */
  lemma RowsCoverAssignments(db: Db, e: nat, now: int)
    requires Inv(db) && e < |db.experiments|
    ensures TotalAssigned(ListGroupConversion(db, e, now)) == AssignmentCount(db.assignments, e)
  {
    hide OutcomeOf, AssignmentCount, ArmTotal, KindOf;
    var groups := db.experiments[e].groups;
    TotalsAreArms(db, e, ListGroupConversion(db, e, now), groups, now);
    forall i | 0 <= i < |db.assignments| && db.assignments[i].experiment == e
      ensures KindOf(groups, db.assignments[i].group).Some?
    {
      assert AssignmentOk(db, db.assignments[i]);
    }
    ArmsCoverAssignments(db.assignments, e, groups);
  }

  /** Where the query puts one row before another: the control, then by id. */
  ghost predicate ListedBefore(x: GroupConversion, y: GroupConversion) {
    (x.group.kind == Control && y.group.kind == Treatment)
    || (x.group.kind == y.group.kind && x.group.id < y.group.id)
  }

  /** The rows come in that order, so a control, when there is one, is the first and only one. */
  lemma ControlComesFirst(db: Db, e: nat, now: int)
    requires Inv(db) && e < |db.experiments|
    ensures var rows := ListGroupConversion(db, e, now);
      && (forall i, j :: 0 <= i < j < |rows| ==> ListedBefore(rows[i], rows[j]))
      && (forall i :: 0 <= i < |rows| && rows[i].group.kind == Control ==> i == 0)
  {
    hide CountArm;
    var rows, groups := ListGroupConversion(db, e, now), db.experiments[e].groups;
    assert Listed(groups);
    forall i | 0 <= i < |rows| ensures rows[i].group == groups[i] {
    }
    forall i, j | 0 <= i < j < |rows| ensures ListedBefore(rows[i], rows[j]) && rows[j].group.kind == Treatment {
      assert groups[i].id < groups[j].id && groups[j].kind == Treatment;
    }
    forall i | 0 < i < |rows| ensures rows[i].group.kind == Treatment {
      assert ListedBefore(rows[0], rows[i]);
    }
  }

  /** Every assigned customer is in exactly one of converted, pending, not converted. */
  lemma OutcomesPartition(db: Db, e: nat, group: Group, now: int)
    ensures var o := OutcomeOf(db, e, group, now); o.total == o.converted + o.pending + o.notConverted
  {
    var converted, open, n := HasConversion(db), WindowOpen(db, now), |db.assignments|;
    CountSplits(db.assignments, e, group.id, n, Everyone(), converted);
    CountCongruence(db.assignments, e, group.id, n, (i: nat) => Everyone()(i) && converted(i), converted);
    CountCongruence(db.assignments, e, group.id, n, (i: nat) => Everyone()(i) && !converted(i), Not(converted));
    CountSplits(db.assignments, e, group.id, n, Not(converted), open);
    CountCongruence(db.assignments, e, group.id, n, (i: nat) => Not(converted)(i) && open(i), Both(Not(converted), open));
    CountCongruence(db.assignments, e, group.id, n, (i: nat) => Not(converted)(i) && !open(i), Both(Not(converted), Not(open)));
  }

  // ---------- what is counted ----------

  const SECONDS_PER_DAY := 86400

  /** The assignments of one arm. */
  ghost function Members(db: Db, e: nat, group: nat): set<nat> {
    set i: nat | i < |db.assignments| && db.assignments[i].experiment == e && db.assignments[i].group == group
  }

  /** The moment an assignment's window closes. */
  ghost function Closes(db: Db, i: nat): int
    requires i < |db.assignments| && db.assignments[i].experiment < |db.experiments|
  {
    db.assignments[i].at + db.experiments[db.assignments[i].experiment].windowDays * SECONDS_PER_DAY
  }

  /** The t-th sale is the i-th assignment's own customer's, from the assignment on and before its
      window closes. */
  ghost predicate BoughtAt(db: Db, i: nat, t: nat) {
    && i < |db.assignments| && t < |db.sales| && db.assignments[i].experiment < |db.experiments|
    && db.sales[t].customer == db.assignments[i].customer
    && db.assignments[i].at <= db.sales[t].at < Closes(db, i)
  }

  ghost predicate Bought(db: Db, i: nat) { exists t: nat :: BoughtAt(db, i, t) }

  ghost predicate Recorded(db: Db, i: nat) { exists t: nat :: Link(i, t) in db.conversions }

  /** How many of an arm's customers bought in their own window. */
  ghost function Buyers(db: Db, e: nat, group: nat): nat {
    |set i: nat | i in Members(db, e, group) && Bought(db, i)|
  }

  lemma SaleQualifiesExactly(db: Db, i: nat, t: nat)
    ensures (BoughtAt(db, i, t) <==>
               i < |db.assignments| && t < |db.sales| && db.assignments[i].experiment < |db.experiments|
               && Qualifies(db.assignments[i], db.experiments[db.assignments[i].experiment].windowDays, db.sales[t]))
  {
  }

  lemma BoughtExactly(db: Db, i: nat)
    ensures Bought(db, i) <==> HasQualifyingSale(db)(i)
    ensures Recorded(db, i) <==> HasConversion(db)(i)
  {
    forall t: nat {
      SaleQualifiesExactly(db, i, t);
    }
    hide BoughtAt, Qualifies;
    if HasConversion(db)(i) {
      var l :| l in db.conversions && l.assignment == i;
      assert l == Link(i, l.sale);
    }
  }

  /** The places among the first `n` that are counted. */
  ghost function Counted(assignments: seq<Assignment>, e: nat, group: nat, n: nat, p: nat -> bool): set<nat>
    requires n <= |assignments|
  {
    set i: nat | i < n && assignments[i].experiment == e && assignments[i].group == group && p(i)
  }

  lemma OneMoreCounted(assignments: seq<Assignment>, e: nat, group: nat, n: nat, p: nat -> bool)
    requires 0 < n <= |assignments|
    ensures var a, k := assignments[n-1], (n - 1) as nat;
      && k !in Counted(assignments, e, group, k, p)
      && Counted(assignments, e, group, n, p)
         == Counted(assignments, e, group, k, p) + (if a.experiment == e && a.group == group && p(k) then {k} else {})
  {
  }

  /** Counting along the table is the size of the set counted. */
  lemma {:induction false} CountIsSize(assignments: seq<Assignment>, e: nat, group: nat, n: nat, p: nat -> bool)
    requires n <= |assignments|
    ensures CountWhere(assignments, e, group, n, p) == |Counted(assignments, e, group, n, p)|
  {
    if n == 0 {
      assert Counted(assignments, e, group, n, p) == {};
    } else {
      CountIsSize(assignments, e, group, n - 1, p);
      OneMoreCounted(assignments, e, group, n, p);
      hide Counted;
    }
  }

  lemma ArmIsSize(db: Db, e: nat, group: nat, p: nat -> bool)
    ensures CountArm(db, e, group, p) == |set i: nat | i in Members(db, e, group) && p(i)|
  {
    CountIsSize(db.assignments, e, group, |db.assignments|, p);
    assert (set i: nat | i in Members(db, e, group) && p(i))
        == Counted(db.assignments, e, group, |db.assignments|, p);
  }

  lemma BuyersAreCounted(db: Db, e: nat, group: nat)
    ensures CountArm(db, e, group, HasQualifyingSale(db)) == Buyers(db, e, group) <= CountArm(db, e, group, Everyone())
  {
    hide HasQualifyingSale, Bought, CountArm;
    forall i: nat ensures Bought(db, i) <==> HasQualifyingSale(db)(i) {
      BoughtExactly(db, i);
    }
    ArmIsSize(db, e, group, HasQualifyingSale(db));
    ArmIsSize(db, e, group, Everyone());
    var buyers := set i: nat | i in Members(db, e, group) && Bought(db, i);
    assert buyers == set i: nat | i in Members(db, e, group) && HasQualifyingSale(db)(i);
    var all := set i: nat | i in Members(db, e, group) && Everyone()(i);
    SubsetCardinality(buyers, all);
  }

  lemma ArmSizeIs(db: Db, e: nat, group: nat, p: nat -> bool, found: set<nat>)
    requires forall i: nat :: i in found <==> i in Members(db, e, group) && p(i)
    ensures CountArm(db, e, group, p) == |found|
  {
    hide CountArm;
    ArmIsSize(db, e, group, p);
    assert found == set i: nat | i in Members(db, e, group) && p(i);
  }

  lemma OpenExactly(db: Db, e: nat, group: nat, now: int, i: nat)
    requires e < |db.experiments| && i in Members(db, e, group)
    ensures i < |db.assignments| && db.assignments[i].experiment < |db.experiments|
    ensures now < Closes(db, i) <==> WindowOpen(db, now)(i)
  {
  }

  /** The assignments of an arm by what is known of them. */
  ghost function Converted(db: Db, e: nat, group: nat): set<nat> {
    set i: nat | i in Members(db, e, group) && Recorded(db, i)
  }

  ghost function Pending(db: Db, e: nat, group: nat, now: int): set<nat>
    requires e < |db.experiments|
  {
    set i: nat | i in Members(db, e, group) && !Recorded(db, i) && now < Closes(db, i)
  }

  ghost function NotConverted(db: Db, e: nat, group: nat, now: int): set<nat>
    requires e < |db.experiments|
  {
    set i: nat | i in Members(db, e, group) && !Recorded(db, i) && Closes(db, i) <= now
  }

  ghost function Unrecorded(db: Db, e: nat, group: nat): set<nat> {
    set i: nat | i in Members(db, e, group) && !Recorded(db, i) && Bought(db, i)
  }

  /** The five counts of an arm: its assignments, those recorded as converted, those neither
      recorded nor closed by now, those neither recorded nor open, and those not recorded who did buy. */
  lemma OutcomesAreSizes(db: Db, e: nat, group: Group, now: int)
    requires e < |db.experiments|
    ensures (OutcomeOf(db, e, group, now)
             == GroupConversion(group, |Members(db, e, group.id)|, |Converted(db, e, group.id)|, |Pending(db, e, group.id, now)|,
                                |NotConverted(db, e, group.id, now)|, |Unrecorded(db, e, group.id)|))
  {
    forall i: nat
      ensures Recorded(db, i) <==> HasConversion(db)(i)
      ensures Bought(db, i) <==> HasQualifyingSale(db)(i)
    {
      BoughtExactly(db, i);
    }
    forall i: nat | i in Members(db, e, group.id) ensures now < Closes(db, i) <==> WindowOpen(db, now)(i) {
      OpenExactly(db, e, group.id, now, i);
    }
    var converted, open, qualifies := HasConversion(db), WindowOpen(db, now), HasQualifyingSale(db);
    hide HasConversion, HasQualifyingSale, WindowOpen, Bought, Recorded, CountArm, Closes;
    ArmSizeIs(db, e, group.id, Everyone(), Members(db, e, group.id));
    ArmSizeIs(db, e, group.id, converted, Converted(db, e, group.id));
    ArmSizeIs(db, e, group.id, Both(Not(converted), open), Pending(db, e, group.id, now));
    ArmSizeIs(db, e, group.id, Both(Not(converted), Not(open)), NotConverted(db, e, group.id, now));
    ArmSizeIs(db, e, group.id, Both(Not(converted), qualifies), Unrecorded(db, e, group.id));
  }

  // ---------- what an evaluation records ----------

  /** An evaluation records exactly the purchases of the experiment's customers in their windows,
      beside what was recorded before, and nothing else changes. */
  lemma LinksAreBought(db: Db, e: nat)
    requires Evaluate(db, e).reply.Done?
    ensures var later := Evaluate(db, e).db;
      && e < |db.experiments| && later == db.(conversions := later.conversions)
      && forall i: nat, t: nat :: Link(i, t) in later.conversions <==>
           Link(i, t) in db.conversions || (BoughtAt(db, i, t) && db.assignments[i].experiment == e)
  {
    hide AssignmentCount;
    forall i: nat, t: nat {
      SaleQualifiesExactly(db, i, t);
    }
    hide Qualifies, BoughtAt;
  }

  // ---------- other people's sales ----------

  ghost predicate Stranger(db: Db, e: nat, customer: nat) {
    forall i :: 0 <= i < |db.assignments| && db.assignments[i].experiment == e ==> db.assignments[i].customer != customer
  }

  lemma StrangerBuysForNobody(db: Db, e: nat, sale: Sale, i: nat)
    requires Stranger(db, e, sale.customer) && i < |db.assignments| && db.assignments[i].experiment == e
    ensures HasQualifyingSale(db.(sales := db.sales + [sale]))(i) <==> HasQualifyingSale(db)(i)
  {
    var later := db.(sales := db.sales + [sale]);
    BoughtExactly(db, i);
    BoughtExactly(later, i);
    if t: nat :| BoughtAt(db, i, t) {
      assert BoughtAt(later, i, t);
    }
    if t: nat :| BoughtAt(later, i, t) {
      assert BoughtAt(db, i, t);
    }
  }

  /** A sale by somebody not assigned to an experiment changes none of its counts. */
  lemma StrangersChangeNoCount(db: Db, e: nat, sale: Sale, now: int)
    requires e < |db.experiments| && Stranger(db, e, sale.customer)
    ensures ListGroupConversion(db.(sales := db.sales + [sale]), e, now) == ListGroupConversion(db, e, now)
  {
    var later := db.(sales := db.sales + [sale]);
    var groups := db.experiments[e].groups;
    forall g | 0 <= g < |groups| ensures OutcomeOf(later, e, groups[g], now) == OutcomeOf(db, e, groups[g], now) {
      StrangersChangeNoArm(db, e, groups[g], sale, now);
    }
    hide OutcomeOf;
    assert ListGroupConversion(later, e, now) == ListGroupConversion(db, e, now);
  }

  lemma StrangersChangeNoArm(db: Db, e: nat, group: Group, sale: Sale, now: int)
    requires e < |db.experiments| && Stranger(db, e, sale.customer)
    ensures OutcomeOf(db.(sales := db.sales + [sale]), e, group, now) == OutcomeOf(db, e, group, now)
  {
    var later := db.(sales := db.sales + [sale]);
    var n := |db.assignments|;
    var converted, converted2 := HasConversion(db), HasConversion(later);
    var open, open2 := WindowOpen(db, now), WindowOpen(later, now);
    var buys, buys2 := HasQualifyingSale(db), HasQualifyingSale(later);
    forall i: nat | i < n && InArm(db.assignments[i], e, group.id) ensures converted(i) == converted2(i) && open(i) == open2(i) && buys(i) == buys2(i) {
      StrangerBuysForNobody(db, e, sale, i);
    }
    hide HasConversion, HasQualifyingSale, WindowOpen;
    CountCongruence(db.assignments, e, group.id, n, converted, converted2);
    CountCongruence(db.assignments, e, group.id, n, Both(Not(converted), open), Both(Not(converted2), open2));
    CountCongruence(db.assignments, e, group.id, n, Both(Not(converted), Not(open)), Both(Not(converted2), Not(open2)));
    CountCongruence(db.assignments, e, group.id, n, Both(Not(converted), buys), Both(Not(converted2), buys2));
  }
}
