/** Every run of the campaign and experiment machine: what every step keeps, what the
    first assignment freezes, and what it writes. */
module ExperimentRuns {
  import opened Counting
  import opened Experiments
  import opened Options
  import opened Sorting

  // ---------- dealing a population into arms ----------

  lemma DivisionStep(u: nat, n: nat)
    requires n > 0
    ensures (u + 1) % n == (if u % n == n - 1 then 0 else u % n + 1)
    ensures (u + 1) / n == (if u % n == n - 1 then u / n + 1 else u / n)
  {
    var q, r := u / n, u % n;
    assert u + 1 == n * q + r + 1;
    if r == n - 1 {
      QuotientIsUnique(u + 1, n, q + 1, 0);
    } else {
      QuotientIsUnique(u + 1, n, q, r + 1);
    }
  }

  lemma QuotientIsUnique(u: nat, n: nat, q: nat, r: nat)
    requires n > 0 && r < n && u == n * q + r
    ensures u / n == q && u % n == r
  {
    var d := u / n - q;
    assert n * d == r - u % n;
    SmallMultiple(n, d);
  }

  lemma SmallMultiple(n: int, d: int)
    requires n > 0
    ensures d >= 1 ==> n * d >= n
    ensures d <= -1 ==> n * d <= -n
  {
  }

  /** Round-robin: after `q` full rounds and `r` more cards, the first `r` arms are one ahead. */
  lemma {:induction false} DealtSize(order: seq<nat>, n: nat, g: nat, upTo: nat)
    requires g < n && upTo <= |order|
    ensures |Dealt(order, n, g, upTo)| == upTo / n + (if g < upTo % n then 1 else 0)
  {
    if upTo > 0 {
      DealtSize(order, n, g, upTo - 1);
      DivisionStep(upTo - 1, n);
    } else {
      QuotientIsUnique(0, n, 0, 0);
    }
  }

  lemma {:induction false} DealtMembers(order: seq<nat>, n: nat, g: nat, upTo: nat, x: nat)
    requires g < n && upTo <= |order|
    ensures x in Dealt(order, n, g, upTo) <==> exists p :: 0 <= p < upTo && p % n == g && order[p] == x
  {
    if upTo == 0 {
    } else {
      DealtMembers(order, n, g, upTo - 1, x);
    }
  }

  lemma {:induction false} DealtIsDistinct(order: seq<nat>, n: nat, g: nat, upTo: nat)
    requires g < n && upTo <= |order| && Distinct(order)
    ensures Distinct(Dealt(order, n, g, upTo))
  {
    if upTo == 0 {
    } else {
      DealtIsDistinct(order, n, g, upTo - 1);
      DealtMembers(order, n, g, upTo - 1, order[upTo - 1]);
    }
  }

  lemma ShuffledKeepsCustomers(customers: seq<nat>, shuffle: seq<nat>)
    requires Permutation(shuffle, |customers|) && Distinct(customers)
    ensures Distinct(Shuffled(customers, shuffle))
    ensures forall x :: x in Shuffled(customers, shuffle) <==> x in customers
  {
    var sorted, order := Sort(customers, Ascending()), Shuffled(customers, shuffle);
    DistinctTogether(customers, sorted);
    forall x ensures x in order <==> x in customers {
      SameElements(customers, sorted, x);
      if x in sorted {
        var j :| 0 <= j < |sorted| && sorted[j] == x;
        PermutationIsOnto(shuffle, |customers|, j);
        var i :| 0 <= i < |shuffle| && shuffle[i] == j;
        assert order[i] == x;
      }
    }
  }

  /** A split deals everybody exactly once, into arms that differ by at most one and
      are all filled when there are enough customers. */
  lemma SplitIsEven(customers: seq<nat>, groups: nat, shuffle: seq<nat>)
    requires groups > 0 && Permutation(shuffle, |customers|) && Distinct(customers)
    ensures var arms := Split(customers, groups, shuffle);
      && (forall g, h :: 0 <= g < groups && 0 <= h < groups ==> |arms[g]| <= |arms[h]| + 1)
      && (|customers| >= groups ==> forall g :: 0 <= g < groups ==> |arms[g]| >= 1)
      && (forall g :: 0 <= g < groups ==> Distinct(arms[g]))
      && (forall x :: x in customers <==> exists g :: 0 <= g < groups && x in arms[g])
      && (forall g, h, x :: 0 <= g < groups && 0 <= h < groups && x in arms[g] && x in arms[h] ==> g == h)
  {
    var arms, order := Split(customers, groups, shuffle), Shuffled(customers, shuffle);
    ShuffledKeepsCustomers(customers, shuffle);
    forall g | 0 <= g < groups
      ensures Distinct(arms[g]) && |arms[g]| == |order| / groups + (if g < |order| % groups then 1 else 0)
    {
      DealtSize(order, groups, g, |order|);
      DealtIsDistinct(order, groups, g, |order|);
    }
    if |customers| >= groups {
      AtLeastOneRound(|order|, groups);
    }
    forall g: nat, x: nat | g < groups
      ensures x in arms[g] <==> exists p :: 0 <= p < |order| && p % groups == g && order[p] == x
    {
      DealtMembers(order, groups, g, |order|, x);
    }
    forall x | x in customers ensures exists g :: 0 <= g < groups && x in arms[g] {
      assert x in order;
      var p :| 0 <= p < |order| && order[p] == x;
      assert x in arms[p % groups];
    }
  }

  lemma AtLeastOneRound(u: nat, n: nat)
    requires n > 0 && u >= n
    ensures u / n >= 1
  {
  }

  // ---------- the rows of one assignment ----------

  function CustomersOf(rows: seq<Assignment>): (customers: seq<nat>)
    ensures |customers| == |rows|
    ensures forall i :: 0 <= i < |rows| ==> customers[i] == rows[i].customer
  {
    seq(|rows|, i requires 0 <= i < |rows| => rows[i].customer)
  }

  function ArmSize(rows: seq<Assignment>, group: nat): nat {
    if rows == [] then 0
    else ArmSize(rows[..|rows|-1], group) + (if rows[|rows|-1].group == group then 1 else 0)
  }

  ghost predicate DistinctIds(groups: seq<Group>) {
    forall i, j :: 0 <= i < j < |groups| ==> groups[i].id != groups[j].id
  }

  /** Groups as the database lists them: a control only first, ids ascending. */
  ghost predicate Listed(groups: seq<Group>) {
    forall i, j :: 0 <= i < j < |groups| ==> groups[i].id < groups[j].id && groups[j].kind == Treatment
  }

  ghost predicate Disjoint(arms: seq<seq<nat>>) {
    && (forall g :: 0 <= g < |arms| ==> Distinct(arms[g]))
    && (forall g, h, x :: 0 <= g < |arms| && 0 <= h < |arms| && x in arms[g] && x in arms[h] ==> g == h)
  }

  lemma {:induction false} ArmSizeConcat(a: seq<Assignment>, b: seq<Assignment>, group: nat)
    ensures ArmSize(a + b, group) == ArmSize(a, group) + ArmSize(b, group)
  {
    if b == [] {
      assert a + b == a;
    } else {
      assert (a + b)[..|a + b| - 1] == a + b[..|b|-1];
      ArmSizeConcat(a, b[..|b|-1], group);
    }
  }

  lemma {:induction false} ArmSizeUniform(rows: seq<Assignment>, group: nat, own: nat)
    requires forall i :: 0 <= i < |rows| ==> rows[i].group == own
    ensures ArmSize(rows, group) == if group == own then |rows| else 0
  {
    if rows == [] {
    } else {
      ArmSizeUniform(rows[..|rows|-1], group, own);
    }
  }

  ghost predicate RowOfArm(r: Assignment, e: nat, groups: seq<Group>, arms: seq<seq<nat>>, now: int)
    requires |groups| == |arms|
  {
    r.experiment == e && r.at == now && exists g :: 0 <= g < |arms| && r.group == groups[g].id && r.customer in arms[g]
  }

  /** Every row belongs to the experiment, carries the one instant, and puts a customer
      of an arm into that arm's group. */
  lemma RowOfMoreArms(r: Assignment, e: nat, groups: seq<Group>, arms: seq<seq<nat>>, now: int)
    requires |groups| == |arms| > 0 && RowOfArm(r, e, groups[..|arms|-1], arms[..|arms|-1], now)
    ensures RowOfArm(r, e, groups, arms, now)
  {
    var n := |arms| - 1;
    var g :| 0 <= g < n && r.group == groups[..n][g].id && r.customer in arms[..n][g];
    assert r.group == groups[g].id && r.customer in arms[g];
  }

  lemma LastArmRows(e: nat, groups: seq<Group>, arms: seq<seq<nat>>, now: int)
    requires |groups| == |arms| > 0
    ensures var n := |arms| - 1;
      var last := ArmRows(e, groups[n].id, arms[n], now);
      && (forall r :: r in last ==> RowOfArm(r, e, groups, arms, now))
      && (forall x :: x in arms[n] ==> Assignment(e, groups[n].id, x, now) in last)
  {
    var n := |arms| - 1;
    var last := ArmRows(e, groups[n].id, arms[n], now);
    forall r: Assignment | r in last ensures RowOfArm(r, e, groups, arms, now) {
      assert r.group == groups[n].id && r.customer in arms[n];
    }
    forall x | x in arms[n] ensures Assignment(e, groups[n].id, x, now) in last {
      var i :| 0 <= i < |arms[n]| && arms[n][i] == x;
      assert last[i] == Assignment(e, groups[n].id, x, now);
    }
  }

  lemma {:induction false} RowsComeFromArms(e: nat, groups: seq<Group>, arms: seq<seq<nat>>, now: int)
    requires |groups| == |arms|
    ensures forall r :: r in PlanRows(e, groups, arms, now) ==> RowOfArm(r, e, groups, arms, now)
  {
    hide RowOfArm, ArmRows;
    if arms == [] {
    } else {
      var n := |arms| - 1;
      var before := PlanRows(e, groups[..n], arms[..n], now);
      RowsComeFromArms(e, groups[..n], arms[..n], now);
      LastArmRows(e, groups, arms, now);
      forall r: Assignment | r in before ensures RowOfArm(r, e, groups, arms, now) {
        RowOfMoreArms(r, e, groups, arms, now);
      }
    }
  }

  lemma {:induction false} ArmReachesRows(e: nat, groups: seq<Group>, arms: seq<seq<nat>>, now: int, g: nat, x: nat)
    requires |groups| == |arms| && g < |arms| && x in arms[g]
    ensures Assignment(e, groups[g].id, x, now) in PlanRows(e, groups, arms, now)
  {
    hide RowOfArm, ArmRows;
    var n := |arms| - 1;
    LastArmRows(e, groups, arms, now);
    if g < n {
      ArmReachesRows(e, groups[..n], arms[..n], now, g, x);
    }
  }

  lemma PlanRowsContents(e: nat, groups: seq<Group>, arms: seq<seq<nat>>, now: int)
    requires |groups| == |arms|
    ensures var rows := PlanRows(e, groups, arms, now);
      && (forall r :: r in rows ==> RowOfArm(r, e, groups, arms, now))
      && (forall g, x :: 0 <= g < |arms| && x in arms[g] ==> Assignment(e, groups[g].id, x, now) in rows)
  {
    hide PlanRows, RowOfArm;
    RowsComeFromArms(e, groups, arms, now);
    forall g, x | 0 <= g < |arms| && x in arms[g]
      ensures Assignment(e, groups[g].id, x, now) in PlanRows(e, groups, arms, now)
    {
      ArmReachesRows(e, groups, arms, now, g, x);
    }
  }

  lemma {:induction false} PlanRowsAreDistinct(e: nat, groups: seq<Group>, arms: seq<seq<nat>>, now: int)
    requires |groups| == |arms| && Disjoint(arms)
    ensures Distinct(CustomersOf(PlanRows(e, groups, arms, now)))
  {
    if arms == [] {
    } else {
      var n := |arms| - 1;
      assert Disjoint(arms[..n]) by {
        assert forall g :: 0 <= g < n ==> arms[..n][g] == arms[g];
      }
      PlanRowsAreDistinct(e, groups[..n], arms[..n], now);
      PlanRowsContents(e, groups[..n], arms[..n], now);
      var before, last := PlanRows(e, groups[..n], arms[..n], now), ArmRows(e, groups[n].id, arms[n], now);
      var all: seq<Assignment> := before + last;
      forall i, j | 0 <= i < j < |all| ensures all[i].customer != all[j].customer {
        if j < |before| {
          assert CustomersOf(before)[i] != CustomersOf(before)[j];
        } else if i < |before| {
          assert before[i] in before && RowOfArm(before[i], e, groups[..n], arms[..n], now);
          var g :| 0 <= g < n && before[i].customer in arms[..n][g];
          assert before[i].customer in arms[g];
          assert last[j - |before|].customer in arms[n];
        } else {
          assert arms[n][i - |before|] != arms[n][j - |before|];
        }
      }
    }
  }

  lemma {:induction false} PlanRowsSizes(e: nat, groups: seq<Group>, arms: seq<seq<nat>>, now: int)
    requires |groups| == |arms| && DistinctIds(groups)
    ensures forall g :: 0 <= g < |groups| ==> ArmSize(PlanRows(e, groups, arms, now), groups[g].id) == |arms[g]|
    ensures forall id: nat :: (forall g :: 0 <= g < |groups| ==> groups[g].id != id) ==> ArmSize(PlanRows(e, groups, arms, now), id) == 0
  {
    if arms == [] {
    } else {
      var n := |arms| - 1;
      PlanRowsSizes(e, groups[..n], arms[..n], now);
      var before, last := PlanRows(e, groups[..n], arms[..n], now), ArmRows(e, groups[n].id, arms[n], now);
      forall id: nat ensures ArmSize(before + last, id) == ArmSize(before, id) + (if id == groups[n].id then |arms[n]| else 0) {
        ArmSizeConcat(before, last, id);
        ArmSizeUniform(last, id, groups[n].id);
      }
      assert forall g :: 0 <= g < n ==> groups[..n][g] == groups[g] && arms[..n][g] == arms[g];
    }
  }

  lemma {:induction false} PopulationMembers(holders: seq<Holder>, code: nat, x: nat)
    ensures x in Population(holders, code) <==> Holder(x, Some(code)) in holders
  {
    if holders == [] {
    } else {
      var n := |holders| - 1;
      PopulationMembers(holders[..n], code, x);
      assert holders == holders[..n] + [holders[n]];
    }
  }

  /** One open segment assignment per customer, as the write protocol guarantees. */
  ghost predicate OneLabelEach(holders: seq<Holder>) {
    forall i, j :: 0 <= i < j < |holders| ==> holders[i].customer != holders[j].customer
  }

  lemma {:induction false} PopulationIsDistinct(holders: seq<Holder>, code: nat)
    requires OneLabelEach(holders)
    ensures Distinct(Population(holders, code))
  {
    if holders == [] {
    } else {
      var n := |holders| - 1;
      PopulationIsDistinct(holders[..n], code);
      PopulationMembers(holders[..n], code, holders[n].customer);
    }
  }

  /** An accepted assignment is a partition of the current population into non-empty
      arms differing in size by at most one, written once and at one instant. */
  lemma AssignPartitions(db: Db, e: nat, shuffle: nat -> seq<nat>, now: int) returns (rows: seq<Assignment>)
    requires forall n :: Permutation(shuffle(n), n)
    requires OneLabelEach(db.holders) && e < |db.experiments| && DistinctIds(db.experiments[e].groups)
    requires Assign(db, e, shuffle, now).reply.Done?
    ensures db.experiments[e].campaign.Some? && db.experiments[e].campaign.value < |db.campaigns|
    ensures Assign(db, e, shuffle, now).db == db.(assignments := db.assignments + rows)
    ensures forall r :: r in rows ==>
      (r.experiment == e && r.at == now && exists g :: 0 <= g < |db.experiments[e].groups| && r.group == db.experiments[e].groups[g].id)
    ensures Distinct(CustomersOf(rows))
    ensures forall x :: x in CustomersOf(rows) <==>
      Holder(x, Some(db.campaigns[db.experiments[e].campaign.value].code)) in db.holders
    ensures forall g, h :: 0 <= g < |db.experiments[e].groups| && 0 <= h < |db.experiments[e].groups| ==>
      1 <= ArmSize(rows, db.experiments[e].groups[g].id) <= ArmSize(rows, db.experiments[e].groups[h].id) + 1
  {
    hide Split, PlanRows, Population, ArmSize;
    var x := db.experiments[e];
    var code := db.campaigns[x.campaign.value].code;
    var customers := Population(db.holders, code);
    var arms := Split(customers, |x.groups|, shuffle(|customers|));
    rows := PlanRows(e, x.groups, arms, now);
    PopulationIsDistinct(db.holders, code);
    SplitIsEven(customers, |x.groups|, shuffle(|customers|));
    PlanRowsContents(e, x.groups, arms, now);
    PlanRowsAreDistinct(e, x.groups, arms, now);
    PlanRowsSizes(e, x.groups, arms, now);
    PlanRowsCover(e, x.groups, arms, now, customers);
    assert forall r :: r in rows ==> RowOfArm(r, e, x.groups, arms, now);
    forall c ensures c in customers <==> Holder(c, Some(code)) in db.holders {
      PopulationMembers(db.holders, code, c);
    }
  }

  lemma PlanRowsCover(e: nat, groups: seq<Group>, arms: seq<seq<nat>>, now: int, customers: seq<nat>)
    requires |groups| == |arms|
    requires forall x :: x in customers <==> exists g :: 0 <= g < |arms| && x in arms[g]
    ensures forall x :: x in CustomersOf(PlanRows(e, groups, arms, now)) <==> x in customers
  {
    hide PlanRows;
    var rows := PlanRows(e, groups, arms, now);
    PlanRowsContents(e, groups, arms, now);
    forall c ensures c in CustomersOf(rows) <==> c in customers {
      if c in CustomersOf(rows) {
        var i :| 0 <= i < |rows| && rows[i].customer == c;
        assert RowOfArm(rows[i], e, groups, arms, now);
      }
      if c in customers {
        var g :| 0 <= g < |groups| && c in arms[g];
        assert Assignment(e, groups[g].id, c, now) in rows;
        var i :| 0 <= i < |rows| && rows[i] == Assignment(e, groups[g].id, c, now);
        assert CustomersOf(rows)[i] == c;
      }
    }
  }

  // ---------- steps and runs ----------

  /** Every operation, and what happens around them: segment runs relabel customers,
      sales arrive (back-dated ones included). `now` is when the operation's
      transaction began, which need not be later than what was committed before it.
      A late transition made its reads and checks against earlier tables: only its
      conditional update is left to do. */
  datatype Step =
    | CreateCampaignStep(campaignInput: CampaignInput)
    | EditCampaignStep(campaign: nat, campaignInput: CampaignInput)
    | TransitionStep(campaign: nat, target: Status, date: int)
    | LateTransitionStep(campaign: nat, seen: Status, target: Status)
    | CreateExperimentStep(input: ExperimentInput, origin: nat, hasControl: bool, treatments: nat)
    | EditExperimentStep(experiment: nat, input: ExperimentInput)
    | AssignStep(experiment: nat, now: int)
    | ExposeStep(experiment: nat, customer: nat, today: Option<int>, now: int)
    | ExposeGroupStep(experiment: nat, group: nat, customers: Option<seq<nat>>, today: Option<int>, now: int)
    | EvaluateStep(experiment: nat)
    | SaleStep(sale: Sale)
    | RelabelStep(holders: seq<Holder>)

  /** How each experiment shuffles a population of each size: any permutations. */
  type Shuffles = (nat, nat) -> seq<nat>

  ghost predicate AllPermutations(shuffles: Shuffles) {
    forall e: nat, n: nat :: Permutation(shuffles(e, n), n)
  }

  ghost function Next(db: Db, s: Step, shuffles: Shuffles): Db
    requires AllPermutations(shuffles)
  {
    match s
    case CreateCampaignStep(data) => CreateCampaign(db, data).db
    case EditCampaignStep(id, data) => EditCampaign(db, id, data).db
    case TransitionStep(id, target, date) => Transition(db, id, target, date).db
    case LateTransitionStep(id, seen, target) => if Allowed(seen, target) then ChangeStatus(db, id, seen, target).db else db
    case CreateExperimentStep(data, origin, hasControl, treatments) => CreateExperiment(db, data, origin, hasControl, treatments).db
    case EditExperimentStep(e, data) => EditExperiment(db, e, data).db
    case AssignStep(e, now) => Assign(db, e, (n: nat) => shuffles(e, n), now).db
    case ExposeStep(e, customer, today, now) => RecordExposure(db, e, customer, today, now).db
    case ExposeGroupStep(e, group, customers, today, now) => RecordGroupExposures(db, e, group, customers, today, now).db
    case EvaluateStep(e) => Evaluate(db, e).db
    case SaleStep(sale) => db.(sales := db.sales + [sale])
    case RelabelStep(holders) => if OneLabelEach(holders) then db.(holders := holders) else db
  }

  ghost function Run(db: Db, steps: seq<Step>, shuffles: Shuffles): Db
    requires AllPermutations(shuffles)
  {
    if steps == [] then db else Next(Run(db, steps[..|steps|-1], shuffles), steps[|steps|-1], shuffles)
  }

  // ---------- what every step keeps ----------

  ghost predicate ExperimentsOk(db: Db) {
    forall e :: 0 <= e < |db.experiments| ==>
      && DistinctIds(db.experiments[e].groups) && Listed(db.experiments[e].groups)
      && (db.experiments[e].campaign.Some? ==> db.experiments[e].campaign.value < |db.campaigns|)
  }

  /** An assignment sits in an arm of its experiment, whose campaign has left draft. */
  ghost predicate AssignmentOk(db: Db, a: Assignment) {
    && a.experiment < |db.experiments|
    && KindOf(db.experiments[a.experiment].groups, a.group).Some?
    && (var c := db.experiments[a.experiment].campaign;
        c.Some? && c.value < |db.campaigns| && db.campaigns[c.value].status != Draft)
  }

  ghost predicate AssignmentsOk(db: Db) {
    && (forall i :: 0 <= i < |db.assignments| ==> AssignmentOk(db, db.assignments[i]))
    && (forall i, j :: 0 <= i < j < |db.assignments| && db.assignments[i].experiment == db.assignments[j].experiment
          ==> db.assignments[i].customer != db.assignments[j].customer)
  }

  /** An exposure belongs to a treatment assignment. */
  ghost predicate ExposureOk(db: Db, x: Exposure) {
    && x.assignment < |db.assignments|
    && db.assignments[x.assignment].experiment < |db.experiments|
    && KindOf(db.experiments[db.assignments[x.assignment].experiment].groups, db.assignments[x.assignment].group) == Some(Treatment)
  }

  ghost predicate InFrame(x: Experiment, day: int) {
    x.startsOn <= day && (x.endsOn.Some? ==> day <= x.endsOn.value)
  }

  ghost predicate ExposureInFrame(db: Db, x: Exposure) {
    ExposureOk(db, x) && InFrame(db.experiments[db.assignments[x.assignment].experiment], DateOf(x.at))
  }

  /** Exposures of one assignment are at least a minute apart. */
  ghost predicate Spaced(exposures: seq<Exposure>) {
    forall i, j :: 0 <= i < j < |exposures| && exposures[i].assignment == exposures[j].assignment
      ==> exposures[i].at + EXPOSURE_REPEAT_SECONDS <= exposures[j].at
  }

  ghost predicate ExposuresOk(db: Db) {
    && (forall i :: 0 <= i < |db.exposures| ==> ExposureOk(db, db.exposures[i]))
    && Spaced(db.exposures)
  }

  /** A recorded conversion is a sale of the assigned customer's own in the experiment's window. */
  ghost predicate LinkOk(db: Db, l: Link) {
    && l.assignment < |db.assignments| && l.sale < |db.sales|
    && db.assignments[l.assignment].experiment < |db.experiments|
    && db.sales[l.sale].customer == db.assignments[l.assignment].customer
    && db.assignments[l.assignment].at <= db.sales[l.sale].at
    && db.sales[l.sale].at < db.assignments[l.assignment].at
                             + db.experiments[db.assignments[l.assignment].experiment].windowDays * DAY
  }

  ghost predicate ConversionsOk(db: Db) {
    forall l :: l in db.conversions ==> LinkOk(db, l)
  }

  ghost predicate Inv(db: Db) {
    ExperimentsOk(db) && AssignmentsOk(db) && ExposuresOk(db) && ConversionsOk(db) && OneLabelEach(db.holders)
  }

  /** What the first assignment fixes: an assigned experiment keeps its measurement
      frame and arms, its campaign its label, and its assignments are all it ever gets. */
  ghost predicate SameFrame(x: Experiment, y: Experiment) {
    y == x.(name := y.name)
  }

  ghost predicate Frozen(db: Db, later: Db) {
    && |db.assignments| <= |later.assignments| && later.assignments[..|db.assignments|] == db.assignments
    && |db.exposures| <= |later.exposures| && later.exposures[..|db.exposures|] == db.exposures
    && |db.sales| <= |later.sales| && later.sales[..|db.sales|] == db.sales
    && db.conversions <= later.conversions
    && |db.experiments| <= |later.experiments| && |db.campaigns| <= |later.campaigns|
    && (forall e: nat :: e < |db.experiments| && AssignmentCount(db.assignments, e) > 0 ==> FrozenExperiment(db, later, e))
    && (forall c :: 0 <= c < |db.campaigns| && db.campaigns[c].status != Draft ==>
          later.campaigns[c] == db.campaigns[c].(status := later.campaigns[c].status) && later.campaigns[c].status != Draft)
  }

  ghost predicate FrozenExperiment(db: Db, later: Db, e: nat)
    requires e < |db.experiments| <= |later.experiments|
  {
    && SameFrame(db.experiments[e], later.experiments[e])
    && AssignmentCount(later.assignments, e) == AssignmentCount(db.assignments, e)
  }

  lemma {:induction false} CountedIffPresent(assignments: seq<Assignment>, e: nat)
    ensures AssignmentCount(assignments, e) > 0 <==> exists i :: 0 <= i < |assignments| && assignments[i].experiment == e
  {
    if assignments == [] {
    } else {
      var n := |assignments| - 1;
      CountedIffPresent(assignments[..n], e);
    }
  }

  lemma {:induction false} CountConcat(a: seq<Assignment>, b: seq<Assignment>, e: nat)
    ensures AssignmentCount(a + b, e) == AssignmentCount(a, e) + AssignmentCount(b, e)
  {
    if b == [] {
      assert a + b == a;
    } else {
      assert (a + b)[..|a + b| - 1] == a + b[..|b|-1];
      CountConcat(a, b[..|b|-1], e);
    }
  }

  /** Growing tables and frozen experiments carry every row's standing along. */
  lemma FrozenKeepsRows(db: Db, later: Db)
    requires Inv(db) && Frozen(db, later)
    ensures forall i :: 0 <= i < |db.assignments| ==> AssignmentOk(later, db.assignments[i])
    ensures forall i :: 0 <= i < |db.exposures| ==>
      (ExposureOk(later, db.exposures[i]) && (ExposureInFrame(db, db.exposures[i]) <==> ExposureInFrame(later, db.exposures[i])))
    ensures forall l :: l in db.conversions ==> LinkOk(later, l)
  {
    hide KindOf, Qualifies;
    forall i | 0 <= i < |db.assignments|
      ensures AssignmentOk(later, db.assignments[i]) && later.assignments[i] == db.assignments[i]
        && SameFrame(db.experiments[db.assignments[i].experiment], later.experiments[db.assignments[i].experiment])
    {
      var e := db.assignments[i].experiment;
      CountedIffPresent(db.assignments, e);
      assert AssignmentOk(db, db.assignments[i]);
      assert FrozenExperiment(db, later, e);
      assert later.assignments[i] == later.assignments[..|db.assignments|][i];
    }
    forall i | 0 <= i < |db.exposures|
      ensures ExposureOk(later, db.exposures[i]) && (ExposureInFrame(db, db.exposures[i]) <==> ExposureInFrame(later, db.exposures[i]))
    {
      assert ExposureOk(db, db.exposures[i]);
    }
    forall l | l in db.conversions ensures LinkOk(later, l) {
      assert LinkOk(db, l);
      assert later.sales[l.sale] == later.sales[..|db.sales|][l.sale];
    }
  }

  lemma FrozenRefl(db: Db)
    ensures Frozen(db, db)
  {
  }

  lemma FrozenTransitive(a: Db, b: Db, c: Db)
    requires Frozen(a, b) && Frozen(b, c)
    ensures Frozen(a, c)
  {
    assert c.assignments[..|b.assignments|][..|a.assignments|] == c.assignments[..|a.assignments|];
    assert c.exposures[..|b.exposures|][..|a.exposures|] == c.exposures[..|a.exposures|];
    assert c.sales[..|b.sales|][..|a.sales|] == c.sales[..|a.sales|];
    forall e: nat | e < |a.experiments| && AssignmentCount(a.assignments, e) > 0 ensures FrozenExperiment(a, c, e) {
      assert FrozenExperiment(a, b, e) && FrozenExperiment(b, c, e);
    }
  }

  // ---------- step by step ----------

  /** Operations on campaigns, experiments, sales or labels write no row of the rest. */
  lemma QuietKeepsInv(db: Db, later: Db)
    requires Inv(db) && Frozen(db, later) && ExperimentsOk(later) && OneLabelEach(later.holders)
    requires later.assignments == db.assignments && later.exposures == db.exposures && later.conversions == db.conversions
    ensures Inv(later)
  {
    hide Frozen, AssignmentOk, ExposureOk, LinkOk, ExperimentsOk, OneLabelEach;
    FrozenKeepsRows(db, later);
  }

  /** What those operations leave alone. */
  ghost predicate Quiet(db: Db, later: Db) {
    && later.assignments == db.assignments && later.exposures == db.exposures && later.conversions == db.conversions
    && db.sales <= later.sales
    && |db.experiments| <= |later.experiments| && |db.campaigns| <= |later.campaigns|
    && (forall e: nat :: e < |db.experiments| && AssignmentCount(db.assignments, e) > 0 ==>
          SameFrame(db.experiments[e], later.experiments[e]))
    && (forall c :: 0 <= c < |db.campaigns| && db.campaigns[c].status != Draft ==>
          later.campaigns[c] == db.campaigns[c].(status := later.campaigns[c].status) && later.campaigns[c].status != Draft)
  }

  lemma QuietFreezes(db: Db, later: Db)
    requires Inv(db) && Quiet(db, later) && ExperimentsOk(later) && OneLabelEach(later.holders)
    ensures Frozen(db, later) && Inv(later)
  {
    hide AssignmentCount, ExperimentsOk, AssignmentsOk, ExposuresOk, ConversionsOk, OneLabelEach, SameFrame;
    assert later.assignments[..|db.assignments|] == db.assignments && later.exposures[..|db.exposures|] == db.exposures;
    QuietKeepsInv(db, later);
  }

  lemma CreateCampaignFreezes(db: Db, s: Step, shuffles: Shuffles)
    requires Inv(db) && AllPermutations(shuffles) && s.CreateCampaignStep?
    ensures Frozen(db, Next(db, s, shuffles)) && Inv(Next(db, s, shuffles))
  {
    hide AssignmentCount, NewGroups, Frozen, AssignmentsOk, ExposuresOk, ConversionsOk, Listed, DistinctIds;
    QuietFreezes(db, Next(db, s, shuffles));
  }

  lemma EditCampaignFreezes(db: Db, s: Step, shuffles: Shuffles)
    requires Inv(db) && AllPermutations(shuffles) && s.EditCampaignStep?
    ensures Frozen(db, Next(db, s, shuffles)) && Inv(Next(db, s, shuffles))
  {
    hide AssignmentCount, NewGroups, Frozen, AssignmentsOk, ExposuresOk, ConversionsOk, Listed, DistinctIds;
    QuietFreezes(db, Next(db, s, shuffles));
  }

  lemma TransitionFreezes(db: Db, s: Step, shuffles: Shuffles)
    requires Inv(db) && AllPermutations(shuffles) && (s.TransitionStep? || s.LateTransitionStep?)
    ensures Frozen(db, Next(db, s, shuffles)) && Inv(Next(db, s, shuffles))
  {
    hide AssignmentCount, NewGroups, Frozen, AssignmentsOk, ExposuresOk, ConversionsOk, Listed, DistinctIds;
    QuietFreezes(db, Next(db, s, shuffles));
  }

  lemma NewGroupsAreListed(next: nat, hasControl: bool, treatments: nat)
    ensures DistinctIds(NewGroups(next, hasControl, treatments)) && Listed(NewGroups(next, hasControl, treatments))
  {
  }

  lemma CreateExperimentFreezes(db: Db, s: Step, shuffles: Shuffles)
    requires Inv(db) && AllPermutations(shuffles) && s.CreateExperimentStep?
    ensures Frozen(db, Next(db, s, shuffles)) && Inv(Next(db, s, shuffles))
  {
    hide AssignmentCount, NewGroups, Frozen, AssignmentsOk, ExposuresOk, ConversionsOk, Listed, DistinctIds;
    NewGroupsAreListed(db.nextGroup, s.hasControl, s.treatments);
    QuietFreezes(db, Next(db, s, shuffles));
  }

  lemma EditExperimentFreezes(db: Db, s: Step, shuffles: Shuffles)
    requires Inv(db) && AllPermutations(shuffles) && s.EditExperimentStep?
    ensures Frozen(db, Next(db, s, shuffles)) && Inv(Next(db, s, shuffles))
  {
    hide AssignmentCount, NewGroups, Frozen, AssignmentsOk, ExposuresOk, ConversionsOk, Listed, DistinctIds;
    QuietFreezes(db, Next(db, s, shuffles));
  }

  lemma WorldStepsFreeze(db: Db, s: Step, shuffles: Shuffles)
    requires Inv(db) && AllPermutations(shuffles) && (s.SaleStep? || s.RelabelStep?)
    ensures Frozen(db, Next(db, s, shuffles)) && Inv(Next(db, s, shuffles))
  {
    hide AssignmentCount, NewGroups, Frozen, AssignmentsOk, ExposuresOk, ConversionsOk, Listed, DistinctIds;
    QuietFreezes(db, Next(db, s, shuffles));
  }

  lemma {:induction false} CountUniform(rows: seq<Assignment>, own: nat, e: nat)
    requires forall i :: 0 <= i < |rows| ==> rows[i].experiment == own
    ensures AssignmentCount(rows, e) == if e == own then |rows| else 0
  {
    if rows == [] {
    } else {
      CountUniform(rows[..|rows|-1], own, e);
    }
  }

  lemma AssignStepFreezes(db: Db, e: nat, shuffle: nat -> seq<nat>, now: int)
    requires Inv(db) && forall n :: Permutation(shuffle(n), n)
    ensures var later := Assign(db, e, shuffle, now).db; Frozen(db, later) && Inv(later)
  {
    if PlanRefusal(db, e).Some? {
      FrozenRefl(db);
    } else {
      var x := db.experiments[e];
      var rows := AssignPartitions(db, e, shuffle, now);
      var later := Assign(db, e, shuffle, now).db;
      hide Assign;
      assert forall i :: 0 <= i < |rows| ==> rows[i] in rows;
      forall d: nat ensures AssignmentCount(later.assignments, d) == AssignmentCount(db.assignments, d) + (if d == e then |rows| else 0) {
        CountConcat(db.assignments, rows, d);
        CountUniform(rows, e, d);
      }
      AppendKeepsFrozen(db, rows, e);
      NewAssignmentsKeepInv(db, rows, e);
    }
  }

  lemma AppendKeepsFrozen(db: Db, rows: seq<Assignment>, e: nat)
    requires AssignmentCount(db.assignments, e) == 0
    requires forall d: nat :: AssignmentCount(db.assignments + rows, d) == AssignmentCount(db.assignments, d) + (if d == e then |rows| else 0)
    ensures Frozen(db, db.(assignments := db.assignments + rows))
  {
    hide AssignmentCount, FrozenExperiment;
    var later := db.(assignments := db.assignments + rows);
    assert later.exposures[..|db.exposures|] == db.exposures && later.sales[..|db.sales|] == db.sales;
    forall d: nat | d < |db.experiments| && AssignmentCount(db.assignments, d) > 0 ensures FrozenExperiment(db, later, d) {
      OthersStayFrozen(db, later, d);
    }
  }

  lemma OthersStayFrozen(db: Db, later: Db, d: nat)
    requires d < |db.experiments| == |later.experiments| && later.experiments[d] == db.experiments[d]
    requires AssignmentCount(later.assignments, d) == AssignmentCount(db.assignments, d)
    ensures FrozenExperiment(db, later, d)
  {
    hide AssignmentCount;
  }

  lemma NewAssignmentsKeepInv(db: Db, rows: seq<Assignment>, e: nat)
    requires Inv(db) && e < |db.experiments| && AssignmentCount(db.assignments, e) == 0
    requires Frozen(db, db.(assignments := db.assignments + rows))
    requires forall r :: r in rows ==>
      (r.experiment == e && exists g :: 0 <= g < |db.experiments[e].groups| && r.group == db.experiments[e].groups[g].id)
    requires Distinct(CustomersOf(rows))
    requires var c := db.experiments[e].campaign; c.Some? && c.value < |db.campaigns| && db.campaigns[c.value].status != Draft
    ensures Inv(db.(assignments := db.assignments + rows))
  {
    hide Frozen, ExposureOk, LinkOk, ExperimentsOk, OneLabelEach, KindOf;
    var later := db.(assignments := db.assignments + rows);
    FrozenKeepsRows(db, later);
    CountedIffPresent(db.assignments, e);
    forall i | 0 <= i < |later.assignments| ensures AssignmentOk(later, later.assignments[i]) {
      if i >= |db.assignments| {
        assert later.assignments[i] == rows[i - |db.assignments|];
        assert rows[i - |db.assignments|] in rows;
      } else {
        assert later.assignments[i] == db.assignments[i];
      }
    }
    forall i, j | 0 <= i < j < |later.assignments| && later.assignments[i].experiment == later.assignments[j].experiment
      ensures later.assignments[i].customer != later.assignments[j].customer
    {
      var n := |db.assignments|;
      if j < n {
        assert db.assignments[i].customer != db.assignments[j].customer;
      } else {
        assert rows[j - n] in rows;
        if i >= n {
          assert CustomersOf(rows)[i - n] != CustomersOf(rows)[j - n];
        }
      }
    }
    assert ExperimentsOk(db) && OneLabelEach(db.holders);
    ExperimentsOkSame(db, later);
  }

  lemma ExperimentsOkSame(db: Db, later: Db)
    requires ExperimentsOk(db) && later.experiments == db.experiments && later.campaigns == db.campaigns
    ensures ExperimentsOk(later)
  {
  }

  /** The guard looks back one minute from `now` and at everything later: whatever the
      order transactions began in, what it lets through keeps its distance. */
  lemma InsertKeepsSpaced(exposures: seq<Exposure>, a: nat, now: int)
    requires Spaced(exposures)
    ensures Spaced(InsertExposure(exposures, a, now))
    ensures InsertExposure(exposures, a, now) == exposures || InsertExposure(exposures, a, now) == exposures + [Exposure(a, now)]
  {
  }

  lemma {:induction false} InsertsKeepSpaced(exposures: seq<Exposure>, ids: seq<nat>, now: int)
    requires Spaced(exposures)
    ensures var after := InsertExposures(exposures, ids, now);
      && Spaced(after) && |exposures| <= |after| && after[..|exposures|] == exposures
      && (forall i :: |exposures| <= i < |after| ==> after[i].assignment in ids && after[i].at == now)
  {
    hide Spaced, InsertExposure;
    if ids == [] {
      assert exposures[..|exposures|] == exposures;
    } else {
      var before := InsertExposures(exposures, ids[..|ids|-1], now);
      InsertsKeepSpaced(exposures, ids[..|ids|-1], now);
      InsertKeepsSpaced(before, ids[|ids|-1], now);
      assert ids == ids[..|ids|-1] + [ids[|ids|-1]];
    }
  }

  /** New exposures of treatment assignments keep the invariant. */
  lemma NewExposuresKeepInv(db: Db, after: seq<Exposure>)
    requires Inv(db) && Spaced(after) && |db.exposures| <= |after| && after[..|db.exposures|] == db.exposures
    requires forall i :: |db.exposures| <= i < |after| ==> ExposureOk(db, after[i])
    ensures Frozen(db, db.(exposures := after)) && Inv(db.(exposures := after))
  {
    hide Spaced, AssignmentCount, KindOf, Qualifies;
    var later := db.(exposures := after);
    assert later.assignments[..|db.assignments|] == db.assignments && later.sales[..|db.sales|] == db.sales;
    forall i | 0 <= i < |after| ensures ExposureOk(later, after[i]) {
      if i < |db.exposures| {
        assert after[i] == db.exposures[i] && ExposureOk(db, db.exposures[i]);
      } else {
        assert ExposureOk(db, after[i]);
      }
    }
    assert AssignmentsOk(later) by {
      forall i | 0 <= i < |later.assignments| ensures AssignmentOk(later, later.assignments[i]) {
        assert AssignmentOk(db, db.assignments[i]);
      }
    }
    assert ConversionsOk(later) by {
      forall l | l in later.conversions ensures LinkOk(later, l) {
        assert LinkOk(db, l);
      }
    }
  }

  lemma ExposeStepFreezes(db: Db, e: nat, customer: nat, today: Option<int>, now: int)
    requires Inv(db)
    ensures var later := RecordExposure(db, e, customer, today, now).db; Frozen(db, later) && Inv(later)
  {
    hide Frozen, KindOf, FindAssignment, InsertExposure, FrameRefusal, Spaced, Inv;
    var later := RecordExposure(db, e, customer, today, now).db;
    if later == db {
      FrozenRefl(db);
    } else {
      var a := FindAssignment(db.assignments, e, customer).value;
      assert Spaced(db.exposures) by { InvParts(db); }
      InsertKeepsSpaced(db.exposures, a, now);
      assert (db.exposures + [Exposure(a, now)])[..|db.exposures|] == db.exposures;
      NewExposuresKeepInv(db, later.exposures);
    }
  }

  lemma InvParts(db: Db)
    requires Inv(db)
    ensures Spaced(db.exposures) && OneLabelEach(db.holders)
  {
  }

  lemma ExposeGroupStepFreezes(db: Db, e: nat, group: nat, customers: Option<seq<nat>>, today: Option<int>, now: int)
    requires Inv(db)
    ensures var later := RecordGroupExposures(db, e, group, customers, today, now).db; Frozen(db, later) && Inv(later)
  {
    hide Frozen, KindOf, ArmIds, InsertExposures, FrameRefusal, Spaced, Inv;
    var result := RecordGroupExposures(db, e, group, customers, today, now);
    if result.reply.Refused? {
      FrozenRefl(db);
    } else {
      var ids := ArmIds(db.assignments, e, group, customers);
      var kind := KindOf(db.experiments[e].groups, group).value;
      assert kind == Treatment || kind == Control;
      assert Spaced(db.exposures) by { InvParts(db); }
      InsertsKeepSpaced(db.exposures, ids, now);
      var after := result.db.exposures;
      forall i | |db.exposures| <= i < |after| ensures ExposureOk(db, after[i]) {
        assert after[i].assignment in ids;
        var j :| 0 <= j < |ids| && ids[j] == after[i].assignment;
      }
      NewExposuresKeepInv(db, after);
    }
  }

  lemma EvaluateStepFreezes(db: Db, e: nat)
    requires Inv(db)
    ensures var later := Evaluate(db, e).db; Frozen(db, later) && Inv(later)
  {
    hide Frozen, Inv, AssignmentCount, QualifyingLinks;
    if Evaluate(db, e).reply.Refused? {
      FrozenRefl(db);
    } else {
      LinksQualify(db, e);
      NewLinksKeepInv(db, QualifyingLinks(db, e));
    }
  }

  lemma LinksQualify(db: Db, e: nat)
    requires e < |db.experiments|
    ensures forall l :: l in QualifyingLinks(db, e) <==> LinkOk(db, l) && db.assignments[l.assignment].experiment == e
  {
  }

  lemma NewLinksKeepInv(db: Db, links: set<Link>)
    requires Inv(db) && forall l :: l in links ==> LinkOk(db, l)
    ensures Frozen(db, db.(conversions := db.conversions + links)) && Inv(db.(conversions := db.conversions + links))
  {
    hide AssignmentCount, KindOf, Qualifies, Spaced;
    var later := db.(conversions := db.conversions + links);
    assert later.assignments[..|db.assignments|] == db.assignments && later.exposures[..|db.exposures|] == db.exposures;
    assert later.sales[..|db.sales|] == db.sales;
    forall l | l in later.conversions ensures LinkOk(later, l) { assert LinkOk(db, l); }
    forall i | 0 <= i < |db.assignments| ensures AssignmentOk(later, later.assignments[i]) { assert AssignmentOk(db, db.assignments[i]); }
    forall i | 0 <= i < |db.exposures| ensures ExposureOk(later, later.exposures[i]) { assert ExposureOk(db, db.exposures[i]); }
  }

  lemma StepFreezes(db: Db, s: Step, shuffles: Shuffles)
    requires Inv(db) && AllPermutations(shuffles)
    ensures Frozen(db, Next(db, s, shuffles)) && Inv(Next(db, s, shuffles))
  {
    hide Frozen, Inv, Assign, RecordExposure, RecordGroupExposures, Evaluate;
    match s
    case AssignStep(e, now) => AssignStepFreezes(db, e, (n: nat) => shuffles(e, n), now);
    case ExposeStep(e, customer, today, now) => ExposeStepFreezes(db, e, customer, today, now);
    case ExposeGroupStep(e, group, customers, today, now) => ExposeGroupStepFreezes(db, e, group, customers, today, now);
    case EvaluateStep(e) => EvaluateStepFreezes(db, e);
    case SaleStep(_) => WorldStepsFreeze(db, s, shuffles);
    case RelabelStep(_) => WorldStepsFreeze(db, s, shuffles);
    case CreateExperimentStep(_, _, _, _) => CreateExperimentFreezes(db, s, shuffles);
    case EditExperimentStep(_, _) => EditExperimentFreezes(db, s, shuffles);
    case CreateCampaignStep(_) => CreateCampaignFreezes(db, s, shuffles);
    case EditCampaignStep(_, _) => EditCampaignFreezes(db, s, shuffles);
    case TransitionStep(_, _, _) => TransitionFreezes(db, s, shuffles);
    case LateTransitionStep(_, _, _) => TransitionFreezes(db, s, shuffles);
  }

  /** Over every run: the invariant holds at the end, and what any assignment froze at
      the start is still frozen. */
  lemma {:induction false} RunFreezes(db: Db, steps: seq<Step>, shuffles: Shuffles)
    requires Inv(db) && AllPermutations(shuffles)
    ensures Frozen(db, Run(db, steps, shuffles)) && Inv(Run(db, steps, shuffles))
  {
    hide Frozen, Inv, Next;
    if steps == [] {
      FrozenRefl(db);
    } else {
      var before := Run(db, steps[..|steps|-1], shuffles);
      RunFreezes(db, steps[..|steps|-1], shuffles);
      StepFreezes(before, steps[|steps|-1], shuffles);
      FrozenTransitive(db, before, Next(before, steps[|steps|-1], shuffles));
    }
  }
}
