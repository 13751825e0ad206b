/** When each campaign and experiment operation refuses, for which reason, and exactly what it
    writes when it does not: told over the tables, check by check. */
module ExperimentVerdicts {
  import opened Counting
  import opened Experiments
  import opened ExperimentRuns
  import opened Options
  import opened Sorting

  /** One check of an operation: whether it finds a fault, and what is then answered. */
  datatype Check = Check(fault: bool, why: Why)

  /** The answer of the first check that finds a fault. */
  ghost function FirstFault(checks: seq<Check>): (why: Option<Why>)
    ensures why.None? <==> forall i :: 0 <= i < |checks| ==> !checks[i].fault
    ensures (why.Some? ==> exists i :: 0 <= i < |checks| && checks[i] == Check(true, why.value)
                                       && forall j :: 0 <= j < i ==> !checks[j].fault)
  {
    if checks == [] then None
    else
      var rest := FirstFault(checks[1..]);
      assert forall i :: 1 <= i < |checks| ==> checks[i] == checks[1..][i - 1];
      if checks[0].fault then
        assert checks[0] == Check(true, checks[0].why);
        Some(checks[0].why)
      else rest
  }

  /** The operation is refused for the first fault, leaving the tables alone, or writes `later`. */
  ghost predicate Decides(r: Result, db: Db, checks: seq<Check>, later: Db) {
    match FirstFault(checks)
    case Some(why) => r == Result(db, Refused(why))
    case None => r.reply.Done? && r.db == later
  }

  lemma {:induction false} FirstAt(checks: seq<Check>, i: nat)
    requires i < |checks| && checks[i].fault && forall j :: 0 <= j < i ==> !checks[j].fault
    ensures FirstFault(checks) == Some(checks[i].why)
  {
    if i == 0 {
    } else {
      assert checks[1..][i - 1] == checks[i] && forall j :: 0 <= j < i - 1 ==> checks[1..][j] == checks[j + 1];
      FirstAt(checks[1..], i - 1);
    }
  }

  /** The first fault by its place. */
  lemma InOrder(checks: seq<Check>)
    ensures |checks| > 0 && checks[0].fault ==> FirstFault(checks) == Some(checks[0].why)
    ensures |checks| > 1 && !checks[0].fault && checks[1].fault ==> FirstFault(checks) == Some(checks[1].why)
    ensures |checks| > 2 && !checks[0].fault && !checks[1].fault && checks[2].fault ==> FirstFault(checks) == Some(checks[2].why)
    ensures (|checks| > 3 && !checks[0].fault && !checks[1].fault && !checks[2].fault && checks[3].fault ==>
               FirstFault(checks) == Some(checks[3].why))
    ensures (|checks| > 4 && !checks[0].fault && !checks[1].fault && !checks[2].fault && !checks[3].fault && checks[4].fault ==>
               FirstFault(checks) == Some(checks[4].why))
    ensures ((|checks| > 5 && !checks[0].fault && !checks[1].fault && !checks[2].fault && !checks[3].fault && !checks[4].fault
              && checks[5].fault) ==> FirstFault(checks) == Some(checks[5].why))
    ensures ((|checks| > 6 && !checks[0].fault && !checks[1].fault && !checks[2].fault && !checks[3].fault && !checks[4].fault
              && !checks[5].fault && checks[6].fault) ==> FirstFault(checks) == Some(checks[6].why))
    ensures ((|checks| <= 7 && (|checks| > 0 ==> !checks[0].fault) && (|checks| > 1 ==> !checks[1].fault)
              && (|checks| > 2 ==> !checks[2].fault) && (|checks| > 3 ==> !checks[3].fault) && (|checks| > 4 ==> !checks[4].fault)
              && (|checks| > 5 ==> !checks[5].fault) && (|checks| > 6 ==> !checks[6].fault)) ==> FirstFault(checks) == None)
  {
    hide FirstFault;
    if i: nat :| i < |checks| && checks[i].fault && forall j :: 0 <= j < i ==> !checks[j].fault {
      FirstAt(checks, i);
    }
  }

  // ---------- campaigns ----------

  ghost function CreateCampaignChecks(db: Db, data: CampaignInput): seq<Check> {
    [Check(exists i :: 0 <= i < |db.campaigns| && db.campaigns[i].name == data.name && db.campaigns[i].code == data.code
                       && db.campaigns[i].startsOn == data.startsOn && db.campaigns[i].endsOn == data.endsOn
                       && db.campaigns[i].status == Draft, Duplicate),
     Check(data.startsOn > data.endsOn, Constraint)]
  }

  lemma CreateCampaignDecides(db: Db, data: CampaignInput)
    ensures Decides(Experiments.CreateCampaign(db, data), db, CreateCampaignChecks(db, data),
                    db.(campaigns := db.campaigns + [Campaign(data.name, data.code, data.startsOn, data.endsOn, Draft)]))
  {
    InOrder(CreateCampaignChecks(db, data));
    hide FirstFault;
    assert Drafted(data) in db.campaigns <==>
      exists i :: 0 <= i < |db.campaigns| && db.campaigns[i].name == data.name && db.campaigns[i].code == data.code
                  && db.campaigns[i].startsOn == data.startsOn && db.campaigns[i].endsOn == data.endsOn
                  && db.campaigns[i].status == Draft;
  }

  ghost function EditCampaignChecks(db: Db, id: nat, data: CampaignInput): seq<Check> {
    [Check(id >= |db.campaigns|, NotFound),
     Check(id < |db.campaigns| && !db.campaigns[id].status.Draft?, NotDraft),
     Check(data.startsOn > data.endsOn, Constraint)]
  }

  lemma EditCampaignDecides(db: Db, id: nat, data: CampaignInput)
    ensures Decides(Experiments.EditCampaign(db, id, data), db, EditCampaignChecks(db, id, data),
                    if id < |db.campaigns| then
                      db.(campaigns := db.campaigns[id := Campaign(data.name, data.code, data.startsOn, data.endsOn, Draft)])
                    else db)
  {
    InOrder(EditCampaignChecks(db, id, data));
    hide FirstFault;
  }

  /** The arms that make an experiment comparable: a treatment and a control, or two treatments. */
  ghost predicate Comparable(groups: seq<Group>) {
    var treated := set g: nat | g < |groups| && groups[g].kind.Treatment?;
    treated != {} && ((exists g :: 0 <= g < |groups| && groups[g].kind.Control?) || |treated| == 2)
  }

  ghost function OfKind(groups: seq<Group>, kind: Kind): set<nat> {
    set g: nat | g < |groups| && groups[g].kind == kind
  }

  lemma OneMoreOfKind(groups: seq<Group>, kind: Kind)
    requires groups != []
    ensures var n: nat := |groups| - 1;
      && OfKind(groups, kind) == OfKind(groups[..n], kind) + (if groups[n].kind == kind then {n} else {})
      && n !in OfKind(groups[..n], kind)
  {
  }

  lemma {:induction false} KindsAreCounted(groups: seq<Group>, kind: Kind)
    ensures KindCount(groups, kind) == |OfKind(groups, kind)|
  {
    if groups == [] {
      assert OfKind(groups, kind) == {};
    } else {
      KindsAreCounted(groups[..|groups|-1], kind);
      OneMoreOfKind(groups, kind);
      hide OfKind;
    }
  }

  lemma ReadyIsComparable(groups: seq<Group>)
    ensures ArmsReady(groups) <==> Comparable(groups)
  {
    KindsAreCounted(groups, Treatment);
    KindsAreCounted(groups, Control);
    assert OfKind(groups, Treatment) == set g: nat | g < |groups| && groups[g].kind.Treatment?;
    if g :| 0 <= g < |groups| && groups[g].kind.Control? {
      assert g in OfKind(groups, Control);
    }
    if g :| g in OfKind(groups, Control) {
      assert groups[g].kind.Control?;
    }
    hide KindCount;
  }

  /** Draft to active, active to finished, and either to cancelled. */
  ghost predicate MovesTo(from: Status, to: Status) {
    (from.Draft? && to.Active?) || (from.Active? && to.Finished?) || ((from.Draft? || from.Active?) && to.Cancelled?)
  }

  ghost function TransitionChecks(db: Db, id: nat, target: Status, today: int): seq<Check> {
    [Check(id >= |db.campaigns|, NotFound),
     Check(id < |db.campaigns| && !MovesTo(db.campaigns[id].status, target), IllegalMove),
     Check(id < |db.campaigns| && target.Active? && db.campaigns[id].endsOn < today, CampaignEnded),
     Check(target.Active? && exists e :: 0 <= e < |db.experiments| && db.experiments[e].campaign == Some(id)
                                         && !Comparable(db.experiments[e].groups), BadArms)]
  }

  lemma TransitionDecides(db: Db, id: nat, target: Status, today: int)
    ensures Decides(Experiments.Transition(db, id, target, today), db, TransitionChecks(db, id, target, today),
                    if id < |db.campaigns| then db.(campaigns := db.campaigns[id := db.campaigns[id].(status := target)]) else db)
  {
    InOrder(TransitionChecks(db, id, target, today));
    hide ArmsReady, Comparable, FirstFault;
    forall e | 0 <= e < |db.experiments| ensures ArmsReady(db.experiments[e].groups) <==> Comparable(db.experiments[e].groups) {
      ReadyIsComparable(db.experiments[e].groups);
    }
  }

  /** The update at the end of a transition, prompt or late, is a compare-and-set: a campaign that
      has moved on since its status was read is left alone, and nothing but a status ever moves. */
  lemma StatusMovesFromWhatWasRead(db: Db, id: nat, current: Status, target: Status)
    ensures var r := Experiments.ChangeStatus(db, id, current, target);
      && (id < |db.campaigns| && db.campaigns[id].status == current ==>
            r == Result(db.(campaigns := db.campaigns[id := db.campaigns[id].(status := target)]), Done(1)))
      && (id < |db.campaigns| && db.campaigns[id].status != current ==> r == Result(db, Done(0)))
      && (id >= |db.campaigns| ==> r == Result(db, Done(0)))
  {
  }

  // ---------- experiments ----------

  ghost predicate RunIsOver(db: Db, campaign: Option<nat>) {
    campaign.Some? && campaign.value < |db.campaigns|
    && (db.campaigns[campaign.value].status.Finished? || db.campaigns[campaign.value].status.Cancelled?)
  }

  /** The campaign does not exist, the window is empty, or the end comes before the start. */
  ghost predicate Malformed(db: Db, data: ExperimentInput) {
    || (data.campaign.Some? && data.campaign.value >= |db.campaigns|)
    || data.windowDays < 1
    || (data.endsOn.Some? && data.endsOn.value < data.startsOn)
  }

  ghost function CreateExperimentChecks(db: Db, data: ExperimentInput, hasControl: bool, treatments: nat): seq<Check> {
    [Check(RunIsOver(db, data.campaign), CampaignOver),
     Check(treatments == 0 || (!hasControl && treatments != 2), BadArms),
     Check(exists e :: 0 <= e < |db.experiments| && db.experiments[e].name == data.name
                       && db.experiments[e].campaign == data.campaign && db.experiments[e].startsOn == data.startsOn, Duplicate),
     Check(Malformed(db, data), Constraint)]
  }

  lemma CreateExperimentDecides(db: Db, data: ExperimentInput, origin: nat, hasControl: bool, treatments: nat)
    ensures Decides(Experiments.CreateExperiment(db, data, origin, hasControl, treatments), db,
                    CreateExperimentChecks(db, data, hasControl, treatments),
                    db.(experiments := db.experiments + [Experiment(data.name, data.campaign, data.metric, data.startsOn, data.endsOn,
                          data.windowDays, origin, NewGroups(db.nextGroup, hasControl, treatments))],
                        nextGroup := db.nextGroup + treatments + (if hasControl then 1 else 0)))
  {
    InOrder(CreateExperimentChecks(db, data, hasControl, treatments));
    hide NewGroups, FirstFault;
  }

  /** A new experiment's arms: control first, if any, then treatments, under the next ids. */
  lemma NewArms(next: nat, hasControl: bool, treatments: nat)
    ensures var groups := NewGroups(next, hasControl, treatments);
      && |groups| == treatments + (if hasControl then 1 else 0)
      && forall i :: 0 <= i < |groups| ==> groups[i].id == next + i && (groups[i].kind.Control? <==> hasControl && i == 0)
  {
  }

  ghost predicate HasAssignments(db: Db, e: nat) {
    exists i :: 0 <= i < |db.assignments| && db.assignments[i].experiment == e
  }

  ghost function EditExperimentChecks(db: Db, e: nat, data: ExperimentInput): seq<Check> {
    if e >= |db.experiments| then [Check(true, NotFound)]
    else
      var x, fixed := db.experiments[e], HasAssignments(db, e);
      [Check(fixed && data.windowDays != x.windowDays, WindowFixed), Check(fixed && data.metric != x.metric, MetricFixed),
       Check(fixed && data.campaign != x.campaign, CampaignFixed), Check(fixed && data.startsOn != x.startsOn, StartFixed),
       Check(fixed && data.endsOn != x.endsOn, EndFixed),
       Check(!fixed && data.campaign != x.campaign && RunIsOver(db, data.campaign), CampaignOver),
       Check(Malformed(db, data), Constraint)]
  }

  lemma EditExperimentDecides(db: Db, e: nat, data: ExperimentInput)
    ensures Decides(EditExperiment(db, e, data), db, EditExperimentChecks(db, e, data),
                    if e < |db.experiments| then
                      db.(experiments := db.experiments[e := db.experiments[e].(name := data.name, campaign := data.campaign,
                            metric := data.metric, startsOn := data.startsOn, endsOn := data.endsOn, windowDays := data.windowDays)])
                    else db)
  {
    hide AssignmentCount, FirstFault;
    InOrder(EditExperimentChecks(db, e, data));
    CountedIffPresent(db.assignments, e);
  }

  // ---------- assignment ----------

  /** Who is to be assigned: everybody whose open segment assignment carries the campaign's label. */
  ghost function Candidates(db: Db, e: nat): set<nat>
    requires e < |db.experiments|
  {
    set h | h in db.holders && CarriesLabel(db, e, h) :: h.customer
  }

  ghost predicate CarriesLabel(db: Db, e: nat, h: Holder)
    requires e < |db.experiments|
  {
    var c := db.experiments[e].campaign;
    c.Some? && c.value < |db.campaigns| && h.code == Some(db.campaigns[c.value].code)
  }

  ghost function AssignChecks(db: Db, e: nat): seq<Check> {
    if e >= |db.experiments| then [Check(true, NotFound)]
    else
      var x := db.experiments[e];
      [Check(HasAssignments(db, e), AlreadyAssigned),
       Check(x.campaign.None?, NoCampaign),
       Check(x.campaign.Some? && !(x.campaign.value < |db.campaigns| && db.campaigns[x.campaign.value].status.Active?), CampaignNotActive),
       Check(!Comparable(x.groups), BadArms),
       Check(Candidates(db, e) == {}, NobodyToAssign),
       Check(|Candidates(db, e)| < |x.groups|, TooFewCustomers)]
  }

  lemma PopulationIsCandidates(db: Db, e: nat)
    requires e < |db.experiments| && OneLabelEach(db.holders)
    requires db.experiments[e].campaign.Some? && db.experiments[e].campaign.value < |db.campaigns|
    ensures var customers := Population(db.holders, db.campaigns[db.experiments[e].campaign.value].code);
      Distinct(customers) && |customers| == |Candidates(db, e)| && forall c :: c in customers <==> c in Candidates(db, e)
  {
    var code := db.campaigns[db.experiments[e].campaign.value].code;
    var customers := Population(db.holders, code);
    PopulationIsDistinct(db.holders, code);
    forall c ensures c in customers <==> c in Candidates(db, e) {
      PopulationMembers(db.holders, code, c);
      if Holder(c, Some(code)) in db.holders {
        assert CarriesLabel(db, e, Holder(c, Some(code)));
      }
    }
    hide Population, Candidates;
    DistinctSize(customers, Candidates(db, e));
  }

  /** An assignment is refused for the first of its faults, and else adds only assignments. */
  lemma AssignDecides(db: Db, e: nat, shuffle: nat -> seq<nat>, now: int)
    requires forall n :: Permutation(shuffle(n), n)
    requires OneLabelEach(db.holders)
    ensures var r := Assign(db, e, shuffle, now);
      Decides(r, db, AssignChecks(db, e), db.(assignments := r.db.assignments))
  {
    hide FirstFault, AssignmentCount, Population, Split, PlanRows, ArmsReady, Comparable, Candidates, HasAssignments,
      Permutation;
    InOrder(AssignChecks(db, e));
    if e < |db.experiments| {
      HasExactly(db, e);
      ReadyIsComparable(db.experiments[e].groups);
      var c := db.experiments[e].campaign;
      if c.Some? && c.value < |db.campaigns| {
        PopulationIsCandidates(db, e);
      }
    }
  }

  lemma HasExactly(db: Db, e: nat)
    ensures HasAssignments(db, e) <==> AssignmentCount(db.assignments, e) > 0
  {
    CountedIffPresent(db.assignments, e);
    hide AssignmentCount;
  }

  /** Whom the shuffle deals where: the p-th card is the shuffle's p-th customer in ascending
      order, and goes to arm p modulo the number of arms. */
  ghost predicate IsCard(e: nat, groups: seq<Group>, sorted: seq<nat>, shuffle: seq<nat>, now: int, p: int, a: Assignment)
    requires Permutation(shuffle, |sorted|) && groups != []
  {
    0 <= p < |sorted| && a == Assignment(e, groups[p % |groups|].id, sorted[shuffle[p]], now)
  }

  lemma InArmExactly(customers: seq<nat>, groups: nat, shuffle: seq<nat>, g: nat, x: nat)
    requires groups > g && Permutation(shuffle, |customers|)
    ensures var sorted := Sort(customers, Ascending());
      x in Split(customers, groups, shuffle)[g] <==> exists p: int :: 0 <= p < |customers| && p % groups == g && sorted[shuffle[p]] == x
  {
    var order := Shuffled(customers, shuffle);
    DealtMembers(order, groups, g, |order|, x);
    hide Dealt, Sort;
    assert forall p :: 0 <= p < |order| ==> order[p] == Sort(customers, Ascending())[shuffle[p]];
  }

  /** Every row is a card dealt, and every card becomes a row. */
  lemma RowsAreCards(e: nat, groups: seq<Group>, customers: seq<nat>, shuffle: seq<nat>, now: int, a: Assignment)
    requires groups != [] && Permutation(shuffle, |customers|)
    ensures var sorted := Sort(customers, Ascending());
      a in PlanRows(e, groups, Split(customers, |groups|, shuffle), now) <==> exists p: int :: IsCard(e, groups, sorted, shuffle, now, p, a)
  {
    hide PlanRows, Split, Sort;
    var sorted, arms := Sort(customers, Ascending()), Split(customers, |groups|, shuffle);
    PlanRowsContents(e, groups, arms, now);
    if a in PlanRows(e, groups, arms, now) {
      assert RowOfArm(a, e, groups, arms, now);
      var g :| 0 <= g < |arms| && a.group == groups[g].id && a.customer in arms[g];
      InArmExactly(customers, |groups|, shuffle, g, a.customer);
      var p: int :| 0 <= p < |customers| && p % |groups| == g && sorted[shuffle[p]] == a.customer;
      assert IsCard(e, groups, sorted, shuffle, now, p, a);
    }
    if p: int :| IsCard(e, groups, sorted, shuffle, now, p, a) {
      InArmExactly(customers, |groups|, shuffle, p % |groups|, a.customer);
    }
  }

  lemma RowsAreAsMany(e: nat, groups: seq<Group>, customers: seq<nat>, shuffle: seq<nat>, now: int)
    requires groups != [] && Permutation(shuffle, |customers|) && Distinct(customers)
    ensures |PlanRows(e, groups, Split(customers, |groups|, shuffle), now)| == |customers|
  {
    hide PlanRows, Split;
    var arms := Split(customers, |groups|, shuffle);
    var rows := PlanRows(e, groups, arms, now);
    SplitIsEven(customers, |groups|, shuffle);
    PlanRowsAreDistinct(e, groups, arms, now);
    PlanRowsCover(e, groups, arms, now, customers);
    var all := set x | x in customers;
    DistinctSize(CustomersOf(rows), all);
    DistinctSize(customers, all);
  }

  /** What an assignment writes: one row for every card dealt, and the cards are the candidates. */
  lemma AssignDealsShuffle(db: Db, e: nat, shuffle: nat -> seq<nat>, now: int) returns (rows: seq<Assignment>, sorted: seq<nat>)
    requires forall n :: Permutation(shuffle(n), n)
    requires OneLabelEach(db.holders) && Assign(db, e, shuffle, now).reply.Done?
    ensures e < |db.experiments| && db.experiments[e].groups != []
    ensures Assign(db, e, shuffle, now) == Result(db.(assignments := db.assignments + rows), Done(|rows|))
    ensures |rows| == |sorted| == |Candidates(db, e)|
    ensures (forall i, j :: 0 <= i < j < |sorted| ==> sorted[i] < sorted[j]) && forall c :: c in sorted <==> c in Candidates(db, e)
    ensures forall a :: a in rows <==> exists p: int :: IsCard(e, db.experiments[e].groups, sorted, shuffle(|sorted|), now, p, a)
  {
    hide Split, PlanRows, Population, Candidates, AssignmentCount, Sort, IsCard;
    var x := db.experiments[e];
    assert x.groups != [];
    hide ArmsReady;
    var customers := Population(db.holders, db.campaigns[x.campaign.value].code);
    PopulationIsCandidates(db, e);
    sorted := Sort(customers, Ascending());
    SortedCustomers(customers, sorted);
    rows := PlanRows(e, x.groups, Split(customers, |x.groups|, shuffle(|customers|)), now);
    RowsAreAsMany(e, x.groups, customers, shuffle(|customers|), now);
    forall a ensures a in rows <==> exists p: int :: IsCard(e, x.groups, sorted, shuffle(|sorted|), now, p, a) {
      RowsAreCards(e, x.groups, customers, shuffle(|customers|), now, a);
    }
  }

  lemma SortedCustomers(customers: seq<nat>, sorted: seq<nat>)
    requires Distinct(customers) && sorted == Sort(customers, Ascending())
    ensures |sorted| == |customers| && (forall i, j :: 0 <= i < j < |sorted| ==> sorted[i] < sorted[j])
    ensures forall c :: c in sorted <==> c in customers
  {
    hide Sort;
    SortIsSorted(customers, Ascending());
    DistinctTogether(customers, sorted);
    AscendingIsOrder(sorted);
    hide Sorted, Distinct, Ascending;
    forall c ensures c in sorted <==> c in customers {
      SameElements(customers, sorted, c);
    }
  }

  lemma AscendingIsOrder(s: seq<nat>)
    requires Sorted(s, Ascending()) && Distinct(s)
    ensures forall i, j :: 0 <= i < j < |s| ==> s[i] < s[j]
  {
    forall i, j | 0 <= i < j < |s| ensures s[i] < s[j] {
      assert Ascending()(s[i], s[j]);
    }
  }

  // ---------- exposure ----------

  /** The assignment's arm is a treatment of the experiment. */
  ghost predicate Treated(db: Db, e: nat, group: nat)
    requires e < |db.experiments|
  {
    exists g :: 0 <= g < |db.experiments[e].groups| && db.experiments[e].groups[g] == Group(group, Treatment)
  }

  ghost predicate IsAssigned(db: Db, e: nat, customer: nat, i: nat) {
    i < |db.assignments| && db.assignments[i].experiment == e && db.assignments[i].customer == customer
  }

  /** Delivery on a day outside the experiment's dates, or under a campaign that is over. */
  ghost function FrameChecks(db: Db, e: nat, today: Option<int>, now: int): seq<Check>
    requires e < |db.experiments|
  {
    var x, day := db.experiments[e], if today.Some? then today.value else now / 86400;
    [Check(day < x.startsOn, BeforeStart), Check(x.endsOn.Some? && x.endsOn.value < day, AfterEnd),
     Check(RunIsOver(db, x.campaign), CampaignOver)]
  }

  ghost predicate ExposedLately(exposures: seq<Exposure>, i: nat, now: int) {
    exists x :: 0 <= x < |exposures| && exposures[x].assignment == i && now - 60 < exposures[x].at
  }

  ghost function ExposeChecks(db: Db, e: nat, customer: nat, today: Option<int>, now: int): seq<Check> {
    if e >= |db.experiments| then [Check(true, NotFound)]
    else
      var f := FrameChecks(db, e, today, now);
      [Check(!exists i: nat :: IsAssigned(db, e, customer, i), NotAssigned),
       Check(!exists i: nat :: IsAssigned(db, e, customer, i) && Treated(db, e, db.assignments[i].group), ControlNeverExposed),
       f[0], f[1], f[2]]
  }

  lemma OneKindOf(db: Db, e: nat, group: nat)
    requires e < |db.experiments| && DistinctIds(db.experiments[e].groups)
    ensures KindOf(db.experiments[e].groups, group) == Some(Treatment) <==> Treated(db, e, group)
  {
  }

  lemma FrameInOrder(db: Db, e: nat, today: Option<int>, now: int)
    requires e < |db.experiments|
    ensures var f := FrameChecks(db, e, today, now);
      FrameRefusal(db, db.experiments[e], if today.Some? then today.value else DateOf(now))
      == if f[0].fault then Some(f[0].why) else if f[1].fault then Some(f[1].why) else if f[2].fault then Some(f[2].why) else None
  {
  }

  lemma TheirAssignment(db: Db, e: nat, customer: nat)
    requires Inv(db) && e < |db.experiments|
    ensures var found := FindAssignment(db.assignments, e, customer);
      if found.None? then !exists i: nat :: IsAssigned(db, e, customer, i)
      else
        && IsAssigned(db, e, customer, found.value)
        && ((exists i: nat :: IsAssigned(db, e, customer, i) && Treated(db, e, db.assignments[i].group))
            <==> KindOf(db.experiments[e].groups, db.assignments[found.value].group) == Some(Treatment))
  {
    hide KindOf, Treated;
    var found := FindAssignment(db.assignments, e, customer);
    if found.Some? {
      OneKindOf(db, e, db.assignments[found.value].group);
      assert forall j: nat :: IsAssigned(db, e, customer, j) ==> j == found.value;
      assert IsAssigned(db, e, customer, found.value);
    }
  }

  lemma InsertExactly(exposures: seq<Exposure>, i: nat, now: int)
    ensures InsertExposure(exposures, i, now) == if ExposedLately(exposures, i, now) then exposures else exposures + [Exposure(i, now)]
  {
  }

  /** Exposing one customer writes one event for their assignment, unless it had one in the minute
      before, and is refused for the first of its faults. */
  lemma ExposeDecides(db: Db, e: nat, customer: nat, today: Option<int>, now: int) returns (i: nat)
    requires Inv(db)
    ensures var r := RecordExposure(db, e, customer, today, now);
      && Decides(r, db, ExposeChecks(db, e, customer, today, now), db.(exposures := r.db.exposures))
      && (r.reply.Done? ==>
            && IsAssigned(db, e, customer, i)
            && r == if ExposedLately(db.exposures, i, now) then Result(db, Done(0))
                    else Result(db.(exposures := db.exposures + [Exposure(i, now)]), Done(1)))
  {
    hide FirstFault, Inv, KindOf, FindAssignment, Treated, IsAssigned, FrameChecks, FrameRefusal, InsertExposure, ExposedLately;
    InOrder(ExposeChecks(db, e, customer, today, now));
    i := 0;
    if e < |db.experiments| {
      FrameInOrder(db, e, today, now);
      TheirAssignment(db, e, customer);
      var found := FindAssignment(db.assignments, e, customer);
      if found.Some? {
        i := found.value;
        InsertExactly(db.exposures, i, now);
      }
    }
  }

  // ---------- exposing a group ----------

  /** The assignment is one of the arm's, and of a listed customer's when there is a list. */
  ghost predicate Selected(db: Db, e: nat, group: nat, customers: Option<seq<nat>>, i: int) {
    && 0 <= i < |db.assignments| && db.assignments[i].experiment == e && db.assignments[i].group == group
    && (customers.Some? ==> db.assignments[i].customer in customers.value)
  }

  lemma {:induction false} ArmIdsAreSelected(assignments: seq<Assignment>, e: nat, group: nat, customers: Option<seq<nat>>)
    ensures var ids := ArmIds(assignments, e, group, customers);
      && (forall i, j :: 0 <= i < j < |ids| ==> ids[i] < ids[j])
      && (forall i: nat :: i in ids <==>
            && i < |assignments| && assignments[i].experiment == e && assignments[i].group == group
            && (customers.Some? ==> assignments[i].customer in customers.value))
  {
    if assignments == [] {
    } else {
      ArmIdsAreSelected(assignments[..|assignments|-1], e, group, customers);
    }
  }

  ghost function ExposeGroupChecks(db: Db, e: nat, group: nat, customers: Option<seq<nat>>, today: Option<int>, now: int, ids: seq<nat>): seq<Check> {
    if customers.Some? && |customers.value| == 0 then [Check(true, NothingSelected)]
    else if e >= |db.experiments| then [Check(true, NotFound)]
    else
      var f := FrameChecks(db, e, today, now);
      [Check(!exists g :: 0 <= g < |db.experiments[e].groups| && db.experiments[e].groups[g].id == group, UnknownArm),
       Check(!Treated(db, e, group), ControlNeverExposed),
       f[0], f[1], f[2],
       Check(customers.Some? && |customers.value| != |ids|, NotInArm)]
  }

  /** What one pass over some assignments adds: an event for each that had none in the last minute,
      in order. */
  ghost function Delivered(exposures: seq<Exposure>, ids: seq<nat>, now: int): seq<Exposure> {
    if ids == [] then []
    else
      var n := |ids| - 1;
      Delivered(exposures, ids[..n], now) + (if ExposedLately(exposures, ids[n], now) then [] else [Exposure(ids[n], now)])
  }

  lemma {:induction false} DeliveredTo(exposures: seq<Exposure>, ids: seq<nat>, now: int, i: nat)
    ensures Exposure(i, now) in Delivered(exposures, ids, now) <==> i in ids && !ExposedLately(exposures, i, now)
    ensures forall x :: x in Delivered(exposures, ids, now) ==> x.at == now && x.assignment in ids
  {
    hide ExposedLately;
    if ids == [] {
    } else {
      var n := |ids| - 1;
      DeliveredTo(exposures, ids[..n], now, i);
      assert ids == ids[..n] + [ids[n]];
    }
  }

  lemma LatelyAfter(exposures: seq<Exposure>, added: seq<Exposure>, i: nat, now: int)
    requires forall x :: x in added ==> x.assignment != i
    ensures ExposedLately(exposures + added, i, now) <==> ExposedLately(exposures, i, now)
  {
    var all := exposures + added;
    if x :| 0 <= x < |exposures| && exposures[x].assignment == i && now - 60 < exposures[x].at {
      assert all[x] == exposures[x];
    }
    forall x | |exposures| <= x < |all| ensures all[x].assignment != i {
      assert all[x] in added;
    }
    assert forall x :: 0 <= x < |exposures| ==> all[x] == exposures[x];
  }

  lemma DeliverOne(exposures: seq<Exposure>, before: seq<Exposure>, ids: seq<nat>, i: nat, now: int)
    requires before == Delivered(exposures, ids, now) && i !in ids
    ensures InsertExposure(exposures + before, i, now)
         == exposures + (before + (if ExposedLately(exposures, i, now) then [] else [Exposure(i, now)]))
  {
    DeliveredTo(exposures, ids, now, i);
    hide Delivered, ExposedLately, InsertExposure;
    LatelyAfter(exposures, before, i, now);
    InsertExactly(exposures + before, i, now);
    assert before + [] == before;
    assert exposures + before + [Exposure(i, now)] == exposures + (before + [Exposure(i, now)]);
  }

  lemma {:induction false} InsertsDeliver(exposures: seq<Exposure>, ids: seq<nat>, now: int)
    requires Distinct(ids)
    ensures InsertExposures(exposures, ids, now) == exposures + Delivered(exposures, ids, now)
  {
    hide ExposedLately, InsertExposure;
    if ids == [] {
      assert exposures + [] == exposures;
    } else {
      var n := |ids| - 1;
      InsertsDeliver(exposures, ids[..n], now);
      assert ids[n] !in ids[..n];
      DeliverOne(exposures, Delivered(exposures, ids[..n], now), ids[..n], ids[n], now);
    }
  }

  lemma GroupTreated(db: Db, e: nat, group: nat)
    requires Inv(db) && e < |db.experiments|
    ensures var kind := KindOf(db.experiments[e].groups, group);
      && (kind.None? <==> !exists g :: 0 <= g < |db.experiments[e].groups| && db.experiments[e].groups[g].id == group)
      && (kind == Some(Treatment) <==> Treated(db, e, group))
      && (kind.Some? ==> kind == Some(Control) || kind == Some(Treatment))
  {
    OneKindOf(db, e, group);
    hide Inv, Treated;
    var kind := KindOf(db.experiments[e].groups, group);
    if kind.Some? {
      match kind.value
      case Control =>
      case Treatment =>
    }
  }

  /** Exposing a group writes one event for each selected assignment of the arm, unless it had one in
      the minute before, and is refused for the first of its faults. */
  lemma ExposeGroupDecides(db: Db, e: nat, group: nat, customers: Option<seq<nat>>, today: Option<int>, now: int) returns (ids: seq<nat>)
    requires Inv(db)
    ensures (forall i, j :: 0 <= i < j < |ids| ==> ids[i] < ids[j]) && forall i: nat :: i in ids <==> Selected(db, e, group, customers, i)
    ensures var r, added := RecordGroupExposures(db, e, group, customers, today, now), Delivered(db.exposures, ids, now);
      && Decides(r, db, ExposeGroupChecks(db, e, group, customers, today, now, ids), db.(exposures := db.exposures + added))
      && (r.reply.Done? ==> r.reply == Done(|added|))
  {
    hide FirstFault, Inv, KindOf, Treated, FrameChecks, FrameRefusal, Delivered, ExposedLately, InsertExposures;
    ids := ArmIds(db.assignments, e, group, customers);
    ArmIdsAreSelected(db.assignments, e, group, customers);
    InOrder(ExposeGroupChecks(db, e, group, customers, today, now, ids));
    InsertsDeliver(db.exposures, ids, now);
    if customers.Some? && |customers.value| == 0 {
      assert customers.value == [];
    }
    if e < |db.experiments| {
      FrameInOrder(db, e, today, now);
      GroupTreated(db, e, group);
    }
    hide ArmIds;
  }

  // ---------- evaluation ----------

  ghost function EvaluateChecks(db: Db, e: nat): seq<Check> {
    [Check(e >= |db.experiments|, NotFound), Check(!HasAssignments(db, e), NotAssigned)]
  }

  /** An evaluation is refused without an experiment or without assignments, and counts what it adds. */
  lemma EvaluateDecides(db: Db, e: nat)
    ensures var r := Evaluate(db, e);
      && Decides(r, db, EvaluateChecks(db, e), db.(conversions := r.db.conversions))
      && (r.reply.Done? ==> db.conversions <= r.db.conversions && r.reply == Done(|r.db.conversions - db.conversions|))
  {
    hide FirstFault, AssignmentCount, QualifyingLinks;
    InOrder(EvaluateChecks(db, e));
    CountedIffPresent(db.assignments, e);
    if e < |db.experiments| {
      var links := QualifyingLinks(db, e);
      assert (db.conversions + links) - db.conversions == links - db.conversions;
    }
  }
}
