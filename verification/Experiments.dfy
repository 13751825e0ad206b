/** Campaigns and experiments: the tables, and every operation as the function of the
    tables its transaction computes. A refused operation leaves the tables alone. */
module Experiments {
  import opened Counting
  import opened Options
  import opened Sorting

  // Instants are seconds, dates are days; both may lie before the epoch.
  const DAY: int := 86400

  function DateOf(instant: int): int {
    instant / DAY
  }

  datatype Status = Draft | Active | Finished | Cancelled

  datatype Kind = Control | Treatment

  datatype Campaign = Campaign(name: nat, code: nat, startsOn: int, endsOn: int, status: Status)

  datatype Group = Group(id: nat, kind: Kind)

  datatype Experiment = Experiment(
    name: nat, campaign: Option<nat>, metric: nat, startsOn: int, endsOn: Option<int>,
    windowDays: int, origin: nat, groups: seq<Group>)

  datatype Assignment = Assignment(experiment: nat, group: nat, customer: nat, at: int)

  datatype Exposure = Exposure(assignment: nat, at: int)

  datatype Sale = Sale(customer: nat, at: int)

  datatype Link = Link(assignment: nat, sale: nat)

  datatype Holder = Holder(customer: nat, code: Option<nat>)

  /** Rows are never deleted, so a campaign, experiment, assignment or sale is named by
      its position. `holders` is each customer's open segment assignment. */
  datatype Db = Db(
    campaigns: seq<Campaign>, experiments: seq<Experiment>, nextGroup: nat,
    assignments: seq<Assignment>, exposures: seq<Exposure>,
    sales: seq<Sale>, conversions: set<Link>, holders: seq<Holder>)

  datatype Why =
    | NotFound | Duplicate | Constraint | NotDraft | IllegalMove | CampaignEnded | BadArms
    | WindowFixed | MetricFixed | CampaignFixed | StartFixed | EndFixed
    | CampaignOver | AlreadyAssigned | NoCampaign | CampaignNotActive | NobodyToAssign | TooFewCustomers
    | NotAssigned | ControlNeverExposed | BeforeStart | AfterEnd | UnknownArm | NothingSelected | NotInArm

  datatype Reply = Done(count: nat) | Refused(why: Why)

  datatype Result = Result(db: Db, reply: Reply)

  function Refuse(db: Db, why: Why): Result {
    Result(db, Refused(why))
  }

  // ---------- campaigns ----------

  datatype CampaignInput = CampaignInput(name: nat, code: nat, startsOn: int, endsOn: int)

  function Drafted(data: CampaignInput): Campaign {
    Campaign(data.name, data.code, data.startsOn, data.endsOn, Draft)
  }

  function CreateCampaign(db: Db, data: CampaignInput): Result {
    if Drafted(data) in db.campaigns then Refuse(db, Duplicate)
    else if data.endsOn < data.startsOn then Refuse(db, Constraint)
    else Result(db.(campaigns := db.campaigns + [Drafted(data)]), Done(1))
  }

  function EditCampaign(db: Db, id: nat, data: CampaignInput): Result {
    if id >= |db.campaigns| then Refuse(db, NotFound)
    else if db.campaigns[id].status != Draft then Refuse(db, NotDraft)
    else if data.endsOn < data.startsOn then Refuse(db, Constraint)
    else Result(db.(campaigns := db.campaigns[id := Drafted(data)]), Done(1))
  }

  predicate Allowed(current: Status, target: Status) {
    match current
    case Draft => target == Active || target == Cancelled
    case Active => target == Finished || target == Cancelled
    case _ => false
  }

  predicate Over(status: Status) {
    status == Finished || status == Cancelled
  }

  function KindCount(groups: seq<Group>, kind: Kind): nat {
    if groups == [] then 0
    else KindCount(groups[..|groups|-1], kind) + (if groups[|groups|-1].kind == kind then 1 else 0)
  }

  /** A control and at least one treatment, or exactly two treatments. */
  predicate ArmsReady(groups: seq<Group>) {
    KindCount(groups, Treatment) >= 1 && (KindCount(groups, Control) == 0 ==> KindCount(groups, Treatment) == 2)
  }

  /** The conditional update: a campaign moves only if it still has the status read before. */
  function ChangeStatus(db: Db, id: nat, current: Status, target: Status): Result {
    if id < |db.campaigns| && db.campaigns[id].status == current
    then Result(db.(campaigns := db.campaigns[id := db.campaigns[id].(status := target)]), Done(1))
    else Result(db, Done(0))
  }

  /** `transition`: the target status, from the status read. */
  function Transition(db: Db, id: nat, target: Status, today: int): Result {
    if id >= |db.campaigns| then Refuse(db, NotFound)
    else
      var c := db.campaigns[id];
      if !Allowed(c.status, target) then Refuse(db, IllegalMove)
      else if target == Active && c.endsOn < today then Refuse(db, CampaignEnded)
      else if target == Active && exists e :: 0 <= e < |db.experiments| && db.experiments[e].campaign == Some(id)
                                              && !ArmsReady(db.experiments[e].groups)
      then Refuse(db, BadArms)
      else ChangeStatus(db, id, c.status, target)
  }

  // ---------- experiments ----------

  datatype ExperimentInput = ExperimentInput(
    name: nat, campaign: Option<nat>, metric: nat, startsOn: int, endsOn: Option<int>, windowDays: int)

  predicate CampaignIsOver(db: Db, campaign: Option<nat>) {
    campaign.Some? && campaign.value < |db.campaigns| && Over(db.campaigns[campaign.value].status)
  }

  /** What the tables' own constraints demand of an experiment's fields. */
  predicate WellFormed(db: Db, data: ExperimentInput) {
    && (data.campaign.Some? ==> data.campaign.value < |db.campaigns|)
    && data.windowDays > 0
    && (data.endsOn.Some? ==> data.endsOn.value >= data.startsOn)
  }

  /** Control first when there is one, then the treatments, under fresh ids. */
  function NewGroups(next: nat, hasControl: bool, treatments: nat): (groups: seq<Group>)
    ensures |groups| == treatments + (if hasControl then 1 else 0)
    ensures forall i :: 0 <= i < |groups| ==> groups[i].id == next + i
  {
    seq(treatments + (if hasControl then 1 else 0), i requires i >= 0 =>
      Group(next + i, if hasControl && i == 0 then Control else Treatment))
  }

  function CreateExperiment(db: Db, data: ExperimentInput, origin: nat, hasControl: bool, treatments: nat): Result {
    if CampaignIsOver(db, data.campaign) then Refuse(db, CampaignOver)
    else if (!hasControl && treatments != 2) || treatments < 1 then Refuse(db, BadArms)
    else if exists e :: 0 <= e < |db.experiments| && db.experiments[e].name == data.name
                     && db.experiments[e].campaign == data.campaign && db.experiments[e].startsOn == data.startsOn
    then Refuse(db, Duplicate)
    else if !WellFormed(db, data) then Refuse(db, Constraint)
    else
      var groups := NewGroups(db.nextGroup, hasControl, treatments);
      Result(db.(experiments := db.experiments + [Experiment(data.name, data.campaign, data.metric, data.startsOn,
                                                             data.endsOn, data.windowDays, origin, groups)],
                 nextGroup := db.nextGroup + |groups|), Done(1))
  }

  /** How many assignments an experiment has. */
  function AssignmentCount(assignments: seq<Assignment>, e: nat): nat {
    if assignments == [] then 0
    else
      var n := |assignments| - 1;
      AssignmentCount(assignments[..n], e) + (if assignments[n].experiment == e then 1 else 0)
  }

  function EditExperiment(db: Db, e: nat, data: ExperimentInput): Result {
    if e >= |db.experiments| then Refuse(db, NotFound)
    else
      var current := db.experiments[e];
      var fixed := AssignmentCount(db.assignments, e) > 0;
      if fixed && data.windowDays != current.windowDays then Refuse(db, WindowFixed)
      else if fixed && data.metric != current.metric then Refuse(db, MetricFixed)
      else if fixed && data.campaign != current.campaign then Refuse(db, CampaignFixed)
      else if fixed && data.startsOn != current.startsOn then Refuse(db, StartFixed)
      else if fixed && data.endsOn != current.endsOn then Refuse(db, EndFixed)
      else if !fixed && data.campaign != current.campaign && CampaignIsOver(db, data.campaign) then Refuse(db, CampaignOver)
      else if !WellFormed(db, data) then Refuse(db, Constraint)
      else Result(db.(experiments := db.experiments[e := Experiment(
        data.name, data.campaign, data.metric, data.startsOn, data.endsOn, data.windowDays, current.origin, current.groups)]), Done(1))
  }

  // ---------- assignment ----------

  /** Everybody whose open segment assignment carries the label. */
  function Population(holders: seq<Holder>, code: nat): (customers: seq<nat>)
    ensures |customers| <= |holders|
  {
    if holders == [] then []
    else
      var n := |holders| - 1;
      var before := Population(holders[..n], code);
      if holders[n].code == Some(code) then before + [holders[n].customer] else before
  }

  function Ascending(): (nat, nat) -> bool {
    (x: nat, y: nat) => x <= y
  }

  /** The sorted customers in the order a shuffle deals them; `shuffle` is any
      permutation of their positions. */
  function Shuffled(customers: seq<nat>, shuffle: seq<nat>): (order: seq<nat>)
    requires Permutation(shuffle, |customers|)
    ensures |order| == |customers|
  {
    var sorted := Sort(customers, Ascending());
    seq(|customers|, i requires 0 <= i < |customers| => sorted[shuffle[i]])
  }

  /** Arm `g` of `n`: every `n`-th customer of the first `upTo`. */
  function Dealt(order: seq<nat>, n: nat, g: nat, upTo: nat): seq<nat>
    requires n > 0 && upTo <= |order|
  {
    if upTo == 0 then []
    else if (upTo - 1) % n == g then Dealt(order, n, g, upTo - 1) + [order[upTo - 1]]
    else Dealt(order, n, g, upTo - 1)
  }

  /** The arms, in group order. */
  function Split(customers: seq<nat>, groups: nat, shuffle: seq<nat>): (arms: seq<seq<nat>>)
    requires groups > 0 && Permutation(shuffle, |customers|)
    ensures |arms| == groups
  {
    var order := Shuffled(customers, shuffle);
    seq(groups, g requires 0 <= g < groups => Dealt(order, groups, g, |order|))
  }

  function ArmRows(e: nat, group: nat, arm: seq<nat>, now: int): (rows: seq<Assignment>)
    ensures |rows| == |arm|
  {
    seq(|arm|, i requires 0 <= i < |arm| => Assignment(e, group, arm[i], now))
  }

  /** The rows one assignment writes: arm after arm, all at one instant. */
  function PlanRows(e: nat, groups: seq<Group>, arms: seq<seq<nat>>, now: int): seq<Assignment>
    requires |groups| == |arms|
  {
    if arms == [] then []
    else
      var n := |arms| - 1;
      PlanRows(e, groups[..n], arms[..n], now) + ArmRows(e, groups[n].id, arms[n], now)
  }

  function PlanRefusal(db: Db, e: nat): Option<Why> {
    if e >= |db.experiments| then Some(NotFound)
    else
      var x := db.experiments[e];
      if AssignmentCount(db.assignments, e) > 0 then Some(AlreadyAssigned)
      else if x.campaign.None? then Some(NoCampaign)
      else if x.campaign.value >= |db.campaigns| || db.campaigns[x.campaign.value].status != Active then Some(CampaignNotActive)
      else if !ArmsReady(x.groups) then Some(BadArms)
      else
        var customers := Population(db.holders, db.campaigns[x.campaign.value].code);
        if customers == [] then Some(NobodyToAssign)
        else if |customers| < |x.groups| then Some(TooFewCustomers)
        else None
  }

  /** `now` is when the transaction began; `shuffle` gives the deal for a population. */
  function Assign(db: Db, e: nat, shuffle: nat -> seq<nat>, now: int): Result
    requires forall n :: Permutation(shuffle(n), n)
  {
    var refusal := PlanRefusal(db, e);
    if refusal.Some? then Refuse(db, refusal.value)
    else
      var x := db.experiments[e];
      var customers := Population(db.holders, db.campaigns[x.campaign.value].code);
      var arms := Split(customers, |x.groups|, shuffle(|customers|));
      var rows := PlanRows(e, x.groups, arms, now);
      Result(db.(assignments := db.assignments + rows), Done(|rows|))
  }

  // ---------- exposure ----------

  const EXPOSURE_REPEAT_SECONDS: int := 60

  function FindAssignment(assignments: seq<Assignment>, e: nat, customer: nat): (found: Option<nat>)
    ensures found.Some? ==>
      (found.value < |assignments| && assignments[found.value].experiment == e && assignments[found.value].customer == customer)
    ensures found.None? ==> forall i :: 0 <= i < |assignments| ==> !(assignments[i].experiment == e && assignments[i].customer == customer)
  {
    if assignments == [] then None
    else
      var n := |assignments| - 1;
      if assignments[n].experiment == e && assignments[n].customer == customer then Some(n)
      else FindAssignment(assignments[..n], e, customer)
  }

  function KindOf(groups: seq<Group>, id: nat): (kind: Option<Kind>)
    ensures kind.Some? <==> exists i :: 0 <= i < |groups| && groups[i].id == id
    ensures kind.Some? ==> exists i :: 0 <= i < |groups| && groups[i] == Group(id, kind.value)
  {
    if groups == [] then None
    else
      var n := |groups| - 1;
      if groups[n].id == id then Some(groups[n].kind) else KindOf(groups[..n], id)
  }

  function FrameRefusal(db: Db, x: Experiment, today: int): Option<Why> {
    if today < x.startsOn then Some(BeforeStart)
    else if x.endsOn.Some? && today > x.endsOn.value then Some(AfterEnd)
    else if CampaignIsOver(db, x.campaign) then Some(CampaignOver)
    else None
  }

  /** `insert_exposure`: skipped when the assignment was exposed less than a minute
      before `now`, or later. */
  function InsertExposure(exposures: seq<Exposure>, a: nat, now: int): seq<Exposure> {
    if exists i :: 0 <= i < |exposures| && exposures[i].assignment == a && exposures[i].at > now - EXPOSURE_REPEAT_SECONDS
    then exposures
    else exposures + [Exposure(a, now)]
  }

  /** `today` overrides the date the frame is judged on; the request paths pass none. */
  function RecordExposure(db: Db, e: nat, customer: nat, today: Option<int>, now: int): Result {
    if e >= |db.experiments| then Refuse(db, NotFound)
    else
      var found := FindAssignment(db.assignments, e, customer);
      if found.None? then Refuse(db, NotAssigned)
      else if KindOf(db.experiments[e].groups, db.assignments[found.value].group) != Some(Treatment) then Refuse(db, ControlNeverExposed)
      else
        var refusal := FrameRefusal(db, db.experiments[e], if today.Some? then today.value else DateOf(now));
        if refusal.Some? then Refuse(db, refusal.value)
        else
          var exposures := InsertExposure(db.exposures, found.value, now);
          Result(db.(exposures := exposures), Done(if |exposures| > |db.exposures| then 1 else 0))
  }

  /** The assignment ids of one arm, narrowed to the listed customers when there is a list. */
  function ArmIds(assignments: seq<Assignment>, e: nat, group: nat, customers: Option<seq<nat>>): (ids: seq<nat>)
    ensures forall i :: 0 <= i < |ids| ==>
      (ids[i] < |assignments| && assignments[ids[i]].experiment == e && assignments[ids[i]].group == group)
  {
    if assignments == [] then []
    else
      var n := |assignments| - 1;
      var a := assignments[n];
      var before := ArmIds(assignments[..n], e, group, customers);
      if a.experiment == e && a.group == group && (customers.Some? ==> a.customer in customers.value) then before + [n] else before
  }

  function InsertExposures(exposures: seq<Exposure>, ids: seq<nat>, now: int): (after: seq<Exposure>)
    ensures |after| >= |exposures|
  {
    if ids == [] then exposures
    else InsertExposure(InsertExposures(exposures, ids[..|ids|-1], now), ids[|ids|-1], now)
  }

  function RecordGroupExposures(db: Db, e: nat, group: nat, customers: Option<seq<nat>>, today: Option<int>, now: int): Result {
    if customers == Some([]) then Refuse(db, NothingSelected)
    else if e >= |db.experiments| then Refuse(db, NotFound)
    else
      var kind := KindOf(db.experiments[e].groups, group);
      if kind.None? then Refuse(db, UnknownArm)
      else if kind == Some(Control) then Refuse(db, ControlNeverExposed)
      else
        var refusal := FrameRefusal(db, db.experiments[e], if today.Some? then today.value else DateOf(now));
        if refusal.Some? then Refuse(db, refusal.value)
        else
          var ids := ArmIds(db.assignments, e, group, customers);
          if customers.Some? && |ids| != |customers.value| then Refuse(db, NotInArm)
          else
            var exposures := InsertExposures(db.exposures, ids, now);
            Result(db.(exposures := exposures), Done(|exposures| - |db.exposures|))
  }

  // ---------- conversion ----------

  /** A sale qualifies when it is the assigned customer's own and falls in
      [assigned_at, assigned_at + window). */
  predicate Qualifies(a: Assignment, windowDays: int, s: Sale) {
    s.customer == a.customer && a.at <= s.at < a.at + windowDays * DAY
  }

  /** Every qualifying link of one experiment. */
  function QualifyingLinks(db: Db, e: nat): set<Link>
    requires e < |db.experiments|
  {
    set i, t | 0 <= i < |db.assignments| && 0 <= t < |db.sales|
      && db.assignments[i].experiment == e
      && Qualifies(db.assignments[i], db.experiments[e].windowDays, db.sales[t]) :: Link(i, t)
  }

  /** `_evaluate`: attribute what is not yet attributed; conflicts add nothing. */
  function Evaluate(db: Db, e: nat): Result {
    if e >= |db.experiments| then Refuse(db, NotFound)
    else if AssignmentCount(db.assignments, e) == 0 then Refuse(db, NotAssigned)
    else
      var links := QualifyingLinks(db, e);
      Result(db.(conversions := db.conversions + links), Done(|links - db.conversions|))
  }
}
