/** Campaign and experiment services over live tables, each proved to compute the tables its
    specification says. */
module ExperimentDesk {
  import opened Counting
  import opened Experiments
  import opened Options
  import opened Sorting

  // ---------- Dealing ----------

  /** Deals the shuffled customers round-robin, one list per group. */
  method SplitCustomers(customers: seq<nat>, groups: nat, shuffle: seq<nat>) returns (arms: seq<seq<nat>>)
    requires groups > 0 && Permutation(shuffle, |customers|)
    ensures arms == Split(customers, groups, shuffle)
  {
    hide Permutation, Sort;
    var order := Shuffled(customers, shuffle);
    arms := seq(groups, _ => []);
    for position := 0 to |order|
      invariant |arms| == groups
      invariant forall g :: 0 <= g < groups ==> arms[g] == Dealt(order, groups, g, position)
    {
      var g := position % groups;
      arms := arms[g := arms[g] + [order[position]]];
    }
  }

  lemma PlanRowsOneMore(e: nat, groups: seq<Group>, arms: seq<seq<nat>>, g: nat, now: int)
    requires |groups| == |arms| && g < |arms|
    ensures PlanRows(e, groups[..g+1], arms[..g+1], now)
         == PlanRows(e, groups[..g], arms[..g], now) + ArmRows(e, groups[g].id, arms[g], now)
  {
    assert groups[..g+1][..g] == groups[..g] && arms[..g+1][..g] == arms[..g];
  }

  /** The rows of every arm, arm after arm. */
  method ListRows(e: nat, groups: seq<Group>, arms: seq<seq<nat>>, now: int) returns (rows: seq<Assignment>)
    requires |groups| == |arms|
    ensures rows == PlanRows(e, groups, arms, now)
  {
    rows := [];
    for g := 0 to |arms|
      invariant rows == PlanRows(e, groups[..g], arms[..g], now)
    {
      PlanRowsOneMore(e, groups, arms, g, now);
      hide PlanRows;
      ghost var before := rows;
      for i := 0 to |arms[g]|
        invariant rows == before + ArmRows(e, groups[g].id, arms[g], now)[..i]
      {
        rows := rows + [Assignment(e, groups[g].id, arms[g][i], now)];
      }
      assert rows == before + ArmRows(e, groups[g].id, arms[g], now);
    }
    assert groups[..|arms|] == groups && arms[..|arms|] == arms;
  }

  // ---------- The services ----------

  class Desk {
    var campaigns: seq<Campaign>
    var experiments: seq<Experiment>
    var nextGroup: nat
    var assignments: seq<Assignment>
    var exposures: seq<Exposure>
    var sales: seq<Sale>
    var conversions: set<Link>
    var holders: seq<Holder>

    constructor (db: Db)
      ensures State() == db
    {
      campaigns, experiments, nextGroup := db.campaigns, db.experiments, db.nextGroup;
      assignments, exposures, sales := db.assignments, db.exposures, db.sales;
      conversions, holders := db.conversions, db.holders;
    }

    function State(): Db
      reads this
    {
      Db(campaigns, experiments, nextGroup, assignments, exposures, sales, conversions, holders)
    }

    /** A resubmitted form is found under the lock that hands out ids. */
    method CreateCampaign(data: CampaignInput) returns (reply: Reply)
      modifies this`campaigns
      ensures Result(State(), reply) == Experiments.CreateCampaign(old(State()), data)
    {
      for i := 0 to |campaigns|
        invariant campaigns == old(campaigns) && Drafted(data) !in campaigns[..i]
      {
        if campaigns[i] == Drafted(data) {
          return Refused(Duplicate);
        }
      }
      if data.endsOn < data.startsOn {
        return Refused(Constraint);
      }
      campaigns := campaigns + [Drafted(data)];
      reply := Done(1);
    }

    /** Whether an experiment with this name, campaign and start date is there. */
    method IsResubmitted(data: ExperimentInput) returns (found: bool)
      ensures found <==> exists e :: 0 <= e < |experiments| && experiments[e].name == data.name
                                     && experiments[e].campaign == data.campaign && experiments[e].startsOn == data.startsOn
    {
      for e := 0 to |experiments|
        invariant !exists d :: 0 <= d < e && experiments[d].name == data.name
                               && experiments[d].campaign == data.campaign && experiments[d].startsOn == data.startsOn
      {
        if experiments[e].name == data.name && experiments[e].campaign == data.campaign
           && experiments[e].startsOn == data.startsOn {
          return true;
        }
      }
      found := false;
    }

    /** Numbers the arms from the next free id, control first when there is one. */
    method NumberArms(hasControl: bool, treatments: nat) returns (groups: seq<Group>)
      modifies this`nextGroup
      ensures groups == NewGroups(old(nextGroup), hasControl, treatments)
      ensures nextGroup == old(nextGroup) + |groups|
    {
      groups := if hasControl then [Group(nextGroup, Control)] else [];
      for t := 0 to treatments
        invariant |groups| == t + (if hasControl then 1 else 0)
        invariant forall i :: 0 <= i < |groups| ==>
          groups[i] == Group(old(nextGroup) + i, if hasControl && i == 0 then Control else Treatment)
        invariant nextGroup == old(nextGroup)
      {
        groups := groups + [Group(nextGroup + |groups|, Treatment)];
      }
      nextGroup := nextGroup + |groups|;
    }

    method CreateExperiment(data: ExperimentInput, origin: nat, hasControl: bool, treatments: nat) returns (reply: Reply)
      modifies this`experiments, this`nextGroup
      ensures Result(State(), reply) == Experiments.CreateExperiment(old(State()), data, origin, hasControl, treatments)
    {
      if CampaignIsOver(State(), data.campaign) {
        return Refused(CampaignOver);
      }
      if (!hasControl && treatments != 2) || treatments < 1 {
        return Refused(BadArms);
      }
      var found := IsResubmitted(data);
      if found {
        return Refused(Duplicate);
      }
      if !WellFormed(State(), data) {
        return Refused(Constraint);
      }
      var groups := NumberArms(hasControl, treatments);
      experiments := experiments + [Experiment(data.name, data.campaign, data.metric, data.startsOn, data.endsOn,
                                               data.windowDays, origin, groups)];
      reply := Done(1);
    }

    /** Rewrites a draft's fields in place; false when no draft matched. */
    method UpdateDraft(id: nat, data: CampaignInput) returns (edited: bool)
      requires data.endsOn >= data.startsOn
      modifies this`campaigns
      ensures edited <==> id < |old(campaigns)| && old(campaigns)[id].status == Draft
      ensures edited ==> campaigns == old(campaigns)[id := Drafted(data)]
      ensures !edited ==> campaigns == old(campaigns)
    {
      edited := id < |campaigns| && campaigns[id].status == Draft;
      if edited {
        campaigns := campaigns[id := Drafted(data)];
      }
    }

    method EditCampaign(id: nat, data: CampaignInput) returns (reply: Reply)
      modifies this`campaigns
      ensures Result(State(), reply) == Experiments.EditCampaign(old(State()), id, data)
    {
      if id >= |campaigns| {
        return Refused(NotFound);
      }
      if campaigns[id].status != Draft {
        return Refused(NotDraft);
      }
      if data.endsOn < data.startsOn {
        return Refused(Constraint);
      }
      var edited := UpdateDraft(id, data);
      reply := if edited then Done(1) else Refused(NotDraft);
    }

    /** Compare-and-set: moves the campaign only if it still has the status read before. */
    method ChangeStatus(id: nat, current: Status, target: Status) returns (moved: bool)
      modifies this`campaigns
      ensures Result(State(), Done(if moved then 1 else 0))
           == Experiments.ChangeStatus(old(State()), id, current, target)
    {
      moved := id < |campaigns| && campaigns[id].status == current;
      if moved {
        campaigns := campaigns[id := campaigns[id].(status := target)];
      }
    }

    /** The first attached experiment whose arms are not ready, if any. */
    method ActivationRefused(id: nat) returns (refused: bool)
      ensures refused <==> exists e :: 0 <= e < |experiments| && experiments[e].campaign == Some(id)
                                       && !ArmsReady(experiments[e].groups)
    {
      for e := 0 to |experiments|
        invariant forall d :: 0 <= d < e && experiments[d].campaign == Some(id) ==> ArmsReady(experiments[d].groups)
      {
        if experiments[e].campaign == Some(id) && !ArmsReady(experiments[e].groups) {
          return true;
        }
      }
      refused := false;
    }

    method Transition(id: nat, target: Status, today: int) returns (reply: Reply)
      modifies this`campaigns
      ensures Result(State(), reply) == Experiments.Transition(old(State()), id, target, today)
    {
      if id >= |campaigns| {
        return Refused(NotFound);
      }
      var current := campaigns[id];
      if !Allowed(current.status, target) {
        return Refused(IllegalMove);
      }
      if target == Active && current.endsOn < today {
        return Refused(CampaignEnded);
      }
      if target == Active {
        var refused := ActivationRefused(id);
        if refused {
          return Refused(BadArms);
        }
      }
      var moved := ChangeStatus(id, current.status, target);
      reply := Done(if moved then 1 else 0);
    }

    method UpdateExperiment(e: nat, data: ExperimentInput) returns (reply: Reply)
      modifies this`experiments
      ensures Result(State(), reply) == EditExperiment(old(State()), e, data)
    {
      if e >= |experiments| {
        return Refused(NotFound);
      }
      var current := experiments[e];
      if AssignmentCount(assignments, e) > 0 {
        if data.windowDays != current.windowDays {
          return Refused(WindowFixed);
        }
        if data.metric != current.metric {
          return Refused(MetricFixed);
        }
        if data.campaign != current.campaign {
          return Refused(CampaignFixed);
        }
        if data.startsOn != current.startsOn {
          return Refused(StartFixed);
        }
        if data.endsOn != current.endsOn {
          return Refused(EndFixed);
        }
      } else if data.campaign != current.campaign && CampaignIsOver(State(), data.campaign) {
        return Refused(CampaignOver);
      }
      if !WellFormed(State(), data) {
        return Refused(Constraint);
      }
      experiments := experiments[e := current.(name := data.name, campaign := data.campaign, metric := data.metric,
                                               startsOn := data.startsOn, endsOn := data.endsOn,
                                               windowDays := data.windowDays)];
      reply := Done(1);
    }

    method AssignExperiment(e: nat, shuffle: nat -> seq<nat>, now: int) returns (reply: Reply)
      requires forall n :: Permutation(shuffle(n), n)
      modifies this`assignments
      ensures Result(State(), reply) == Assign(old(State()), e, shuffle, now)
    {
      hide Split, PlanRows, Permutation;
      var refusal := PlanRefusal(State(), e);
      if refusal.Some? {
        return Refused(refusal.value);
      }
      var x := experiments[e];
      var customers := Population(holders, campaigns[x.campaign.value].code);
      var arms := SplitCustomers(customers, |x.groups|, shuffle(|customers|));
      var rows := ListRows(e, x.groups, arms, now);
      assignments := assignments + rows;
      reply := Done(|rows|);
    }

    /** Adds one event unless the assignment was exposed less than a minute ago. */
    method AddExposure(a: nat, now: int) returns (added: bool)
      modifies this`exposures
      ensures exposures == InsertExposure(old(exposures), a, now)
      ensures added <==> |exposures| == |old(exposures)| + 1
      ensures !added ==> exposures == old(exposures)
    {
      added := !exists i :: 0 <= i < |exposures| && exposures[i].assignment == a
                            && exposures[i].at > now - EXPOSURE_REPEAT_SECONDS;
      if added {
        exposures := exposures + [Exposure(a, now)];
      }
    }

    method ExposeCustomer(e: nat, customer: nat, today: Option<int>, now: int) returns (reply: Reply)
      modifies this`exposures
      ensures Result(State(), reply) == RecordExposure(old(State()), e, customer, today, now)
    {
      hide InsertExposure;
      if e >= |experiments| {
        return Refused(NotFound);
      }
      var found := FindAssignment(assignments, e, customer);
      if found.None? {
        return Refused(NotAssigned);
      }
      if KindOf(experiments[e].groups, assignments[found.value].group) != Some(Treatment) {
        return Refused(ControlNeverExposed);
      }
      var refusal := FrameRefusal(State(), experiments[e], if today.Some? then today.value else DateOf(now));
      if refusal.Some? {
        return Refused(refusal.value);
      }
      var added := AddExposure(found.value, now);
      reply := Done(if added then 1 else 0);
    }

    /** One event per listed assignment, repeats skipped; counts what was added. */
    method AddExposures(ids: seq<nat>, now: int) returns (added: nat)
      modifies this`exposures
      ensures exposures == InsertExposures(old(exposures), ids, now)
      ensures added == |exposures| - |old(exposures)|
    {
      added := 0;
      for i := 0 to |ids|
        invariant exposures == InsertExposures(old(exposures), ids[..i], now)
        invariant added == |exposures| - |old(exposures)|
      {
        assert ids[..i+1][..i] == ids[..i];
        hide InsertExposure;
        var one := AddExposure(ids[i], now);
        added := added + (if one then 1 else 0);
      }
      assert ids[..|ids|] == ids;
    }

    method ExposeGroup(e: nat, group: nat, customers: Option<seq<nat>>, today: Option<int>, now: int)
      returns (reply: Reply)
      modifies this`exposures
      ensures Result(State(), reply) == RecordGroupExposures(old(State()), e, group, customers, today, now)
    {
      hide InsertExposures, ArmIds;
      if customers == Some([]) {
        return Refused(NothingSelected);
      }
      if e >= |experiments| {
        return Refused(NotFound);
      }
      var kind := KindOf(experiments[e].groups, group);
      if kind.None? {
        return Refused(UnknownArm);
      }
      if kind == Some(Control) {
        return Refused(ControlNeverExposed);
      }
      var refusal := FrameRefusal(State(), experiments[e], if today.Some? then today.value else DateOf(now));
      if refusal.Some? {
        return Refused(refusal.value);
      }
      var ids := ArmIds(assignments, e, group, customers);
      if customers.Some? && |ids| != |customers.value| {
        return Refused(NotInArm);
      }
      var added := AddExposures(ids, now);
      reply := Done(added);
    }

    /** Records what qualifies and is not yet recorded; what is recorded stays. */
    method EvaluateExperiment(e: nat) returns (reply: Reply)
      modifies this`conversions
      ensures Result(State(), reply) == Evaluate(old(State()), e)
    {
      if e >= |experiments| {
        return Refused(NotFound);
      }
      if AssignmentCount(assignments, e) == 0 {
        return Refused(NotAssigned);
      }
      var added := QualifyingLinks(State(), e) - conversions;
      conversions := conversions + added;
      reply := Done(|added|);
    }
  }
}
