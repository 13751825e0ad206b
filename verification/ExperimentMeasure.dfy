/** Measuring an experiment: the gate that refuses to compare unrecorded conversions, and what
    the accepted numbers mean. */
module ExperimentMeasure {
  import opened ExperimentArms
  import opened ExperimentCounts
  import opened Experiments
  import opened ExperimentRuns
  import opened Options

  // ---------- comparing the arms ----------

  datatype Comparison = Comparison(controlN: nat, controlConverted: nat, n: nat, converted: nat,
                                   controlRate: real, rate: real, uplift: real)

  function CompareProportions(control: GroupConversion, arm: GroupConversion): Comparison
    requires control.total > 0 && arm.total > 0
  {
    var p, q := control.converted as real / control.total as real, arm.converted as real / arm.total as real;
    Comparison(control.total, control.converted, arm.total, arm.converted, p, q, q - p)
  }

  datatype ArmResult = ArmResult(group: nat, comparison: Comparison)

  datatype Uplift =
    | NotEvaluated(unrecorded: nat)
    | NoControlCustomers
    | EmptyTreatments(groups: seq<nat>)
    | NoTreatments
    | Measured(control: GroupConversion, arms: seq<ArmResult>)

  function TotalUnrecorded(rows: seq<GroupConversion>): nat {
    if rows == [] then 0 else TotalUnrecorded(rows[..|rows|-1]) + rows[|rows|-1].unrecorded
  }

  function FirstControl(rows: seq<GroupConversion>): (found: Option<GroupConversion>)
    ensures found.Some? ==> found.value in rows && found.value.group.kind == Control
  {
    if rows == [] then None
    else if rows[0].group.kind == Control then Some(rows[0])
    else FirstControl(rows[1..])
  }

  function EmptyArms(rows: seq<GroupConversion>): (ids: seq<nat>)
    ensures ids == [] ==> forall i :: 0 <= i < |rows| && rows[i].group.kind == Treatment ==> rows[i].total > 0
  {
    if rows == [] then []
    else
      var n := |rows| - 1;
      var before := EmptyArms(rows[..n]);
      if rows[n].group.kind == Treatment && rows[n].total == 0 then before + [rows[n].group.id] else before
  }

  function Arms(control: GroupConversion, rows: seq<GroupConversion>): seq<ArmResult>
    requires control.total > 0
    requires forall i :: 0 <= i < |rows| && rows[i].group.kind == Treatment ==> rows[i].total > 0
  {
    if rows == [] then []
    else
      var n := |rows| - 1;
      var before := Arms(control, rows[..n]);
      if rows[n].group.kind == Treatment then before + [ArmResult(rows[n].group.id, CompareProportions(control, rows[n]))] else before
  }

  /** `compare_arms`: every treatment against the control, refused while any qualifying
      sale is unrecorded. */
  function CompareArms(rows: seq<GroupConversion>): Uplift {
    var unrecorded := TotalUnrecorded(rows);
    if unrecorded > 0 then NotEvaluated(unrecorded)
    else
      var control := FirstControl(rows);
      if control.None? || control.value.total == 0 then NoControlCustomers
      else if EmptyArms(rows) != [] then EmptyTreatments(EmptyArms(rows))
      else
        var arms := Arms(control.value, rows);
        if arms == [] then NoTreatments else Measured(control.value, arms)
  }

  // ---------- what accepted numbers mean ----------

  lemma {:induction false} NothingUnrecorded(rows: seq<GroupConversion>)
    ensures TotalUnrecorded(rows) == 0 <==> forall i :: 0 <= i < |rows| ==> rows[i].unrecorded == 0
  {
    if rows == [] {
    } else {
      NothingUnrecorded(rows[..|rows|-1]);
    }
  }

  /** In a reachable state a recorded conversion always qualifies. */
  lemma ConvertedQualify(db: Db, i: nat)
    requires Inv(db) && HasConversion(db)(i)
    ensures HasQualifyingSale(db)(i)
  {
    var l :| l in db.conversions && l.assignment == i;
    assert LinkOk(db, l);
  }

  /** An arm with nothing unrecorded has recorded exactly its buyers. */
  lemma ZeroGateMeansExact(db: Db, e: nat, group: Group, now: int)
    requires Inv(db) && OutcomeOf(db, e, group, now).unrecorded == 0
    ensures OutcomeOf(db, e, group, now).converted == Buyers(db, e, group.id)
  {
    var converted, qualifies := HasConversion(db), HasQualifyingSale(db);
    var n := |db.assignments|;
    CountIsZero(db.assignments, e, group.id, n, Both(Not(converted), qualifies));
    forall i: nat | i < n && InArm(db.assignments[i], e, group.id) ensures converted(i) == qualifies(i) {
      assert !Both(Not(converted), qualifies)(i);
      if converted(i) { ConvertedQualify(db, i); }
    }
    CountCongruence(db.assignments, e, group.id, n, converted, qualifies);
    BuyersAreCounted(db, e, group.id);
  }

  ghost predicate ArmMeans(db: Db, e: nat, control: nat, arm: ArmResult) {
    && arm.comparison.controlN == CountArm(db, e, control, Everyone()) > 0
    && arm.comparison.n == CountArm(db, e, arm.group, Everyone()) > 0
    && arm.comparison.controlConverted == Buyers(db, e, control) <= arm.comparison.controlN
    && arm.comparison.converted == Buyers(db, e, arm.group) <= arm.comparison.n
    && arm.comparison.uplift ==
         arm.comparison.converted as real / arm.comparison.n as real
         - arm.comparison.controlConverted as real / arm.comparison.controlN as real
  }

  lemma {:induction false} ArmsMean(db: Db, e: nat, control: GroupConversion, rows: seq<GroupConversion>, now: int)
    requires Inv(db) && control.total > 0
    requires forall i :: 0 <= i < |rows| ==> rows[i].unrecorded == 0 && rows[i] == OutcomeOf(db, e, rows[i].group, now)
    requires forall i :: 0 <= i < |rows| && rows[i].group.kind == Treatment ==> rows[i].total > 0
    requires control.unrecorded == 0 && control == OutcomeOf(db, e, control.group, now)
    ensures forall i :: 0 <= i < |Arms(control, rows)| ==> ArmMeans(db, e, control.group.id, Arms(control, rows)[i])
  {
    hide OutcomeOf, CountArm, Inv;
    if rows == [] {
    } else {
      var n := |rows| - 1;
      ArmsMean(db, e, control, rows[..n], now);
      ArmMeansOne(db, e, control, rows[n], now);
    }
  }

  lemma ArmMeansOne(db: Db, e: nat, control: GroupConversion, row: GroupConversion, now: int)
    requires Inv(db) && control.total > 0
    requires row.unrecorded == 0 && row == OutcomeOf(db, e, row.group, now)
    requires control.unrecorded == 0 && control == OutcomeOf(db, e, control.group, now)
    ensures row.total > 0 ==> ArmMeans(db, e, control.group.id, ArmResult(row.group.id, CompareProportions(control, row)))
  {
    hide Inv, CountArm;
    ZeroGateMeansExact(db, e, control.group, now);
    ZeroGateMeansExact(db, e, row.group, now);
    OutcomesPartition(db, e, control.group, now);
    OutcomesPartition(db, e, row.group, now);
  }

  /** Whenever a reachable state's counts are accepted, every count in the comparison
      is the number of assigned customers who bought inside their own frozen window,
      whenever the counts are taken. */
  lemma AcceptedCountsAreBuyers(db: Db, e: nat, now: int)
    requires Inv(db) && e < |db.experiments|
    requires CompareArms(ListGroupConversion(db, e, now)).Measured?
    ensures var u := CompareArms(ListGroupConversion(db, e, now));
      && u.arms != []
      && (forall g :: 0 <= g < |db.experiments[e].groups| ==>
            OutcomeOf(db, e, db.experiments[e].groups[g], now).converted == Buyers(db, e, db.experiments[e].groups[g].id))
      && (forall i :: 0 <= i < |u.arms| ==> ArmMeans(db, e, u.control.group.id, u.arms[i]))
  {
    hide OutcomeOf, CountArm, Inv;
    var rows := ListGroupConversion(db, e, now);
    NothingUnrecorded(rows);
    assert forall i :: 0 <= i < |rows| ==> rows[i].group == db.experiments[e].groups[i] by { GroupsCarried(db, e, now); }
    forall g | 0 <= g < |rows| ensures rows[g].converted == Buyers(db, e, rows[g].group.id) {
      ZeroGateMeansExact(db, e, rows[g].group, now);
    }
    var control := FirstControl(rows).value;
    var c :| 0 <= c < |rows| && rows[c] == control;
    ArmsMean(db, e, control, rows, now);
  }

  lemma GroupsCarried(db: Db, e: nat, now: int)
    requires e < |db.experiments|
    ensures forall i :: 0 <= i < |db.experiments[e].groups| ==> ListGroupConversion(db, e, now)[i].group == db.experiments[e].groups[i]
  {
  }

  /** An evaluation reads neither conversions nor anything it writes, so its links are the
      same before and after. */
  lemma EvaluatedLinksStay(db: Db, e: nat)
    requires e < |db.experiments|
    ensures var later := db.(conversions := db.conversions + QualifyingLinks(db, e));
      QualifyingLinks(later, e) == QualifyingLinks(db, e)
  {
    hide Qualifies;
  }

  lemma EvaluatingAgainAddsNothing(db: Db, e: nat)
    requires Evaluate(db, e).reply.Done?
    ensures var later := Evaluate(db, e).db;
      && e < |later.experiments| && QualifyingLinks(later, e) <= later.conversions
      && Evaluate(later, e) == Result(later, Done(0))
  {
    hide QualifyingLinks, AssignmentCount;
    var links := QualifyingLinks(db, e);
    EvaluatedLinksStay(db, e);
    assert db.conversions + links + links == db.conversions + links;
    assert links - (db.conversions + links) == {};
  }

  /** Evaluating leaves nothing unrecorded, so the gate opens at once; and evaluating
      again adds nothing. */
  lemma EvaluationOpensGate(db: Db, e: nat, now: int)
    requires Inv(db) && Evaluate(db, e).reply.Done?
    ensures var later := Evaluate(db, e).db;
      && e < |later.experiments|
      && TotalUnrecorded(ListGroupConversion(later, e, now)) == 0
      && Evaluate(later, e) == Result(later, Done(0))
  {
    hide Inv, Evaluate, QualifyingLinks, OutcomeOf;
    EvaluatingAgainAddsNothing(db, e);
    var later := Evaluate(db, e).db;
    var rows := ListGroupConversion(later, e, now);
    forall g | 0 <= g < |rows| ensures rows[g].unrecorded == 0 {
      NothingLeft(later, e, later.experiments[e].groups[g], now);
    }
    NothingUnrecorded(rows);
  }

  lemma NothingLeft(db: Db, e: nat, group: Group, now: int)
    requires e < |db.experiments| && QualifyingLinks(db, e) <= db.conversions
    ensures OutcomeOf(db, e, group, now).unrecorded == 0
  {
    hide Qualifies;
    var p := Both(Not(HasConversion(db)), HasQualifyingSale(db));
    forall i: nat | i < |db.assignments| && InArm(db.assignments[i], e, group.id) ensures !p(i) {
      if HasQualifyingSale(db)(i) {
        var t :| 0 <= t < |db.sales| && Qualifies(db.assignments[i], db.experiments[e].windowDays, db.sales[t]);
        assert Link(i, t) in QualifyingLinks(db, e);
        assert HasConversion(db)(i);
      }
    }
    CountIsZero(db.assignments, e, group.id, |db.assignments|, p);
  }

  // ---------- the whole machine ----------

  ghost predicate AllInFrame(db: Db) {
    forall i :: 0 <= i < |db.exposures| ==> ExposureInFrame(db, db.exposures[i])
  }

  ghost predicate Exposes(s: Step) { s.ExposeStep? || s.ExposeGroupStep? }

  /** Whatever the step exposes is stamped on a day inside its experiment's dates, as they stand
      when it is recorded. */
  ghost predicate StampsInside(db: Db, s: Step, shuffles: Shuffles)
    requires AllPermutations(shuffles)
  {
    Exposes(s) && Next(db, s, shuffles).exposures != db.exposures ==>
      s.experiment < |db.experiments| && InFrame(db.experiments[s.experiment], DateOf(s.now))
  }

  /** No step overrides the business date, as on every request path. */
  ghost predicate Undated(s: Step) {
    && (s.ExposeStep? ==> s.today.None?)
    && (s.ExposeGroupStep? ==> s.today.None?)
  }

  lemma InvGivesRows(db: Db)
    requires Inv(db)
    ensures forall i :: 0 <= i < |db.exposures| ==> ExposureOk(db, db.exposures[i])
  {
  }

  lemma FrozenPrefix(db: Db, later: Db)
    requires Frozen(db, later)
    ensures |db.exposures| <= |later.exposures| && forall i :: 0 <= i < |db.exposures| ==> later.exposures[i] == db.exposures[i]
    ensures later.exposures == db.exposures <==> |later.exposures| == |db.exposures|
  {
    assert forall i :: 0 <= i < |db.exposures| ==> later.exposures[..|db.exposures|][i] == later.exposures[i];
    assert |later.exposures| == |db.exposures| ==> later.exposures[..|db.exposures|] == later.exposures;
  }

  /** An exposure that is written lies inside the experiment's dates exactly when the
      day it is stamped with does, which an overridden date does not look at. */
  lemma ExposureFrameCondition(db: Db, e: nat, customer: nat, today: Option<int>, now: int)
    requires Inv(db) && RecordExposure(db, e, customer, today, now).reply == Done(1)
    ensures var later := RecordExposure(db, e, customer, today, now).db;
      && e < |db.experiments| && |later.exposures| == |db.exposures| + 1
      && ExposureOk(later, later.exposures[|db.exposures|])
      && (ExposureInFrame(later, later.exposures[|db.exposures|]) <==> InFrame(db.experiments[e], DateOf(now)))
      && (today.None? ==> InFrame(db.experiments[e], DateOf(now)))
  {
    hide Inv, FindAssignment, KindOf;
  }

  /** The same for every exposure recorded for a group. */
  lemma GroupExposureFrameCondition(db: Db, e: nat, group: nat, customers: Option<seq<nat>>, today: Option<int>, now: int)
    requires Inv(db) && RecordGroupExposures(db, e, group, customers, today, now).reply.Done?
    ensures var later := RecordGroupExposures(db, e, group, customers, today, now).db;
      && e < |db.experiments| && |db.exposures| <= |later.exposures|
      && (forall i :: |db.exposures| <= i < |later.exposures| ==>
            && ExposureOk(later, later.exposures[i])
            && (ExposureInFrame(later, later.exposures[i]) <==> InFrame(db.experiments[e], DateOf(now))))
      && (today.None? ==> InFrame(db.experiments[e], DateOf(now)))
  {
    hide Inv, ArmIds, InsertExposures, KindOf, Spaced, ExposureOk;
    var later := RecordGroupExposures(db, e, group, customers, today, now).db;
    var ids := ArmIds(db.assignments, e, group, customers);
    InvParts(db);
    InsertsKeepSpaced(db.exposures, ids, now);
    ExposeGroupStepFreezes(db, e, group, customers, today, now);
    InvGivesRows(later);
    forall i | |db.exposures| <= i < |later.exposures|
      ensures ExposureInFrame(later, later.exposures[i]) <==> InFrame(db.experiments[e], DateOf(now))
    {
      assert later.exposures[i].assignment in ids;
      var j :| 0 <= j < |ids| && ids[j] == later.exposures[i].assignment;
      assert ExposureOk(later, later.exposures[i]);
    }
  }

  /** What a step exposes lies in the dates exactly when it was stamped inside them, and a
      step that overrides no date stamps inside them. */
  lemma NewExposuresInFrame(db: Db, s: Step, shuffles: Shuffles)
    requires Inv(db) && AllPermutations(shuffles)
    ensures var later := Next(db, s, shuffles);
      |later.exposures| > |db.exposures| ==>
        && Exposes(s) && s.experiment < |db.experiments|
        && (forall i :: |db.exposures| <= i < |later.exposures| ==>
              (ExposureInFrame(later, later.exposures[i]) <==> InFrame(db.experiments[s.experiment], DateOf(s.now))))
        && (Undated(s) ==> InFrame(db.experiments[s.experiment], DateOf(s.now)))
  {
    hide Inv, RecordExposure, RecordGroupExposures, ExposureInFrame, InFrame, DateOf;
    match s
    case ExposeStep(e, customer, today, now) =>
      SingleExposure(db, e, customer, today, now);
    case ExposeGroupStep(e, group, customers, today, now) =>
      GroupExposures(db, e, group, customers, today, now);
    case _ =>
      OthersExposeNobody(db, s, shuffles);
  }

  lemma SingleExposure(db: Db, e: nat, customer: nat, today: Option<int>, now: int)
    requires Inv(db)
    ensures var later := RecordExposure(db, e, customer, today, now).db;
      later == db ||
        (e < |db.experiments| && |later.exposures| == |db.exposures| + 1
         && (ExposureInFrame(later, later.exposures[|db.exposures|]) <==> InFrame(db.experiments[e], DateOf(now)))
         && (today.None? ==> InFrame(db.experiments[e], DateOf(now))))
  {
    hide Inv, FindAssignment, KindOf, ExposureInFrame, InFrame, DateOf;
    if RecordExposure(db, e, customer, today, now).db != db {
      ExposureFrameCondition(db, e, customer, today, now);
    }
  }

  lemma GroupExposures(db: Db, e: nat, group: nat, customers: Option<seq<nat>>, today: Option<int>, now: int)
    requires Inv(db)
    ensures var later := RecordGroupExposures(db, e, group, customers, today, now).db;
      |later.exposures| > |db.exposures| ==>
        && e < |db.experiments|
        && (forall i :: |db.exposures| <= i < |later.exposures| ==>
              (ExposureInFrame(later, later.exposures[i]) <==> InFrame(db.experiments[e], DateOf(now))))
        && (today.None? ==> InFrame(db.experiments[e], DateOf(now)))
  {
    hide Inv, RecordGroupExposures, ExposureInFrame, InFrame, DateOf;
    if RecordGroupExposures(db, e, group, customers, today, now).reply.Done? {
      GroupExposureFrameCondition(db, e, group, customers, today, now);
    } else {
      RefusedGroupExposesNobody(db, e, group, customers, today, now);
    }
  }

  lemma RefusedGroupExposesNobody(db: Db, e: nat, group: nat, customers: Option<seq<nat>>, today: Option<int>, now: int)
    requires !RecordGroupExposures(db, e, group, customers, today, now).reply.Done?
    ensures RecordGroupExposures(db, e, group, customers, today, now).db == db
  {
    hide ArmIds, InsertExposures, KindOf, FrameRefusal;
  }

  /** Only exposing writes exposures. */
  lemma OthersExposeNobody(db: Db, s: Step, shuffles: Shuffles)
    requires AllPermutations(shuffles) && !Exposes(s)
    ensures Next(db, s, shuffles).exposures == db.exposures
  {
    hide AssignmentCount, KindOf, ArmIds, FindAssignment, QualifyingLinks, NewGroups, PlanRows, Split;
  }

  /** One step keeps every exposure inside its experiment's dates exactly when it stamps inside
      them: no step moves the dates of what is already exposed. */
  lemma StepFrameExactly(db: Db, s: Step, shuffles: Shuffles)
    requires Inv(db) && AllPermutations(shuffles)
    ensures AllInFrame(Next(db, s, shuffles)) <==> AllInFrame(db) && StampsInside(db, s, shuffles)
    ensures Undated(s) ==> StampsInside(db, s, shuffles)
  {
    hide Inv, Frozen, Next, Undated, InFrame, DateOf, Exposes, ExposureInFrame;
    var later := Next(db, s, shuffles);
    var n := |db.exposures|;
    StepFreezes(db, s, shuffles);
    FrozenKeepsRows(db, later);
    FrozenPrefix(db, later);
    NewExposuresInFrame(db, s, shuffles);
    forall i | 0 <= i < n ensures ExposureInFrame(db, db.exposures[i]) <==> ExposureInFrame(later, later.exposures[i]) {
      assert later.exposures[i] == db.exposures[i];
    }
    assert AllInFrame(db) <==> forall i :: 0 <= i < n ==> ExposureInFrame(later, later.exposures[i]);
    if |later.exposures| > n {
      assert StampsInside(db, s, shuffles) <==> ExposureInFrame(later, later.exposures[n]);
    }
  }

  ghost predicate AllStampInside(db: Db, steps: seq<Step>, shuffles: Shuffles)
    requires AllPermutations(shuffles)
  {
    steps != [] ==>
      && AllStampInside(db, steps[..|steps|-1], shuffles)
      && StampsInside(Run(db, steps[..|steps|-1], shuffles), steps[|steps|-1], shuffles)
  }

  /** Over a whole run exposures lie inside their experiments' dates exactly when each was
      stamped inside them as it was recorded; it is enough that no step overrides a date. */
  lemma {:induction false} RunFrameExactly(db: Db, steps: seq<Step>, shuffles: Shuffles)
    requires Inv(db) && AllPermutations(shuffles)
    ensures AllInFrame(Run(db, steps, shuffles)) <==> AllInFrame(db) && AllStampInside(db, steps, shuffles)
    ensures (forall i :: 0 <= i < |steps| ==> Undated(steps[i])) ==> AllStampInside(db, steps, shuffles)
  {
    hide Inv, Next, Undated, AllInFrame, StampsInside;
    if steps == [] {
    } else {
      RunFrameExactly(db, steps[..|steps|-1], shuffles);
      RunFreezes(db, steps[..|steps|-1], shuffles);
      StepFrameExactly(Run(db, steps[..|steps|-1], shuffles), steps[|steps|-1], shuffles);
    }
  }

  lemma {:induction false} RunConcat(db: Db, first: seq<Step>, then_: seq<Step>, shuffles: Shuffles)
    requires AllPermutations(shuffles)
    ensures Run(db, first + then_, shuffles) == Run(Run(db, first, shuffles), then_, shuffles)
  {
    hide Next;
    if then_ == [] {
      assert first + then_ == first;
    } else {
      assert (first + then_)[..|first + then_| - 1] == first + then_[..|then_|-1];
      RunConcat(db, first, then_[..|then_|-1], shuffles);
    }
  }

  function Empty(): Db {
    Db([], [], 0, [], [], [], {}, [])
  }

  lemma EmptyIsSound()
    ensures Inv(Empty()) && AllInFrame(Empty()) && EvenArms(Empty())
  {
  }

  /** The campaign and experiment protocol, over every run from empty tables and any
      moment within it. What was assigned by that moment keeps its window, metric,
      campaign, dates, arms and label, and gets no further assignment; every recorded
      conversion qualifies; arms are even and non-empty; exposures belong to treatments, a
      minute apart, and lie inside the experiment's dates exactly when each was stamped
      inside them, as it is with no overridden date; and accepted counts are buyers. */
  lemma EveryRunMeasuresOneThing(steps: seq<Step>, moment: nat, shuffles: Shuffles, e: nat, now: int)
    requires AllPermutations(shuffles) && moment <= |steps|
    ensures var end := Run(Empty(), steps, shuffles);
      && Inv(end)
      && Frozen(Run(Empty(), steps[..moment], shuffles), end)
      && EvenArms(end)
      && (AllInFrame(end) <==> AllStampInside(Empty(), steps, shuffles))
      && ((forall i :: 0 <= i < |steps| ==> Undated(steps[i])) ==> AllInFrame(end))
      && (e < |end.experiments| && CompareArms(ListGroupConversion(end, e, now)).Measured? ==>
            forall i :: 0 <= i < |CompareArms(ListGroupConversion(end, e, now)).arms| ==>
              ArmMeans(end, e, CompareArms(ListGroupConversion(end, e, now)).control.group.id,
                       CompareArms(ListGroupConversion(end, e, now)).arms[i]))
  {
    hide Inv, Frozen, Run, AllInFrame, AllStampInside, EvenArms, ArmMeans, Undated;
    hide CompareArms, ListGroupConversion, Empty;
    var start, end := Run(Empty(), steps[..moment], shuffles), Run(Empty(), steps, shuffles);
    EmptyIsSound();
    RunFreezes(Empty(), steps, shuffles);
    RunFreezes(Empty(), steps[..moment], shuffles);
    RunConcat(Empty(), steps[..moment], steps[moment..], shuffles);
    assert steps[..moment] + steps[moment..] == steps;
    RunFreezes(start, steps[moment..], shuffles);
    RunFrameExactly(Empty(), steps, shuffles);
    RunKeepsEven(Empty(), steps, shuffles);
    if e < |end.experiments| && CompareArms(ListGroupConversion(end, e, now)).Measured? {
      AcceptedCountsAreBuyers(end, e, now);
    }
  }

  // ---------- the one way out of the frame ----------

  /** With the date overridden an exposure can be stamped before the experiment starts. */
  lemma OverrideLeavesFrame() returns (db: Db)
    ensures Inv(db)
    ensures var r := RecordExposure(db, 0, 5, Some(10), 0);
      r.reply == Done(1) && ExposureOk(r.db, r.db.exposures[0]) && !ExposureInFrame(r.db, r.db.exposures[0])
  {
    var groups := [Group(1, Control), Group(2, Treatment)];
    db := Db([Campaign(0, 1, 0, 100, Active)], [Experiment(0, Some(0), 0, 10, None, 7, 0, groups)], 3,
             [Assignment(0, 2, 5, 0)], [], [], {}, []);
    assert KindOf(groups, 2) == Some(Treatment);
    assert FindAssignment(db.assignments, 0, 5) == Some(0);
    assert DateOf(0) == 0;
  }
}
