/** The arms of an assigned experiment, over every run: even, non-empty and fixed. */
module ExperimentArms {
  import opened Counting
  import opened Experiments
  import opened ExperimentRuns
  import opened Options

  /** Assignments of one experiment in one arm. */
  function ArmCount(assignments: seq<Assignment>, e: nat, group: nat): nat {
    if assignments == [] then 0
    else
      var last := assignments[|assignments|-1];
      ArmCount(assignments[..|assignments|-1], e, group) + (if last.experiment == e && last.group == group then 1 else 0)
  }

  /** Every arm holds somebody, and no two differ by more than one. */
  ghost predicate Even(assignments: seq<Assignment>, e: nat, groups: seq<Group>) {
    forall g, h :: 0 <= g < |groups| && 0 <= h < |groups| ==>
      1 <= ArmCount(assignments, e, groups[g].id) <= ArmCount(assignments, e, groups[h].id) + 1
  }

  ghost predicate EvenArms(db: Db) {
    forall e: nat :: e < |db.experiments| && AssignmentCount(db.assignments, e) > 0 ==>
      Even(db.assignments, e, db.experiments[e].groups)
  }

  lemma {:induction false} ArmCountOfRows(before: seq<Assignment>, rows: seq<Assignment>, own: nat, e: nat, group: nat)
    requires forall i :: 0 <= i < |rows| ==> rows[i].experiment == own
    ensures ArmCount(before + rows, e, group)
         == ArmCount(before, e, group) + (if e == own then ArmSize(rows, group) else 0)
  {
    if rows == [] {
      assert before + rows == before;
    } else {
      assert (before + rows)[..|before + rows| - 1] == before + rows[..|rows|-1];
      ArmCountOfRows(before, rows[..|rows|-1], own, e, group);
    }
  }

  lemma {:induction false} NobodyInArms(assignments: seq<Assignment>, e: nat, group: nat)
    requires AssignmentCount(assignments, e) == 0
    ensures ArmCount(assignments, e, group) == 0
  {
    if assignments == [] {
    } else {
      NobodyInArms(assignments[..|assignments|-1], e, group);
    }
  }

  /** Only an assignment writes assignments. */
  lemma OthersAssignNobody(db: Db, s: Step, shuffles: Shuffles)
    requires AllPermutations(shuffles) && !s.AssignStep?
    ensures Next(db, s, shuffles).assignments == db.assignments
  {
    hide AssignmentCount, KindOf, ArmIds, InsertExposures, InsertExposure, FindAssignment, QualifyingLinks, NewGroups;
  }

  lemma AssignKeepsEven(db: Db, e: nat, shuffle: nat -> seq<nat>, now: int)
    requires Inv(db) && EvenArms(db) && forall n :: Permutation(shuffle(n), n)
    ensures EvenArms(Assign(db, e, shuffle, now).db)
  {
    if PlanRefusal(db, e).None? {
      InvArms(db, e);
      var rows := AssignPartitions(db, e, shuffle, now);
      hide Assign, ArmSize, AssignmentCount, ArmCount, Inv;
      assert forall i :: 0 <= i < |rows| ==> rows[i] in rows;
      forall d: nat | d < |db.experiments| && AssignmentCount(db.assignments + rows, d) > 0
        ensures Even(db.assignments + rows, d, db.experiments[d].groups)
      {
        RowsKeepEven(db, rows, e, d);
      }
    }
  }

  lemma InvArms(db: Db, e: nat)
    requires Inv(db) && e < |db.experiments|
    ensures OneLabelEach(db.holders) && DistinctIds(db.experiments[e].groups)
  {
  }

  lemma RowsKeepEven(db: Db, rows: seq<Assignment>, e: nat, d: nat)
    requires EvenArms(db) && e < |db.experiments| && d < |db.experiments|
    requires AssignmentCount(db.assignments, e) == 0 && AssignmentCount(db.assignments + rows, d) > 0
    requires forall i :: 0 <= i < |rows| ==> rows[i].experiment == e
    requires forall g, h :: 0 <= g < |db.experiments[e].groups| && 0 <= h < |db.experiments[e].groups| ==>
      1 <= ArmSize(rows, db.experiments[e].groups[g].id) <= ArmSize(rows, db.experiments[e].groups[h].id) + 1
    ensures Even(db.assignments + rows, d, db.experiments[d].groups)
  {
    hide ArmSize, AssignmentCount, ArmCount;
    CountConcat(db.assignments, rows, d);
    CountUniform(rows, e, d);
    forall id: nat
      ensures ArmCount(db.assignments + rows, d, id)
           == ArmCount(db.assignments, d, id) + (if d == e then ArmSize(rows, id) else 0)
      ensures d == e ==> ArmCount(db.assignments, d, id) == 0
    {
      ArmCountOfRows(db.assignments, rows, e, d, id);
      if d == e {
        NobodyInArms(db.assignments, d, id);
      }
    }
  }

  lemma StepKeepsEven(db: Db, s: Step, shuffles: Shuffles)
    requires Inv(db) && EvenArms(db) && AllPermutations(shuffles)
    ensures EvenArms(Next(db, s, shuffles))
  {
    if s.AssignStep? {
      AssignKeepsEven(db, s.experiment, (n: nat) => shuffles(s.experiment, n), s.now);
    } else {
      hide Next, Inv, AssignmentCount, ArmCount;
      StepFreezes(db, s, shuffles);
      OthersAssignNobody(db, s, shuffles);
      OnlyKnownAreAssigned(Next(db, s, shuffles), |db.experiments|, db);
    }
  }

  /** An experiment with assignments was there when they were written. */
  lemma OnlyKnownAreAssigned(later: Db, known: nat, db: Db)
    requires Inv(db) && known == |db.experiments| && later.assignments == db.assignments
    ensures forall e: nat :: AssignmentCount(later.assignments, e) > 0 ==> e < known
  {
    forall e: nat | AssignmentCount(later.assignments, e) > 0 ensures e < known {
      CountedIffPresent(later.assignments, e);
      var i :| 0 <= i < |later.assignments| && later.assignments[i].experiment == e;
      assert AssignmentOk(db, db.assignments[i]);
    }
  }

  /** Over every run, whoever was assigned is spread over non-empty arms of even size. */
  lemma {:induction false} RunKeepsEven(db: Db, steps: seq<Step>, shuffles: Shuffles)
    requires Inv(db) && EvenArms(db) && AllPermutations(shuffles)
    ensures EvenArms(Run(db, steps, shuffles))
  {
    hide Inv, EvenArms, Next;
    if steps == [] {
    } else {
      var before := Run(db, steps[..|steps|-1], shuffles);
      RunKeepsEven(db, steps[..|steps|-1], shuffles);
      RunFreezes(db, steps[..|steps|-1], shuffles);
      StepKeepsEven(before, steps[|steps|-1], shuffles);
    }
  }

  // ---------- Every assignment is in one arm ----------

  /** Assignments counted arm by arm. */
  function ArmTotal(assignments: seq<Assignment>, e: nat, groups: seq<Group>): nat {
    if groups == [] then 0
    else ArmTotal(assignments, e, groups[..|groups|-1]) + ArmCount(assignments, e, groups[|groups|-1].id)
  }

  lemma {:induction false} OneMoreInArms(before: seq<Assignment>, last: Assignment, e: nat, groups: seq<Group>)
    requires DistinctIds(groups)
    ensures ArmTotal(before + [last], e, groups) == ArmTotal(before, e, groups)
         + (if last.experiment == e && KindOf(groups, last.group).Some? then 1 else 0)
  {
    assert (before + [last])[..|before|] == before;
    if groups == [] {
    } else {
      var rest := groups[..|groups|-1];
      OneMoreInArms(before, last, e, rest);
    }
  }

  /** Arm by arm every assignment of the experiment is counted once. */
  lemma {:induction false} ArmsCoverAssignments(assignments: seq<Assignment>, e: nat, groups: seq<Group>)
    requires DistinctIds(groups)
    requires forall i :: 0 <= i < |assignments| && assignments[i].experiment == e ==> KindOf(groups, assignments[i].group).Some?
    ensures ArmTotal(assignments, e, groups) == AssignmentCount(assignments, e)
  {
    if assignments == [] {
      NoneInArms(e, groups);
    } else {
      var n := |assignments| - 1;
      ArmsCoverAssignments(assignments[..n], e, groups);
      OneMoreInArms(assignments[..n], assignments[n], e, groups);
      assert assignments == assignments[..n] + [assignments[n]];
      hide ArmTotal, KindOf;
    }
  }

  lemma {:induction false} NoneInArms(e: nat, groups: seq<Group>)
    ensures ArmTotal([], e, groups) == 0
  {
    if groups == [] {
    } else {
      NoneInArms(e, groups[..|groups|-1]);
    }
  }
}
