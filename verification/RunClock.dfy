/** What the wall clock decides for segmentation runs: whose times are in commit order and
    whose rows a constraint refuses. */
module RunClock {
  import opened HistoryRows
  import opened Options
  import opened SegmentHistory
  import opened Sorting

  ghost predicate InOrder(runs: seq<RunRecord>) {
    forall i, j :: 0 <= i < j < |runs| ==> runs[i].runAt <= runs[j].runAt
  }

  /** The instant is not before the last committed run's. */
  predicate NotBefore(runs: seq<RunRecord>, at: int) {
    runs != [] ==> runs[|runs|-1].runAt <= at
  }

  ghost predicate NobodyRefused(w: World) {
    forall r :: r in w.phases ==> w.phases[r] != RolledBack(Constraint)
  }

  /** A commit comes with an instant not before the last committed one. */
  ghost predicate CommitsLater(w: World, s: Step) {
    s.Commit? && s.run in w.phases && w.phases[s.run].Inserted? ==> NotBefore(w.tables.runs, w.phases[s.run].at)
  }

  /** A close finds no listed customer's open row starting after its instant. */
  ghost predicate ClosesReady(w: World, s: Step) {
    s.Close? && s.run in w.phases && w.phases[s.run].Created? ==>
      ReadyAt(w.tables.history, Customers(w.phases[s.run].rows), w.phases[s.run].at)
  }

  // ---------- each step ----------

  lemma OneMoreRun(runs: seq<RunRecord>, run: RunRecord)
    ensures InOrder(runs + [run]) <==> InOrder(runs) && NotBefore(runs, run.runAt)
  {
    var more := runs + [run];
    if InOrder(more) {
      assert forall i :: 0 <= i < |runs| ==> runs[i] == more[i];
      assert runs != [] ==> more[|runs|-1].runAt <= more[|runs|].runAt;
    }
  }

  lemma StepOrdersExactly(w: World, s: Step)
    requires Inv(w)
    ensures InOrder(Next(w, s).tables.runs) <==> InOrder(w.tables.runs) && CommitsLater(w, s)
  {
    hide Settled, ReadyAt, CloseAll, InsertAll, CloseAllowed, InsertsAllowed, InOrder, NotBefore;
    if s.Commit? && s.run in w.phases && w.phases[s.run].Inserted? {
      OneMoreRun(w.tables.runs, RunRecord(w.phases[s.run].runId, w.phases[s.run].at));
    }
  }

  lemma OnePhaseChanges(w: World, later: World, run: nat, p: Phase)
    requires later.phases == w.phases[run := p]
    requires run in w.phases ==> w.phases[run] != RolledBack(Constraint)
    ensures NobodyRefused(later) <==> NobodyRefused(w) && p != RolledBack(Constraint)
  {
    if NobodyRefused(later) {
      forall r | r in w.phases ensures w.phases[r] != RolledBack(Constraint) {
        assert r in later.phases;
      }
      assert run in later.phases;
    }
  }

  lemma StepRefusesExactly(w: World, s: Step)
    requires Inv(w)
    ensures NobodyRefused(Next(w, s)) <==> NobodyRefused(w) && ClosesReady(w, s)
  {
    hide Settled, ReadyAt, CloseAll, InsertAll, CloseAllowed, InsertsAllowed, HolderKnows, NobodyRefused;
    var later := Next(w, s);
    if later.phases == w.phases {
      SamePhases(w, later);
      if s.Close? && s.run in w.phases && w.phases[s.run].Created? { CloseKeepsInv(w, s.run); }
    } else {
      if s.Close? && s.run in w.phases && w.phases[s.run].Created? { CloseKeepsInv(w, s.run); }
      if s.Insert? && s.run in w.phases && w.phases[s.run].Closed? { InsertKeepsInv(w, s.run); }
      OnePhaseChanges(w, later, s.run, later.phases[s.run]);
    }
  }

  lemma SamePhases(w: World, later: World)
    requires later.phases == w.phases
    ensures NobodyRefused(later) <==> NobodyRefused(w)
  {
  }

  // ---------- each run of the world ----------

  ghost predicate AllCommitLater(w: World, steps: seq<Step>) {
    steps != [] ==>
      && AllCommitLater(w, steps[..|steps|-1])
      && CommitsLater(Run(w, steps[..|steps|-1]), steps[|steps|-1])
  }

  ghost predicate AllCloseReady(w: World, steps: seq<Step>) {
    steps != [] ==>
      && AllCloseReady(w, steps[..|steps|-1])
      && ClosesReady(Run(w, steps[..|steps|-1]), steps[|steps|-1])
  }

  /** Run times are in commit order exactly when every run commits with a reading not before
      the last committed one, and no constraint refuses a run exactly when every close finds its
      customers' open rows starting by its reading. */
  lemma {:induction false} ClockDecidesExactly(w: World, steps: seq<Step>)
    requires Inv(w)
    ensures InOrder(Run(w, steps).tables.runs) <==> InOrder(w.tables.runs) && AllCommitLater(w, steps)
    ensures NobodyRefused(Run(w, steps)) <==> NobodyRefused(w) && AllCloseReady(w, steps)
  {
    hide Inv, Next, InOrder, NobodyRefused, CommitsLater, ClosesReady;
    if steps == [] {
    } else {
      var before := Run(w, steps[..|steps|-1]);
      ClockDecidesExactly(w, steps[..|steps|-1]);
      RunKeepsInv(w, steps[..|steps|-1]);
      StepOrdersExactly(before, steps[|steps|-1]);
      StepRefusesExactly(before, steps[|steps|-1]);
    }
  }

  // ---------- from the reading to the commit ----------

  /** The instant a run has read. */
  function Reading(p: Phase): Option<int> {
    match p
    case Clocked(at) => Some(at)
    case Decided(at, _) => Some(at)
    case Created(at, _, _, _) => Some(at)
    case Closed(at, _, _, _) => Some(at)
    case Inserted(at, _, _, _, _) => Some(at)
    case _ => None
  }

  /** A run that has read an instant over some tables still has both, or is over. */
  ghost predicate Keeps(w: World, run: nat, at: int, tables: Tables) {
    && run in w.phases && !w.phases[run].Begun? && !w.phases[run].Locked?
    && (Holding(w.phases[run]) ==> Reading(w.phases[run]) == Some(at) && w.tables == tables)
  }

  lemma StepKeepsReading(w: World, s: Step, run: nat, at: int, tables: Tables)
    requires Inv(w) && Keeps(w, run, at, tables)
    ensures Keeps(Next(w, s), run, at, tables)
  {
    hide Settled, ReadyAt, CloseAll, InsertAll, CloseAllowed, InsertsAllowed, HolderKnows;
  }

  /** What a run meets at its close and its commit is settled when it reads the clock: until it is
      over, its instant and the tables stay as they were. */
  lemma {:induction false} ReadingIsKept(w: World, run: nat, steps: seq<Step>)
    requires Inv(w) && run in w.phases && w.phases[run].Locked?
    ensures Keeps(Run(Next(w, ReadClock(run)), steps), run, w.clock, w.tables)
  {
    hide Inv, Next, Keeps;
    if steps == [] {
      FirstReading(w, run);
    } else {
      ReadingIsKept(w, run, steps[..|steps|-1]);
      StepKeepsInv(w, ReadClock(run));
      RunKeepsInv(Next(w, ReadClock(run)), steps[..|steps|-1]);
      StepKeepsReading(Run(Next(w, ReadClock(run)), steps[..|steps|-1]), steps[|steps|-1], run, w.clock, w.tables);
    }
  }

  lemma FirstReading(w: World, run: nat)
    requires run in w.phases && w.phases[run].Locked?
    ensures Keeps(Next(w, ReadClock(run)), run, w.clock, w.tables)
  {
  }

  // ---------- a clock that only goes forward ----------

  /** Nothing in the tables lies after the instant, and run times are in order. */
  ghost predicate Dated(t: Tables, now: int) {
    && InOrder(t.runs) && NotBefore(t.runs, now)
    && forall c :: StartsBy(RowsOf(t.history, c), now)
  }

  ghost predicate Forward(w: World, s: Step) {
    s.Tick? ==> w.clock <= s.to
  }

  ghost predicate AllForward(w: World, steps: seq<Step>) {
    steps != [] ==>
      && AllForward(w, steps[..|steps|-1])
      && Forward(Run(w, steps[..|steps|-1]), steps[|steps|-1])
  }

  /** Whoever holds a reading took it after everything in the tables. */
  ghost predicate InTime(w: World) {
    && Dated(w.tables, w.clock)
    && forall r :: r in w.phases && Reading(w.phases[r]).Some? ==>
         Dated(w.tables, Reading(w.phases[r]).value) && Reading(w.phases[r]).value <= w.clock
  }

  lemma DatedLater(t: Tables, now: int, later: int)
    requires Dated(t, now) && now <= later
    ensures Dated(t, later)
  {
    forall c ensures StartsBy(RowsOf(t.history, c), later) {
      assert StartsBy(RowsOf(t.history, c), now);
    }
  }

  lemma RecordedIsDated(t: Tables, rows: seq<Assignment>, runId: nat, firstId: nat, at: int)
    requires Dated(t, at) && Distinct(Customers(rows))
    ensures Dated(Recorded(t, rows, runId, firstId, at), at)
  {
    hide InOrder, Customers;
    var later := Recorded(t, rows, runId, firstId, at);
    OneMoreRun(t.runs, RunRecord(runId, at));
    forall c ensures StartsBy(RowsOf(later.history, c), at) {
      RecordedView(t, rows, runId, firstId, at, c);
      assert StartsBy(RowsOf(t.history, c), at);
      if c in Customers(rows) {
        var i :| 0 <= i < |rows| && Customers(rows)[i] == c;
        assert rows[i].customer == c;
      }
    }
  }

  lemma StepStaysInTime(w: World, s: Step)
    requires Inv(w) && InTime(w) && Forward(w, s)
    ensures InTime(Next(w, s)) && CommitsLater(w, s) && ClosesReady(w, s)
  {
    hide Settled, CloseAll, InsertAll, CloseAllowed, InsertsAllowed, Dated, Recorded;
    var later := Next(w, s);
    if s.Tick? {
      DatedLater(w.tables, w.clock, s.to);
    } else if s.run in w.phases {
      var p := w.phases[s.run];
      if s.Commit? && p.Inserted? {
        RecordedIsDated(w.tables, p.rows, p.runId, p.firstId, p.at);
        DatedLater(later.tables, p.at, w.clock);
        InOrderThen(w.tables, p.at);
      }
      if s.Close? && p.Created? {
        InOrderThen(w.tables, p.at);
      }
    }
  }

  lemma InOrderThen(t: Tables, at: int)
    requires Dated(t, at)
    ensures NotBefore(t.runs, at) && forall customers :: ReadyAt(t.history, customers, at)
  {
  }

  /** Under a clock that never steps back, from tables dated by then, run times stay in commit
      order and no constraint ever refuses a run. */
  lemma {:induction false} ForwardClockSuffices(w: World, steps: seq<Step>)
    requires Initial(w) && Dated(w.tables, w.clock) && AllForward(w, steps)
    ensures InTime(Run(w, steps)) && InOrder(Run(w, steps).tables.runs) && NobodyRefused(Run(w, steps))
  {
    hide Next, Dated, Forward, CommitsLater, ClosesReady, InOrder, NobodyRefused, InTime;
    if steps == [] {
      NothingYet(w);
    } else {
      var before := Run(w, steps[..|steps|-1]);
      ForwardClockSuffices(w, steps[..|steps|-1]);
      RunKeepsInv(w, steps[..|steps|-1]);
      StepStaysInTime(before, steps[|steps|-1]);
      StepOrdersExactly(before, steps[|steps|-1]);
      StepRefusesExactly(before, steps[|steps|-1]);
    }
  }

  lemma NothingYet(w: World)
    requires Initial(w) && Dated(w.tables, w.clock)
    ensures InTime(w) && InOrder(w.tables.runs) && NobodyRefused(w)
  {
  }

  // ---------- one run after another ----------

  lemma RunOneMore(w: World, steps: seq<Step>, s: Step)
    ensures Run(w, steps + [s]) == Next(Run(w, steps), s)
  {
    assert (steps + [s])[..|steps|] == steps;
  }

  /** The steps of one whole run up to its close, and after it. */
  function Opening(run: nat, rows: seq<Assignment>): seq<Step> {
    [Begin(run)] + [TakeLock(run)] + [ReadClock(run)] + [Decide(run, rows)] + [Create(run)]
  }

  function Ending(run: nat): seq<Step> {
    [Close(run)] + [Insert(run)] + [Commit(run)]
  }

  function Whole(run: nat, rows: seq<Assignment>): seq<Step> { Opening(run, rows) + Ending(run) }

  lemma {:induction false} RunConcat(w: World, first: seq<Step>, then_: seq<Step>)
    ensures Run(w, first + then_) == Run(Run(w, first), then_)
  {
    hide Next;
    if then_ == [] {
      assert first + then_ == first;
    } else {
      assert (first + then_)[..|first + then_| - 1] == first + then_[..|then_|-1];
      RunConcat(w, first, then_[..|then_|-1]);
    }
  }

  lemma OpeningReads(w: World, run: nat, rows: seq<Assignment>)
    requires w.lock.None? && run !in w.phases && Distinct(Customers(rows))
    ensures (Run(w, Opening(run, rows))
             == w.(phases := w.phases[run := Created(w.clock, rows, w.nextRun,
                                                     Tables(w.tables.history, w.tables.runs + [RunRecord(w.nextRun, w.clock)]))],
                   lock := Some(run), nextRun := w.nextRun + 1))
  {
    RunOneMore(w, [], Begin(run));
    assert [] + [Begin(run)] == [Begin(run)];
    RunOneMore(w, [Begin(run)], TakeLock(run));
    RunOneMore(w, [Begin(run)] + [TakeLock(run)], ReadClock(run));
    RunOneMore(w, [Begin(run)] + [TakeLock(run)] + [ReadClock(run)], Decide(run, rows));
    RunOneMore(w, [Begin(run)] + [TakeLock(run)] + [ReadClock(run)] + [Decide(run, rows)], Create(run));
    var w1 := Next(w, Begin(run));
    var w2 := Next(w1, TakeLock(run));
    var w3 := Next(w2, ReadClock(run));
    var w4 := Next(w3, Decide(run, rows));
    assert w4 == w.(phases := w.phases[run := Decided(w.clock, rows)], lock := Some(run));
  }

  lemma EndingRecords(w: World, run: nat)
    requires Inv(w) && run in w.phases && w.phases[run].Created?
    ensures var p, end := w.phases[run], Run(w, Ending(run));
      var ready := ReadyAt(w.tables.history, Customers(p.rows), p.at);
      && end.clock == w.clock && end.lock.None? && end.nextRun == w.nextRun
      && end.phases == w.phases[run := if ready then Done(p.runId) else RolledBack(Constraint)]
      && end.tables == (if ready then Recorded(w.tables, p.rows, p.runId, w.nextId, p.at) else w.tables)
  {
    hide Settled, CloseAll, InsertAll, CloseAllowed, InsertsAllowed, ReadyAt;
    RunOneMore(w, [], Close(run));
    assert [] + [Close(run)] == [Close(run)];
    RunOneMore(w, [Close(run)], Insert(run));
    RunOneMore(w, [Close(run)] + [Insert(run)], Commit(run));
    var p := w.phases[run];
    CloseKeepsInv(w, run);
    if ReadyAt(w.tables.history, Customers(p.rows), p.at) {
      InsertKeepsInv(Next(w, Close(run)), run);
    }
  }

  /** A run nobody interrupts is recorded whole at its reading, or refused exactly when a listed
      customer's open row starts later. */
  lemma AloneRunIsRecorded(w: World, run: nat, rows: seq<Assignment>)
    requires Inv(w) && w.lock.None? && run !in w.phases && Distinct(Customers(rows))
    ensures var end, ready := Run(w, Whole(run, rows)), ReadyAt(w.tables.history, Customers(rows), w.clock);
      && Inv(end) && end.clock == w.clock && end.lock.None? && end.nextRun == w.nextRun + 1
      && end.phases == w.phases[run := if ready then Done(w.nextRun) else RolledBack(Constraint)]
      && end.tables == (if ready then Recorded(w.tables, rows, w.nextRun, w.nextId, w.clock) else w.tables)
  {
    hide Inv, Next, Run, Opening, Ending, Recorded, ReadyAt;
    RunConcat(w, Opening(run, rows), Ending(run));
    OpeningReads(w, run, rows);
    RunKeepsInv(w, Opening(run, rows));
    RunKeepsInv(w, Whole(run, rows));
    EndingRecords(Run(w, Opening(run, rows)), run);
  }

  /** Customer 1 is recorded at 10; the clock steps back to 5; another run lists `customer`. */
  function StepBack(customer: Customer): seq<Step> {
    Whole(0, [Assignment(1, None)]) + [Tick(5)] + Whole(1, [Assignment(customer, None)])
  }

  function Fresh(): World {
    World(Tables(map[], []), 10, None, map[], 0, 0)
  }

  lemma ReadyForOne(h: map<Customer, seq<Row>>, code: Option<nat>, customer: Customer, at: int)
    ensures ReadyAt(h, Customers([Assignment(customer, code)]), at) <==> StartsBy(RowsOf(h, customer), at)
  {
    assert Customers([Assignment(customer, code)])[0] == customer;
  }

  /** After a step back the second of two runs is committed with the earlier time, or refused
      when it lists the customer the first one opened a row for. */
  lemma StepBackBreaksBoth(customer: Customer)
    ensures Initial(Fresh())
    ensures var end := Run(Fresh(), StepBack(customer));
      if customer == 1 then 1 in end.phases && end.phases[1] == RolledBack(Constraint)
      else end.tables.runs == [RunRecord(0, 10), RunRecord(1, 5)] && !InOrder(end.tables.runs)
  {
    hide Run, Whole, Inv, CloseAll, InsertAll, ReadyAt;
    var w, one, two := Fresh(), [Assignment(1, None)], [Assignment(customer, None)];
    FreshIsInitial();
    ReadyForOne(w.tables.history, None, 1, 10);
    AloneRunIsRecorded(w, 0, one);
    var first := Run(w, Whole(0, one));
    RunOneMore(w, Whole(0, one), Tick(5));
    var second := Next(first, Tick(5));
    TickKeepsInv(first, 5);
    ReadyForOne(first.tables.history, None, customer, 5);
    RecordedView(w.tables, one, 0, 0, 10, customer);
    AloneRunIsRecorded(second, 1, two);
    assert first.tables.runs == [] + [RunRecord(0, 10)];
    assert RowsOf(w.tables.history, customer) == [];
    assert Customers(one)[0] == 1;
    assert customer in Customers(one) <==> customer == 1;
    assert StartsBy(RowsOf(first.tables.history, customer), 5) <==> customer != 1;
    var runs := [RunRecord(0, 10), RunRecord(1, 5)];
    assert runs[0].runAt > runs[1].runAt;
    RunConcat(w, Whole(0, one) + [Tick(5)], Whole(1, two));
  }

  lemma FreshIsInitial()
    ensures Initial(Fresh()) && Inv(Fresh())
  {
  }
}
