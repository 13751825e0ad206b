/** The write protocol of segmentation runs: any number of concurrent runs, one lock,
    a wall clock read after it, which may step back, and the close and insert that share its
    instant. */
module SegmentHistory {
  import opened HistoryRows
  import opened Options
  import opened Sorting

  type Customer = nat

  datatype Assignment = Assignment(customer: Customer, code: Option<nat>)

  datatype RunRecord = RunRecord(runId: nat, runAt: int)

  datatype Tables = Tables(history: map<Customer, seq<Row>>, runs: seq<RunRecord>)

  function RowsOf(h: map<Customer, seq<Row>>, c: Customer): seq<Row> {
    if c in h then h[c] else []
  }

  // ---------- the statements ----------

  /** UPDATE ... SET valid_to = at WHERE valid_to IS NULL, over one customer's rows. */
  function CloseRows(rows: seq<Row>, at: int): (closed: seq<Row>)
    ensures |closed| == |rows|
  {
    seq(|rows|, i requires 0 <= i < |rows| =>
      if rows[i].validTo.None? then rows[i].(validTo := Some(at)) else rows[i])
  }

  function CloseAll(h: map<Customer, seq<Row>>, customers: seq<Customer>, at: int): map<Customer, seq<Row>> {
    if customers == [] then h
    else
      var n := |customers| - 1;
      var before := CloseAll(h, customers[..n], at);
      before[customers[n] := CloseRows(RowsOf(before, customers[n]), at)]
  }

  function InsertAll(h: map<Customer, seq<Row>>, runId: nat, rows: seq<Assignment>, firstId: nat, at: int): map<Customer, seq<Row>> {
    if rows == [] then h
    else
      var n := |rows| - 1;
      var before := InsertAll(h, runId, rows[..n], firstId, at);
      before[rows[n].customer := RowsOf(before, rows[n].customer) + [Row(firstId + n, runId, rows[n].code, at, None)]]
  }

  function Customers(rows: seq<Assignment>): (customers: seq<Customer>)
    ensures |customers| == |rows|
    ensures forall i :: 0 <= i < |rows| ==> customers[i] == rows[i].customer
  {
    seq(|rows|, i requires 0 <= i < |rows| => rows[i].customer)
  }

  // ---------- the constraints ----------

  /** CHECK (valid_to >= valid_from) on every row a close would touch. */
  predicate CloseAllowed(h: map<Customer, seq<Row>>, customers: seq<Customer>, at: int) {
    forall c, i :: c in customers && 0 <= i < |RowsOf(h, c)| && RowsOf(h, c)[i].validTo.None?
      ==> RowsOf(h, c)[i].validFrom <= at
  }

  /** The open-row index, the no-overlap exclusion over half-open periods and one row
      per customer in each run, for a row about to be opened. */
  predicate InsertAllowed(rows: seq<Row>, runId: nat, at: int) {
    forall i :: 0 <= i < |rows| ==>
      && rows[i].validTo.Some?
      && (rows[i].validTo.value <= at || rows[i].validFrom == rows[i].validTo.value)
      && rows[i].runId != runId
  }

  /** The instant lies in the row's half-open period; an open row has no end. */
  ghost predicate Covers(row: Row, t: int) {
    row.validFrom <= t && (row.validTo.Some? ==> t < row.validTo.value)
  }

  /** A new open row is allowed exactly when no stored period shares an instant with it, so none
      is open, and its run has no row there yet. */
  lemma InsertAllowedExactly(rows: seq<Row>, runId: nat, at: int)
    requires forall i :: 0 <= i < |rows| ==> WellTimed(rows[i])
    ensures (InsertAllowed(rows, runId, at) <==>
               forall i :: 0 <= i < |rows| ==> rows[i].runId != runId && forall t :: at <= t ==> !Covers(rows[i], t))
  {
    forall i | 0 <= i < |rows|
      ensures ((rows[i].validTo.Some? && (rows[i].validTo.value <= at || rows[i].validFrom == rows[i].validTo.value))
               <==> forall t :: at <= t ==> !Covers(rows[i], t))
    {
      assert WellTimed(rows[i]);
      SharesExactly(rows[i], at);
    }
  }

  lemma SharesExactly(row: Row, at: int)
    requires WellTimed(row)
    ensures ((row.validTo.Some? && (row.validTo.value <= at || row.validFrom == row.validTo.value))
             <==> forall t :: at <= t ==> !Covers(row, t))
  {
    var late := if at < row.validFrom then row.validFrom else at;
    assert row.validTo.None? || (at < row.validTo.value && row.validFrom < row.validTo.value) ==> Covers(row, late);
  }

  /** Each insert of the batch meets the constraints in the state it finds. */
  predicate InsertsAllowed(h: map<Customer, seq<Row>>, rows: seq<Assignment>, runId: nat, firstId: nat, at: int) {
    rows == [] ||
    (var n := |rows| - 1;
     && InsertsAllowed(h, rows[..n], runId, firstId, at)
     && InsertAllowed(RowsOf(InsertAll(h, runId, rows[..n], firstId, at), rows[n].customer), runId, at))
  }

  // ---------- what the statements do to one customer ----------

  lemma {:induction false} CloseView(h: map<Customer, seq<Row>>, customers: seq<Customer>, at: int, c: Customer)
    ensures RowsOf(CloseAll(h, customers, at), c) == if c in customers then CloseRows(RowsOf(h, c), at) else RowsOf(h, c)
  {
    if customers == [] {
    } else {
      var n := |customers| - 1;
      CloseView(h, customers[..n], at, c);
      assert customers == customers[..n] + [customers[n]];
      if c == customers[n] && c in customers[..n] {
        assert CloseRows(CloseRows(RowsOf(h, c), at), at) == CloseRows(RowsOf(h, c), at);
      }
    }
  }

  lemma {:induction false} InsertView(h: map<Customer, seq<Row>>, runId: nat, rows: seq<Assignment>, firstId: nat, at: int, c: Customer)
    requires Distinct(Customers(rows))
    ensures c !in Customers(rows) ==> RowsOf(InsertAll(h, runId, rows, firstId, at), c) == RowsOf(h, c)
    ensures forall i :: 0 <= i < |rows| && rows[i].customer == c ==>
      RowsOf(InsertAll(h, runId, rows, firstId, at), c) == RowsOf(h, c) + [Row(firstId + i, runId, rows[i].code, at, None)]
  {
    if rows == [] {
    } else {
      var n := |rows| - 1;
      var before, all := Customers(rows[..n]), Customers(rows);
      assert forall i :: 0 <= i < n ==> before[i] == all[i];
      assert c in before ==> c in all;
      assert all == before + [rows[n].customer];
      InsertView(h, runId, rows[..n], firstId, at, c);
      if rows[n].customer == c {
        assert c !in before by {
          assert forall i :: 0 <= i < n ==> all[i] != all[n];
        }
      }
    }
  }

  // ---------- one run against a settled history ----------

  /** Between runs: every history is a chain with its newest row open, run ids are in commit
      order, and nothing in the tables uses an id not yet given out. */
  ghost predicate Settled(t: Tables, nextRun: nat, nextId: nat) {
    && (forall c :: c in t.history ==> CustomerSettled(t.history[c], nextRun, nextId))
    && (forall i, j :: 0 <= i < j < |t.runs| ==> t.runs[i].runId < t.runs[j].runId)
    && (forall i :: 0 <= i < |t.runs| ==> t.runs[i].runId < nextRun)
  }

  ghost predicate CustomerSettled(rows: seq<Row>, nextRun: nat, nextId: nat) {
    && Chain(rows) && OpenAtEnd(rows)
    && (forall i :: 0 <= i < |rows| ==> rows[i].runId < nextRun && rows[i].historyId < nextId)
  }

  /** The newest row starts no later than the instant. */
  predicate StartsBy(rows: seq<Row>, at: int) {
    rows != [] ==> rows[|rows|-1].validFrom <= at
  }

  /** No listed customer's open row starts after the instant. */
  predicate ReadyAt(h: map<Customer, seq<Row>>, customers: seq<Customer>, at: int) {
    forall c :: c in customers ==> StartsBy(RowsOf(h, c), at)
  }

  lemma CloseIsAllowed(rows: seq<Row>, at: int, nextRun: nat, nextId: nat)
    requires CustomerSettled(rows, nextRun, nextId) && StartsBy(rows, at)
    ensures InsertAllowed(CloseRows(rows, at), nextRun, at)
  {
    var closed := CloseRows(rows, at);
    forall i | 0 <= i < |rows| ensures closed[i].validTo.Some? && closed[i].validTo.value <= at {
      if i < |rows| - 1 {
        ChainStarts(rows, i + 1, |rows| - 1);
      }
    }
  }

  /** Closing a chain breaks the check constraint exactly when its newest row starts later. */
  lemma OnlyNewestIsClosed(rows: seq<Row>, at: int)
    requires Chain(rows) && OpenAtEnd(rows)
    ensures StartsBy(rows, at) <==> forall i :: 0 <= i < |rows| && rows[i].validTo.None? ==> rows[i].validFrom <= at
  {
    forall i | 0 <= i < |rows| && rows[i].validTo.None? ensures i == |rows| - 1 {
      OpenIsNewest(rows, i);
    }
  }

  /** Closing and opening at one instant extends a settled chain by one open row. */
  lemma ExtendsChain(rows: seq<Row>, at: int, nextRun: nat, nextId: nat, id: nat, code: Option<nat>, later: nat)
    requires CustomerSettled(rows, nextRun, nextId) && StartsBy(rows, at) && nextId <= id < later
    ensures CustomerSettled(CloseRows(rows, at) + [Row(id, nextRun, code, at, None)], nextRun + 1, later)
  {
    var next := CloseRows(rows, at) + [Row(id, nextRun, code, at, None)];
    forall i | 0 <= i < |next| - 1 ensures next[i].validTo == Some(next[i+1].validFrom) {
      if i < |rows| - 1 {
        assert rows[i].validTo == Some(rows[i+1].validFrom);
      }
    }
    forall i | 0 <= i < |next| ensures WellTimed(next[i]) {
      if i < |rows| - 1 {
        assert rows[i].validTo == Some(rows[i+1].validFrom) && WellTimed(rows[i]);
      }
    }
  }

  lemma StaysSettled(rows: seq<Row>, nextRun: nat, nextId: nat, nextRun': nat, nextId': nat)
    requires CustomerSettled(rows, nextRun, nextId) && nextRun <= nextRun' && nextId <= nextId'
    ensures CustomerSettled(rows, nextRun', nextId')
  {
  }

  /** The tables after one whole run recorded at `at`. */
  function Recorded(t: Tables, rows: seq<Assignment>, runId: nat, firstId: nat, at: int): Tables {
    Tables(InsertAll(CloseAll(t.history, Customers(rows), at), runId, rows, firstId, at), t.runs + [RunRecord(runId, at)])
  }

  lemma RecordedView(t: Tables, rows: seq<Assignment>, runId: nat, firstId: nat, at: int, c: Customer)
    requires Distinct(Customers(rows))
    ensures c !in Customers(rows) ==> RowsOf(Recorded(t, rows, runId, firstId, at).history, c) == RowsOf(t.history, c)
    ensures forall i :: 0 <= i < |rows| && rows[i].customer == c ==>
      RowsOf(Recorded(t, rows, runId, firstId, at).history, c)
        == CloseRows(RowsOf(t.history, c), at) + [Row(firstId + i, runId, rows[i].code, at, None)]
  {
    CloseView(t.history, Customers(rows), at, c);
    InsertView(CloseAll(t.history, Customers(rows), at), runId, rows, firstId, at, c);
    assert forall i :: 0 <= i < |rows| && rows[i].customer == c ==> Customers(rows)[i] == c;
  }

  lemma RecordedIsSettled(t: Tables, rows: seq<Assignment>, runId: nat, firstId: nat, at: int)
    requires Settled(t, runId, firstId) && Distinct(Customers(rows)) && ReadyAt(t.history, Customers(rows), at)
    ensures Settled(Recorded(t, rows, runId, firstId, at), runId + 1, firstId + |rows|)
  {
    hide CustomerSettled, CloseRows, StartsBy;
    var r := Recorded(t, rows, runId, firstId, at);
    forall c | c in r.history ensures CustomerSettled(r.history[c], runId + 1, firstId + |rows|) {
      RecordedView(t, rows, runId, firstId, at, c);
      EmptySettled(runId, firstId);
      assert CustomerSettled(RowsOf(t.history, c), runId, firstId);
      if c in Customers(rows) {
        var i :| 0 <= i < |rows| && Customers(rows)[i] == c;
        ExtendsChain(RowsOf(t.history, c), at, runId, firstId, firstId + i, rows[i].code, firstId + |rows|);
      } else {
        StaysSettled(RowsOf(t.history, c), runId, firstId, runId + 1, firstId + |rows|);
      }
    }
  }

  lemma EmptySettled(nextRun: nat, nextId: nat)
    ensures CustomerSettled([], nextRun, nextId)
  {
  }

  lemma SettledRows(t: Tables, nextRun: nat, nextId: nat, c: Customer)
    requires Settled(t, nextRun, nextId)
    ensures CustomerSettled(RowsOf(t.history, c), nextRun, nextId)
  {
    EmptySettled(nextRun, nextId);
  }

  /** A constraint stands in the way of a run that holds the lock exactly when some listed
      customer's open row starts after the instant it read. */
  lemma ConstraintsFireExactly(t: Tables, rows: seq<Assignment>, runId: nat, firstId: nat, at: int)
    requires Settled(t, runId, firstId) && Distinct(Customers(rows))
    ensures CloseAllowed(t.history, Customers(rows), at) <==> ReadyAt(t.history, Customers(rows), at)
    ensures ReadyAt(t.history, Customers(rows), at) ==>
              InsertsAllowed(CloseAll(t.history, Customers(rows), at), rows, runId, firstId, at)
  {
    hide Settled, StartsBy, Chain, OpenAtEnd;
    var closed := CloseAll(t.history, Customers(rows), at);
    forall c | c in Customers(rows)
      ensures RowsOf(closed, c) == CloseRows(RowsOf(t.history, c), at)
      ensures (StartsBy(RowsOf(t.history, c), at) <==>
                 forall i :: 0 <= i < |RowsOf(t.history, c)| && RowsOf(t.history, c)[i].validTo.None? ==>
                   RowsOf(t.history, c)[i].validFrom <= at)
    {
      CloseView(t.history, Customers(rows), at, c);
      SettledRows(t, runId, firstId, c);
      OnlyNewestIsClosed(RowsOf(t.history, c), at);
    }
    if ReadyAt(t.history, Customers(rows), at) {
      InsertsMeetConstraints(t, closed, rows, runId, firstId, at);
    }
  }

  lemma {:induction false} InsertsMeetConstraints(
    t: Tables, closed: map<Customer, seq<Row>>, rows: seq<Assignment>, runId: nat, firstId: nat, at: int)
    requires Settled(t, runId, firstId) && Distinct(Customers(rows)) && ReadyAt(t.history, Customers(rows), at)
    requires forall c :: c in Customers(rows) ==> RowsOf(closed, c) == CloseRows(RowsOf(t.history, c), at)
    ensures InsertsAllowed(closed, rows, runId, firstId, at)
  {
    hide Settled, CloseRows, InsertAllowed, InsertAll, CustomerSettled, StartsBy;
    if rows == [] {
    } else {
      var n := |rows| - 1;
      var c, before, all := rows[n].customer, Customers(rows[..n]), Customers(rows);
      assert forall j :: 0 <= j < n ==> before[j] == all[j];
      assert forall j :: 0 <= j < n ==> all[j] != all[n];
      assert all == before + [c] && c !in before;
      InsertsMeetConstraints(t, closed, rows[..n], runId, firstId, at);
      InsertView(closed, runId, rows[..n], firstId, at, c);
      SettledRows(t, runId, firstId, c);
      CloseIsAllowed(RowsOf(t.history, c), at, runId, firstId);
    }
  }

  lemma {:induction false} RefusedPrefix(h: map<Customer, seq<Row>>, rows: seq<Assignment>, runId: nat, firstId: nat, at: int, n: nat)
    requires n <= |rows| && !InsertsAllowed(h, rows[..n], runId, firstId, at)
    ensures !InsertsAllowed(h, rows, runId, firstId, at)
  {
    if n < |rows| {
      assert rows[..|rows|-1][..n] == rows[..n];
      RefusedPrefix(h, rows[..|rows|-1], runId, firstId, at, n);
    } else {
      assert rows[..n] == rows;
    }
  }

  // ---------- the statements, step by step ----------

  datatype Outcome = Committed(runId: nat) | Invalid | Refused

  /** The tables a run writes and the identity counters behind their keys, which no
      rollback takes back. */
  class Store {
    var history: map<Customer, seq<Row>>
    var runs: seq<RunRecord>
    var nextRun: nat
    var nextId: nat

    constructor ()
      ensures State() == Tables(map[], []) && nextRun == 0 && nextId == 0
    {
      history, runs, nextRun, nextId := map[], [], 0, 0;
    }

    function State(): Tables
      reads this
    {
      Tables(history, runs)
    }

    method CreateRun(at: int) returns (runId: nat)
      modifies this`runs, this`nextRun
      ensures runId == old(nextRun) && nextRun == runId + 1
      ensures runs == old(runs) + [RunRecord(runId, at)]
    {
      runId := nextRun;
      nextRun := nextRun + 1;
      runs := runs + [RunRecord(runId, at)];
    }

    method CloseOpenAssignments(customers: seq<Customer>, at: int) returns (ok: bool)
      modifies this`history
      ensures ok == CloseAllowed(old(history), customers, at)
      ensures history == if ok then CloseAll(old(history), customers, at) else old(history)
    {
      ok := CloseAllowed(history, customers, at);
      if !ok {
        return;
      }
      for i := 0 to |customers|
        invariant history == CloseAll(old(history), customers[..i], at)
      {
        assert customers[..i+1][..i] == customers[..i];
        history := history[customers[i] := CloseRows(RowsOf(history, customers[i]), at)];
      }
      assert customers[..|customers|] == customers;
    }

    method InsertAssignments(rows: seq<Assignment>, runId: nat, at: int) returns (ok: bool)
      modifies this`history, this`nextId
      ensures ok == InsertsAllowed(old(history), rows, runId, old(nextId), at)
      ensures ok ==> history == InsertAll(old(history), runId, rows, old(nextId), at) && nextId == old(nextId) + |rows|
      ensures nextId >= old(nextId)
    {
      hide InsertAllowed;
      ghost var first := nextId;
      for i := 0 to |rows|
        invariant nextId == first + i
        invariant history == InsertAll(old(history), runId, rows[..i], first, at)
        invariant InsertsAllowed(old(history), rows[..i], runId, first, at)
      {
        assert rows[..i+1][..i] == rows[..i];
        var c := rows[i].customer;
        if !InsertAllowed(RowsOf(history, c), runId, at) {
          RefusedPrefix(old(history), rows, runId, first, at, i + 1);
          return false;
        }
        history := history[c := RowsOf(history, c) + [Row(nextId, runId, rows[i].code, at, None)]];
        nextId := nextId + 1;
      }
      assert rows[..|rows|] == rows;
      ok := true;
    }

    /** The pipeline after its lock and clock: validate, record the run, close, insert;
        all of it or nothing. */
    method Record(rows: seq<Assignment>, at: int) returns (outcome: Outcome)
      modifies this
      ensures outcome.Committed? ==> State() == Recorded(old(State()), rows, old(nextRun), old(nextId), at)
      ensures !outcome.Committed? ==> State() == old(State())
      ensures outcome.Invalid? <==> !Distinct(Customers(rows))
      ensures Settled(old(State()), old(nextRun), old(nextId)) ==>
        (outcome.Refused? <==> Distinct(Customers(rows)) && !ReadyAt(old(history), Customers(rows), at))
      ensures outcome.Committed? && Settled(old(State()), old(nextRun), old(nextId))
        ==> outcome.runId == old(nextRun) && Settled(State(), nextRun, nextId)
      ensures nextRun >= old(nextRun) && nextId >= old(nextId)
    {
      hide Settled, ReadyAt, CloseAllowed, InsertsAllowed, CloseAll, InsertAll;
      if exists i, j :: 0 <= i < j < |rows| && Customers(rows)[i] == Customers(rows)[j] {
        return Invalid;
      }
      var saved := State();
      ghost var first := nextId;
      if Settled(saved, nextRun, nextId) {
        ConstraintsFireExactly(saved, rows, nextRun, nextId, at);
        if ReadyAt(history, Customers(rows), at) {
          RecordedIsSettled(saved, rows, nextRun, nextId, at);
        }
      }
      var runId := CreateRun(at);
      var ok := CloseOpenAssignments(Customers(rows), at);
      if ok {
        ok := InsertAssignments(rows, runId, at);
      }
      if !ok {
        history, runs := saved.history, saved.runs;
        return Refused;
      }
      outcome := Committed(runId);
    }
  }

  // ---------- any interleaving of any number of runs ----------

  datatype Reason = Asked | Duplicated | Constraint

  datatype Phase =
    | Begun
    | Locked
    | Clocked(at: int)
    | Decided(at: int, rows: seq<Assignment>)
    | Created(at: int, rows: seq<Assignment>, runId: nat, work: Tables)
    | Closed(at: int, rows: seq<Assignment>, runId: nat, work: Tables)
    | Inserted(at: int, rows: seq<Assignment>, runId: nat, work: Tables, firstId: nat)
    | Done(runId: nat)
    | RolledBack(reason: Reason)

  datatype World = World(
    tables: Tables, clock: int, lock: Option<nat>, phases: map<nat, Phase>, nextRun: nat, nextId: nat)

  datatype Step =
    | Tick(to: int)
    | Begin(run: nat)
    | TakeLock(run: nat)
    | ReadClock(run: nat)
    | Decide(run: nat, rows: seq<Assignment>)
    | Create(run: nat)
    | Close(run: nat)
    | Insert(run: nat)
    | Commit(run: nat)
    | Rollback(run: nat)

  predicate Holding(p: Phase) {
    !p.Begun? && !p.Done? && !p.RolledBack?
  }

  function Set(w: World, run: nat, p: Phase): World {
    w.(phases := w.phases[run := p])
  }

  /** A run that fails gives back the lock and leaves its working tables behind. */
  function Fail(w: World, run: nat, reason: Reason): World {
    Set(w, run, RolledBack(reason)).(lock := if w.lock == Some(run) then None else w.lock)
  }

  /** One step; a step that is not enabled (a lock somebody holds) changes nothing. The clock
      may be set to anything. */
  ghost function Next(w: World, s: Step): World {
    if s.Tick? then w.(clock := s.to)
    else if s.Begin? then (if s.run in w.phases then w else Set(w, s.run, Begun))
    else if s.run !in w.phases then w
    else NextOf(w, s, s.run, w.phases[s.run])
  }

  ghost function NextOf(w: World, s: Step, run: nat, p: Phase): World
    requires run in w.phases && p == w.phases[run]
  {
    match s
    case TakeLock(_) => if p.Begun? && w.lock == None then Set(w, run, Locked).(lock := Some(run)) else w
    case ReadClock(_) => if p.Locked? then Set(w, run, Clocked(w.clock)) else w
    case Decide(_, rows) =>
      if !p.Clocked? then w
      else if Distinct(Customers(rows)) then Set(w, run, Decided(p.at, rows))
      else Fail(w, run, Duplicated)
    case Create(_) =>
      if !p.Decided? then w
      else Set(w, run, Created(p.at, p.rows, w.nextRun, Tables(w.tables.history, w.tables.runs + [RunRecord(w.nextRun, p.at)])))
        .(nextRun := w.nextRun + 1)
    case Close(_) =>
      if !p.Created? then w
      else if CloseAllowed(p.work.history, Customers(p.rows), p.at)
      then Set(w, run, Closed(p.at, p.rows, p.runId, p.work.(history := CloseAll(p.work.history, Customers(p.rows), p.at))))
      else Fail(w, run, Constraint)
    case Insert(_) =>
      if !p.Closed? then w
      else if InsertsAllowed(p.work.history, p.rows, p.runId, w.nextId, p.at)
      then Set(w, run, Inserted(p.at, p.rows, p.runId, p.work.(history := InsertAll(p.work.history, p.runId, p.rows, w.nextId, p.at)), w.nextId))
        .(nextId := w.nextId + |p.rows|)
      else Fail(w, run, Constraint)
    case Commit(_) =>
      if p.Inserted? then Set(w, run, Done(p.runId)).(tables := p.work, lock := None) else w
    case Rollback(_) => if p.Begun? || Holding(p) then Fail(w, run, Asked) else w
    case _ => w
  }

  /** What the lock holder knows: the tables have not moved since it got in. */
  ghost predicate HolderKnows(w: World, p: Phase) {
    match p
    case Decided(at, rows) => Distinct(Customers(rows))
    case Created(at, rows, runId, work) =>
      && Settled(w.tables, runId, w.nextId) && Distinct(Customers(rows)) && w.nextRun == runId + 1
      && work == Tables(w.tables.history, w.tables.runs + [RunRecord(runId, at)])
    case Closed(at, rows, runId, work) =>
      && Settled(w.tables, runId, w.nextId) && Distinct(Customers(rows)) && w.nextRun == runId + 1
      && ReadyAt(w.tables.history, Customers(rows), at)
      && work == Tables(CloseAll(w.tables.history, Customers(rows), at), w.tables.runs + [RunRecord(runId, at)])
    case Inserted(at, rows, runId, work, firstId) =>
      && Settled(w.tables, runId, firstId) && Distinct(Customers(rows))
      && ReadyAt(w.tables.history, Customers(rows), at)
      && w.nextRun == runId + 1 && w.nextId == firstId + |rows|
      && work == Recorded(w.tables, rows, runId, firstId, at)
    case _ => true
  }

  ghost predicate Inv(w: World) {
    && Settled(w.tables, w.nextRun, w.nextId)
    && (forall r :: r in w.phases && Holding(w.phases[r]) ==> w.lock == Some(r) && HolderKnows(w, w.phases[r]))
  }

  lemma SettledLater(t: Tables, nextRun: nat, nextId: nat, nextRun': nat, nextId': nat)
    requires Settled(t, nextRun, nextId) && nextRun <= nextRun' && nextId <= nextId'
    ensures Settled(t, nextRun', nextId')
  {
    hide CustomerSettled;
    forall c | c in t.history ensures CustomerSettled(t.history[c], nextRun', nextId') {
      StaysSettled(t.history[c], nextRun, nextId, nextRun', nextId');
    }
  }

  lemma TickKeepsInv(w: World, to: int)
    requires Inv(w)
    ensures Inv(w.(clock := to))
  {
    hide Settled, ReadyAt, CloseAll, Recorded;
  }

  /** A step of the holder leaves every other run where it was: not holding. */
  lemma HolderStep(w: World, run: nat, w': World)
    requires Inv(w) && run in w.phases && Holding(w.phases[run])
    requires run in w'.phases && w'.phases == w.phases[run := w'.phases[run]]
    requires Settled(w'.tables, w'.nextRun, w'.nextId)
    requires Holding(w'.phases[run]) ==> w'.lock == Some(run) && HolderKnows(w', w'.phases[run])
    ensures Inv(w')
  {
    hide Settled, HolderKnows;
  }

  lemma CreateKeepsInv(w: World, run: nat)
    requires Inv(w) && run in w.phases && w.phases[run].Decided?
    ensures Inv(Next(w, Create(run)))
  {
    hide Settled, CloseAll;
    SettledLater(w.tables, w.nextRun, w.nextId, w.nextRun + 1, w.nextId);
    HolderStep(w, run, Next(w, Create(run)));
  }

  /** Closing fails exactly when a listed customer's open row starts after the instant. */
  lemma CloseKeepsInv(w: World, run: nat)
    requires Inv(w) && run in w.phases && w.phases[run].Created?
    ensures Inv(Next(w, Close(run)))
    ensures var p, after := w.phases[run], Next(w, Close(run)).phases[run];
      if ReadyAt(w.tables.history, Customers(p.rows), p.at) then after.Closed? else after == RolledBack(Constraint)
  {
    hide Settled, CloseAll, InsertAll, CloseAllowed, InsertsAllowed, ReadyAt;
    var p := w.phases[run];
    ConstraintsFireExactly(w.tables, p.rows, p.runId, w.nextId, p.at);
    HolderStep(w, run, Next(w, Close(run)));
  }

  lemma InsertKeepsInv(w: World, run: nat)
    requires Inv(w) && run in w.phases && w.phases[run].Closed?
    ensures Inv(Next(w, Insert(run))) && Next(w, Insert(run)).phases[run].Inserted?
  {
    hide Settled, CloseAll, InsertAll, CloseAllowed, InsertsAllowed, ReadyAt;
    var p := w.phases[run];
    ConstraintsFireExactly(w.tables, p.rows, p.runId, w.nextId, p.at);
    SettledLater(w.tables, w.nextRun, w.nextId, w.nextRun, w.nextId + |p.rows|);
    HolderStep(w, run, Next(w, Insert(run)));
  }

  lemma CommitKeepsInv(w: World, run: nat)
    requires Inv(w) && run in w.phases && w.phases[run].Inserted?
    ensures Inv(Next(w, Commit(run)))
  {
    hide Settled, Recorded, ReadyAt;
    var p := w.phases[run];
    RecordedIsSettled(w.tables, p.rows, p.runId, p.firstId, p.at);
    HolderStep(w, run, Next(w, Commit(run)));
  }

  /** Every step, of whichever run and whatever the clock does, keeps the invariant. */
  lemma StepKeepsInv(w: World, s: Step)
    requires Inv(w)
    ensures Inv(Next(w, s))
  {
    hide Settled, CloseAll, InsertAll, CloseAllowed, InsertsAllowed, Recorded, ReadyAt;
    if s.Tick? {
      TickKeepsInv(w, s.to);
    } else if !s.Begin? && s.run in w.phases {
      var p := w.phases[s.run];
      if s.Create? && p.Decided? { CreateKeepsInv(w, s.run); }
      else if s.Close? && p.Created? { CloseKeepsInv(w, s.run); }
      else if s.Insert? && p.Closed? { InsertKeepsInv(w, s.run); }
      else if s.Commit? && p.Inserted? { CommitKeepsInv(w, s.run); }
      else if Holding(p) && Next(w, s) != w { HolderStep(w, s.run, Next(w, s)); }
    }
  }

  /** A run that is not over can always be rolled back: nothing it wrote stays, and a lock it held
      is free for the next. */
  lemma RollbackUndoesAll(w: World, run: nat)
    requires Inv(w) && run in w.phases && !w.phases[run].Done? && !w.phases[run].RolledBack?
    ensures var later := Next(w, Rollback(run));
      && later.phases == w.phases[run := RolledBack(Asked)] && later.tables == w.tables
      && (if Holding(w.phases[run]) then later.lock == None else later.lock == w.lock || w.lock == Some(run))
  {
    hide Settled, HolderKnows;
  }

  ghost function Run(w: World, steps: seq<Step>): World {
    if steps == [] then w else Next(Run(w, steps[..|steps|-1]), steps[|steps|-1])
  }

  lemma {:induction false} RunKeepsInv(w: World, steps: seq<Step>)
    requires Inv(w)
    ensures Inv(Run(w, steps))
  {
    hide Inv, Next;
    if steps == [] {
    } else {
      RunKeepsInv(w, steps[..|steps|-1]);
      StepKeepsInv(Run(w, steps[..|steps|-1]), steps[|steps|-1]);
    }
  }

  /** A world no run has begun in, over any settled tables. */
  ghost predicate Initial(w: World) {
    Settled(w.tables, w.nextRun, w.nextId) && w.phases == map[] && w.lock == None
  }

  /** For every interleaving of any number of runs, whatever the clock does: each customer's
      committed history is a chain whose newest row is the open one, and run ids are in commit
      order. */
  lemma HistoriesStayChains(w: World, steps: seq<Step>)
    requires Initial(w)
    ensures var end := Run(w, steps);
      && (forall c :: c in end.tables.history ==> Chain(end.tables.history[c]) && OpenAtEnd(end.tables.history[c]))
      && (forall i, j :: 0 <= i < j < |end.tables.runs| ==> end.tables.runs[i].runId < end.tables.runs[j].runId)
  {
    hide Run, Chain, OpenAtEnd;
    RunKeepsInv(w, steps);
    var end := Run(w, steps);
    forall c | c in end.tables.history ensures Chain(end.tables.history[c]) && OpenAtEnd(end.tables.history[c]) {
      assert CustomerSettled(end.tables.history[c], end.nextRun, end.nextId);
    }
  }

  /** Rows only ever get appended, and only the newest may be closed. */
  ghost predicate OnlyCloses(before: seq<Row>, after: seq<Row>) {
    && |before| <= |after|
    && (forall i :: 0 <= i < |before| && before[i].validTo.Some? ==> after[i] == before[i])
    && (forall i :: 0 <= i < |before| && before[i].validTo.None? ==>
          after[i] == before[i] || (after[i].validTo.Some? && after[i] == before[i].(validTo := after[i].validTo)))
  }

  lemma OtherStepsCommitNothing(w: World, s: Step)
    requires !(s.Commit? && s.run in w.phases && w.phases[s.run].Inserted?)
    ensures Next(w, s).tables == w.tables
  {
    hide CloseAll, InsertAll, CloseAllowed, InsertsAllowed;
  }

  lemma RecordingOnlyCloses(t: Tables, p: Phase, c: Customer)
    requires p.Inserted? && Distinct(Customers(p.rows))
    ensures OnlyCloses(RowsOf(t.history, c), RowsOf(Recorded(t, p.rows, p.runId, p.firstId, p.at).history, c))
  {
    RecordedView(t, p.rows, p.runId, p.firstId, p.at, c);
    hide CloseAll, InsertAll;
    if c in Customers(p.rows) {
      var i :| 0 <= i < |p.rows| && Customers(p.rows)[i] == c;
    }
  }

  /** A step commits nothing, or one whole run: every customer it lists gets exactly
      one new open row, from the instant the run records, and nobody else changes. */
  lemma StepCommitsWholeRuns(w: World, s: Step, c: Customer)
    requires Inv(w)
    ensures OnlyCloses(RowsOf(w.tables.history, c), RowsOf(Next(w, s).tables.history, c))
    ensures Next(w, s).tables != w.tables ==>
      s.Commit? && s.run in w.phases && w.phases[s.run].Inserted?
      && (var p := w.phases[s.run]; var after := RowsOf(Next(w, s).tables.history, c);
          && Next(w, s).tables.runs == w.tables.runs + [RunRecord(p.runId, p.at)]
          && (c !in Customers(p.rows) ==> after == RowsOf(w.tables.history, c))
          && (forall i :: 0 <= i < |p.rows| && p.rows[i].customer == c ==>
                after == CloseRows(RowsOf(w.tables.history, c), p.at)
                       + [Row(p.firstId + i, p.runId, p.rows[i].code, p.at, None)]))
  {
    hide OnlyCloses, CloseRows, Inv, RowsOf, Customers;
    if s.Commit? && s.run in w.phases && w.phases[s.run].Inserted? {
      CommitsWhole(w, s.run, c);
    } else {
      OtherStepsCommitNothing(w, s);
      hide Next;
      NothingCloses(RowsOf(w.tables.history, c));
    }
  }

  lemma NothingCloses(rows: seq<Row>)
    ensures OnlyCloses(rows, rows)
  {
  }

  lemma CommitWritesRecorded(w: World, run: nat)
    requires Inv(w) && run in w.phases && w.phases[run].Inserted?
    ensures var p, later := w.phases[run], Next(w, Commit(run));
      && Distinct(Customers(p.rows)) && later.tables == Recorded(w.tables, p.rows, p.runId, p.firstId, p.at)
      && later.tables.runs == w.tables.runs + [RunRecord(p.runId, p.at)]
  {
    hide Settled, CloseAll, InsertAll, CloseAllowed, InsertsAllowed, ReadyAt, Customers, Distinct;
  }

  lemma CommitsWhole(w: World, run: nat, c: Customer)
    requires Inv(w) && run in w.phases && w.phases[run].Inserted?
    ensures var p, later := w.phases[run], Next(w, Commit(run)); var after := RowsOf(later.tables.history, c);
      && OnlyCloses(RowsOf(w.tables.history, c), after)
      && later.tables.runs == w.tables.runs + [RunRecord(p.runId, p.at)]
      && (c !in Customers(p.rows) ==> after == RowsOf(w.tables.history, c))
      && (forall i :: 0 <= i < |p.rows| && p.rows[i].customer == c ==>
            after == CloseRows(RowsOf(w.tables.history, c), p.at) + [Row(p.firstId + i, p.runId, p.rows[i].code, p.at, None)])
  {
    hide Inv, Recorded, OnlyCloses, CloseRows, Distinct, RowsOf, Customers, Next;
    var p := w.phases[run];
    CommitWritesRecorded(w, run);
    RecordedView(w.tables, p.rows, p.runId, p.firstId, p.at, c);
    RecordingOnlyCloses(w.tables, p, c);
  }
}
