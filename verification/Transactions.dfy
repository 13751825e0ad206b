/** Service units of work: the outermost call on a connection owns its transaction, nested
    calls on the same connection join it. */
module Transactions {
  /** A connection keeps the writes it has committed and those its transaction sees. */
  datatype Connection = Connection(committed: seq<int>, working: seq<int>)
  type Connections = map<nat, Connection>

  /** What service code may do: `Unit` is a call of a service operation on a connection, and
      `Attempt` a call whose refusal the caller handles. */
  datatype Code =
    | Nothing
    | Write(connection: nat, value: int)
    | Refuse
    | Then(first: Code, second: Code)
    | Attempt(body: Code, handler: Code)
    | Unit(connection: nat, body: Code)

  datatype Result = Result(connections: Connections, refused: bool)

  function Get(all: Connections, c: nat): Connection {
    if c in all then all[c] else Connection([], [])
  }

  function Finished(connection: Connection, refused: bool): Connection {
    if refused then connection.(working := connection.committed) else connection.(committed := connection.working)
  }

  function Exec(code: Code, owners: seq<nat>, all: Connections): Result
    decreases code
  {
    match code
    case Nothing => Result(all, false)
    case Write(c, value) => Result(all[c := Get(all, c).(working := Get(all, c).working + [value])], false)
    case Refuse => Result(all, true)
    case Then(first, second) =>
      var r := Exec(first, owners, all);
      if r.refused then r else Exec(second, owners, r.connections)
    case Attempt(body, handler) =>
      var r := Exec(body, owners, all);
      if r.refused then Exec(handler, owners, r.connections) else r
    case Unit(c, body) =>
      if c in owners then Exec(body, owners, all)
      else
        var r := Exec(body, owners + [c], all);
        Result(r.connections[c := Finished(Get(r.connections, c), r.refused)], r.refused)
  }

  /** Runs service code over live connections, keeping the stack of owners. */
  class Session {
    var connections: Connections
    var owners: seq<nat>

    constructor ()
      ensures connections == map[] && owners == []
    {
      connections, owners := map[], [];
    }

    method Execute(code: Code) returns (refused: bool)
      modifies this
      ensures owners == old(owners)
      ensures Result(connections, refused) == Exec(code, old(owners), old(connections))
      decreases code
    {
      match code
      case Nothing =>
        refused := false;
      case Write(c, value) =>
        connections := connections[c := Get(connections, c).(working := Get(connections, c).working + [value])];
        refused := false;
      case Refuse =>
        refused := true;
      case Then(first, second) =>
        refused := Execute(first);
        if !refused {
          refused := Execute(second);
        }
      case Attempt(body, handler) =>
        refused := Execute(body);
        if refused {
          refused := Execute(handler);
        }
      case Unit(c, body) =>
        if c in owners {
          refused := Execute(body);
        } else {
          var token := owners;
          owners := owners + [c];
          refused := Execute(body);
          connections := connections[c := Finished(Get(connections, c), refused)];
          owners := token;
        }
    }
  }

  // ---------- what the code alone decides ----------

  /** Whether code ends in a refusal nobody handled. */
  function Refuses(code: Code): bool {
    match code
    case Nothing => false
    case Write(_, _) => false
    case Refuse => true
    case Then(first, second) => Refuses(first) || Refuses(second)
    case Attempt(body, handler) => Refuses(body) && Refuses(handler)
    case Unit(_, body) => Refuses(body)
  }

  /** What the code that is reached writes to a connection. */
  function Written(code: Code, c: nat): seq<int> {
    match code
    case Nothing => []
    case Write(d, value) => if d == c then [value] else []
    case Refuse => []
    case Then(first, second) => Written(first, c) + (if Refuses(first) then [] else Written(second, c))
    case Attempt(body, handler) => Written(body, c) + (if Refuses(body) then Written(handler, c) else [])
    case Unit(_, body) => Written(body, c)
  }

  /** A refusal depends on the code, not on owners or stored data. */
  lemma {:induction false} RefusalIsInTheCode(code: Code, owners: seq<nat>, all: Connections)
    ensures Exec(code, owners, all).refused == Refuses(code)
  {
    match code
    case Nothing =>
    case Write(_, _) =>
    case Refuse =>
    case Then(first, second) =>
      RefusalIsInTheCode(first, owners, all);
      RefusalIsInTheCode(second, owners, Exec(first, owners, all).connections);
    case Attempt(body, handler) =>
      RefusalIsInTheCode(body, owners, all);
      RefusalIsInTheCode(handler, owners, Exec(body, owners, all).connections);
    case Unit(d, body) =>
      RefusalIsInTheCode(body, owners, all);
      RefusalIsInTheCode(body, owners + [d], all);
  }

  /** Below its owner a connection gains exactly what the code writes, refused or not, and
      commits none of it. */
  lemma {:induction false} WritesAreInTheCode(code: Code, owners: seq<nat>, all: Connections, c: nat)
    requires c in owners
    ensures (Get(Exec(code, owners, all).connections, c)
             == Connection(Get(all, c).committed, Get(all, c).working + Written(code, c)))
  {
    match code
    case Nothing =>
      assert Get(all, c).working + [] == Get(all, c).working;
    case Write(_, _) =>
      assert Get(all, c).working + [] == Get(all, c).working;
    case Refuse =>
      assert Get(all, c).working + [] == Get(all, c).working;
    case Then(first, second) =>
      RefusalIsInTheCode(first, owners, all);
      WritesAreInTheCode(first, owners, all, c);
      WritesAreInTheCode(second, owners, Exec(first, owners, all).connections, c);
      AddedInTurn(Get(all, c).working, Written(first, c), Written(second, c));
    case Attempt(body, handler) =>
      RefusalIsInTheCode(body, owners, all);
      WritesAreInTheCode(body, owners, all, c);
      WritesAreInTheCode(handler, owners, Exec(body, owners, all).connections, c);
      AddedInTurn(Get(all, c).working, Written(body, c), Written(handler, c));
    case Unit(d, body) =>
      WritesAreInTheCode(body, owners, all, c);
      WritesAreInTheCode(body, owners + [d], all, c);
  }

  lemma AddedInTurn(s: seq<int>, x: seq<int>, y: seq<int>)
    ensures s + x + y == s + (x + y) && s + (x + []) == s + x
  {
    assert x + [] == x;
  }

  /** So nothing below its owner commits or rolls back a connection: its committed writes stay
      put and its working writes only grow. */
  lemma NestedCallsJoin(code: Code, owners: seq<nat>, all: Connections, c: nat)
    requires c in owners
    ensures var after := Get(Exec(code, owners, all).connections, c);
            after.committed == Get(all, c).committed && Get(all, c).working <= after.working
  {
    WritesAreInTheCode(code, owners, all, c);
  }

  /** The whole of what a unit of work writes is committed on top of what was waiting, or none
      of either is: which of the two, and what, the code alone decides. */
  lemma UnitIsAllOrNothing(c: nat, body: Code, owners: seq<nat>, all: Connections)
    requires c !in owners
    ensures var before, after := Get(all, c), Get(Exec(Unit(c, body), owners, all).connections, c);
            && after.committed == after.working
            && after.committed == if Refuses(body) then before.committed else before.working + Written(body, c)
  {
    RefusalIsInTheCode(body, owners + [c], all);
    WritesAreInTheCode(body, owners + [c], all, c);
  }

  /** The code with every call boundary on `c` taken away. */
  function Inlined(code: Code, c: nat): Code {
    match code
    case Then(first, second) => Then(Inlined(first, c), Inlined(second, c))
    case Attempt(body, handler) => Attempt(Inlined(body, c), Inlined(handler, c))
    case Unit(d, body) => if d == c then Inlined(body, c) else Unit(d, Inlined(body, c))
    case _ => code
  }

  /** Inside an owner, call boundaries on its connection mean nothing: the code does exactly
      what it would with every such call written out in place. */
  lemma {:induction false} BoundariesMeanNothingInside(code: Code, owners: seq<nat>, all: Connections, c: nat)
    requires c in owners
    ensures Exec(Inlined(code, c), owners, all) == Exec(code, owners, all)
  {
    match code
    case Nothing =>
    case Write(_, _) =>
    case Refuse =>
    case Then(first, second) =>
      BoundariesMeanNothingInside(first, owners, all, c);
      BoundariesMeanNothingInside(second, owners, Exec(first, owners, all).connections, c);
    case Attempt(body, handler) =>
      BoundariesMeanNothingInside(body, owners, all, c);
      BoundariesMeanNothingInside(handler, owners, Exec(body, owners, all).connections, c);
    case Unit(d, body) =>
      BoundariesMeanNothingInside(body, owners, all, c);
      BoundariesMeanNothingInside(body, owners + [d], all, c);
  }

  /** After a handled refusal the connection is as it was before the call exactly when: the
      call owned it and no earlier write was waiting uncommitted, which the rollback takes too;
      or it joined, and its code writes nothing there before it refuses, for what a joined call
      writes stays in its owner's transaction. */
  lemma HandledRefusalIsUndoneExactly(c: nat, body: Code, owners: seq<nat>, all: Connections)
    requires Refuses(body)
    ensures var before, r := Get(all, c), Exec(Attempt(Unit(c, body), Nothing), owners, all);
            && !r.refused
            && (Get(r.connections, c) == before <==>
                  if c !in owners then before.working == before.committed else Written(body, c) == [])
            && (Get(r.connections, c)
                == Connection(before.committed, if c !in owners then before.committed else before.working + Written(body, c)))
  {
    RefusalIsInTheCode(body, owners, all);
    RefusalIsInTheCode(body, owners + [c], all);
    WritesAreInTheCode(body, owners + [c], all, c);
    if c in owners {
      WritesAreInTheCode(body, owners, all, c);
    }
  }

  /** So a joined call that writes, refuses and is handled is committed with its owner, where
      the same call on its own would have left nothing. */
  lemma HandledRefusalCanBeCommitted()
    ensures var call := Unit(0, Then(Write(0, 7), Refuse));
            && Get(Exec(Unit(0, Attempt(call, Nothing)), [], map[]).connections, 0).committed == [7]
            && Get(Exec(Attempt(call, Nothing), [], map[]).connections, 0).committed == []
  {
    var call := Unit(0, Then(Write(0, 7), Refuse));
    var joined := Exec(call, [0], map[]);
    assert joined == Exec(Then(Write(0, 7), Refuse), [0], map[]);
    assert joined.refused && Get(joined.connections, 0) == Connection([], [7]);
    assert Exec(Attempt(call, Nothing), [0], map[]).connections == joined.connections;
  }
}
