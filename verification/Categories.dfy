/** The category hierarchy: every write keeps it a forest, guarded twice. */
module Categories {
  import opened Closure
  import opened Options

  datatype Category = Category(name: string, parent: Option<int>)
  type Table = map<int, Category>

  datatype Refusal = CategoryCycle | IdExists | NameExists | NoSuchParent | StillReferenced
  datatype Result = Written(table: Table) | Refused(why: Refusal)

  // ---------- The two walks ----------

  /** From a parent to its child. */
  function Down(t: Table): Edges {
    set id | id in t && t[id].parent.Some? :: (t[id].parent.value, id)
  }

  /** Whether `candidate` is `root` or below it: the service's walk down. */
  predicate IsInSubtree(t: Table, root: int, candidate: int) { candidate in Reached(Down(t), root) }

  /** The trigger's walk up from a new parent. */
  predicate IsAmongAncestors(t: Table, parent: int, id: int) { id in Reached(Reversed(Down(t)), parent) }

  /** The service's guard and the trigger's refuse the same moves, on any table. */
  lemma GuardsAgree(t: Table, id: int, parent: int)
    ensures IsInSubtree(t, id, parent) <==> IsAmongAncestors(t, parent, id)
  {
    WalksAgree(Down(t), id, parent);
  }

  // ---------- The writes ----------

  ghost predicate NameTaken(t: Table, name: string, except: set<int>) {
    exists id :: id in t && id !in except && t[id].name == name
  }

  ghost predicate HasChildren(t: Table, id: int) {
    exists child :: child in t && t[child].parent == Some(id)
  }

  ghost predicate TriggerRefuses(t: Table, id: int, parent: Option<int>) {
    parent.Some? && IsAmongAncestors(t, parent.value, id)
  }

  ghost predicate ParentMissing(t: Table, id: int, parent: Option<int>) {
    parent.Some? && parent.value !in t && parent.value != id
  }

  ghost function Create(t: Table, id: int, name: string, parent: Option<int>): Result {
    if TriggerRefuses(t, id, parent) then Refused(CategoryCycle)
    else if id in t then Refused(IdExists)
    else if NameTaken(t, name, {}) then Refused(NameExists)
    else if ParentMissing(t, id, parent) then Refused(NoSuchParent)
    else Written(t[id := Category(name, parent)])
  }

  /** The statement alone, as the trigger and the constraints judge it; a row that is not there
      is not updated. */
  ghost function UpdateRow(t: Table, id: int, name: string, parent: Option<int>): Result {
    if id !in t then Written(t)
    else if TriggerRefuses(t, id, parent) then Refused(CategoryCycle)
    else if NameTaken(t, name, {id}) then Refused(NameExists)
    else if ParentMissing(t, id, parent) then Refused(NoSuchParent)
    else Written(t[id := Category(name, parent)])
  }

  /** The statement after the service's own guard, both on one table. */
  ghost function Update(t: Table, id: int, name: string, parent: Option<int>): Result {
    if parent.Some? && IsInSubtree(t, id, parent.value) then Refused(CategoryCycle)
    else UpdateRow(t, id, name, parent)
  }

  /** `used` are the categories products carry. */
  ghost function Delete(t: Table, id: int, used: set<int>): Result {
    if id !in t then Written(t)
    else if HasChildren(t, id) || id in used then Refused(StillReferenced)
    else Written(t - {id})
  }

  class Catalog {
    var table: Table

    constructor ()
      ensures table == map[]
    {
      table := map[];
    }

    method IsNameTaken(name: string, except: set<int>) returns (taken: bool)
      ensures taken <==> NameTaken(table, name, except)
    {
      taken := exists id :: id in table && id !in except && table[id].name == name;
    }

    method CreateCategory(id: int, name: string, parent: Option<int>) returns (refusal: Option<Refusal>)
      modifies this
      ensures (match Create(old(table), id, name, parent)
               case Written(after) => refusal.None? && table == after
               case Refused(why) => refusal == Some(why) && table == old(table))
    {
      if parent.Some? && IsAmongAncestors(table, parent.value, id) {
        return Some(CategoryCycle);
      }
      if id in table {
        return Some(IdExists);
      }
      var taken := IsNameTaken(name, {});
      if taken {
        return Some(NameExists);
      }
      if parent.Some? && parent.value !in table && parent.value != id {
        return Some(NoSuchParent);
      }
      table := table[id := Category(name, parent)];
      refusal := None;
    }

    method UpdateCategory(id: int, name: string, parent: Option<int>) returns (refusal: Option<Refusal>)
      modifies this
      ensures (match Update(old(table), id, name, parent)
               case Written(after) => refusal.None? && table == after
               case Refused(why) => refusal == Some(why) && table == old(table))
    {
      if parent.Some? && IsInSubtree(table, id, parent.value) {
        return Some(CategoryCycle);
      }
      refusal := UpdateStored(id, name, parent);
    }

    /** What the database does with an update, whenever the service's guard was taken. */
    method UpdateStored(id: int, name: string, parent: Option<int>) returns (refusal: Option<Refusal>)
      modifies this
      ensures (match UpdateRow(old(table), id, name, parent)
               case Written(after) => refusal.None? && table == after
               case Refused(why) => refusal == Some(why) && table == old(table))
    {
      if id !in table {
        return None;
      }
      if parent.Some? && IsAmongAncestors(table, parent.value, id) {
        return Some(CategoryCycle);
      }
      var taken := IsNameTaken(name, {id});
      if taken {
        return Some(NameExists);
      }
      if parent.Some? && parent.value !in table && parent.value != id {
        return Some(NoSuchParent);
      }
      table := table[id := Category(name, parent)];
      refusal := None;
    }

    method DeleteCategory(id: int, used: set<int>) returns (refusal: Option<Refusal>)
      modifies this
      ensures (match Delete(old(table), id, used)
               case Written(after) => refusal.None? && table == after
               case Refused(why) => refusal == Some(why) && table == old(table))
    {
      if id !in table {
        return None;
      }
      if id in used || exists child :: child in table && table[child].parent == Some(id) {
        return Some(StillReferenced);
      }
      table := table - {id};
      refusal := None;
    }
  }

  // ---------- A forest ----------

  /** Climbing at most n parents from `id`, all of them stored, ends at a top-level category. */
  predicate Climbs(t: Table, id: int, n: nat)
    decreases n
  {
    id in t && (t[id].parent.None? || (n > 0 && Climbs(t, t[id].parent.value, n - 1)))
  }

  ghost predicate Grounded(t: Table, id: int) { exists n: nat :: Climbs(t, id, n) }

  /** Every parent is stored and no category is above itself. */
  ghost predicate Forest(t: Table) { forall id :: id in t ==> Grounded(t, id) }

  ghost predicate NamesDiffer(t: Table) {
    forall i, j :: i in t && j in t && i != j ==> t[i].name != t[j].name
  }

  lemma ParentIsGrounded(t: Table, id: int)
    requires Grounded(t, id) && t[id].parent.Some?
    ensures Grounded(t, t[id].parent.value)
  {
    var n: nat :| Climbs(t, id, n);
    assert Climbs(t, t[id].parent.value, n - 1);
  }

  /** Above a stored category is its parent and what is above that. */
  lemma AncestorsOfParent(t: Table, id: int, above: int)
    requires id in t && t[id].parent.Some? && IsAmongAncestors(t, t[id].parent.value, above)
    ensures IsAmongAncestors(t, id, above)
  {
    var up := Reversed(Down(t));
    var parent := t[id].parent.value;
    assert (parent, id) in Down(t);
    assert (id, parent) in up;
    WalkFindsWhatPathsReach(up, parent, above);
    WalkFindsWhatPathsReach(up, id, above);
    ReachesFromBefore(up, id, parent, above);
  }

  lemma AboveItself(t: Table, id: int)
    ensures IsAmongAncestors(t, id, id)
  {
    WalkFindsWhatPathsReach(Reversed(Down(t)), id, id);
    ReachesItself(Reversed(Down(t)), id);
  }

  /** A climb that does not pass `id` does not notice a change to `id`. */
  lemma {:induction false} ClimbAvoids(t: Table, start: int, n: nat, id: int, category: Category)
    requires Climbs(t, start, n) && !IsAmongAncestors(t, start, id)
    ensures Climbs(t[id := category], start, n)
    decreases n
  {
    AboveItself(t, start);
    if t[start].parent.Some? {
      if IsAmongAncestors(t, t[start].parent.value, id) {
        AncestorsOfParent(t, start, id);
      }
      hide IsAmongAncestors;
      ClimbAvoids(t, t[start].parent.value, n - 1, id, category);
    }
  }

  /** Once the changed category is grounded, so is everything that climbed through it. */
  lemma {:induction false} ClimbsAfterMove(t: Table, start: int, n: nat, id: int, category: Category)
    requires Climbs(t, start, n) && Grounded(t[id := category], id)
    ensures Grounded(t[id := category], start)
    decreases n
  {
    var after := t[id := category];
    if start != id {
      if t[start].parent.Some? {
        ClimbsAfterMove(t, t[start].parent.value, n - 1, id, category);
        var m: nat :| Climbs(after, t[start].parent.value, m);
        assert Climbs(after, start, m + 1);
      } else {
        assert Climbs(after, start, 0);
      }
    }
  }

  /** Putting a category under a grounded one that is not below it keeps the forest. */
  lemma MoveKeepsForest(t: Table, id: int, name: string, parent: Option<int>)
    requires Forest(t)
    requires parent.Some? ==> parent.value in t && !IsAmongAncestors(t, parent.value, id)
    ensures Forest(t[id := Category(name, parent)])
  {
    var category := Category(name, parent);
    var after := t[id := category];
    if parent.Some? {
      var n: nat :| Climbs(t, parent.value, n);
      ClimbAvoids(t, parent.value, n, id, category);
      assert Climbs(after, id, n + 1);
    } else {
      assert Climbs(after, id, 0);
    }
    hide IsAmongAncestors;
    forall x | x in after ensures Grounded(after, x) {
      if x != id {
        var n: nat :| Climbs(t, x, n);
        ClimbsAfterMove(t, x, n, id, category);
      }
    }
  }

  lemma {:induction false} ClimbAfterDelete(t: Table, start: int, n: nat, id: int)
    requires Climbs(t, start, n) && !HasChildren(t, id) && start != id
    ensures Climbs(t - {id}, start, n)
    decreases n
  {
    if t[start].parent.Some? {
      ClimbAfterDelete(t, t[start].parent.value, n - 1, id);
    }
  }

  // ---------- Every sequence of writes ----------

  datatype Step =
    | CreateStep(id: int, name: string, parent: Option<int>)
    | UpdateStep(id: int, name: string, parent: Option<int>)
    // Passed the service's guard at some earlier moment.
    | LateUpdateStep(id: int, name: string, parent: Option<int>)
    | DeleteStep(id: int, used: set<int>)

  ghost function ResultOf(t: Table, step: Step): Result {
    match step
    case CreateStep(id, name, parent) => Create(t, id, name, parent)
    case UpdateStep(id, name, parent) => Update(t, id, name, parent)
    case LateUpdateStep(id, name, parent) => UpdateRow(t, id, name, parent)
    case DeleteStep(id, used) => Delete(t, id, used)
  }

  ghost function Next(t: Table, step: Step): Table {
    var result := ResultOf(t, step);
    if result.Written? then result.table else t
  }

  ghost function Run(t: Table, steps: seq<Step>): Table {
    if steps == [] then t else Next(Run(t, steps[..|steps|-1]), steps[|steps|-1])
  }

  lemma StepKeepsForest(t: Table, step: Step)
    requires Forest(t) && NamesDiffer(t)
    ensures Forest(Next(t, step)) && NamesDiffer(Next(t, step))
  {
    if ResultOf(t, step).Written? {
      match step
      case CreateStep(id, name, parent) =>
        NewCategoryKeepsForest(t, id, name, parent);
      case UpdateStep(id, name, parent) =>
        UpdateKeepsForest(t, id, name, parent);
      case LateUpdateStep(id, name, parent) =>
        UpdateKeepsForest(t, id, name, parent);
      case DeleteStep(id, used) =>
        if id in t {
          forall x | x in t - {id} ensures Grounded(t - {id}, x) {
            var n: nat :| Climbs(t, x, n);
            ClimbAfterDelete(t, x, n, id);
          }
        }
    }
  }

  lemma UpdateKeepsForest(t: Table, id: int, name: string, parent: Option<int>)
    requires Forest(t) && NamesDiffer(t) && UpdateRow(t, id, name, parent).Written?
    ensures Forest(UpdateRow(t, id, name, parent).table) && NamesDiffer(UpdateRow(t, id, name, parent).table)
  {
    if id in t {
      AboveItself(t, id);
      hide IsAmongAncestors;
      MoveKeepsForest(t, id, name, parent);
    }
  }

  lemma NewCategoryKeepsForest(t: Table, id: int, name: string, parent: Option<int>)
    requires Forest(t) && NamesDiffer(t) && Create(t, id, name, parent).Written?
    ensures Forest(Create(t, id, name, parent).table) && NamesDiffer(Create(t, id, name, parent).table)
  {
    AboveItself(t, id);
    hide IsAmongAncestors;
    MoveKeepsForest(t, id, name, parent);
  }

  /** Over every sequence of creates, updates and deletes, accepted or refused, and whenever the
      service's guard was taken, the hierarchy stays a forest with existing parents and distinct
      names. */
  lemma {:induction false} EveryRunKeepsForest(t: Table, steps: seq<Step>)
    requires Forest(t) && NamesDiffer(t)
    ensures Forest(Run(t, steps)) && NamesDiffer(Run(t, steps))
  {
    if steps == [] {
    } else {
      EveryRunKeepsForest(t, steps[..|steps|-1]);
      StepKeepsForest(Run(t, steps[..|steps|-1]), steps[|steps|-1]);
    }
  }

  // ---------- The guard is exact ----------

  /** Nothing on a closed loop of parents is grounded. */
  lemma {:induction false} LoopIsNotGrounded(t: Table, loop: set<int>, x: int, n: nat)
    requires x in loop
    requires forall y :: y in loop && y in t ==> t[y].parent.Some? && t[y].parent.value in loop
    ensures !Climbs(t, x, n)
    decreases n
  {
    if x in t && n > 0 {
      LoopIsNotGrounded(t, loop, t[x].parent.value, n - 1);
    }
  }

  /** Everything between `id` and a category below it, by parents. */
  lemma {:induction false} StretchBelow(t: Table, id: int, path: seq<int>, x: int) returns (stretch: set<int>)
    requires IsPath(Down(t), path, id, x)
    ensures id in stretch && x in stretch
    ensures forall y :: y in stretch && y != id ==> y in t && t[y].parent.Some? && t[y].parent.value in stretch
    decreases |path|
  {
    if |path| == 1 {
      stretch := {id};
    } else {
      var before := path[..|path|-1];
      stretch := StretchBelow(t, id, before, before[|before|-1]);
      var e := (path[|path|-2], path[|path|-1]);
      assert e in Down(t);
      stretch := stretch + {x};
    }
  }

  /** Moving a stored category under a stored parent leaves a forest exactly when the guard
      lets it: the guard refuses no sound move and lets through no cycle. */
  lemma GuardIsExact(t: Table, id: int, name: string, parent: int)
    requires Forest(t) && id in t && parent in t
    ensures Forest(t[id := Category(name, Some(parent))]) <==> !IsInSubtree(t, id, parent)
  {
    GuardsAgree(t, id, parent);
    if !IsInSubtree(t, id, parent) {
      MoveKeepsForest(t, id, name, Some(parent));
    } else {
      WalkFindsWhatPathsReach(Down(t), id, parent);
      var path :| IsPath(Down(t), path, id, parent);
      var loop := StretchBelow(t, id, path, parent);
      var after := t[id := Category(name, Some(parent))];
      forall n: nat ensures !Climbs(after, id, n) {
        LoopIsNotGrounded(after, loop, id, n);
      }
      assert !Grounded(after, id);
    }
  }

  /** In a forest no category is below itself by way of another. */
  lemma ForestHasNoCycle(t: Table, id: int)
    requires Forest(t) && id in t && t[id].parent.Some?
    ensures !IsInSubtree(t, id, t[id].parent.value)
  {
    var parent := t[id].parent.value;
    ParentIsGrounded(t, id);
    assert parent in t;
    GuardIsExact(t, id, t[id].name, parent);
    assert t[id := Category(t[id].name, Some(parent))] == t;
  }

  /** Of two opposite moves that both passed the service's guard the second is refused by the
      trigger, where without it a cycle would be stored. */
  lemma SecondOppositeMoveIsRefused(t: Table, a: int, b: int, name: string, other: string)
    requires Forest(t) && a in t && b in t
    requires !IsInSubtree(t, a, b) && !IsInSubtree(t, b, a)
    ensures var after := t[a := Category(name, Some(b))];
      && Forest(after) && UpdateRow(after, b, other, Some(a)) == Refused(CategoryCycle)
      && !Forest(after[b := Category(other, Some(a))])
  {
    var after := t[a := Category(name, Some(b))];
    GuardIsExact(t, a, name, b);
    AboveItself(after, b);
    AncestorsOfParent(after, a, b);
    GuardsAgree(after, b, a);
    GuardIsExact(after, b, other, a);
  }
}
