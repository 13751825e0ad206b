/** Which category writes are refused and why, with "below" told as climbing from parent to parent. */
module CategoryVerdicts {
  import opened Categories
  import opened Closure
  import opened Options

  /** The category n parents above. */
  ghost function Above(t: Table, id: int, n: nat): Option<int>
    decreases n
  {
    if n == 0 then Some(id)
    else if id in t && t[id].parent.Some? then Above(t, t[id].parent.value, n - 1)
    else None
  }

  /** `id` is `root` or below it. */
  ghost predicate Below(t: Table, root: int, id: int) { exists n: nat :: Above(t, id, n) == Some(root) }

  lemma {:induction false} PathClimbs(t: Table, path: seq<int>, id: int, root: int)
    requires IsPath(Reversed(Down(t)), path, id, root)
    ensures Above(t, id, |path| - 1) == Some(root)
    decreases |path|
  {
    if |path| == 1 {
    } else {
      var e := (path[0], path[1]);
      assert e in Reversed(Down(t));
      assert (path[1], path[0]) in Down(t);
      assert IsPath(Reversed(Down(t)), path[1..], path[1], root);
      PathClimbs(t, path[1..], path[1], root);
    }
  }

  lemma {:induction false} ClimbIsPath(t: Table, id: int, n: nat, root: int) returns (path: seq<int>)
    requires Above(t, id, n) == Some(root)
    ensures IsPath(Reversed(Down(t)), path, id, root)
    decreases n
  {
    if n == 0 {
      path := [id];
    } else {
      var parent := t[id].parent.value;
      var rest := ClimbIsPath(t, parent, n - 1, root);
      assert (parent, id) in Down(t);
      assert (id, parent) in Reversed(Down(t));
      path := [id] + rest;
    }
  }

  /** Both guards look for the root above the candidate. */
  lemma GuardsLookAbove(t: Table, root: int, id: int)
    ensures IsInSubtree(t, root, id) <==> Below(t, root, id)
    ensures IsAmongAncestors(t, id, root) <==> Below(t, root, id)
  {
    GuardsAgree(t, root, id);
    WalkFindsWhatPathsReach(Reversed(Down(t)), id, root);
    if path :| IsPath(Reversed(Down(t)), path, id, root) {
      PathClimbs(t, path, id, root);
    }
    if n: nat :| Above(t, id, n) == Some(root) {
      var path := ClimbIsPath(t, id, n, root);
    }
  }

  ghost predicate SameName(t: Table, name: string, id: int) { id in t && t[id].name == name }

  lemma TakenExactly(t: Table, name: string, except: set<int>)
    ensures NameTaken(t, name, except) <==> exists other :: other !in except && SameName(t, name, other)
  {
    if other :| other in t && other !in except && t[other].name == name {
      assert SameName(t, name, other);
    }
  }

  /** A new category is refused for lying below itself, a used id, a used name or a missing parent,
      in that order. */
  lemma CreateDecides(t: Table, id: int, name: string, parent: Option<int>)
    ensures Create(t, id, name, parent)
         == if parent.Some? && Below(t, id, parent.value) then Refused(CategoryCycle)
            else if id in t then Refused(IdExists)
            else if exists other :: SameName(t, name, other) then Refused(NameExists)
            else if parent.Some? && parent.value !in t then Refused(NoSuchParent)
            else Written(t[id := Category(name, parent)])
  {
    if parent.Some? {
      GuardsLookAbove(t, id, parent.value);
      assert Above(t, id, 0) == Some(id);
    }
    hide IsAmongAncestors, Below;
    TakenExactly(t, name, {});
  }

  /** A change is refused for putting a category below itself, a name another one has or a missing
      parent, in that order; a category that is not there stays away. */
  lemma UpdateDecides(t: Table, id: int, name: string, parent: Option<int>)
    ensures Update(t, id, name, parent)
         == if parent.Some? && Below(t, id, parent.value) then Refused(CategoryCycle)
            else if id !in t then Written(t)
            else if exists other :: other != id && SameName(t, name, other) then Refused(NameExists)
            else if parent.Some? && parent.value !in t then Refused(NoSuchParent)
            else Written(t[id := Category(name, parent)])
  {
    if parent.Some? {
      GuardsLookAbove(t, id, parent.value);
      assert Above(t, id, 0) == Some(id);
    }
    hide IsAmongAncestors, IsInSubtree, Below;
    TakenExactly(t, name, {id});
  }

  /** A category goes unless another one or a product is under it. */
  lemma DeleteDecides(t: Table, id: int, used: set<int>)
    ensures Delete(t, id, used)
         == if id !in t then Written(t)
            else if id in used || exists child :: child in t && t[child].parent == Some(id) then Refused(StillReferenced)
            else Written(map x | x in t && x != id :: t[x])
  {
  }
}
