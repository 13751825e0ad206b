/** What a recursive UNION query computes: everything reachable over a finite relation. */
module Closure {
  type Edges = set<(int, int)>

  /** One step from any of `from`. */
  function Successors(edges: Edges, from: set<int>): set<int> {
    set e | e in edges && e.0 in from :: e.1
  }

  function Targets(edges: Edges): set<int> { set e | e in edges :: e.1 }

  lemma Shrinks(edges: Edges, found: set<int>, next: set<int>)
    requires next != {} && next !! found && next <= Targets(edges)
    ensures |Targets(edges) - (found + next)| < |Targets(edges) - found|
  {
    assert Targets(edges) - found == (Targets(edges) - (found + next)) + next;
  }

  /** Rounds of a UNION walk: only rows not met before are followed further, so it ends on any
      relation, cyclic ones included. */
  function Walk(edges: Edges, found: set<int>, latest: set<int>): set<int>
    decreases |Targets(edges) - found|
  {
    var next := Successors(edges, latest) - found;
    if next == {} then found
    else
      Shrinks(edges, found, next);
      Walk(edges, found + next, next)
  }

  function Reached(edges: Edges, start: int): set<int> { Walk(edges, {start}, {start}) }

  // ---------- Paths ----------

  ghost predicate IsPath(edges: Edges, path: seq<int>, a: int, b: int) {
    && path != [] && path[0] == a && path[|path|-1] == b
    && forall i :: 0 <= i < |path| - 1 ==> (path[i], path[i+1]) in edges
  }

  ghost predicate Reaches(edges: Edges, a: int, b: int) {
    exists path :: IsPath(edges, path, a, b)
  }

  lemma ReachesItself(edges: Edges, a: int)
    ensures Reaches(edges, a, a)
  {
    assert IsPath(edges, [a], a, a);
  }

  lemma ReachesFurther(edges: Edges, a: int, b: int, c: int)
    requires Reaches(edges, a, b) && (b, c) in edges
    ensures Reaches(edges, a, c)
  {
    var path :| IsPath(edges, path, a, b);
    assert IsPath(edges, path + [c], a, c);
  }

  lemma ReachesFromBefore(edges: Edges, a: int, b: int, c: int)
    requires (a, b) in edges && Reaches(edges, b, c)
    ensures Reaches(edges, a, c)
  {
    var path :| IsPath(edges, path, b, c);
    var longer := [a] + path;
    forall i | 0 <= i < |longer| - 1 ensures (longer[i], longer[i+1]) in edges {
      assert i > 0 ==> longer[i] == path[i-1] && longer[i+1] == path[i];
    }
    assert IsPath(edges, longer, a, c);
  }

  lemma {:induction false} WalkIsSound(edges: Edges, start: int, found: set<int>, latest: set<int>, x: int)
    requires forall y :: y in found || y in latest ==> Reaches(edges, start, y)
    requires x in Walk(edges, found, latest)
    ensures Reaches(edges, start, x)
    decreases |Targets(edges) - found|
  {
    var next := Successors(edges, latest) - found;
    if next != {} {
      forall y | y in next ensures Reaches(edges, start, y) {
        var e :| e in edges && e.0 in latest && e.1 == y;
        ReachesFurther(edges, start, e.0, e.1);
      }
      Shrinks(edges, found, next);
      WalkIsSound(edges, start, found + next, next, x);
    }
  }

  /** The walk leaves no step untaken. */
  lemma {:induction false} WalkIsClosed(edges: Edges, found: set<int>, latest: set<int>)
    requires latest <= found && Successors(edges, found - latest) <= found
    ensures found <= Walk(edges, found, latest)
    ensures Successors(edges, Walk(edges, found, latest)) <= Walk(edges, found, latest)
    decreases |Targets(edges) - found|
  {
    var next := Successors(edges, latest) - found;
    forall e | e in edges && e.0 in found ensures e.1 in found + next {
      if e.0 in latest {
        assert e.1 in Successors(edges, latest);
      } else {
        assert e.1 in Successors(edges, found - latest);
      }
    }
    if next != {} {
      Shrinks(edges, found, next);
      assert (found + next) - next == found;
      WalkIsClosed(edges, found + next, next);
    }
  }

  lemma {:induction false} ClosedHoldsPath(edges: Edges, all: set<int>, path: seq<int>, a: int, b: int)
    requires IsPath(edges, path, a, b) && a in all && Successors(edges, all) <= all
    ensures b in all
    decreases |path|
  {
    if |path| > 1 {
      var before := path[..|path|-1];
      ClosedHoldsPath(edges, all, before, a, before[|before|-1]);
      var e := (path[|path|-2], path[|path|-1]);
      assert e in edges && e.0 in all;
      assert e.1 in Successors(edges, all);
    }
  }

  /** The walk finds exactly what paths reach. */
  lemma WalkFindsWhatPathsReach(edges: Edges, start: int, x: int)
    ensures x in Reached(edges, start) <==> Reaches(edges, start, x)
  {
    ReachesItself(edges, start);
    if x in Reached(edges, start) {
      WalkIsSound(edges, start, {start}, {start}, x);
    }
    WalkIsClosed(edges, {start}, {start});
    if path :| IsPath(edges, path, start, x) {
      ClosedHoldsPath(edges, Reached(edges, start), path, start, x);
    }
  }

  // ---------- Both directions ----------

  function Reversed(edges: Edges): Edges { set e | e in edges :: (e.1, e.0) }

  lemma ReversedPath(edges: Edges, a: int, b: int)
    requires Reaches(edges, a, b)
    ensures Reaches(Reversed(edges), b, a)
  {
    var path :| IsPath(edges, path, a, b);
    var back := seq(|path|, i requires 0 <= i < |path| => path[|path| - 1 - i]);
    forall i | 0 <= i < |back| - 1 ensures (back[i], back[i+1]) in Reversed(edges) {
      var k := |path| - 2 - i;
      assert (path[k], path[k+1]) in edges;
    }
    assert IsPath(Reversed(edges), back, b, a);
  }

  /** Walking down from `a` meets `b` exactly when walking up from `b` meets `a`. */
  lemma WalksAgree(edges: Edges, a: int, b: int)
    ensures b in Reached(edges, a) <==> a in Reached(Reversed(edges), b)
  {
    WalkFindsWhatPathsReach(edges, a, b);
    WalkFindsWhatPathsReach(Reversed(edges), b, a);
    if Reaches(edges, a, b) {
      ReversedPath(edges, a, b);
    }
    if Reaches(Reversed(edges), b, a) {
      ReversedPath(Reversed(edges), b, a);
      assert Reversed(Reversed(edges)) == edges by {
        forall e | e in edges ensures e in Reversed(Reversed(edges)) {
          assert (e.1, e.0) in Reversed(edges);
        }
      }
    }
  }
}
