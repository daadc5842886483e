// The cycle check of libdrm.c: depth-first search that never takes a vertex out of the set of visited ones.
module DrmCycles {
  import opened Graphs

  // A set that is changed in place.
  class Marks<V(==)> {
    var elems: set<V>

    constructor ()
      ensures elems == {}
    {
      elems := {};
    }
  }

  // isCyclic: it fails to find anything if and only if no walk from the node ends in a vertex visited
  // before, and no two walks from it end in the same vertex. The last statement of the original gives the
  // parameter a new set, which the caller does not see.
  method IsCyclic<V(==, !new)>(g: Graph<V>, isVisited: Marks<V>, node: V) returns (found: bool)
    requires Closed(g) && node in g && isVisited.elems <= g.Keys
    modifies isVisited
    ensures found <==> !Unshared(g, node, old(isVisited.elems))
    ensures isVisited.elems <= g.Keys
    ensures !found ==> forall x :: x in isVisited.elems <==> x in old(isVisited.elems) || Reaches(g, node, x)
    decreases g.Keys - isVisited.elems
  {
    ghost var seen := isVisited.elems;
    assert WalkFrom(g, node, [node]) && Last([node]) == node;
    if node in isVisited.elems {
      return true;
    }
    isVisited.elems := isVisited.elems + {node};
    var rest := g[node];
    while rest != {}
      invariant rest <= g[node] && seen + {node} <= isVisited.elems <= g.Keys
      invariant forall x :: x in isVisited.elems <==>
        x in seen || x == node || exists u :: Edge(g, node, u) && u !in rest && Reaches(g, u, x)
      invariant forall u :: Edge(g, node, u) && u !in rest ==> Unshared(g, u, seen + {node})
      invariant forall u, w, y :: Edge(g, node, u) && Edge(g, node, w) && u !in rest && w !in rest ==>
        u != w && Reaches(g, u, y) ==> !Reaches(g, w, y)
    {
      var w :| w in rest;
      assert Edge(g, node, w);
      ghost var before, left := isVisited.elems, rest;
      rest := rest - {w};
      var deeper := IsCyclic(g, isVisited, w);
      if deeper {
        SharedStep(g, node, w, seen, before);
        return true;
      }
      SearchedOne(g, node, w, seen, before, left);
    }
    UnsharedStep(g, node, seen);
    ReachesStep(g, node);
    var fresh' := new Marks<V>();
    return false;
  }

  // One more successor has been searched without success.
  lemma SearchedOne<V(!new)>(g: Graph<V>, node: V, w: V, seen: set<V>, before: set<V>, rest: set<V>)
    requires Closed(g) && Edge(g, node, w) && w in rest && Unshared(g, w, before) && seen + {node} <= before
    requires forall x :: x in before <==>
      x in seen || x == node || exists u :: Edge(g, node, u) && u !in rest && Reaches(g, u, x)
    ensures Unshared(g, w, seen + {node})
    ensures forall u, y :: Edge(g, node, u) && u !in rest && Reaches(g, u, y) ==> !Reaches(g, w, y)
  {
    forall u, y | Edge(g, node, u) && u !in rest && Reaches(g, u, y) ensures !Reaches(g, w, y) {
      assert y in before;
    }
  }

  lemma ReachesStep<V(!new)>(g: Graph<V>, node: V)
    requires Closed(g) && node in g
    ensures forall x :: Reaches(g, node, x) <==> x == node || exists u :: Edge(g, node, u) && Reaches(g, u, x)
  {
    forall x ensures Reaches(g, node, x) <==> x == node || exists u :: Edge(g, node, u) && Reaches(g, u, x) {
      if Reaches(g, node, x) && x != node {
        var p :| WalkFrom(g, node, p) && Last(p) == x;
        WalkUncons(g, p);
        assert Edge(g, node, p[1]) && Reaches(g, p[1], x);
      }
      if x == node {
        assert WalkFrom(g, node, [node]) && Last([node]) == x;
      } else if u :| Edge(g, node, u) && Reaches(g, u, x) {
        var p :| WalkFrom(g, u, p) && Last(p) == x;
        WalkCons(g, node, p);
        assert WalkFrom(g, node, [node] + p);
      }
    }
  }

  // In other graphs the check goes wrong: here there is no cycle, but two walks to the same vertex.
  lemma DiamondHasNoCycle(g: Graph<int>)
    requires g == map[0 := {1, 2}, 1 := {3}, 2 := {3}, 3 := {}]
    ensures !CycleFrom(g, 0) && !Unshared(g, 0, {})
  {
    forall p | WalkFrom(g, 0, p) ensures !Repeats(p) {
      forall i | 0 <= i < |p| - 1 ensures p[i] < p[i + 1] {
        assert Edge(g, p[i], p[i + 1]);
      }
      forall i, j | 0 <= i < j < |p| ensures p[i] < p[j] {
        Increasing(p, i, j);
      }
    }
    assert WalkFrom(g, 0, [0, 1, 3]) && WalkFrom(g, 0, [0, 2, 3]);
    assert [0, 1, 3][1] != [0, 2, 3][1];
  }

  lemma {:induction false} Increasing(p: seq<int>, i: nat, j: nat)
    requires i < j < |p| && forall k :: 0 <= k < |p| - 1 ==> p[k] < p[k + 1]
    ensures p[i] < p[j]
  {
    if j > i + 1 {
      Increasing(p, i, j - 1);
    }
  }
}
