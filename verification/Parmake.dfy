// The cycle check of parmake.c: depth-first search with one set of the vertices on the current path.
module Parmake {
  import opened Graphs

  // The static variables g and visited; the null pointer is the empty set here.
  class Make<V(==, !new)> {
    const g: Graph<V>
    var visited: set<V>

    constructor (g: Graph<V>)
      ensures this.g == g && visited == {}
    {
      this.g := g;
      visited := {};
    }

    // isCyclic: true if and only if some walk from the file comes back to the path or to itself. After a
    // false result the path is what it was, so that a shared dependency is not taken for a cycle.
    method IsCyclic(file: V) returns (cyclic: bool)
      requires Closed(g) && file in g && visited <= g.Keys
      modifies this
      ensures cyclic <==> Hits(g, file, old(visited))
      ensures !cyclic ==> visited == old(visited)
      decreases g.Keys - visited
    {
      if file in visited {
        assert WalkFrom(g, file, [file]) && [file][0] in visited && HitsWith([file], visited);
        return true;
      }
      HitsStep(g, file, visited);
      visited := visited + {file};
      var neighbors := g[file];
      if neighbors == {} {
        visited := visited - {file};
        return false;
      } else {
        var rest := neighbors;
        while rest != {}
          invariant rest <= neighbors && visited == old(visited) + {file}
          invariant forall w :: w in neighbors - rest ==> !Hits(g, w, visited)
        {
          var w :| w in rest;
          assert Edge(g, file, w);
          rest := rest - {w};
          var found := IsCyclic(w);
          if found {
            return true;
          }
        }
      }
      visited := visited - {file};
      return false;
    }

    // The loop of parmake over the goals, without the work on goals that have no cycle.
    method CheckGoals(goals: seq<V>) returns (verdicts: seq<bool>)
      requires Closed(g) && visited == {} && forall i :: 0 <= i < |goals| ==> goals[i] in g
      modifies this
      ensures |verdicts| == |goals|
      ensures forall i :: 0 <= i < |goals| ==> (verdicts[i] <==> CycleFrom(g, goals[i]))
    {
      verdicts := [];
      for i := 0 to |goals|
        invariant |verdicts| == i && visited == {}
        invariant forall j :: 0 <= j < i ==> (verdicts[j] <==> CycleFrom(g, goals[j]))
      {
        HitsNothing(g, goals[i]);
        var cyclic := IsCyclic(goals[i]);
        verdicts := verdicts + [cyclic];
        visited := {};
      }
    }
  }
}
