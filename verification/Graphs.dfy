// Finite directed graphs, walks and cycles.
module Graphs {

  type Graph<V> = map<V, set<V>>

  predicate Edge<V>(g: Graph<V>, v: V, w: V) {
    v in g && w in g[v]
  }

  ghost predicate Closed<V(!new)>(g: Graph<V>) {
    forall v, w :: Edge(g, v, w) ==> w in g
  }

  ghost predicate OutDegreeOne<V(!new)>(g: Graph<V>) {
    forall v, w, x :: Edge(g, v, w) && Edge(g, v, x) ==> w == x
  }

  // ---------- walks ----------

  ghost predicate Walk<V>(g: Graph<V>, p: seq<V>) {
    |p| > 0 && p[0] in g && forall i :: 0 <= i < |p| - 1 ==> Edge(g, p[i], p[i + 1])
  }

  ghost predicate WalkFrom<V>(g: Graph<V>, v: V, p: seq<V>) {
    Walk(g, p) && p[0] == v
  }

  function Last<V>(p: seq<V>): V
    requires |p| > 0
  {
    p[|p| - 1]
  }

  lemma WalkPart<V(!new)>(g: Graph<V>, p: seq<V>, i: nat, j: nat)
    requires Closed(g) && Walk(g, p) && i < j <= |p|
    ensures Walk(g, p[i..j]) && Last(p[i..j]) == p[j - 1]
  {
    if i > 0 {
      assert Edge(g, p[i - 1], p[i]);
    }
    forall k | 0 <= k < j - i - 1 ensures Edge(g, p[i..j][k], p[i..j][k + 1]) {
      assert Edge(g, p[i + k], p[i + k + 1]);
    }
  }

  lemma WalkCons<V>(g: Graph<V>, v: V, p: seq<V>)
    requires Walk(g, p) && Edge(g, v, p[0])
    ensures Walk(g, [v] + p) && Last([v] + p) == Last(p)
  {
    var r := [v] + p;
    forall i | 0 <= i < |r| - 1 ensures Edge(g, r[i], r[i + 1]) {
      if i > 0 {
        assert Edge(g, p[i - 1], p[i]);
      }
    }
  }

  lemma WalkAppend<V>(g: Graph<V>, p: seq<V>, w: V)
    requires Walk(g, p) && Edge(g, Last(p), w)
    ensures Walk(g, p + [w])
  {
    var r := p + [w];
    forall i | 0 <= i < |r| - 1 ensures Edge(g, r[i], r[i + 1]) {
      if i < |p| - 1 {
        assert Edge(g, p[i], p[i + 1]);
      }
    }
  }

  // Two walks, one from where the other ends.
  lemma WalkJoin<V>(g: Graph<V>, p: seq<V>, q: seq<V>)
    requires Walk(g, p) && Walk(g, q) && Last(p) == q[0]
    ensures Walk(g, p + q[1..]) && Last(p + q[1..]) == Last(q)
  {
    var r := p + q[1..];
    forall i | 0 <= i < |r| - 1 ensures Edge(g, r[i], r[i + 1]) {
      if i < |p| - 1 {
        assert Edge(g, p[i], p[i + 1]);
      } else {
        assert Edge(g, q[i - |p| + 1], q[i - |p| + 2]);
      }
    }
  }

  ghost predicate Reaches<V(!new)>(g: Graph<V>, v: V, w: V) {
    exists p :: WalkFrom(g, v, p) && Last(p) == w
  }

  // ---------- cycles ----------

  ghost predicate Repeats<V>(p: seq<V>) {
    exists i, j :: 0 <= i < j < |p| && p[i] == p[j]
  }

  // A cycle can be reached from v.
  ghost predicate CycleFrom<V(!new)>(g: Graph<V>, v: V) {
    exists p :: WalkFrom(g, v, p) && Repeats(p)
  }

  ghost predicate Acyclic<V(!new)>(g: Graph<V>) {
    forall p: seq<V> :: Walk(g, p) ==> !Repeats(p)
  }

  // Some walk from v comes to a vertex of `path` or to a vertex of its own a second time.
  ghost predicate Hits<V(!new)>(g: Graph<V>, v: V, path: set<V>) {
    exists p :: WalkFrom(g, v, p) && HitsWith(p, path)
  }

  ghost predicate HitsWith<V>(p: seq<V>, path: set<V>) {
    (exists i :: 0 <= i < |p| && p[i] in path) || Repeats(p)
  }

  // Depth-first search decides Hits one vertex at a time.
  lemma HitsStep<V(!new)>(g: Graph<V>, v: V, path: set<V>)
    requires Closed(g) && v in g && v !in path
    ensures Hits(g, v, path) <==> exists w :: Edge(g, v, w) && Hits(g, w, path + {v})
  {
    if Hits(g, v, path) {
      var p :| WalkFrom(g, v, p) && HitsWith(p, path);
      HitsTail(g, v, path, p);
    }
    if w :| Edge(g, v, w) && Hits(g, w, path + {v}) {
      var p :| WalkFrom(g, w, p) && HitsWith(p, path + {v});
      HitsLonger(g, v, path, p);
    }
  }

  lemma HitsTail<V(!new)>(g: Graph<V>, v: V, path: set<V>, p: seq<V>)
    requires Closed(g) && v !in path && WalkFrom(g, v, p) && HitsWith(p, path)
    ensures |p| > 1 && Edge(g, v, p[1]) && Hits(g, p[1], path + {v})
  {
    assert |p| > 1;
    assert Edge(g, p[0], p[1]);
    WalkPart(g, p, 1, |p|);
    var tail := p[1..];
    if i :| 0 <= i < |p| && p[i] in path {
      assert tail[i - 1] in path + {v};
    } else {
      var i, j :| 0 <= i < j < |p| && p[i] == p[j];
      assert tail[j - 1] == p[j];
      if i > 0 {
        assert tail[i - 1] == tail[j - 1];
      }
    }
    assert WalkFrom(g, p[1], tail) && HitsWith(tail, path + {v});
  }

  lemma HitsLonger<V(!new)>(g: Graph<V>, v: V, path: set<V>, p: seq<V>)
    requires Walk(g, p) && Edge(g, v, p[0]) && HitsWith(p, path + {v})
    ensures Hits(g, v, path)
  {
    WalkCons(g, v, p);
    var r := [v] + p;
    if i :| 0 <= i < |p| && p[i] in path + {v} {
      assert r[i + 1] == p[i];
      assert p[i] == v ==> r[0] == r[i + 1];
    } else {
      var i, j :| 0 <= i < j < |p| && p[i] == p[j];
      assert r[i + 1] == r[j + 1];
    }
    assert WalkFrom(g, v, r) && HitsWith(r, path);
  }

  lemma HitsNothing<V(!new)>(g: Graph<V>, v: V)
    ensures Hits(g, v, {}) <==> CycleFrom(g, v)
  {
    if Hits(g, v, {}) {
      var p :| WalkFrom(g, v, p) && HitsWith(p, {});
      assert Repeats(p);
    }
    if CycleFrom(g, v) {
      var p :| WalkFrom(g, v, p) && Repeats(p);
      assert HitsWith(p, {});
    }
  }

  // ---------- sharing ----------

  // No walk from v ends in `seen`, and no two of them end in the same vertex.
  ghost predicate Unshared<V(!new)>(g: Graph<V>, v: V, seen: set<V>) {
    && (forall p :: WalkFrom(g, v, p) ==> Last(p) !in seen)
    && (forall p, q :: WalkFrom(g, v, p) && WalkFrom(g, v, q) && Last(p) == Last(q) ==> p == q)
  }

  lemma WalkUncons<V(!new)>(g: Graph<V>, p: seq<V>)
    requires Closed(g) && Walk(g, p) && |p| > 1
    ensures Edge(g, p[0], p[1]) && WalkFrom(g, p[1], p[1..]) && Last(p[1..]) == Last(p) && p == [p[0]] + p[1..]
  {
    assert Edge(g, p[0], p[1]);
    WalkPart(g, p, 1, |p|);
  }

  // A vertex whose successors are searched one after the other.
  lemma UnsharedStep<V(!new)>(g: Graph<V>, v: V, seen: set<V>)
    requires Closed(g) && v in g && v !in seen
    requires forall w :: Edge(g, v, w) ==> Unshared(g, w, seen + {v})
    requires forall w, x, y :: Edge(g, v, w) && Edge(g, v, x) && w != x && Reaches(g, w, y) ==> !Reaches(g, x, y)
    ensures Unshared(g, v, seen)
  {
    forall p | WalkFrom(g, v, p) ensures Last(p) !in seen {
      if |p| > 1 {
        WalkUncons(g, p);
        assert Unshared(g, p[1], seen + {v});
      }
    }
    forall p, q | WalkFrom(g, v, p) && WalkFrom(g, v, q) && Last(p) == Last(q) ensures p == q {
      if |p| > 1 {
        WalkUncons(g, p);
        assert Unshared(g, p[1], seen + {v});
      }
      if |q| > 1 {
        WalkUncons(g, q);
        assert Unshared(g, q[1], seen + {v});
      }
      if |p| > 1 && |q| > 1 {
        assert Reaches(g, p[1], Last(p)) && Reaches(g, q[1], Last(q));
        assert p[1] == q[1];
      }
    }
  }

  // If the search of a successor fails, so does that of v: seen' is what has been seen by then.
  lemma SharedStep<V(!new)>(g: Graph<V>, v: V, w: V, seen: set<V>, seen': set<V>)
    requires Closed(g) && Edge(g, v, w) && !Unshared(g, w, seen')
    requires forall x :: x in seen' ==> x in seen || x == v || exists u :: Edge(g, v, u) && u != w && Reaches(g, u, x)
    ensures !Unshared(g, v, seen)
  {
    if p, q :| WalkFrom(g, w, p) && WalkFrom(g, w, q) && Last(p) == Last(q) && p != q {
      WalkCons(g, v, p);
      WalkCons(g, v, q);
      assert ([v] + p)[1..] == p && ([v] + q)[1..] == q;
      assert WalkFrom(g, v, [v] + p) && WalkFrom(g, v, [v] + q);
    } else {
      var p :| WalkFrom(g, w, p) && Last(p) in seen';
      WalkCons(g, v, p);
      assert WalkFrom(g, v, [v] + p);
      if Last(p) == v {
        assert WalkFrom(g, v, [v]) && Last([v]) == v;
      } else if Last(p) !in seen {
        var u :| Edge(g, v, u) && u != w && Reaches(g, u, Last(p));
        var q :| WalkFrom(g, u, q) && Last(q) == Last(p);
        WalkCons(g, v, q);
        assert WalkFrom(g, v, [v] + q);
        assert ([v] + p)[1] == w && ([v] + q)[1] == u;
      }
    }
  }

  // Sharing is the right test for a cycle if every vertex has at most one successor.
  lemma SharingIsCycle<V(!new)>(g: Graph<V>, v: V)
    requires Closed(g) && OutDegreeOne(g)
    ensures Unshared(g, v, {}) <==> !CycleFrom(g, v)
  {
    if CycleFrom(g, v) {
      CycleIsShared(g, v);
    } else {
      forall p, q | WalkFrom(g, v, p) && WalkFrom(g, v, q) && Last(p) == Last(q) ensures p == q {
        if |p| <= |q| {
          OneWalk(g, p, q);
        } else {
          OneWalk(g, q, p);
        }
      }
    }
  }

  // In any graph, a cycle that can be reached makes walks end in the same vertex.
  lemma CycleIsShared<V(!new)>(g: Graph<V>, v: V)
    requires Closed(g) && CycleFrom(g, v)
    ensures !Unshared(g, v, {})
  {
    var p :| WalkFrom(g, v, p) && Repeats(p);
    var i, j :| 0 <= i < j < |p| && p[i] == p[j];
    WalkPart(g, p, 0, i + 1);
    WalkPart(g, p, 0, j + 1);
    assert |p[0..i + 1]| != |p[0..j + 1]|;
    assert WalkFrom(g, v, p[0..i + 1]) && WalkFrom(g, v, p[0..j + 1]);
  }

  // With one successor at most, the shorter of two walks from v starts the longer one.
  lemma OneWalk<V(!new)>(g: Graph<V>, p: seq<V>, q: seq<V>)
    requires OutDegreeOne(g) && Walk(g, p) && Walk(g, q) && p[0] == q[0] && |p| <= |q|
    requires !CycleFrom(g, q[0]) && Last(p) == Last(q)
    ensures p == q
  {
    Prefix(g, p, q, |p| - 1);
    forall k | 0 <= k < |p| ensures p[k] == q[k] {
      Prefix(g, p, q, k);
    }
    if |p| < |q| {
      assert q[|p| - 1] == q[|q| - 1];
      assert Repeats(q) && WalkFrom(g, q[0], q);
    }
  }

  lemma {:induction false} Prefix<V(!new)>(g: Graph<V>, p: seq<V>, q: seq<V>, k: nat)
    requires OutDegreeOne(g) && Walk(g, p) && Walk(g, q) && p[0] == q[0] && k < |p| <= |q|
    ensures p[k] == q[k]
  {
    if k > 0 {
      Prefix(g, p, q, k - 1);
      assert Edge(g, p[k - 1], p[k]) && Edge(g, q[k - 1], q[k]);
    }
  }

  // ---------- changing a graph ----------

  function AddVertex<V(!new)>(g: Graph<V>, v: V): (r: Graph<V>)
    ensures forall x, y :: Edge(r, x, y) <==> Edge(g, x, y)
    ensures r.Keys == g.Keys + {v}
  {
    if v in g then g else g[v := {}]
  }

  function AddEdge<V(!new)>(g: Graph<V>, v: V, w: V): (r: Graph<V>)
    requires v in g
    ensures forall x, y :: Edge(r, x, y) <==> Edge(g, x, y) || (x == v && y == w)
    ensures r.Keys == g.Keys
  {
    g[v := g[v] + {w}]
  }

  function RemoveEdge<V(!new)>(g: Graph<V>, v: V, w: V): (r: Graph<V>)
    ensures forall x, y :: Edge(r, x, y) <==> Edge(g, x, y) && !(x == v && y == w)
    ensures r.Keys == g.Keys
  {
    if v in g then g[v := g[v] - {w}] else g
  }

  lemma AddRemove<V(!new)>(g: Graph<V>, v: V, w: V)
    requires v in g && !Edge(g, v, w)
    ensures RemoveEdge(AddEdge(g, v, w), v, w) == g
  {
    assert g[v] + {w} - {w} == g[v];
  }

  lemma FewerEdges<V(!new)>(g: Graph<V>, r: Graph<V>)
    requires Closed(g) && Acyclic(g) && forall x, y :: Edge(r, x, y) ==> Edge(g, x, y)
    ensures Acyclic(r)
  {
    forall p | Walk(r, p) ensures !Repeats(p) {
      if |p| > 1 {
        forall i | 0 <= i < |p| - 1 ensures Edge(g, p[i], p[i + 1]) {
          assert Edge(r, p[i], p[i + 1]);
        }
        assert Edge(g, p[0], p[1]) && Walk(g, p);
      }
    }
  }

  // A walk from w in the larger graph cannot use the new edge, if w did not reach v before.
  lemma {:induction false} NoReturn<V(!new)>(g: Graph<V>, v: V, w: V, p: seq<V>)
    requires Closed(g) && v in g && w in g && !Reaches(g, w, v) && WalkFrom(AddEdge(g, v, w), w, p)
    ensures WalkFrom(g, w, p) && Last(p) != v
  {
    if |p| > 1 {
      var q := p[..|p| - 1];
      assert Edge(AddEdge(g, v, w), p[|p| - 2], p[|p| - 1]);
      forall i | 0 <= i < |q| - 1 ensures Edge(AddEdge(g, v, w), q[i], q[i + 1]) {
        assert Edge(AddEdge(g, v, w), p[i], p[i + 1]);
      }
      NoReturn(g, v, w, q);
      WalkAppend(g, q, p[|p| - 1]);
      assert p == q + [p[|p| - 1]];
    }
  }

  // A new edge keeps a graph without cycles so exactly if its end did not reach its start.
  lemma NewEdge<V(!new)>(g: Graph<V>, v: V, w: V)
    requires Closed(g) && Acyclic(g) && v in g && w in g
    ensures CycleFrom(AddEdge(g, v, w), w) <==> Reaches(g, w, v)
    ensures Acyclic(AddEdge(g, v, w)) <==> !Reaches(g, w, v)
  {
    if Reaches(g, w, v) {
      var p :| WalkFrom(g, w, p) && Last(p) == v;
      CloseCycle(g, v, w, p);
    } else {
      forall p | Walk(AddEdge(g, v, w), p) ensures !Repeats(p) {
        if Repeats(p) {
          var i, j :| 0 <= i < j < |p| && p[i] == p[j];
          WalkPart(AddEdge(g, v, w), p, i, j + 1);
          NoNewCycle(g, v, w, p[i..j + 1]);
        }
      }
    }
  }

  lemma CloseCycle<V(!new)>(g: Graph<V>, v: V, w: V, p: seq<V>)
    requires v in g && w in g && WalkFrom(g, w, p) && Last(p) == v
    ensures CycleFrom(AddEdge(g, v, w), w) && !Acyclic(AddEdge(g, v, w))
  {
    var r := AddEdge(g, v, w);
    forall i | 0 <= i < |p| - 1 ensures Edge(r, p[i], p[i + 1]) {
      assert Edge(g, p[i], p[i + 1]);
    }
    assert Walk(r, p) && Edge(r, Last(p), w);
    WalkAppend(r, p, w);
    assert (p + [w])[0] == (p + [w])[|p|];
    assert WalkFrom(r, w, p + [w]) && Repeats(p + [w]);
  }

  lemma NoNewCycle<V(!new)>(g: Graph<V>, v: V, w: V, s: seq<V>)
    requires Closed(g) && Acyclic(g) && v in g && w in g && !Reaches(g, w, v)
    requires Walk(AddEdge(g, v, w), s) && |s| > 1
    ensures s[0] != Last(s)
  {
    var r := AddEdge(g, v, w);
    if k :| 0 <= k < |s| - 1 && s[k] == v && s[k + 1] == w {
      WalkPart(r, s, k + 1, |s|);
      WalkPart(r, s, 0, k + 1);
      if s[0] == Last(s) {
        WalkJoin(r, s[k + 1..|s|], s[0..k + 1]);
        NoReturn(g, v, w, s[k + 1..|s|] + s[0..k + 1][1..]);
      }
    } else {
      forall i | 0 <= i < |s| - 1 ensures Edge(g, s[i], s[i + 1]) {
        assert Edge(r, s[i], s[i + 1]);
      }
      assert Walk(g, s) && !Repeats(s);
    }
  }

  // ---------- ends of walks ----------

  // In a graph without cycles some walk from v ends in a vertex without successors.
  lemma SinkFrom<V(!new)>(g: Graph<V>, v: V) returns (p: seq<V>)
    requires Closed(g) && Acyclic(g) && v in g
    ensures WalkFrom(g, v, p) && forall w :: !Edge(g, Last(p), w)
  {
    p := Extend(g, [v]);
  }

  lemma {:induction false} Extend<V(!new)>(g: Graph<V>, p: seq<V>) returns (q: seq<V>)
    requires Closed(g) && Acyclic(g) && Walk(g, p)
    ensures WalkFrom(g, p[0], q) && forall w :: !Edge(g, Last(q), w)
    decreases |g.Keys| - |p|
  {
    q := p;
    if w :| Edge(g, Last(p), w) {
      WalkAppend(g, p, w);
      WalkIsShort(g, p + [w]);
      q := Extend(g, p + [w]);
    }
  }

  lemma WalkIsShort<V(!new)>(g: Graph<V>, p: seq<V>)
    requires Closed(g) && Acyclic(g) && Walk(g, p)
    ensures |p| <= |g.Keys|
  {
    assert !Repeats(p);
    forall i | 0 <= i < |p| ensures p[i] in g {
      WalkPart(g, p, i, |p|);
    }
    DistinctCount(p, g.Keys);
  }

  lemma {:induction false} DistinctCount<V>(p: seq<V>, s: set<V>)
    requires !Repeats(p) && forall i :: 0 <= i < |p| ==> p[i] in s
    ensures |p| <= |s|
  {
    if p != [] {
      var q := p[..|p| - 1];
      assert !Repeats(q) by {
        if i, j :| 0 <= i < j < |q| && q[i] == q[j] {
          assert p[i] == p[j];
        }
      }
      forall i | 0 <= i < |q| ensures q[i] in s - {p[|p| - 1]} {
        assert p[i] != p[|p| - 1];
      }
      DistinctCount(q, s - {p[|p| - 1]});
    }
  }
}
