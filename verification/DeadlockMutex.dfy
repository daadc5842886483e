// The deadlock-resistant mutex of libdrm.c. Each step is one critical section of the graph's lock, or the
// acquisition of a drm's own lock between two of them; any number of threads take steps in any order.
module DeadlockMutex {
  import opened Graphs
  import opened DrmCycles

  datatype Vertex = Drm(id: nat) | Thread(id: nat)

  // Outside of drm_wait; blocked on the lock of a drm; in possession of it but not yet back in the graph.
  datatype Pc = Idle | Waiting(drm: nat) | Locked(drm: nat)

  // The graph, the owners of the locks of the drms, and where the threads are.
  datatype State = State(graph: Graph<Vertex>, owner: map<nat, nat>, pcs: map<nat, Pc>)

  function PcOf(st: State, t: nat): Pc {
    if t in st.pcs then st.pcs[t] else Idle
  }

  // ---------- the invariant ----------

  predicate Wants(st: State, t: nat, d: nat) {
    PcOf(st, t) == Waiting(d) || PcOf(st, t) == Locked(d)
  }

  predicate Holds(st: State, t: nat, d: nat) {
    d in st.owner && st.owner[d] == t && PcOf(st, t) != Locked(d)
  }

  // What an edge means.
  predicate Meaning(st: State, v: Vertex, w: Vertex) {
    || (v.Thread? && w.Drm? && Wants(st, v.id, w.id))
    || (v.Drm? && w.Thread? && Holds(st, w.id, v.id))
  }

  ghost predicate Inv(st: State) {
    && Closed(st.graph) && Acyclic(st.graph)
    && (forall v, w :: Edge(st.graph, v, w) <==> Meaning(st, v, w))
    && (forall t :: OwnsLocked(st, t))
  }

  predicate OwnsLocked(st: State, t: nat) {
    PcOf(st, t).Locked? ==> PcOf(st, t).drm in st.owner && st.owner[PcOf(st, t).drm] == t
  }

  // No vertex has more than one successor: this is what makes the cycle check right.
  lemma OneSuccessor(st: State)
    requires Inv(st)
    ensures OutDegreeOne(st.graph)
  {
    forall v, w, x | Edge(st.graph, v, w) && Edge(st.graph, v, x) ensures w == x {
      assert Meaning(st, v, w) && Meaning(st, v, x);
    }
  }

  // ---------- the steps ----------

  datatype Event = Create(drm: nat) | Wait(thread: nat, drm: nat) | Acquire(thread: nat) | Finish(thread: nat)
    | Post(thread: nat, drm: nat)

  predicate Enabled(st: State, e: Event) {
    match e
    case Create(d) => Drm(d) !in st.graph
    case Wait(t, d) => PcOf(st, t) == Idle && Drm(d) in st.graph
    case Acquire(t) => PcOf(st, t).Waiting? && PcOf(st, t).drm !in st.owner
    case Finish(t) => PcOf(st, t).Locked?
    case Post(t, d) => PcOf(st, t) == Idle
  }

  // drm_wait up to the point where it returns 0 or blocks; 1 stands for blocking.
  ghost function WaitStep(st: State, t: nat, d: nat): (r: (State, int)) {
    var g := AddVertex(st.graph, Thread(t));
    if Reaches(g, Drm(d), Thread(t)) then (st.(graph := g), 0)
    else (st.(graph := AddEdge(g, Thread(t), Drm(d)), pcs := st.pcs[t := Waiting(d)]), 1)
  }

  function FinishStep(st: State, t: nat): State
    requires PcOf(st, t).Locked? && Drm(PcOf(st, t).drm) in st.graph
  {
    var d := PcOf(st, t).drm;
    st.(graph := AddEdge(RemoveEdge(st.graph, Thread(t), Drm(d)), Drm(d), Thread(t)), pcs := st.pcs[t := Idle])
  }

  function PostStep(st: State, t: nat, d: nat): State {
    if Edge(st.graph, Drm(d), Thread(t)) then
      st.(graph := RemoveEdge(st.graph, Drm(d), Thread(t)), owner := st.owner - {d})
    else st
  }

  // What drm_post returns.
  function PostResult(st: State, t: nat, d: nat): int {
    if Thread(t) in st.graph && Drm(d) in st.graph then 1 else 0
  }

  ghost function Step(st: State, e: Event): State
    requires Inv(st) && Enabled(st, e)
  {
    match e
    case Create(d) => st.(graph := AddVertex(st.graph, Drm(d)))
    case Wait(t, d) => WaitStep(st, t, d).0
    case Acquire(t) => st.(owner := st.owner[PcOf(st, t).drm := t], pcs := st.pcs[t := Locked(PcOf(st, t).drm)])
    case Finish(t) =>
      LockedEdge(st, t);
      FinishStep(st, t)
    case Post(t, d) => PostStep(st, t, d)
  }

  lemma LockedEdge(st: State, t: nat)
    requires Inv(st) && PcOf(st, t).Locked?
    ensures Edge(st.graph, Thread(t), Drm(PcOf(st, t).drm)) && Drm(PcOf(st, t).drm) in st.graph
  {
    assert Meaning(st, Thread(t), Drm(PcOf(st, t).drm));
  }

  ghost predicate SameEdges(g: Graph<Vertex>, g': Graph<Vertex>) {
    forall v, w :: Edge(g', v, w) <==> Edge(g, v, w)
  }

  ghost predicate OneMoreEdge(g: Graph<Vertex>, g': Graph<Vertex>, a: Vertex, b: Vertex) {
    forall v, w :: Edge(g', v, w) <==> Edge(g, v, w) || (v == a && w == b)
  }

  // ---------- the code ----------

  // The graph is the static variable g; the locks of the drms and the places of the threads complete it.
  class LibDrm {
    var g: Graph<Vertex>
    var owner: map<nat, nat>
    var pcs: map<nat, Pc>

    function Abs(): State
      reads this
    {
      State(g, owner, pcs)
    }

    constructor ()
      ensures Inv(Abs()) && Abs() == Initial
    {
      g, owner, pcs := map[], map[], map[];
      new;
      EmptyInv();
    }

    // drm_init, with the address of the new drm.
    method Init(drm: nat)
      requires Inv(Abs()) && Enabled(Abs(), Create(drm))
      modifies this
      ensures Inv(Abs()) && Abs() == Step(old(Abs()), Create(drm))
      ensures g.Keys == old(g).Keys + {Drm(drm)} && SameEdges(old(g), g) && owner == old(owner) && pcs == old(pcs)
    {
      StepKeeps(Abs(), Create(drm));
      g := AddVertex(g, Drm(drm));
    }

    // drm_wait, up to where it returns 0 or unlocks m and blocks on the drm.
    method TryWait(drm: nat, thread: nat) returns (r: int)
      requires Inv(Abs()) && Enabled(Abs(), Wait(thread, drm))
      modifies this
      ensures Inv(Abs()) && (Abs(), r) == WaitStep(old(Abs()), thread, drm)
      ensures (r == 0 || r == 1) && owner == old(owner) && g.Keys == old(g).Keys + {Thread(thread)}
      ensures r == 0 <==> Reaches(AddVertex(old(g), Thread(thread)), Drm(drm), Thread(thread))
      ensures r == 0 ==> SameEdges(old(g), g) && pcs == old(pcs)
      ensures r == 1 ==> OneMoreEdge(old(g), g, Thread(thread), Drm(drm)) && pcs == old(pcs)[thread := Waiting(drm)]
    {
      ghost var st := Abs();
      StepKeeps(st, Wait(thread, drm));
      if Thread(thread) !in g {
        g := AddVertex(g, Thread(thread));
      }
      WaitDecides(st, thread, drm);
      if !Edge(g, Drm(drm), Thread(thread)) {
        ghost var before := g;
        g := AddEdge(g, Thread(thread), Drm(drm));
        var isVisited := new Marks<Vertex>();
        var cyclic := IsCyclic(g, isVisited, Drm(drm));
        if cyclic {
          AddRemove(before, Thread(thread), Drm(drm));
          g := RemoveEdge(g, Thread(thread), Drm(drm));
          return 0;
        } else {
          pcs := pcs[thread := Waiting(drm)];
          return 1;
        }
      }
      return 0;
    }

    // pthread_mutex_lock(&drm->pm) lets the thread through.
    method Lock(thread: nat)
      requires Inv(Abs()) && Enabled(Abs(), Acquire(thread))
      modifies this
      ensures Inv(Abs()) && Abs() == Step(old(Abs()), Acquire(thread))
      ensures g == old(g) && old(PcOf(Abs(), thread)).Waiting?
      ensures owner == old(owner)[old(PcOf(Abs(), thread)).drm := thread]
      ensures pcs == old(pcs)[thread := Locked(old(PcOf(Abs(), thread)).drm)]
    {
      StepKeeps(Abs(), Acquire(thread));
      owner := owner[PcOf(Abs(), thread).drm := thread];
      pcs := pcs[thread := Locked(PcOf(Abs(), thread).drm)];
    }

    // The rest of drm_wait; it returns 1.
    method FinishWait(thread: nat) returns (r: int)
      requires Inv(Abs()) && Enabled(Abs(), Finish(thread))
      modifies this
      ensures Inv(Abs()) && Abs() == Step(old(Abs()), Finish(thread)) && r == 1
      ensures Holds(Abs(), thread, PcOf(old(Abs()), thread).drm)
      ensures owner == old(owner) && pcs == old(pcs)[thread := Idle] && g.Keys == old(g).Keys
      ensures var d := PcOf(old(Abs()), thread).drm;
        forall v, w :: Edge(g, v, w) <==>
          (Edge(old(g), v, w) && !(v == Thread(thread) && w == Drm(d))) || (v == Drm(d) && w == Thread(thread))
    {
      StepKeeps(Abs(), Finish(thread));
      assert OwnsLocked(Abs(), thread);
      LockedEdge(Abs(), thread);
      var drm := PcOf(Abs(), thread).drm;
      g := RemoveEdge(g, Thread(thread), Drm(drm));
      g := AddEdge(g, Drm(drm), Thread(thread));
      pcs := pcs[thread := Idle];
      return 1;
    }

    // drm_post: it lets go of the drm exactly if the thread holds it, and returns 1 for any two vertices.
    method PostDrm(drm: nat, thread: nat) returns (r: int)
      requires Inv(Abs()) && Enabled(Abs(), Post(thread, drm))
      modifies this
      ensures Inv(Abs()) && Abs() == Step(old(Abs()), Post(thread, drm))
      ensures r == if Thread(thread) in old(g) && Drm(drm) in old(g) then 1 else 0
      ensures r == PostResult(old(Abs()), thread, drm) && pcs == old(pcs) && g.Keys == old(g).Keys
      ensures owner == if Holds(old(Abs()), thread, drm) then old(owner) - {drm} else old(owner)
      ensures forall v, w :: Edge(g, v, w) <==> Edge(old(g), v, w) && !(v == Drm(drm) && w == Thread(thread))
    {
      StepKeeps(Abs(), Post(thread, drm));
      assert Edge(g, Drm(drm), Thread(thread)) <==> Meaning(Abs(), Drm(drm), Thread(thread));
      if !(Thread(thread) in g && Drm(drm) in g) {
        return 0;
      } else {
        if Edge(g, Drm(drm), Thread(thread)) {
          g := RemoveEdge(g, Drm(drm), Thread(thread));
          owner := owner - {drm};
        }
        return 1;
      }
    }
  }

  // ---------- every step keeps the invariant ----------

  const Initial: State := State(map[], map[], map[])

  lemma EmptyInv()
    ensures Inv(Initial)
  {
    forall v, w ensures Edge(Initial.graph, v, w) <==> Meaning(Initial, v, w) {
    }
  }

  lemma AddedVertex(g: Graph<Vertex>, v: Vertex)
    requires Closed(g) && Acyclic(g)
    ensures Closed(AddVertex(g, v)) && Acyclic(AddVertex(g, v))
  {
    FewerEdges(g, AddVertex(g, v));
  }

  // The cycle check decides whether the drm leads to the thread: directly, or by way of other threads that
  // wait.
  lemma WaitDecides(st: State, t: nat, d: nat)
    requires Inv(st) && PcOf(st, t) == Idle && Drm(d) in st.graph
    ensures var g := AddVertex(st.graph, Thread(t));
      && Closed(g) && !Edge(g, Thread(t), Drm(d))
      && (Edge(g, Drm(d), Thread(t)) ==> Reaches(g, Drm(d), Thread(t)))
      && Closed(AddEdge(g, Thread(t), Drm(d)))
      && (Unshared(AddEdge(g, Thread(t), Drm(d)), Drm(d), {}) <==> !Reaches(g, Drm(d), Thread(t)))
  {
    var g := AddVertex(st.graph, Thread(t));
    AddedVertex(st.graph, Thread(t));
    IdleEdges(st, t);
    NewEdge(g, Thread(t), Drm(d));
    if Edge(g, Drm(d), Thread(t)) {
      assert WalkFrom(g, Drm(d), [Drm(d), Thread(t)]) && Last([Drm(d), Thread(t)]) == Thread(t);
    }
    OneSuccessor(st);
    var g1 := AddEdge(g, Thread(t), Drm(d));
    assert OutDegreeOne(g1);
    SharingIsCycle(g1, Drm(d));
  }

  // A thread outside of drm_wait waits for nothing.
  lemma IdleEdges(st: State, t: nat)
    requires Inv(st) && PcOf(st, t) == Idle
    ensures forall w :: !Edge(st.graph, Thread(t), w)
  {
    forall w ensures !Edge(st.graph, Thread(t), w) {
      assert !Meaning(st, Thread(t), w);
    }
  }

  lemma WaitKeeps(st: State, t: nat, d: nat)
    requires Inv(st) && PcOf(st, t) == Idle && Drm(d) in st.graph
    ensures Inv(WaitStep(st, t, d).0)
  {
    var g, st' := AddVertex(st.graph, Thread(t)), WaitStep(st, t, d).0;
    AddedVertex(st.graph, Thread(t));
    NewEdge(g, Thread(t), Drm(d));
    forall v, w ensures Edge(st'.graph, v, w) <==> Meaning(st', v, w) {
      assert Edge(st.graph, v, w) <==> Meaning(st, v, w);
    }
    forall u ensures OwnsLocked(st', u) {
      assert OwnsLocked(st, u);
    }
  }

  lemma AcquireKeeps(st: State, t: nat)
    requires Inv(st) && Enabled(st, Acquire(t))
    ensures Inv(Step(st, Acquire(t)))
  {
    var st' := Step(st, Acquire(t));
    forall v, w ensures Edge(st'.graph, v, w) <==> Meaning(st', v, w) {
      assert Edge(st.graph, v, w) <==> Meaning(st, v, w);
    }
    forall u ensures OwnsLocked(st', u) {
      assert OwnsLocked(st, u);
    }
  }

  // The two edges are exchanged: nothing leads out of the thread in between.
  lemma FinishKeeps(st: State, t: nat)
    requires Inv(st) && PcOf(st, t).Locked?
    ensures Inv(Step(st, Finish(t)))
  {
    LockedEdge(st, t);
    var d, st' := PcOf(st, t).drm, FinishStep(st, t);
    var g := RemoveEdge(st.graph, Thread(t), Drm(d));
    FewerEdges(st.graph, g);
    forall w ensures !Edge(g, Thread(t), w) {
      assert Edge(st.graph, Thread(t), w) <==> Meaning(st, Thread(t), w);
    }
    ReachesStep(g, Thread(t));
    assert OwnsLocked(st, t);
    NewEdge(g, Drm(d), Thread(t));
    forall v, w ensures Edge(st'.graph, v, w) <==> Meaning(st', v, w) {
      assert Edge(st.graph, v, w) <==> Meaning(st, v, w);
    }
    forall u ensures OwnsLocked(st', u) {
      assert OwnsLocked(st, u);
    }
  }

  lemma PostKeeps(st: State, t: nat, d: nat)
    requires Inv(st) && PcOf(st, t) == Idle
    ensures Inv(PostStep(st, t, d))
  {
    var st' := PostStep(st, t, d);
    FewerEdges(st.graph, st'.graph);
    assert Edge(st.graph, Drm(d), Thread(t)) <==> Meaning(st, Drm(d), Thread(t));
    forall v, w ensures Edge(st'.graph, v, w) <==> Meaning(st', v, w) {
      assert Edge(st.graph, v, w) <==> Meaning(st, v, w);
    }
    forall u ensures OwnsLocked(st', u) {
      assert OwnsLocked(st, u);
    }
  }

  lemma StepKeeps(st: State, e: Event)
    requires Inv(st) && Enabled(st, e)
    ensures Inv(Step(st, e))
  {
    match e {
      case Create(d) =>
        AddedVertex(st.graph, Drm(d));
        var st' := Step(st, e);
        forall v, w ensures Edge(st'.graph, v, w) <==> Meaning(st', v, w) {
          assert Edge(st.graph, v, w) <==> Meaning(st, v, w);
        }
        forall u ensures OwnsLocked(st', u) {
          assert OwnsLocked(st, u);
        }
      case Wait(t, d) => WaitKeeps(st, t, d);
      case Acquire(t) => AcquireKeeps(st, t);
      case Finish(t) => FinishKeeps(st, t);
      case Post(t, d) => PostKeeps(st, t, d);
    }
  }

  // ---------- the result of drm_post ----------

  // libdrm.h promises 1 for a thread that is able to unlock the drm, and 0 for one that is not. The code keeps
  // that exactly if the thread holds the drm, or one of them is not in the graph.
  lemma PostResultIff(st: State, t: nat, d: nat)
    requires Inv(st) && PcOf(st, t) == Idle
    ensures (PostResult(st, t, d) == 1 <==> Holds(st, t, d))
      <==> Holds(st, t, d) || Thread(t) !in st.graph || Drm(d) !in st.graph
  {
    assert Edge(st.graph, Drm(d), Thread(t)) <==> Meaning(st, Drm(d), Thread(t));
  }

  // ---------- runs ----------

  ghost predicate IsRun(states: seq<State>, events: seq<Event>) {
    && |states| == |events| + 1 && states[0] == Initial
    && forall i :: 0 <= i < |events| ==> Follows(states[i], events[i], states[i + 1])
  }

  ghost predicate Follows(st: State, e: Event, st': State) {
    Inv(st) ==> Enabled(st, e) && st' == Step(st, e)
  }

  lemma {:induction false} EveryRun(states: seq<State>, events: seq<Event>, i: nat)
    requires IsRun(states, events) && i < |states|
    ensures Inv(states[i]) && OutDegreeOne(states[i].graph)
  {
    if i == 0 {
      EmptyInv();
    } else {
      EveryRun(states, events, i - 1);
      assert Follows(states[i - 1], events[i - 1], states[i]);
      StepKeeps(states[i - 1], events[i - 1]);
    }
    OneSuccessor(states[i]);
  }

  // ---------- a post without the lock ----------

  // The thread and the drm are in the graph, nobody owns a drm, and the thread does not wait.
  ghost predicate AtRest(st: State, t: nat, d: nat) {
    Inv(st) && PcOf(st, t) == Idle && Thread(t) in st.graph && Drm(d) in st.graph && d !in st.owner
  }

  lemma NoEdges(g: Graph<Vertex>, v: Vertex, w: Vertex)
    requires v != w && forall x, y :: !Edge(g, x, y)
    ensures !Reaches(g, v, w)
  {
    forall p | WalkFrom(g, v, p) ensures Last(p) == v {
      if |p| > 1 {
        FirstEdge(g, p);
        assert false;
      }
    }
  }

  lemma FirstEdge(g: Graph<Vertex>, p: seq<Vertex>)
    requires Walk(g, p) && |p| > 1
    ensures exists x, y :: Edge(g, x, y)
  {
    assert Edge(g, p[0], p[1]);
  }

  // A thread takes the only drm of a program and posts it.
  lemma TakeAndPost(s: seq<State>)
    requires |s| == 6 && s[0] == Initial && Inv(s[0]) && s[1] == Step(s[0], Create(0)) && Inv(s[1])
    requires Enabled(s[1], Wait(0, 0)) && s[2] == Step(s[1], Wait(0, 0)) && Inv(s[2])
    requires Enabled(s[2], Acquire(0)) && s[3] == Step(s[2], Acquire(0)) && Inv(s[3])
    requires Enabled(s[3], Finish(0)) && s[4] == Step(s[3], Finish(0)) && Inv(s[4])
    requires Enabled(s[4], Post(0, 0)) && s[5] == Step(s[4], Post(0, 0))
    ensures IsRun(s, [Create(0), Wait(0, 0), Acquire(0), Finish(0), Post(0, 0)])
  {
    var events := [Create(0), Wait(0, 0), Acquire(0), Finish(0), Post(0, 0)];
    assert Follows(s[0], events[0], s[1]) && Follows(s[1], events[1], s[2]) && Follows(s[2], events[2], s[3]);
    assert Follows(s[3], events[3], s[4]) && Follows(s[4], events[4], s[5]);
  }

  lemma FirstWait(st: State)
    requires Inv(st) && st.graph.Keys == {Drm(0)} && st.owner == map[] && st.pcs == map[]
    ensures var st' := Step(st, Wait(0, 0));
      Inv(st') && st'.graph.Keys == {Drm(0), Thread(0)} && st'.owner == map[] && PcOf(st', 0) == Waiting(0)
  {
    var g := AddVertex(st.graph, Thread(0));
    forall x, y ensures !Edge(g, x, y) {
      assert Edge(st.graph, x, y) <==> Meaning(st, x, y);
    }
    NoEdges(g, Drm(0), Thread(0));
    StepKeeps(st, Wait(0, 0));
  }

  lemma FirstFinish(st: State)
    requires Inv(st) && st.graph.Keys == {Drm(0), Thread(0)} && st.owner == map[] && PcOf(st, 0) == Waiting(0)
    ensures var st' := Step(st, Acquire(0));
      Inv(st') && PcOf(st', 0) == Locked(0) &&
      var st'' := Step(st', Finish(0));
      && Inv(st'') && PcOf(st'', 0) == Idle && st''.graph.Keys == {Drm(0), Thread(0)}
      && st''.owner == map[0 := 0]
  {
    StepKeeps(st, Acquire(0));
    StepKeeps(Step(st, Acquire(0)), Finish(0));
  }

  lemma FirstPost(st: State)
    requires Inv(st) && PcOf(st, 0) == Idle && st.graph.Keys == {Drm(0), Thread(0)} && st.owner == map[0 := 0]
    ensures AtRest(Step(st, Post(0, 0)), 0, 0)
  {
    assert Edge(st.graph, Drm(0), Thread(0)) <==> Meaning(st, Drm(0), Thread(0));
    StepKeeps(st, Post(0, 0));
  }

  // A run in which a thread takes and posts a drm, and could post it again: it no longer holds the drm, and the
  // result is 1 nevertheless.
  lemma PostWithoutLock() returns (states: seq<State>, events: seq<Event>)
    ensures IsRun(states, events)
    ensures events == [Create(0), Wait(0, 0), Acquire(0), Finish(0), Post(0, 0)]
    ensures Inv(states[5]) && Enabled(states[5], Post(0, 0)) && !Holds(states[5], 0, 0)
    ensures PostResult(states[5], 0, 0) == 1
  {
    EmptyInv();
    StepKeeps(Initial, Create(0));
    var s1 := Step(Initial, Create(0));
    FirstWait(s1);
    var s2 := Step(s1, Wait(0, 0));
    FirstFinish(s2);
    var s3 := Step(s2, Acquire(0));
    var s4 := Step(s3, Finish(0));
    FirstPost(s4);
    states := [Initial, s1, s2, s3, s4, Step(s4, Post(0, 0))];
    events := [Create(0), Wait(0, 0), Acquire(0), Finish(0), Post(0, 0)];
    TakeAndPost(states);
  }

  // ---------- no deadlock ----------

  // The thread is blocked on a lock that the next one owns.
  predicate BlockedOn(st: State, t: nat, u: nat) {
    PcOf(st, t).Waiting? && PcOf(st, t).drm in st.owner && st.owner[PcOf(st, t).drm] == u
  }

  // Threads blocked on each other's locks never form a circle.
  lemma NoCircularWait(st: State, ts: seq<nat>)
    requires Inv(st) && |ts| > 1
    requires forall i :: 0 <= i < |ts| - 1 ==> BlockedOn(st, ts[i], ts[i + 1])
    ensures ts[0] != ts[|ts| - 1]
  {
    assert BlockedOn(st, ts[0], ts[1]);
    if PcOf(st, ts[|ts| - 1]).Waiting? {
      var p := WaitWalk(st, ts, |ts| - 1);
      assert !Repeats(p) && p[0] != p[|p| - 1];
    }
  }

  lemma {:induction false} WaitWalk(st: State, ts: seq<nat>, k: nat) returns (p: seq<Vertex>)
    requires Inv(st) && k < |ts| && |ts| > 1 && PcOf(st, ts[|ts| - 1]).Waiting?
    requires forall i :: 0 <= i < |ts| - 1 ==> BlockedOn(st, ts[i], ts[i + 1])
    ensures WalkFrom(st.graph, Thread(ts[0]), p) && Last(p) == Thread(ts[k]) && |p| == 2 * k + 1
  {
    if k == 0 {
      assert BlockedOn(st, ts[0], ts[1]);
      var d := PcOf(st, ts[0]).drm;
      assert Meaning(st, Thread(ts[0]), Drm(d));
      p := [Thread(ts[0])];
    } else {
      p := WaitWalk(st, ts, k - 1);
      assert BlockedOn(st, ts[k - 1], ts[k]);
      assert k < |ts| - 1 ==> BlockedOn(st, ts[k], ts[k + 1]);
      var d := PcOf(st, ts[k - 1]).drm;
      assert Meaning(st, Thread(ts[k - 1]), Drm(d)) && Meaning(st, Drm(d), Thread(ts[k]));
      WalkAppend(st.graph, p, Drm(d));
      WalkAppend(st.graph, p + [Drm(d)], Thread(ts[k]));
      p := p + [Drm(d)] + [Thread(ts[k])];
    }
  }

  // The drm is about to change hands, or can: its owner is outside of drm_wait and can post it, or about
  // to leave drm_wait, or the lock is free and some thread waits for it.
  ghost predicate Moves(st: State, d: nat) {
    if d in st.owner then !PcOf(st, st.owner[d]).Waiting? else exists u :: PcOf(st, u) == Waiting(d)
  }

  // Whatever a thread waits for in the end depends on a thread that does not wait.
  lemma SomeoneMoves(st: State, t: nat) returns (d: nat)
    requires Inv(st) && PcOf(st, t).Waiting?
    ensures Reaches(st.graph, Thread(t), Drm(d)) && Moves(st, d)
  {
    var d0 := PcOf(st, t).drm;
    assert Meaning(st, Thread(t), Drm(d0));
    assert Edge(st.graph, Thread(t), Drm(d0));
    var p := SinkFrom(st.graph, Thread(t));
    assert !Edge(st.graph, Last(p), Drm(d0));
    assert Last(p) != Thread(t) && |p| > 1;
    var v, w := p[|p| - 2], p[|p| - 1];
    assert Edge(st.graph, v, w) && Meaning(st, v, w);
    if w.Drm? {
      d := w.id;
      assert Last(p) == Drm(d);
      SinkDrm(st, v.id, d);
    } else {
      d := v.id;
      WalkPart(st.graph, p, 0, |p| - 1);
      assert WalkFrom(st.graph, Thread(t), p[0..|p| - 1]) && Last(p[0..|p| - 1]) == Drm(d);
      SinkThread(st, w.id);
    }
  }

  lemma SinkDrm(st: State, u: nat, d: nat)
    requires Inv(st) && Wants(st, u, d) && forall w: Vertex :: !Edge(st.graph, Drm(d), w)
    ensures Moves(st, d)
  {
    if d in st.owner {
      assert !Edge(st.graph, Drm(d), Thread(st.owner[d]));
      assert !Meaning(st, Drm(d), Thread(st.owner[d]));
    } else {
      assert OwnsLocked(st, u);
      assert PcOf(st, u) == Waiting(d);
    }
  }

  lemma SinkThread(st: State, u: nat)
    requires Inv(st) && forall w: Vertex :: !Edge(st.graph, Thread(u), w)
    ensures PcOf(st, u) == Idle
  {
    if PcOf(st, u) != Idle {
      assert Meaning(st, Thread(u), Drm(PcOf(st, u).drm));
    }
  }
}
