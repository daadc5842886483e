// queue.c: a first-in first-out queue as a linked list, with an optional bound, one mutex and one condition
// variable on which both kinds of blocked threads sleep.
module BoundedQueue {

  // ---------- the linked list ----------

  class Node<T> {
    const data: T
    var next: Node?<T>

    constructor (data: T)
      ensures this.data == data && next == null
    {
      this.data := data;
      next := null;
    }
  }

  class Queue<T> {
    var head: Node?<T>
    var tail: Node?<T>
    var size: int
    const maxSize: int
    ghost var nodes: seq<Node<T>>
    ghost var st: State<T>

    // Node k of the list holds element k and is linked to node k + 1.
    ghost predicate NodeIs(k: nat)
      requires k < |nodes| == |st.contents|
      reads this, nodes
    {
      nodes[k].data == st.contents[k] && nodes[k].next == if k + 1 < |nodes| then nodes[k + 1] else null
    }

    // The list holds what the state below says it does.
    ghost predicate Valid()
      reads this, nodes
    {
      && Inv(st) && st.maxSize == maxSize
      && |nodes| == |st.contents| == size
      && (forall i, j :: 0 <= i < j < |nodes| ==> nodes[i] != nodes[j])
      && head == (if nodes == [] then null else nodes[0])
      && tail == (if nodes == [] then null else nodes[|nodes| - 1])
      && (forall k :: 0 <= k < |nodes| ==> NodeIs(k))
    }

    // queue_create
    constructor (maxSize: int)
      ensures Valid() && st == Create(maxSize)
    {
      head, tail, size, nodes, st := null, null, 0, [], Create(maxSize);
      this.maxSize := maxSize;
    }

    // The test of the loop in queue_push and, unless the thread blocks, the rest of the function.
    method Push(ghost t: nat, data: T) returns (through: bool)
      requires Valid() && Enabled(st, Event.Push(t, data))
      modifies this, tail
      ensures Valid() && fresh(set n | n in nodes && n !in old(nodes))
      ensures st == Step(old(st), Event.Push(t, data)) && (through <==> maxSize <= 0 || old(size) != maxSize)
      ensures st.contents == old(st).contents + if through then [data] else []
      ensures through ==> st.asleepPush == {} && st.asleepPull == {}
      ensures !through ==> st.asleepPush == old(st).asleepPush + {t} && st.asleepPull == old(st).asleepPull
    {
      StepKeeps(st, Event.Push(t, data));
      if maxSize > 0 && size == maxSize {
        st := Step(st, Event.Push(t, data));
        forall k | 0 <= k < |nodes| ensures NodeIs(k) {
          assert old(NodeIs(k));
        }
        return false;
      }
      var newNode := new Node(data);
      if head == null {
        head := newNode;
      } else {
        tail.next := newNode;
      }
      tail := newNode;
      size := size + 1;
      nodes := nodes + [newNode];
      st := Step(st, Event.Push(t, data));
      forall k | 0 <= k < |nodes| ensures NodeIs(k) {
        if k < |nodes| - 1 {
          assert old(NodeIs(k));
        }
      }
      return true;
    }

    // The same for queue_pull.
    method Pull(ghost t: nat, whenEmpty: T) returns (through: bool, data: T)
      requires Valid() && Enabled(st, Event<T>.Pull(t))
      modifies this
      ensures Valid() && (forall n :: n in nodes ==> n in old(nodes))
      ensures st == Step(old(st), Event<T>.Pull(t)) && through == (old(st).contents != [])
      ensures through ==> old(st).contents == [data] + st.contents
      ensures through ==> st.asleepPush == {} && st.asleepPull == {}
      ensures !through ==> st.contents == [] && st.asleepPush == old(st).asleepPush
      ensures !through ==> st.asleepPull == old(st).asleepPull + {t}
    {
      StepKeeps(st, Event<T>.Pull(t));
      if size == 0 {
        st := Step(st, Event<T>.Pull(t));
        return false, whenEmpty;
      }
      assert NodeIs(0);
      var temp := head;
      head := temp.next;
      size := size - 1;
      if size == 0 {
        tail := null;
      }
      nodes := nodes[1..];
      st := Step(st, Event<T>.Pull(t));
      forall k | 0 <= k < |nodes| ensures NodeIs(k) {
        assert old(NodeIs(k + 1));
      }
      return true, temp.data;
    }
  }

  // ---------- threads ----------

  // The elements in the queue, its bound, and the threads that sleep in queue_push and queue_pull.
  datatype State<T> = State(contents: seq<T>, maxSize: int, asleepPush: set<nat>, asleepPull: set<nat>)

  predicate Full<T>(st: State<T>) {
    st.maxSize > 0 && |st.contents| == st.maxSize
  }

  ghost predicate Inv<T>(st: State<T>) {
    && (st.maxSize > 0 ==> |st.contents| <= st.maxSize)
    && (st.asleepPush != {} ==> Full(st))
    && (st.asleepPull != {} ==> st.contents == [])
  }

  function Create<T>(maxSize: int): (st: State<T>)
    ensures Inv(st)
  {
    State([], maxSize, {}, {})
  }

  // One pass of a thread that is not asleep: it falls asleep, or goes through and wakes everyone up.
  function PushStep<T>(st: State<T>, t: nat, x: T): State<T> {
    if Full(st) then st.(asleepPush := st.asleepPush + {t})
    else State(st.contents + [x], st.maxSize, {}, {})
  }

  function PullStep<T>(st: State<T>, t: nat): State<T> {
    if st.contents == [] then st.(asleepPull := st.asleepPull + {t})
    else State(st.contents[1..], st.maxSize, {}, {})
  }

  function SpuriousStep<T>(st: State<T>, t: nat): State<T> {
    st.(asleepPush := st.asleepPush - {t}, asleepPull := st.asleepPull - {t})
  }

  datatype Event<T> = Push(thread: nat, data: T) | Pull(thread: nat) | Spurious(thread: nat)

  predicate Enabled<T>(st: State<T>, e: Event<T>) {
    e.Spurious? || e.thread !in st.asleepPush + st.asleepPull
  }

  function Step<T>(st: State<T>, e: Event<T>): State<T> {
    match e
    case Push(t, x) => PushStep(st, t, x)
    case Pull(t) => PullStep(st, t)
    case Spurious(t) => SpuriousStep(st, t)
  }

  lemma StepKeeps<T>(st: State<T>, e: Event<T>)
    requires Inv(st) && Enabled(st, e)
    ensures Inv(Step(st, e))
  {
  }

  ghost predicate IsRun<T>(states: seq<State<T>>, events: seq<Event<T>>, maxSize: int) {
    && |states| == |events| + 1 && states[0] == Create(maxSize)
    && forall i :: 0 <= i < |events| ==> Follows(states[i], events[i], states[i + 1])
  }

  ghost predicate Follows<T>(st: State<T>, e: Event<T>, st': State<T>) {
    Enabled(st, e) && st' == Step(st, e)
  }

  // The element that an event pushes, if it is a push that finds room.
  function PushedBy<T>(st: State<T>, e: Event<T>): seq<T> {
    if e.Push? && (st.maxSize <= 0 || |st.contents| < st.maxSize) then [e.data] else []
  }

  // The element that an event pulls, if it is a pull that finds one: what is at the head.
  function PulledBy<T>(st: State<T>, e: Event<T>): seq<T> {
    if e.Pull? && st.contents != [] then [st.contents[0]] else []
  }

  // All elements that the first i events push, and all that they pull, in the order of the events.
  function Pushed<T>(states: seq<State<T>>, events: seq<Event<T>>, i: nat): seq<T>
    requires i <= |events| <= |states|
  {
    if i == 0 then [] else Pushed(states, events, i - 1) + PushedBy(states[i - 1], events[i - 1])
  }

  function Pulled<T>(states: seq<State<T>>, events: seq<Event<T>>, i: nat): seq<T>
    requires i <= |events| <= |states|
  {
    if i == 0 then [] else Pulled(states, events, i - 1) + PulledBy(states[i - 1], events[i - 1])
  }

  // An element that is pushed goes behind the others, one that is pulled was in front of them.
  lemma StepContents<T>(st: State<T>, e: Event<T>)
    requires Inv(st)
    ensures st.contents + PushedBy(st, e) == PulledBy(st, e) + Step(st, e).contents
  {
  }

  lemma StillInOrder<T>(pushed: seq<T>, pulled: seq<T>, contents: seq<T>, x: seq<T>, y: seq<T>, rest: seq<T>)
    requires pushed == pulled + contents && contents + x == y + rest
    ensures pushed + x == pulled + y + rest
  {
    assert pushed + x == pulled + (contents + x);
  }

  // Under any interleaving: what has been pulled is what was pushed first, in that order, and the rest of it is
  // in the queue; the bound holds; and threads sleep only while they have to.
  lemma {:induction false} EveryRun<T>(states: seq<State<T>>, events: seq<Event<T>>, maxSize: int, i: nat)
    requires IsRun(states, events, maxSize) && i < |states|
    ensures Inv(states[i]) && states[i].maxSize == maxSize && (maxSize > 0 ==> |states[i].contents| <= maxSize)
    ensures states[i].asleepPush != {} ==> maxSize > 0 && |states[i].contents| == maxSize
    ensures states[i].asleepPull != {} ==> states[i].contents == []
    ensures Pushed(states, events, i) == Pulled(states, events, i) + states[i].contents
  {
    if i > 0 {
      EveryRun(states, events, maxSize, i - 1);
      var st, e := states[i - 1], events[i - 1];
      assert Follows(st, e, states[i]);
      StepKeeps(st, e);
      StepContents(st, e);
      StillInOrder(Pushed(states, events, i - 1), Pulled(states, events, i - 1), st.contents, PushedBy(st, e),
                   PulledBy(st, e), states[i].contents);
    }
  }
}
