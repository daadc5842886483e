// barrier.c: a reusable barrier for exactly n threads. Each step is one stretch of code under the mutex.
module Barrier {

  // The number of calls of barrier_wait that each thread has begun and finished; the threads blocked on the
  // condition variable, and those that have been woken but have not gone on yet; and the number of times the
  // barrier has opened.
  datatype State = State(n: nat, count: nat, asleep: set<nat>, woken: set<nat>, entered: seq<nat>, left: seq<nat>,
                         rounds: nat)

  function Threads(n: nat): (r: set<nat>)
    ensures |r| == n && forall t: nat :: t in r <==> t < n
  {
    if n == 0 then {}
    else
      var smaller := Threads(n - 1);
      assert n - 1 !in smaller;
      smaller + {n - 1}
  }

  // A thread that is woken may belong to the round before, or have woken up without a broadcast.
  predicate ThreadIs(st: State, t: nat)
    requires t < |st.entered| == |st.left|
  {
    if t in st.asleep then st.entered[t] == st.rounds + 1 && st.left[t] == st.rounds
    else if t in st.woken then st.rounds <= st.entered[t] == st.left[t] + 1 <= st.rounds + 1
    else st.entered[t] == st.left[t] == st.rounds
  }

  // The threads that have entered since the barrier last opened.
  function Inside(st: State): set<nat>
    requires |st.entered| == st.n
  {
    set t | t in Threads(st.n) && st.entered[t] > st.rounds
  }

  predicate Inv(st: State) {
    && st.n > 0 && |st.entered| == |st.left| == st.n
    && st.asleep <= Threads(st.n) && st.woken <= Threads(st.n) && st.asleep !! st.woken
    && st.count == |Inside(st)| < st.n
    && forall t :: 0 <= t < st.n ==> ThreadIs(st, t)
  }

  // A thread calls barrier_wait; one that has been woken goes on; one wakes up without a broadcast.
  datatype Event = Enter(thread: nat) | Leave(thread: nat) | Wake(thread: nat)

  predicate Enabled(st: State, e: Event) {
    && e.thread < |st.entered| == |st.left|
    && match e
       case Enter(t) => t !in st.asleep && t !in st.woken
       case Leave(t) => t in st.woken
       case Wake(t) => t in st.asleep
  }

  // barrier_wait up to the wait, or to the end for the last thread; the rest of it; and nothing of it.
  function Step(st: State, e: Event): State
    requires Enabled(st, e)
  {
    match e
    case Enter(t) =>
      var entered := st.entered[t := st.entered[t] + 1];
      if st.count + 1 == st.n then
        State(st.n, 0, {}, st.woken + st.asleep, entered, st.left[t := st.left[t] + 1], st.rounds + 1)
      else st.(count := st.count + 1, asleep := st.asleep + {t}, entered := entered)
    case Leave(t) => st.(woken := st.woken - {t}, left := st.left[t := st.left[t] + 1])
    case Wake(t) => st.(asleep := st.asleep - {t}, woken := st.woken + {t})
  }

  function Start(n: nat): State {
    State(n, 0, {}, {}, seq(n, _ => 0), seq(n, _ => 0), 0)
  }

  class Barrier {
    var nThreads: nat
    var count: nat
    ghost var st: State

    ghost predicate Valid()
      reads this
    {
      st.n == nThreads && st.count == count
    }

    // barrier_init
    constructor (n: nat)
      ensures Valid() && st == Start(n)
    {
      nThreads, count, st := n, 0, Start(n);
    }

    // barrier_wait up to the wait; the last thread opens the barrier and does not block.
    method Enter(t: nat) returns (blocks: bool)
      requires Valid() && Enabled(st, Event.Enter(t))
      modifies this
      ensures Valid() && st == Step(old(st), Event.Enter(t))
      ensures blocks <==> old(count) + 1 != nThreads
      ensures nThreads == old(nThreads) && count == if blocks then old(count) + 1 else 0
      ensures blocks ==> st.asleep == old(st).asleep + {t} && st.woken == old(st).woken
      ensures !blocks ==> st.asleep == {} && st.woken == old(st).woken + old(st).asleep
    {
      st := Step(st, Event.Enter(t));
      count := count + 1;
      if count == nThreads {
        count := 0;
        return false;
      }
      return true;
    }
  }

  lemma StartInv(n: nat)
    requires n > 0
    ensures Inv(Start(n))
  {
    assert Inside(Start(n)) == {};
  }

  // A thread goes on although the barrier has not opened since it entered.
  predicate TooEarly(st: State, e: Event) {
    e.Leave? && e.thread < |st.entered| && st.entered[e.thread] > st.rounds
  }

  lemma SameSize(a: set<nat>, b: set<nat>)
    requires a <= b && |a| == |b|
    ensures a == b
  {
    assert b == a + (b - a);
    assert |b - a| == 0;
  }

  // The last thread finds all others inside.
  lemma LastOne(st: State, t: nat)
    requires Inv(st) && Enabled(st, Enter(t)) && st.count + 1 == st.n
    ensures forall u :: 0 <= u < st.n && u != t ==> st.entered[u] == st.rounds + 1
    ensures Inside(Step(st, Enter(t))) == {}
  {
    assert ThreadIs(st, t);
    SameSize(Inside(st), Threads(st.n) - {t});
    forall u | 0 <= u < st.n && u != t ensures st.entered[u] == st.rounds + 1 {
      assert u in Inside(st);
      assert ThreadIs(st, u);
    }
  }

  lemma InsideAfter(st: State, e: Event)
    requires Inv(st) && Enabled(st, e) && !(e.Enter? && st.count + 1 == st.n)
    ensures Inside(Step(st, e)) == if e.Enter? then Inside(st) + {e.thread} else Inside(st)
    ensures e.Enter? ==> e.thread !in Inside(st)
  {
    assert ThreadIs(st, e.thread);
  }

  lemma StepKeeps(st: State, e: Event)
    requires Inv(st) && Enabled(st, e) && !TooEarly(st, e)
    ensures Inv(Step(st, e))
  {
    var st' := Step(st, e);
    if e.Enter? && st.count + 1 == st.n {
      LastOne(st, e.thread);
    } else {
      InsideAfter(st, e);
    }
    forall t | 0 <= t < st.n ensures ThreadIs(st', t) {
      assert ThreadIs(st, t);
    }
  }

  // ---------- runs ----------

  predicate IsRun(states: seq<State>, events: seq<Event>, n: nat) {
    && |states| == |events| + 1 && states[0] == Start(n)
    && forall i :: 0 <= i < |events| ==> Follows(states[i], events[i], states[i + 1])
  }

  predicate Follows(st: State, e: Event, st': State) {
    Enabled(st, e) && st' == Step(st, e)
  }

  // The number of times that the first i events have thread t enter the barrier, and leave it: by going on, or by
  // being the last one to enter.
  function Entries(events: seq<Event>, t: nat, i: nat): nat
    requires i <= |events|
  {
    if i == 0 then 0 else Entries(events, t, i - 1) + if events[i - 1] == Enter(t) then 1 else 0
  }

  function Exits(states: seq<State>, events: seq<Event>, t: nat, i: nat): nat
    requires i <= |events| <= |states|
  {
    if i == 0 then 0
    else
      var st, e := states[i - 1], events[i - 1];
      Exits(states, events, t, i - 1) +
        if e == Leave(t) || (e == Enter(t) && st.count + 1 == st.n) then 1 else 0
  }

  lemma StepCounts(st: State, e: Event, t: nat)
    requires Enabled(st, e) && t < |st.entered|
    ensures |Step(st, e).entered| == |Step(st, e).left| == |st.entered|
    ensures Step(st, e).entered[t] == st.entered[t] + if e == Enter(t) then 1 else 0
    ensures Step(st, e).left[t] ==
      st.left[t] + if e == Leave(t) || (e == Enter(t) && st.count + 1 == st.n) then 1 else 0
  {
  }

  // entered and left count those events.
  lemma {:induction false} CountsOfRun(states: seq<State>, events: seq<Event>, n: nat, t: nat, i: nat)
    requires IsRun(states, events, n) && t < n && i < |states|
    ensures |states[i].entered| == |states[i].left| == n
    ensures states[i].entered[t] == Entries(events, t, i) && states[i].left[t] == Exits(states, events, t, i)
  {
    if i > 0 {
      CountsOfRun(states, events, n, t, i - 1);
      assert Follows(states[i - 1], events[i - 1], states[i]);
      StepCounts(states[i - 1], events[i - 1], t);
    }
  }

  // By the time a thread has left the barrier k times, every thread has entered it k times.
  predicate Together(st: State) {
    forall t, u :: 0 <= t < |st.left| && 0 <= u < |st.entered| ==> st.left[t] <= st.entered[u]
  }

  lemma InvTogether(st: State)
    requires Inv(st)
    ensures Together(st)
  {
    forall t, u | 0 <= t < st.n && 0 <= u < st.n ensures st.left[t] <= st.entered[u] {
      assert ThreadIs(st, t) && ThreadIs(st, u);
    }
  }

  // Someone has not entered yet: a thread that goes on too early leaves that one behind.
  lemma TooEarlyBreaks(st: State, e: Event)
    requires Inv(st) && Enabled(st, e) && TooEarly(st, e)
    ensures !Together(Step(st, e))
  {
    assert Inside(st) != Threads(st.n);
    var u :| u in Threads(st.n) && u !in Inside(st);
    assert ThreadIs(st, e.thread) && ThreadIs(st, u);
    assert Step(st, e).left[e.thread] > Step(st, e).entered[u];
  }

  lemma {:induction false} EveryRun(states: seq<State>, events: seq<Event>, n: nat, i: nat)
    requires IsRun(states, events, n) && n > 0 && i < |states|
    requires forall j :: 0 <= j < i ==> !TooEarly(states[j], events[j])
    ensures Inv(states[i]) && states[i].n == n
  {
    if i == 0 {
      StartInv(n);
    } else {
      EveryRun(states, events, n, i - 1);
      assert Follows(states[i - 1], events[i - 1], states[i]);
      StepKeeps(states[i - 1], events[i - 1]);
    }
  }

  lemma {:induction false} FirstTooEarly(states: seq<State>, events: seq<Event>, j: nat) returns (k: nat)
    requires j < |events| < |states| && TooEarly(states[j], events[j])
    ensures k <= j && TooEarly(states[k], events[k]) && forall i :: 0 <= i < k ==> !TooEarly(states[i], events[i])
  {
    if i: nat :| i < j && TooEarly(states[i], events[i]) {
      k := FirstTooEarly(states, events, i);
    } else {
      k := j;
    }
  }

  // For every run: no thread ever leaves a round before all have entered it if and only if no thread that has
  // woken up without a broadcast goes on before the barrier opens.
  lemma SafeIff(states: seq<State>, events: seq<Event>, n: nat)
    requires IsRun(states, events, n) && n > 0
    ensures (forall i :: 0 <= i < |states| ==> Together(states[i]))
      <==> (forall j :: 0 <= j < |events| ==> !TooEarly(states[j], events[j]))
  {
    if forall j :: 0 <= j < |events| ==> !TooEarly(states[j], events[j]) {
      forall i | 0 <= i < |states| ensures Together(states[i]) {
        EveryRun(states, events, n, i);
        InvTogether(states[i]);
      }
    } else {
      var j: nat :| j < |events| && TooEarly(states[j], events[j]);
      var k := FirstTooEarly(states, events, j);
      EveryRun(states, events, n, k);
      assert Follows(states[k], events[k], states[k + 1]);
      TooEarlyBreaks(states[k], events[k]);
    }
  }

  // ---------- wakeups without a broadcast ----------

  ghost predicate NoneEarly(st: State) {
    forall t :: t in st.woken ==> t < |st.entered| && st.entered[t] <= st.rounds
  }

  lemma {:induction false} NoWakesNoneEarly(states: seq<State>, events: seq<Event>, n: nat, i: nat)
    requires IsRun(states, events, n) && n > 0 && i < |states|
    requires forall j :: 0 <= j < |events| ==> !events[j].Wake?
    ensures NoneEarly(states[i]) && Inv(states[i]) && states[i].n == n
  {
    if i == 0 {
      StartInv(n);
    } else {
      NoWakesNoneEarly(states, events, n, i - 1);
      var st, e := states[i - 1], events[i - 1];
      assert Follows(st, e, states[i]);
      StepKeeps(st, e);
      forall t | t in states[i].woken ensures t < n && states[i].entered[t] <= states[i].rounds {
        assert ThreadIs(st, t);
      }
    }
  }

  // In every run without such wakeups: by the time a thread has left the barrier k times, every thread has
  // entered it k times.
  lemma NobodyLeavesEarly(states: seq<State>, events: seq<Event>, n: nat, i: nat, t: nat, u: nat)
    requires IsRun(states, events, n) && i < |states| && t < n && u < n
    requires forall j :: 0 <= j < |events| ==> !events[j].Wake?
    ensures |states[i].entered| == |states[i].left| == n && states[i].left[t] <= states[i].entered[u]
    ensures Exits(states, events, t, i) <= Entries(events, u, i)
  {
    NoWakesNoneEarly(states, events, n, i);
    InvTogether(states[i]);
    CountsOfRun(states, events, n, t, i);
    CountsOfRun(states, events, n, u, i);
  }

  // There is no loop around the wait: whichever thread is asleep, in whatever state, if it wakes up without a
  // broadcast it goes on at once and leaves some thread behind that has not entered.
  lemma SpuriousWakeupBreaksIt(st: State, t: nat)
    requires Inv(st) && t in st.asleep
    ensures Enabled(st, Wake(t)) && Enabled(Step(st, Wake(t)), Leave(t))
    ensures !Together(Step(Step(st, Wake(t)), Leave(t)))
  {
    assert ThreadIs(st, t);
    StepKeeps(st, Wake(t));
    TooEarlyBreaks(Step(st, Wake(t)), Leave(t));
  }
}
