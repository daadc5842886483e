// semamore.c: a counter between 0 and a maximum. Both kinds of waiting threads share one condition variable;
// semm_wait signals it, semm_post broadcasts. Each step is one stretch of code under the mutex.
module Semamore {

  // A thread inside semm_wait or semm_post: blocked on the condition variable, or woken and not yet in
  // possession of the mutex again.
  datatype Place = Asleep(call: Call) | Woken(call: Call)
  datatype Call = InWait | InPost

  datatype State = State(value: int, maxVal: int, places: map<nat, Place>)

  function AtPlace(st: State, p: Place): set<nat> {
    set t | t in st.places && st.places[t] == p
  }

  function Blocked(st: State): set<nat> {
    set t | t in st.places && st.places[t].Asleep?
  }

  predicate Inv(st: State) {
    && 0 <= st.value <= st.maxVal
    && (AtPlace(st, Asleep(InWait)) != {} ==> st.value == 0)
    && (AtPlace(st, Asleep(InPost)) != {} ==> st.value + |AtPlace(st, Woken(InPost))| >= st.maxVal)
  }

  // ---------- the steps ----------

  function Wake(st: State, threads: set<nat>): State {
    st.(places := map t | t in st.places :: if t in threads then Woken(st.places[t].call) else st.places[t])
  }

  // What pthread_cond_signal may wake: at least one thread, if any is blocked.
  predicate Signalled(st: State, threads: set<nat>) {
    threads <= Blocked(st) && (Blocked(st) != {} ==> threads != {})
  }

  function Through(st: State, t: nat): State {
    st.(places := st.places - {t})
  }

  // semm_wait with the mutex: it blocks, or goes through and signals; `threads` are the ones that wakes.
  function WaitStep(st: State, t: nat, threads: set<nat>): State {
    if st.value == 0 then st.(places := st.places[t := Asleep(InWait)])
    else Wake(Through(st, t), threads).(value := st.value - 1)
  }

  // semm_post with the mutex: it blocks, or goes through and broadcasts.
  function PostStep(st: State, t: nat): State {
    if st.value == st.maxVal then st.(places := st.places[t := Asleep(InPost)])
    else Wake(Through(st, t), Blocked(st)).(value := st.value + 1)
  }

  // A thread calls one of the two functions, or goes on in it after it has been woken; or a thread wakes up
  // although nobody has woken it.
  datatype Event = Wait(thread: nat, threads: set<nat>) | Post(thread: nat) | Spurious(thread: nat)

  predicate Enabled(st: State, e: Event) {
    match e
    case Wait(t, threads) => (t in st.places ==> st.places[t] == Woken(InWait)) && Signalled(st, threads)
    case Post(t) => t in st.places ==> st.places[t] == Woken(InPost)
    case Spurious(t) => t in Blocked(st)
  }

  function Step(st: State, e: Event): State {
    match e
    case Wait(t, threads) => WaitStep(st, t, threads)
    case Post(t) => PostStep(st, t)
    case Spurious(t) => Wake(st, {t})
  }

  const Empty: map<nat, Place> := map[]

  datatype Option<T> = None | Some(value: T)

  // Where a thread is; None stands for outside.
  function PlaceOf(places: map<nat, Place>, t: nat): Option<Place> {
    if t in places then Some(places[t]) else None
  }

  // Thread t goes to the place given, those of the others that are to be woken are, and the rest stay.
  ghost predicate Moved(before: map<nat, Place>, after: map<nat, Place>, t: nat, place: Option<Place>, wake: set<nat>) {
    && PlaceOf(after, t) == place
    && forall u :: u != t ==>
      PlaceOf(after, u) ==
        if u in before && u in wake then Some(Woken(before[u].call)) else PlaceOf(before, u)
  }

  // ---------- the code ----------

  class Semamore {
    var value: int
    var maxVal: int
    ghost var st: State

    ghost predicate Valid()
      reads this
    {
      Inv(st) && st.value == value && st.maxVal == maxVal
    }

    // semm_init, with a value in range.
    constructor (value: int, maxVal: int)
      requires 0 <= value <= maxVal
      ensures Valid() && st == State(value, maxVal, Empty)
    {
      this.value, this.maxVal := value, maxVal;
      st := State(value, maxVal, Empty);
    }

    // The test of the loop in semm_wait and, unless the thread blocks, the rest of the function.
    method Wait(t: nat, ghost threads: set<nat>) returns (through: bool)
      requires Valid() && Enabled(st, Event.Wait(t, threads))
      modifies this
      ensures Valid() && st == Step(old(st), Event.Wait(t, threads))
      ensures through <==> old(value) > 0
      ensures value == old(value) - (if through then 1 else 0) && maxVal == old(maxVal)
      ensures Moved(old(st).places, st.places, t, if through then None else Some(Asleep(InWait)),
                    if through then threads else {})
    {
      StepKeeps(st, Event.Wait(t, threads));
      st := Step(st, Event.Wait(t, threads));
      if value == 0 {
        return false;
      }
      value := value - 1;
      return true;
    }

    // The same for semm_post.
    method Post(t: nat) returns (through: bool)
      requires Valid() && Enabled(st, Event.Post(t))
      modifies this
      ensures Valid() && st == Step(old(st), Event.Post(t))
      ensures through <==> old(value) < maxVal
      ensures value == old(value) + (if through then 1 else 0) && maxVal == old(maxVal)
      ensures Moved(old(st).places, st.places, t, if through then None else Some(Asleep(InPost)),
                    if through then old(st).places.Keys else {})
    {
      StepKeeps(st, Event.Post(t));
      st := Step(st, Event.Post(t));
      if value == maxVal {
        return false;
      }
      value := value + 1;
      return true;
    }
  }

  // ---------- every step keeps the invariant ----------

  lemma SizeBelow(a: set<nat>, b: set<nat>, extra: set<nat>)
    requires a <= b && extra <= b && a !! extra
    ensures |a| + |extra| <= |b|
  {
    assert b == a + extra + (b - a - extra);
  }

  // A call of semm_wait that goes through finds no other one asleep: its signal reaches a thread in
  // semm_post, if there is one.
  lemma WaitKeeps(st: State, t: nat, threads: set<nat>)
    requires Inv(st) && Enabled(st, Wait(t, threads))
    ensures Inv(WaitStep(st, t, threads))
  {
    var st' := WaitStep(st, t, threads);
    var before, after := AtPlace(st, Woken(InPost)), AtPlace(st', Woken(InPost));
    if st.value == 0 {
      assert AtPlace(st', Asleep(InPost)) <= AtPlace(st, Asleep(InPost));
      assert before == after;
    } else {
      assert AtPlace(st', Asleep(InWait)) == {} by {
        assert forall u :: u in AtPlace(st', Asleep(InWait)) ==> u in AtPlace(st, Asleep(InWait));
      }
      if u :| u in AtPlace(st', Asleep(InPost)) {
        assert u in AtPlace(st, Asleep(InPost)) && u in Blocked(st);
        var w :| w in threads;
        assert w in Blocked(st) && w !in AtPlace(st, Asleep(InWait));
        assert st.places[w].call == InPost;
        SizeBelow(before, after, {w});
      }
    }
  }

  lemma PostKeeps(st: State, t: nat)
    requires Inv(st) && Enabled(st, Post(t))
    ensures Inv(PostStep(st, t))
  {
    var st' := PostStep(st, t);
    if st.value == st.maxVal {
      assert AtPlace(st', Asleep(InWait)) <= AtPlace(st, Asleep(InWait));
    } else {
      assert AtPlace(st', Asleep(InWait)) == {} && AtPlace(st', Asleep(InPost)) == {};
    }
  }

  lemma SpuriousKeeps(st: State, t: nat)
    requires Inv(st) && t in Blocked(st)
    ensures Inv(Wake(st, {t}))
  {
    var st' := Wake(st, {t});
    assert AtPlace(st', Asleep(InWait)) <= AtPlace(st, Asleep(InWait));
    assert AtPlace(st', Asleep(InPost)) <= AtPlace(st, Asleep(InPost));
    SizeBelow(AtPlace(st, Woken(InPost)), AtPlace(st', Woken(InPost)), {});
  }

  lemma StepKeeps(st: State, e: Event)
    requires Inv(st) && Enabled(st, e)
    ensures Inv(Step(st, e))
  {
    match e {
      case Wait(t, threads) => WaitKeeps(st, t, threads);
      case Post(t) => PostKeeps(st, t);
      case Spurious(t) => SpuriousKeeps(st, t);
    }
  }

  // ---------- runs ----------

  predicate IsRun(states: seq<State>, events: seq<Event>, value: int, maxVal: int) {
    && |states| == |events| + 1 && states[0] == State(value, maxVal, Empty)
    && forall i :: 0 <= i < |events| ==> Follows(states[i], events[i], states[i + 1])
  }

  predicate Follows(st: State, e: Event, st': State) {
    Enabled(st, e) && st' == Step(st, e)
  }

  lemma {:induction false} EveryRun(states: seq<State>, events: seq<Event>, value: int, maxVal: int, i: nat)
    requires IsRun(states, events, value, maxVal) && 0 <= value <= maxVal && i < |states|
    ensures Inv(states[i]) && states[i].maxVal == maxVal
  {
    if i > 0 {
      EveryRun(states, events, value, maxVal, i - 1);
      assert Follows(states[i - 1], events[i - 1], states[i]);
      StepKeeps(states[i - 1], events[i - 1]);
    }
  }

  // The calls that have gone through among the first i events: those of semm_wait that found the value above 0,
  // and those of semm_post that found it below the maximum.
  function WaitsThrough(states: seq<State>, events: seq<Event>, i: nat): nat
    requires i <= |events| <= |states|
  {
    if i == 0 then 0
    else WaitsThrough(states, events, i - 1) + if events[i - 1].Wait? && states[i - 1].value > 0 then 1 else 0
  }

  function PostsThrough(states: seq<State>, events: seq<Event>, i: nat): nat
    requires i <= |events| <= |states|
  {
    if i == 0 then 0
    else
      PostsThrough(states, events, i - 1) +
        if events[i - 1].Post? && states[i - 1].value < states[i - 1].maxVal then 1 else 0
  }

  lemma StepValue(st: State, e: Event)
    ensures Step(st, e).maxVal == st.maxVal
    ensures Step(st, e).value == st.value
      + (if e.Post? && st.value != st.maxVal then 1 else 0) - (if e.Wait? && st.value != 0 then 1 else 0)
  {
  }

  // In every run: the value is the initial one, and one more for each call of semm_post that has gone through,
  // and one less for each of semm_wait; it stays between 0 and the maximum.
  lemma {:induction false} ValueIsBalance(states: seq<State>, events: seq<Event>, value: int, maxVal: int, i: nat)
    requires IsRun(states, events, value, maxVal) && 0 <= value <= maxVal && i < |states|
    ensures states[i].value == value + PostsThrough(states, events, i) - WaitsThrough(states, events, i)
    ensures 0 <= states[i].value <= maxVal
  {
    EveryRun(states, events, value, maxVal, i);
    if i > 0 {
      ValueIsBalance(states, events, value, maxVal, i - 1);
      EveryRun(states, events, value, maxVal, i - 1);
      assert Follows(states[i - 1], events[i - 1], states[i]);
      StepValue(states[i - 1], events[i - 1]);
    }
  }

  // No wakeup is lost: a thread blocked in a call that could go through has a woken one of its kind beside
  // it. Once no thread is on its way, only those are blocked that have to be.
  lemma NoLostWakeup(states: seq<State>, events: seq<Event>, value: int, maxVal: int, i: nat)
    requires IsRun(states, events, value, maxVal) && 0 <= value <= maxVal && i < |states|
    ensures AtPlace(states[i], Asleep(InWait)) != {} ==> states[i].value == 0
    ensures AtPlace(states[i], Asleep(InPost)) != {} && states[i].value < maxVal ==>
      AtPlace(states[i], Woken(InPost)) != {}
  {
    EveryRun(states, events, value, maxVal, i);
  }

  // The broadcast in semm_post is needed: with a signal in its place a thread in semm_wait could stay asleep
  // although the value is positive.
  lemma SignalInPostLosesWakeup()
    ensures var st := State(0, 2, map[1 := Asleep(InWait), 2 := Asleep(InWait)]);
      Inv(st) && Signalled(st, {1}) && !Inv(Wake(st, {1}).(value := 1))
  {
    var st := State(0, 2, map[1 := Asleep(InWait), 2 := Asleep(InWait)]);
    assert AtPlace(st, Asleep(InPost)) == {};
    assert 1 in Blocked(st);
    assert 2 in AtPlace(Wake(st, {1}).(value := 1), Asleep(InWait));
  }
}
