// cracker2.c for one user: every thread tries the completions of the hint in its range, until one of them
// has found the password. Each step is what a thread does between two points where others may interfere;
// the threads take steps in any order.
module Cracker2 {
  import opened Words
  import opened Ranges
  import opened SearchSpace

  // At the head of the loop; behind the test of fail; behind a hash that matched; at the barrier.
  datatype Place = Testing | Hashing | Matched | Finished

  // The range of the thread, the number of completions it has tried, and the one it is at.
  datatype Worker = Worker(start: nat, count: nat, i: nat, text: seq<int>, place: Place)

  // The pointer password: null, to a string that it owns, or to one that has been freed.
  datatype Pointer = Null | Owned(text: seq<int>) | Freed

  // The static variables, and the strings that have been hashed.
  datatype State = State(fail: bool, password: Pointer, hashCount: nat, hashed: seq<seq<int>>, workers: seq<Worker>)

  // ---------- the steps ----------

  function Begin(job: Job, threads: nat, id: nat): Worker
    requires 1 <= id <= threads
  {
    var max := Pow26(job.unknown);
    RangeFacts(max, threads, id);
    var start := RangeEnd(max, threads, id - 1);
    Worker(start, RangeEnd(max, threads, id) - start, 0, Candidate(job, start), Testing)
  }

  // The buffer of start: the known letters, and an a for each unknown one.
  method FillBuffer(hint: seq<int>, prefixLength: nat) returns (text: array<int>)
    requires prefixLength <= |hint|
    ensures fresh(text) && text.Length == |hint| && text[..prefixLength] == hint[..prefixLength]
    ensures forall j :: prefixLength <= j < |hint| ==> text[j] == A
  {
    text := new int[|hint|](_ => A);
    for i := 0 to prefixLength
      invariant text[..i] == hint[..i]
      invariant forall j :: prefixLength <= j < |hint| ==> text[j] == A
    {
      text[i] := hint[i];
    }
  }

  // What start and the first lines of helper make of a hint for one thread: the buffer, its range, and the
  // known letters.
  method BuildTask(hint: seq<int>, threads: nat, id: nat, ghost job: Job)
    returns (text: array<int>, start: nat, count: nat)
    requires 1 <= id <= threads
    requires job.prefix == hint[..PrefixLength(hint)] && job.unknown == |hint| - PrefixLength(hint)
    ensures Worker(start, count, 0, text[..], Testing) == Begin(job, threads, id)
  {
    var prefixLength := GetPrefixLength(hint);
    text := FillBuffer(hint, prefixLength);
    start, count := GetSubrange(|hint| - prefixLength, threads, id);
    SetUnknown(text, prefixLength, start);
  }

  method SetUnknown(text: array<int>, prefixLength: nat, start: nat)
    requires prefixLength <= text.Length
    modifies text
    ensures text[..] == old(text[..prefixLength]) + Digits(start, text.Length - prefixLength)
  {
    SetStringPosition(text, prefixLength, start);
    assert text[..] == text[..prefixLength] + text[prefixLength..];
  }

  // password stays what it was after the user before.
  function Start(job: Job, threads: nat, password: Pointer): State {
    State(true, password, 0, [], seq(threads, t requires 0 <= t < threads => Begin(job, threads, t + 1)))
  }

  predicate Ready(st: State, t: nat) {
    t < |st.workers| && st.workers[t].place != Finished
  }

  function Step(job: Job, st: State, t: nat): State
    requires Ready(st, t)
  {
    var w := st.workers[t];
    match w.place
    case Testing =>
      if w.i < w.count && st.fail then st.(workers := st.workers[t := w.(place := Hashing)])
      else st.(hashCount := st.hashCount + w.i, workers := st.workers[t := w.(place := Finished)])
    case Hashing =>
      var next := if job.hash(w.text) == job.exp then w.(place := Matched)
        else w.(text := Incremented(w.text), i := w.i + 1, place := Testing);
      st.(hashed := st.hashed + [w.text], workers := st.workers[t := next])
    case Matched =>
      st.(fail := false, password := Owned(w.text), hashCount := st.hashCount + w.i + 1,
          workers := st.workers[t := w.(place := Finished)])
  }

  // hash_count and the counter of each thread are ints: a step beyond their values is undefined.
  predicate Fits(st: State) {
    st.hashCount < INT_LIMIT && forall t :: 0 <= t < |st.workers| ==> st.workers[t].i < INT_LIMIT
  }

  // ---------- the invariant ----------

  predicate WorkerInv(job: Job, st: State, threads: nat, t: nat)
    requires t < threads == |st.workers|
  {
    WorkerIs(job, st.fail, st.workers[t], Begin(job, threads, t + 1))
  }

  // A thread that began as `first`.
  predicate WorkerIs(job: Job, fail: bool, w: Worker, first: Worker) {
    && w.start == first.start && w.count == first.count && w.i <= w.count
    && (forall n :: w.start <= n < w.start + w.i ==> !Matches(job, n))
    && (w.place == Testing || w.place == Hashing || w.place == Matched ==>
          w.start + w.i < Pow26(job.unknown) ==> w.text == Candidate(job, w.start + w.i))
    && (w.place == Hashing || w.place == Matched ==> w.i < w.count)
    && (w.place == Matched ==> job.hash(w.text) == job.exp)
    && (w.place == Finished && fail ==> w.i == w.count)
  }

  // The hashes of a thread that are not yet part of hash_count.
  function Open(w: Worker): nat {
    match w.place
    case Testing => w.i
    case Hashing => w.i
    case Matched => w.i + 1
    case Finished => 0
  }

  // What the thread has hashed at most: a match has not been counted in i.
  function Cap(w: Worker): nat {
    w.i + if w.place == Matched || (w.place == Finished && w.i < w.count) then 1 else 0
  }

  // The steps that the thread has before it at most.
  function Work(w: Worker): int {
    match w.place
    case Testing => 3 * (w.count - w.i) + 2
    case Hashing => 3 * (w.count - w.i) + 1
    case Matched => 1
    case Finished => 0
  }

  // What is added up over the threads.
  datatype Amount = Uncounted | AtMost | Tried | Left

  function Of(a: Amount, w: Worker): int {
    match a
    case Uncounted => Open(w)
    case AtMost => Cap(w)
    case Tried => w.i
    case Left => Work(w)
  }

  function Sum(a: Amount, workers: seq<Worker>): int {
    if workers == [] then 0 else Sum(a, workers[..|workers| - 1]) + Of(a, workers[|workers| - 1])
  }

  ghost predicate Inv(job: Job, st: State, threads: nat) {
    && |st.workers| == threads
    && (forall t :: 0 <= t < threads ==> WorkerInv(job, st, threads, t))
    && |st.hashed| == st.hashCount + Sum(Uncounted, st.workers)
    && |st.hashed| <= Sum(AtMost, st.workers)
    && (!st.fail ==> st.password.Owned? && FoundIs(job, st.password.text) && st.hashCount > 0)
  }

  lemma {:induction false} SumUpdate(a: Amount, workers: seq<Worker>, t: nat, w: Worker)
    requires t < |workers|
    ensures Sum(a, workers[t := w]) == Sum(a, workers) - Of(a, workers[t]) + Of(a, w)
  {
    var last := |workers| - 1;
    if t < last {
      assert workers[t := w][..last] == workers[..last][t := w];
      SumUpdate(a, workers[..last], t, w);
    } else {
      assert workers[t := w][..last] == workers[..last];
    }
  }

  lemma {:induction false} SumOfZeros(a: Amount, workers: seq<Worker>)
    requires forall t :: 0 <= t < |workers| ==> Of(a, workers[t]) == 0
    ensures Sum(a, workers) == 0
  {
    if workers != [] {
      SumOfZeros(a, workers[..|workers| - 1]);
    }
  }

  lemma {:induction false} SumIsNatural(a: Amount, workers: seq<Worker>)
    requires forall t :: 0 <= t < |workers| ==> Of(a, workers[t]) >= 0
    ensures Sum(a, workers) >= 0
  {
    if workers != [] {
      SumIsNatural(a, workers[..|workers| - 1]);
    }
  }

  lemma StartInv(job: Job, threads: nat, password: Pointer)
    ensures Inv(job, Start(job, threads, password), threads) && Fits(Start(job, threads, password))
  {
    SumOfZeros(Uncounted, Start(job, threads, password).workers);
    SumOfZeros(AtMost, Start(job, threads, password).workers);
  }

  lemma BeginRange(job: Job, threads: nat, id: nat)
    requires 1 <= id <= threads
    ensures Begin(job, threads, id).start + Begin(job, threads, id).count <= Pow26(job.unknown)
  {
    RangeFacts(Pow26(job.unknown), threads, id);
  }

  // A hash that does not match: one more completion is ruled out, and the text moves on to the next one.
  lemma NoMatchInv(job: Job, st: State, threads: nat, t: nat)
    requires t < threads == |st.workers| && WorkerInv(job, st, threads, t)
    requires st.workers[t].place == Hashing && job.hash(st.workers[t].text) != job.exp
    ensures WorkerInv(job, Step(job, st, t), threads, t)
  {
    BeginRange(job, threads, t + 1);
    NoMatch(job, st.fail, st.workers[t], Begin(job, threads, t + 1));
  }

  lemma NoMatch(job: Job, fail: bool, w: Worker, first: Worker)
    requires WorkerIs(job, fail, w, first) && first.start + first.count <= Pow26(job.unknown)
    requires w.place == Hashing && job.hash(w.text) != job.exp
    ensures WorkerIs(job, fail, w.(text := Incremented(w.text), i := w.i + 1, place := Testing), first)
  {
    var n := w.start + w.i;
    assert w.text == Candidate(job, n);
    assert !Matches(job, n);
    NextCandidate(job, n);
  }

  lemma NextCandidate(job: Job, n: nat)
    ensures n + 1 < Pow26(job.unknown) ==> Incremented(Candidate(job, n)) == Candidate(job, n + 1)
  {
    if n + 1 < Pow26(job.unknown) {
      IncrementedCompletion(job.prefix, n, job.unknown);
    }
  }

  // The thread that takes the step.
  lemma MoverInv(job: Job, st: State, threads: nat, t: nat)
    requires t < threads == |st.workers| && WorkerInv(job, st, threads, t) && Ready(st, t)
    ensures WorkerInv(job, Step(job, st, t), threads, t)
  {
    var w := st.workers[t];
    if w.place == Hashing && job.hash(w.text) != job.exp {
      NoMatchInv(job, st, threads, t);
    }
  }

  // The others: fail only ever becomes false.
  lemma OtherInv(job: Job, st: State, threads: nat, t: nat, u: nat)
    requires Inv(job, st, threads) && Ready(st, t) && u < threads && u != t
    ensures WorkerInv(job, Step(job, st, t), threads, u)
  {
    assert WorkerInv(job, st, threads, u);
  }

  lemma WorkersKeep(job: Job, st: State, threads: nat, t: nat)
    requires Inv(job, st, threads) && Ready(st, t)
    ensures var st' := Step(job, st, t);
      |st'.workers| == threads && forall u :: 0 <= u < threads ==> WorkerInv(job, st', threads, u)
  {
    assert WorkerInv(job, st, threads, t);
    MoverInv(job, st, threads, t);
    forall u | 0 <= u < threads && u != t ensures WorkerInv(job, Step(job, st, t), threads, u) {
      OtherInv(job, st, threads, t, u);
    }
  }

  lemma CountKeeps(job: Job, st: State, threads: nat, t: nat)
    requires Inv(job, st, threads) && Ready(st, t)
    ensures var st' := Step(job, st, t);
      |st'.hashed| == st'.hashCount + Sum(Uncounted, st'.workers) && |st'.hashed| <= Sum(AtMost, st'.workers)
  {
    assert WorkerInv(job, st, threads, t);
    SumUpdate(Uncounted, st.workers, t, Step(job, st, t).workers[t]);
    SumUpdate(AtMost, st.workers, t, Step(job, st, t).workers[t]);
  }

  ghost predicate FoundIs(job: Job, password: seq<int>) {
    exists n :: 0 <= n < Pow26(job.unknown) && password == Candidate(job, n) && Matches(job, n)
  }

  lemma FoundKeeps(job: Job, st: State, threads: nat, t: nat)
    requires t < threads == |st.workers| && WorkerInv(job, st, threads, t) && st.workers[t].place == Matched
    ensures FoundIs(job, st.workers[t].text)
  {
    var w := st.workers[t];
    BeginRange(job, threads, t + 1);
    assert Matches(job, w.start + w.i);
  }

  lemma StepKeeps(job: Job, st: State, threads: nat, t: nat)
    requires Inv(job, st, threads) && Ready(st, t)
    ensures Inv(job, Step(job, st, t), threads)
  {
    WorkersKeep(job, st, threads, t);
    CountKeeps(job, st, threads, t);
    if st.workers[t].place == Matched {
      FoundKeeps(job, st, threads, t);
    }
  }

  // ---------- no completion is hashed twice ----------

  function TimesHashed(job: Job, st: State, n: nat): nat {
    multiset(st.hashed)[Candidate(job, n)]
  }

  predicate Tries(st: State, t: nat, n: nat, atMost: bool)
    requires t < |st.workers|
  {
    var w := st.workers[t];
    w.start <= n < w.start + if atMost then Cap(w) else w.i
  }

  // Completion n has been hashed at most once: once if a thread has passed it, and not unless a thread has
  // come to it.
  ghost predicate OnceAt(job: Job, st: State, n: nat) {
    && TimesHashed(job, st, n) <= 1
    && (forall t :: 0 <= t < |st.workers| && Tries(st, t, n, false) ==> TimesHashed(job, st, n) == 1)
    && (TimesHashed(job, st, n) == 1 ==> exists t :: 0 <= t < |st.workers| && Tries(st, t, n, true))
  }

  lemma HashedMore(s: seq<seq<int>>, x: seq<int>, y: seq<int>)
    ensures multiset(s + [x])[y] == multiset(s)[y] + if x == y then 1 else 0
  {
    assert multiset(s + [x]) == multiset(s) + multiset{x};
  }

  // A thread that is about to hash completion n is the first to do so.
  lemma NotYetHashed(job: Job, st: State, threads: nat, t: nat)
    requires Inv(job, st, threads) && t < threads && st.workers[t].place == Hashing
    requires OnceAt(job, st, st.workers[t].start + st.workers[t].i)
    ensures TimesHashed(job, st, st.workers[t].start + st.workers[t].i) == 0
  {
    var w := st.workers[t];
    var n := w.start + w.i;
    assert WorkerInv(job, st, threads, t);
    forall u | 0 <= u < threads ensures !Tries(st, u, n, true) {
      assert WorkerInv(job, st, threads, u);
      if Tries(st, u, n, true) {
        RangesDisjoint(Pow26(job.unknown), threads, n, t + 1, u + 1);
      }
    }
  }

  // What one step does to the range that a thread has hashed.
  lemma TriesAfter(job: Job, st: State, threads: nat, t: nat, u: nat, n: nat)
    requires Inv(job, st, threads) && Ready(st, t) && u < threads
    requires !(st.workers[t].place == Hashing && n == st.workers[t].start + st.workers[t].i)
    ensures Tries(st, u, n, true) ==> Tries(Step(job, st, t), u, n, true)
    ensures Tries(Step(job, st, t), u, n, false) ==> Tries(st, u, n, false)
  {
    assert WorkerInv(job, st, threads, t);
  }

  lemma HashedNow(job: Job, st: State, threads: nat, t: nat)
    requires Inv(job, st, threads) && t < threads && st.workers[t].place == Hashing
    requires OnceAt(job, st, st.workers[t].start + st.workers[t].i)
    ensures OnceAt(job, Step(job, st, t), st.workers[t].start + st.workers[t].i)
  {
    var w, n := st.workers[t], st.workers[t].start + st.workers[t].i;
    assert WorkerInv(job, st, threads, t);
    BeginRange(job, threads, t + 1);
    NotYetHashed(job, st, threads, t);
    HashedMore(st.hashed, w.text, Candidate(job, n));
    assert Tries(Step(job, st, t), t, n, true);
  }

  // A step that does not hash completion n.
  lemma SameTimes(job: Job, st: State, threads: nat, t: nat, n: nat)
    requires Inv(job, st, threads) && Ready(st, t) && n < Pow26(job.unknown)
    requires !(st.workers[t].place == Hashing && n == st.workers[t].start + st.workers[t].i)
    ensures TimesHashed(job, Step(job, st, t), n) == TimesHashed(job, st, n)
  {
    var w := st.workers[t];
    assert WorkerInv(job, st, threads, t);
    if w.place == Hashing {
      BeginRange(job, threads, t + 1);
      CandidateDiffers(job, w.start + w.i, n);
      HashedMore(st.hashed, w.text, Candidate(job, n));
    }
  }

  lemma OnceKeeps(job: Job, st: State, threads: nat, t: nat, n: nat)
    requires Inv(job, st, threads) && Ready(st, t) && n < Pow26(job.unknown) && OnceAt(job, st, n)
    ensures OnceAt(job, Step(job, st, t), n)
  {
    if st.workers[t].place == Hashing && n == st.workers[t].start + st.workers[t].i {
      HashedNow(job, st, threads, t);
    } else {
      SameTimes(job, st, threads, t, n);
      forall u | 0 <= u < threads
        ensures Tries(st, u, n, true) ==> Tries(Step(job, st, t), u, n, true)
        ensures Tries(Step(job, st, t), u, n, false) ==> Tries(st, u, n, false)
      {
        TriesAfter(job, st, threads, t, u, n);
      }
    }
  }

  // ---------- runs ----------

  predicate AllFinished(st: State) {
    forall t :: 0 <= t < |st.workers| ==> st.workers[t].place == Finished
  }

  ghost predicate IsRun(job: Job, states: seq<State>, moves: seq<nat>, threads: nat) {
    && |states| == |moves| + 1 && states[0] == Start(job, threads, states[0].password)
    && forall i :: 0 <= i < |moves| ==> Follows(job, states[i], moves[i], states[i + 1])
  }

  ghost predicate Follows(job: Job, st: State, t: nat, st': State) {
    Ready(st, t) && st' == Step(job, st, t) && Fits(st')
  }

  lemma {:induction false} EveryRun(job: Job, states: seq<State>, moves: seq<nat>, threads: nat, i: nat)
    requires IsRun(job, states, moves, threads) && i < |states|
    ensures Inv(job, states[i], threads) && Fits(states[i])
  {
    if i == 0 {
      StartInv(job, threads, states[0].password);
    } else {
      EveryRun(job, states, moves, threads, i - 1);
      assert Follows(job, states[i - 1], moves[i - 1], states[i]);
      StepKeeps(job, states[i - 1], threads, moves[i - 1]);
    }
  }

  // In every state of every run no completion has been hashed more than once.
  lemma {:induction false} NoneTwice(job: Job, states: seq<State>, moves: seq<nat>, threads: nat, i: nat, n: nat)
    requires IsRun(job, states, moves, threads) && i < |states| && n < Pow26(job.unknown)
    ensures OnceAt(job, states[i], n)
  {
    if i > 0 {
      NoneTwice(job, states, moves, threads, i - 1, n);
      EveryRun(job, states, moves, threads, i - 1);
      assert Follows(job, states[i - 1], moves[i - 1], states[i]);
      OnceKeeps(job, states[i - 1], threads, moves[i - 1], n);
    }
  }

  // When all threads have reached the barrier, however they took turns: the search has failed if and only
  // if no completion of the hint has the hash; otherwise the password is a completion that has; and
  // hash_count is the number of hashes computed.
  lemma Result(job: Job, states: seq<State>, moves: seq<nat>, threads: nat, i: nat)
    requires IsRun(job, states, moves, threads) && threads > 0 && i < |states| && AllFinished(states[i])
    ensures states[i].fail <==> NothingMatches(job)
    ensures !states[i].fail ==>
      states[i].password.Owned? && FoundIs(job, states[i].password.text) && states[i].hashCount > 0
    ensures states[i].hashCount == |states[i].hashed| < INT_LIMIT
  {
    EveryRun(job, states, moves, threads, i);
    var st := states[i];
    SumOfZeros(Uncounted, st.workers);
    if st.fail {
      forall n | 0 <= n < Pow26(job.unknown) ensures !Matches(job, n) {
        LastRange(Pow26(job.unknown), threads);
        var id := RangesCover(Pow26(job.unknown), threads, threads, n);
        assert WorkerInv(job, st, threads, id - 1);
      }
    }
  }

  // ---------- a search that fails tries every completion once ----------

  lemma {:induction false} TriedUpTo(job: Job, st: State, threads: nat, ids: nat)
    requires Inv(job, st, threads) && ids <= threads && threads > 0
    requires forall t :: 0 <= t < threads ==> st.workers[t].i == st.workers[t].count
    ensures Sum(Tried, st.workers[..ids]) == RangeEnd(Pow26(job.unknown), threads, ids)
  {
    LastRange(Pow26(job.unknown), threads);
    if ids > 0 {
      TriedUpTo(job, st, threads, ids - 1);
      assert st.workers[..ids][..ids - 1] == st.workers[..ids - 1];
      assert WorkerInv(job, st, threads, ids - 1);
    }
  }

  ghost predicate NothingMatches(job: Job) {
    forall n :: 0 <= n < Pow26(job.unknown) ==> !Matches(job, n)
  }

  // A hash that is computed when nothing matches is one more try.
  lemma HashIsTry(job: Job, st: State, threads: nat, t: nat)
    requires Inv(job, st, threads) && Ready(st, t) && NothingMatches(job)
    ensures var w' := Step(job, st, t).workers[t];
      |Step(job, st, t).hashed| - |st.hashed| == w'.i - st.workers[t].i
  {
    var w := st.workers[t];
    assert WorkerInv(job, st, threads, t);
    BeginRange(job, threads, t + 1);
    assert w.place == Hashing ==> !Matches(job, w.start + w.i);
  }

  // As long as nobody has found anything, the hashes computed are the completions tried.
  lemma {:induction false} HashesAreTries(job: Job, states: seq<State>, moves: seq<nat>, threads: nat, i: nat)
    requires IsRun(job, states, moves, threads) && i < |states| && NothingMatches(job)
    ensures |states[i].hashed| == Sum(Tried, states[i].workers)
  {
    if i == 0 {
      SumOfZeros(Tried, states[0].workers);
    } else {
      HashesAreTries(job, states, moves, threads, i - 1);
      EveryRun(job, states, moves, threads, i - 1);
      var st, t := states[i - 1], moves[i - 1];
      assert Follows(job, st, t, states[i]);
      HashIsTry(job, st, threads, t);
      SumUpdate(Tried, st.workers, t, states[i].workers[t]);
    }
  }

  lemma AllTried(job: Job, st: State, threads: nat)
    requires Inv(job, st, threads) && AllFinished(st) && st.fail
    ensures forall t :: 0 <= t < threads ==> st.workers[t].i == st.workers[t].count
  {
    forall t | 0 <= t < threads ensures st.workers[t].i == st.workers[t].count {
      assert WorkerInv(job, st, threads, t);
    }
  }

  // A search that fails has hashed each completion exactly once, and nothing else.
  lemma FailedSearchIsComplete(job: Job, states: seq<State>, moves: seq<nat>, threads: nat, i: nat)
    requires IsRun(job, states, moves, threads) && threads > 0 && i < |states| && AllFinished(states[i])
    requires states[i].fail
    ensures states[i].hashCount == |states[i].hashed| == Pow26(job.unknown)
    ensures forall n :: 0 <= n < Pow26(job.unknown) ==> TimesHashed(job, states[i], n) == 1
  {
    Result(job, states, moves, threads, i);
    HashesAreTries(job, states, moves, threads, i);
    EveryRun(job, states, moves, threads, i);
    var st := states[i];
    AllTried(job, st, threads);
    TriedUpTo(job, st, threads, threads);
    LastRange(Pow26(job.unknown), threads);
    assert st.workers[..threads] == st.workers;
    forall n | 0 <= n < Pow26(job.unknown) ensures TimesHashed(job, st, n) == 1 {
      var id := RangesCover(Pow26(job.unknown), threads, threads, n);
      assert WorkerInv(job, st, threads, id - 1);
      NoneTwice(job, states, moves, threads, i, n);
      assert Tries(st, id - 1, n, false);
    }
  }

  // ---------- the searches that an int can count ----------

  // The number of hashes of a thread that nobody stops: up to the first match, or all of its range.
  function Longest(job: Job, start: nat, count: nat): (n: nat)
    ensures n <= count
    decreases count
  {
    if count == 0 then 0 else if Matches(job, start) then 1 else 1 + Longest(job, start + 1, count - 1)
  }

  lemma {:induction false} LongestPast(job: Job, start: nat, count: nat, i: nat)
    requires i <= count && forall n :: start <= n < start + i ==> !Matches(job, n)
    ensures Longest(job, start, count) == i + Longest(job, start + i, count - i)
    decreases i
  {
    if i > 0 {
      LongestPast(job, start + 1, count - 1, i - 1);
    }
  }

  function LongestOf(job: Job, threads: nat, id: nat): nat
    requires 1 <= id <= threads
  {
    Longest(job, Begin(job, threads, id).start, Begin(job, threads, id).count)
  }

  // The most hashes that the first threads can compute together.
  function MostUpTo(job: Job, threads: nat, ids: nat): nat
    requires ids <= threads
  {
    if ids == 0 then 0 else MostUpTo(job, threads, ids - 1) + LongestOf(job, threads, ids)
  }

  function MostHashes(job: Job, threads: nat): nat {
    MostUpTo(job, threads, threads)
  }

  lemma {:induction false} PartOfMost(job: Job, threads: nat, id: nat, ids: nat)
    requires 1 <= id <= ids <= threads
    ensures LongestOf(job, threads, id) <= MostUpTo(job, threads, ids)
  {
    if id < ids {
      PartOfMost(job, threads, id, ids - 1);
    }
  }

  // No thread gets further than that, and a thread that has come to its end or to a match has got there.
  lemma CapIsBelow(job: Job, fail: bool, w: Worker, first: Worker)
    requires WorkerIs(job, fail, w, first) && first.start + first.count <= Pow26(job.unknown)
    ensures Cap(w) <= Longest(job, first.start, first.count)
    ensures Settled(w) && w.place != Finished ==> Open(w) == Longest(job, first.start, first.count)
  {
    LongestPast(job, w.start, w.count, w.i);
    if w.place == Matched {
      assert Matches(job, w.start + w.i);
    }
  }

  // The thread will not compute another hash.
  predicate Settled(w: Worker) {
    w.place == Finished || w.place == Matched || (w.place == Testing && w.i == w.count)
  }

  lemma WorkerCap(job: Job, st: State, threads: nat, t: nat)
    requires Inv(job, st, threads) && t < threads
    ensures Cap(st.workers[t]) <= LongestOf(job, threads, t + 1)
    ensures Settled(st.workers[t]) && st.workers[t].place != Finished ==>
      Open(st.workers[t]) == LongestOf(job, threads, t + 1)
  {
    assert WorkerInv(job, st, threads, t);
    BeginRange(job, threads, t + 1);
    CapIsBelow(job, st.fail, st.workers[t], Begin(job, threads, t + 1));
  }

  lemma {:induction false} CapsAreBelow(job: Job, st: State, threads: nat, ids: nat)
    requires Inv(job, st, threads) && ids <= threads
    ensures Sum(AtMost, st.workers[..ids]) <= MostUpTo(job, threads, ids)
  {
    if ids > 0 {
      CapsAreBelow(job, st, threads, ids - 1);
      WorkerCap(job, st, threads, ids - 1);
      assert st.workers[..ids][..ids - 1] == st.workers[..ids - 1];
    }
  }

  lemma {:induction false} AllSettled(job: Job, st: State, threads: nat, ids: nat)
    requires Inv(job, st, threads) && ids <= threads
    requires forall t :: 0 <= t < threads ==> Settled(st.workers[t]) && st.workers[t].place != Finished
    ensures Sum(Uncounted, st.workers[..ids]) == MostUpTo(job, threads, ids)
  {
    if ids > 0 {
      AllSettled(job, st, threads, ids - 1);
      WorkerCap(job, st, threads, ids - 1);
      assert st.workers[..ids][..ids - 1] == st.workers[..ids - 1];
    }
  }

  // If that number fits, so does every state.
  lemma FewHashesFit(job: Job, st: State, threads: nat)
    requires Inv(job, st, threads)
    ensures |st.hashed| <= MostHashes(job, threads)
    ensures MostHashes(job, threads) < INT_LIMIT ==> Fits(st)
  {
    CapsAreBelow(job, st, threads, threads);
    assert st.workers[..threads] == st.workers;
    SumIsNatural(Uncounted, st.workers);
    forall t | 0 <= t < threads ensures st.workers[t].i <= MostHashes(job, threads) {
      WorkerCap(job, st, threads, t);
      PartOfMost(job, threads, t + 1, threads);
    }
  }

  // The states of the runs that begin with a given pointer.
  ghost predicate Reachable(job: Job, st: State, threads: nat, password: Pointer) {
    exists states: seq<State>, moves: seq<nat> ::
      IsRun(job, states, moves, threads) && states[0].password == password && states[|moves|] == st
  }

  lemma StartReachable(job: Job, threads: nat, password: Pointer)
    ensures Reachable(job, Start(job, threads, password), threads, password)
  {
    assert IsRun(job, [Start(job, threads, password)], [], threads);
  }

  lemma StepReachable(job: Job, st: State, threads: nat, password: Pointer, t: nat)
    requires Reachable(job, st, threads, password) && Ready(st, t) && Fits(Step(job, st, t))
    ensures Reachable(job, Step(job, st, t), threads, password)
  {
    var states: seq<State>, moves: seq<nat> :|
      IsRun(job, states, moves, threads) && states[0].password == password && states[|moves|] == st;
    var states', moves' := states + [Step(job, st, t)], moves + [t];
    forall i | 0 <= i < |moves'| ensures Follows(job, states'[i], moves'[i], states'[i + 1]) {
      if i < |moves| {
        assert Follows(job, states[i], moves[i], states[i + 1]);
      }
    }
    assert IsRun(job, states', moves', threads) && states'[|moves'|] == Step(job, st, t);
  }

  // A search that has found nothing has left the pointer alone.
  lemma {:induction false} PasswordStays(job: Job, states: seq<State>, moves: seq<nat>, threads: nat, i: nat)
    requires IsRun(job, states, moves, threads) && i < |states| && states[i].fail
    ensures states[i].password == states[0].password
  {
    if i > 0 {
      assert Follows(job, states[i - 1], moves[i - 1], states[i]);
      PasswordStays(job, states, moves, threads, i - 1);
    }
  }

  lemma ReachableInv(job: Job, st: State, threads: nat, password: Pointer)
    requires Reachable(job, st, threads, password)
    ensures Inv(job, st, threads) && Fits(st) && (st.fail ==> st.password == password)
  {
    var states: seq<State>, moves: seq<nat> :|
      IsRun(job, states, moves, threads) && states[0].password == password && states[|moves|] == st;
    EveryRun(job, states, moves, threads, |moves|);
    if st.fail {
      PasswordStays(job, states, moves, threads, |moves|);
    }
  }

  // A step that an int cannot count.
  ghost predicate Overflows(job: Job, st: State, t: nat) {
    Ready(st, t) && !Fits(Step(job, st, t))
  }

  ghost predicate CanOverflow(job: Job, threads: nat, password: Pointer) {
    exists st, t :: Reachable(job, st, threads, password) && Overflows(job, st, t)
  }

  // The threads that have found the password wait, until all threads have come to their match or their end.
  ghost predicate Patient(st: State) {
    st.fail && st.hashCount == 0 && forall t :: 0 <= t < |st.workers| ==> st.workers[t].place != Finished
  }

  ghost predicate Done(job: Job, st: State, threads: nat) {
    |st.hashed| == MostHashes(job, threads) && forall t :: 0 <= t < |st.workers| ==> Settled(st.workers[t])
  }

  lemma PatientIsDone(job: Job, st: State, threads: nat)
    requires Inv(job, st, threads) && Patient(st) && forall t :: 0 <= t < threads ==> Settled(st.workers[t])
    ensures Done(job, st, threads)
  {
    AllSettled(job, st, threads, threads);
    assert st.workers[..threads] == st.workers;
  }

  lemma DoneOverflows(job: Job, st: State, threads: nat)
    requires Inv(job, st, threads) && Done(job, st, threads) && AllFinished(st)
    ensures st.hashCount == MostHashes(job, threads)
  {
    SumOfZeros(Uncounted, st.workers);
  }

  // The next step in such a run.
  lemma LongRunStep(job: Job, st: State, threads: nat) returns (t: nat)
    requires Inv(job, st, threads) && (Patient(st) || Done(job, st, threads)) && !AllFinished(st)
    ensures Ready(st, t)
    ensures Patient(Step(job, st, t)) || Done(job, Step(job, st, t), threads)
  {
    if u :| 0 <= u < threads && !Settled(st.workers[u]) {
      t := u;
      assert WorkerInv(job, st, threads, t);
    } else {
      t :| 0 <= t < threads && st.workers[t].place != Finished;
      if Patient(st) {
        PatientIsDone(job, st, threads);
      }
    }
  }

  lemma {:induction false} LongRun(job: Job, st: State, threads: nat, password: Pointer)
    requires Reachable(job, st, threads, password) && (Patient(st) || Done(job, st, threads))
    requires MostHashes(job, threads) >= INT_LIMIT
    ensures CanOverflow(job, threads, password)
    decreases Sum(Left, st.workers)
  {
    ReachableInv(job, st, threads, password);
    InvWork(job, st, threads);
    if AllFinished(st) {
      if Patient(st) {
        PatientIsDone(job, st, threads);
      }
      DoneOverflows(job, st, threads);
    } else {
      var t := LongRunStep(job, st, threads);
      if Overflows(job, st, t) {
        assert CanOverflow(job, threads, password);
      } else {
        StepLowersWork(job, st, threads, t);
        StepReachable(job, st, threads, password, t);
        LongRun(job, Step(job, st, t), threads, password);
      }
    }
  }

  // Some run takes a counter beyond the values of an int, if and only if the hashes that the threads compute
  // when nobody stops them are too many.
  lemma OverflowIff(job: Job, threads: nat, password: Pointer)
    ensures CanOverflow(job, threads, password) <==> MostHashes(job, threads) >= INT_LIMIT
  {
    if MostHashes(job, threads) >= INT_LIMIT {
      StartReachable(job, threads, password);
      LongRun(job, Start(job, threads, password), threads, password);
    }
    if CanOverflow(job, threads, password) {
      var st, t :| Reachable(job, st, threads, password) && Overflows(job, st, t);
      ReachableInv(job, st, threads, password);
      StepKeeps(job, st, threads, t);
      FewHashesFit(job, Step(job, st, t), threads);
    }
  }

  lemma {:induction false} MostIsBelow(job: Job, threads: nat, ids: nat)
    requires ids <= threads && threads > 0
    ensures MostUpTo(job, threads, ids) <= RangeEnd(Pow26(job.unknown), threads, ids)
    ensures NothingMatches(job) ==> MostUpTo(job, threads, ids) == RangeEnd(Pow26(job.unknown), threads, ids)
  {
    LastRange(Pow26(job.unknown), threads);
    if ids > 0 {
      MostIsBelow(job, threads, ids - 1);
      BeginRange(job, threads, ids);
      var first := Begin(job, threads, ids);
      if NothingMatches(job) {
        LongestPast(job, first.start, first.count, first.count);
      }
    }
  }

  // There are never more than one hash per completion, and as many if nothing matches.
  lemma MostHashesOf(job: Job, threads: nat)
    requires threads > 0
    ensures MostHashes(job, threads) <= Pow26(job.unknown)
    ensures NothingMatches(job) ==> MostHashes(job, threads) == Pow26(job.unknown)
  {
    MostIsBelow(job, threads, threads);
    LastRange(Pow26(job.unknown), threads);
  }

  // What a hint alone says: no run overflows, whatever the hash and the hash function, if and only if there are
  // at most six unknown letters.
  lemma FitsForEveryHash(prefix: seq<int>, unknown: nat, threads: nat, password: Pointer)
    requires threads > 0
    ensures (forall hash: seq<int> -> int, exp: int :: !CanOverflow(Job(prefix, unknown, hash, exp), threads, password))
      <==> unknown <= 6
  {
    IntHolds(unknown);
    if unknown <= 6 {
      forall hash: seq<int> -> int, exp: int
        ensures !CanOverflow(Job(prefix, unknown, hash, exp), threads, password)
      {
        OverflowIff(Job(prefix, unknown, hash, exp), threads, password);
        MostHashesOf(Job(prefix, unknown, hash, exp), threads);
      }
    } else {
      var job := Job(prefix, unknown, s => 0, 1);
      OverflowIff(job, threads, password);
      MostHashesOf(job, threads);
    }
  }

  // ---------- every run ends ----------

  lemma StepLowersWork(job: Job, st: State, threads: nat, t: nat)
    requires Inv(job, st, threads) && Ready(st, t)
    ensures Sum(Left, Step(job, st, t).workers) < Sum(Left, st.workers)
  {
    assert WorkerInv(job, st, threads, t);
    SumUpdate(Left, st.workers, t, Step(job, st, t).workers[t]);
  }

  lemma InvWork(job: Job, st: State, threads: nat)
    requires Inv(job, st, threads)
    ensures Sum(Left, st.workers) >= 0
  {
    forall t | 0 <= t < threads ensures Work(st.workers[t]) >= 0 {
      assert WorkerInv(job, st, threads, t);
    }
    SumIsNatural(Left, st.workers);
  }

  // Every step lowers the work that is left, which is never negative: no run is longer than the work at its
  // start, and as long as a thread has not finished it can take a step. That step is defined, if the hashes
  // are not too many.
  lemma {:induction false} RunsEnd(job: Job, states: seq<State>, moves: seq<nat>, threads: nat, i: nat)
    requires IsRun(job, states, moves, threads) && i < |states|
    ensures 0 <= Sum(Left, states[i].workers) <= Sum(Left, states[0].workers) - i
    ensures !AllFinished(states[i]) ==> exists t :: Ready(states[i], t)
    ensures MostHashes(job, threads) < INT_LIMIT ==>
      forall t :: Ready(states[i], t) ==> Fits(Step(job, states[i], t))
  {
    EveryRun(job, states, moves, threads, i);
    InvWork(job, states[i], threads);
    forall t | Ready(states[i], t) && MostHashes(job, threads) < INT_LIMIT ensures Fits(Step(job, states[i], t)) {
      StepKeeps(job, states[i], threads, t);
      FewHashesFit(job, Step(job, states[i], t), threads);
    }
    if i > 0 {
      RunsEnd(job, states, moves, threads, i - 1);
      EveryRun(job, states, moves, threads, i - 1);
      assert Follows(job, states[i - 1], moves[i - 1], states[i]);
      StepLowersWork(job, states[i - 1], threads, moves[i - 1]);
    }
    if !AllFinished(states[i]) {
      var t :| 0 <= t < |states[i].workers| && states[i].workers[t].place != Finished;
      assert Ready(states[i], t);
    }
  }
}
