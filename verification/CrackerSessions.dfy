// cracker2.c for all users, one after the other: start waits at the barrier with the threads, prints the result,
// frees the password, resets the other static variables and gives each thread its task for the next user.
module CrackerSessions {
  import opened Words
  import opened SearchSpace
  import opened Cracker2

  // The result that is printed for a user.
  datatype Summary = Summary(fail: bool, password: seq<int>, hashCount: nat)

  // The search for the current user and the results so far; after the last user there is no search left. The
  // session is broken when something undefined has happened: a counter beyond the values of an int, or the
  // second free of a password.
  datatype Session = Session(current: State, printed: seq<Summary>) | Broken(printed: seq<Summary>)

  // A thread takes a step, or the barrier opens.
  datatype Event = Work(thread: nat) | Open

  predicate Enabled(s: Session, jobs: seq<Job>, e: Event) {
    && s.Session? && |s.printed| < |jobs|
    && match e
       case Work(t) => Ready(s.current, t)
       case Open => AllFinished(s.current)
  }

  function SummaryOf(st: State): Summary {
    Summary(st.fail, if st.password.Owned? then st.password.text else [], st.hashCount)
  }

  // free(password): a null pointer stays what it is.
  function Released(p: Pointer): Pointer {
    if p.Null? then Null else Freed
  }

  // After the barrier: print, free, and the next user, if there is one.
  function OpenBarrier(st: State, printed: seq<Summary>, jobs: seq<Job>, threads: nat): Session {
    var printed' := printed + [SummaryOf(st)];
    if st.password.Freed? then Broken(printed')
    else if |printed'| < |jobs| then Session(Start(jobs[|printed'|], threads, Released(st.password)), printed')
    else Session(st.(password := Released(st.password)), printed')
  }

  function Advance(s: Session, jobs: seq<Job>, threads: nat, e: Event): Session
    requires Enabled(s, jobs, e)
  {
    match e
    case Work(t) =>
      var next := Cracker2.Step(jobs[|s.printed|], s.current, t);
      if Fits(next) then Session(next, s.printed) else Broken(s.printed)
    case Open => OpenBarrier(s.current, s.printed, jobs, threads)
  }

  ghost predicate IsSession(states: seq<Session>, events: seq<Event>, jobs: seq<Job>, threads: nat) {
    && |states| == |events| + 1 && jobs != [] && states[0] == First(jobs, threads)
    && forall i :: 0 <= i < |events| ==> Follows(states[i], events[i], states[i + 1], jobs, threads)
  }

  function First(jobs: seq<Job>, threads: nat): Session
    requires jobs != []
  {
    Session(Start(jobs[0], threads, Null), [])
  }

  ghost predicate Follows(s: Session, e: Event, s': Session, jobs: seq<Job>, threads: nat) {
    Enabled(s, jobs, e) && s' == Advance(s, jobs, threads, e)
  }

  // ---------- which sessions stay defined ----------

  // No user without a match comes after one with a match, among the first k.
  ghost predicate OrderlyUpTo(jobs: seq<Job>, k: nat)
    requires k <= |jobs|
  {
    forall i, j :: 0 <= i < j < k && NothingMatches(jobs[j]) ==> NothingMatches(jobs[i])
  }

  ghost predicate Orderly(jobs: seq<Job>) {
    OrderlyUpTo(jobs, |jobs|)
  }

  // An int can count the hashes for each user.
  ghost predicate Countable(jobs: seq<Job>, threads: nat) {
    forall k :: 0 <= k < |jobs| ==> MostHashes(jobs[k], threads) < INT_LIMIT
  }

  // What password is when the search for user k begins.
  ghost function PointerBefore(jobs: seq<Job>, k: nat): Pointer
    requires k <= |jobs|
  {
    if forall j :: 0 <= j < k ==> NothingMatches(jobs[j]) then Null else Freed
  }

  // ---------- the invariant ----------

  // What is printed is right.
  ghost predicate SummaryIs(job: Job, threads: nat, summary: Summary) {
    && (summary.fail <==> NothingMatches(job))
    && (if summary.fail then summary.hashCount == Pow26(job.unknown)
        else FoundIs(job, summary.password) && 0 < summary.hashCount <= MostHashes(job, threads))
  }

  ghost predicate AllRight(printed: seq<Summary>, jobs: seq<Job>, threads: nat) {
    |printed| <= |jobs| && forall j :: 0 <= j < |printed| ==> SummaryIs(jobs[j], threads, printed[j])
  }

  ghost predicate Inv(s: Session, jobs: seq<Job>, threads: nat) {
    && AllRight(s.printed, jobs, threads)
    && var k := |s.printed|;
       match s
       case Session(current, _) =>
         && OrderlyUpTo(jobs, k)
         && (k < |jobs| ==> Reachable(jobs[k], current, threads, PointerBefore(jobs, k)))
       case Broken(_) => !(Orderly(jobs) && Countable(jobs, threads))
  }

  lemma FinishedSearch(job: Job, st: State, threads: nat, password: Pointer)
    requires Reachable(job, st, threads, password) && AllFinished(st) && threads > 0
    ensures SummaryIs(job, threads, SummaryOf(st))
    ensures if NothingMatches(job) then st.password == password else st.password.Owned?
  {
    ReachableInv(job, st, threads, password);
    var states: seq<State>, moves: seq<nat> :|
      IsRun(job, states, moves, threads) && states[0].password == password && states[|moves|] == st;
    Result(job, states, moves, threads, |moves|);
    FewHashesFit(job, st, threads);
    if st.fail {
      FailedSearchIsComplete(job, states, moves, threads, |moves|);
    }
  }

  lemma WorkKeeps(s: Session, jobs: seq<Job>, threads: nat, t: nat)
    requires Inv(s, jobs, threads) && Enabled(s, jobs, Work(t))
    ensures Inv(Advance(s, jobs, threads, Work(t)), jobs, threads)
  {
    var k := |s.printed|;
    var p := PointerBefore(jobs, k);
    if Overflows(jobs[k], s.current, t) {
      assert CanOverflow(jobs[k], threads, p);
      OverflowIff(jobs[k], threads, p);
    } else {
      StepReachable(jobs[k], s.current, threads, p, t);
    }
  }

  // One more user keeps the order, unless nothing matches and the pointer has been freed before.
  lemma NextPointer(jobs: seq<Job>, k: nat)
    requires k < |jobs| && OrderlyUpTo(jobs, k)
    ensures OrderlyUpTo(jobs, k + 1) <==> !(NothingMatches(jobs[k]) && PointerBefore(jobs, k) == Freed)
    ensures PointerBefore(jobs, k + 1) == if NothingMatches(jobs[k]) then PointerBefore(jobs, k) else Freed
  {
    if NothingMatches(jobs[k]) && OrderlyUpTo(jobs, k + 1) {
      forall j | 0 <= j < k ensures NothingMatches(jobs[j]) {
      }
    }
  }

  lemma OneMoreRight(printed: seq<Summary>, jobs: seq<Job>, threads: nat, summary: Summary)
    requires AllRight(printed, jobs, threads) && |printed| < |jobs| && SummaryIs(jobs[|printed|], threads, summary)
    ensures AllRight(printed + [summary], jobs, threads)
  {
  }

  // What the barrier finds in the pointer when it opens.
  lemma OpenPointer(s: Session, jobs: seq<Job>, threads: nat)
    requires Inv(s, jobs, threads) && Enabled(s, jobs, Open) && threads > 0
    ensures SummaryIs(jobs[|s.printed|], threads, SummaryOf(s.current))
    ensures if s.current.password.Freed? then !Orderly(jobs)
      else OrderlyUpTo(jobs, |s.printed| + 1) && Released(s.current.password) == PointerBefore(jobs, |s.printed| + 1)
  {
    var k := |s.printed|;
    FinishedSearch(jobs[k], s.current, threads, PointerBefore(jobs, k));
    NextPointer(jobs, k);
  }

  lemma OpenKeeps(s: Session, jobs: seq<Job>, threads: nat)
    requires Inv(s, jobs, threads) && Enabled(s, jobs, Open) && threads > 0
    ensures Inv(Advance(s, jobs, threads, Open), jobs, threads)
  {
    var k := |s.printed|;
    OpenPointer(s, jobs, threads);
    OneMoreRight(s.printed, jobs, threads, SummaryOf(s.current));
    if k + 1 < |jobs| {
      StartReachable(jobs[k + 1], threads, PointerBefore(jobs, k + 1));
    }
  }

  lemma AdvanceKeeps(s: Session, jobs: seq<Job>, threads: nat, e: Event)
    requires Inv(s, jobs, threads) && Enabled(s, jobs, e) && threads > 0
    ensures Inv(Advance(s, jobs, threads, e), jobs, threads)
  {
    match e {
      case Work(t) => WorkKeeps(s, jobs, threads, t);
      case Open => OpenKeeps(s, jobs, threads);
    }
  }

  lemma FirstInv(jobs: seq<Job>, threads: nat)
    requires jobs != []
    ensures Inv(First(jobs, threads), jobs, threads)
  {
    StartReachable(jobs[0], threads, Null);
  }

  // In every state of every session, whatever the users and however the threads take turns: each result printed
  // is right for its user, and the users come in order. The session is not broken, if no user without a match
  // comes after one with a match and an int can count the hashes.
  lemma {:induction false} EveryResultIsRight(states: seq<Session>, events: seq<Event>, jobs: seq<Job>, threads: nat,
                                              i: nat)
    requires IsSession(states, events, jobs, threads) && threads > 0 && i < |states|
    ensures Inv(states[i], jobs, threads)
    ensures AllRight(states[i].printed, jobs, threads)
    ensures Orderly(jobs) && Countable(jobs, threads) ==> states[i].Session?
  {
    if i == 0 {
      FirstInv(jobs, threads);
    } else {
      EveryResultIsRight(states, events, jobs, threads, i - 1);
      assert Follows(states[i - 1], events[i - 1], states[i], jobs, threads);
      AdvanceKeeps(states[i - 1], jobs, threads, events[i - 1]);
    }
  }

  // ---------- the end ----------

  // The steps that are left: those of the current search, and of the later ones, and one barrier for each.
  function LaterSteps(jobs: seq<Job>, threads: nat): int {
    if jobs == [] then 0 else Sum(Left, Start(jobs[0], threads, Null).workers) + 1 + LaterSteps(jobs[1..], threads)
  }

  function StepsLeft(s: Session, jobs: seq<Job>, threads: nat): int
    requires |s.printed| <= |jobs|
  {
    if s.Broken? || |s.printed| == |jobs| then 0
    else Sum(Left, s.current.workers) + 1 + LaterSteps(jobs[|s.printed| + 1..], threads)
  }

  lemma WorkLeft(job: Job, st: State, threads: nat, password: Pointer)
    requires Reachable(job, st, threads, password)
    ensures Sum(Left, st.workers) >= 0
    ensures !AllFinished(st) ==> exists t :: Ready(st, t)
    ensures forall t :: Ready(st, t) ==> Sum(Left, Cracker2.Step(job, st, t).workers) < Sum(Left, st.workers)
  {
    ReachableInv(job, st, threads, password);
    InvWork(job, st, threads);
    if !AllFinished(st) {
      var t :| 0 <= t < |st.workers| && st.workers[t].place != Finished;
      assert Ready(st, t);
    }
    forall t | Ready(st, t) ensures Sum(Left, Cracker2.Step(job, st, t).workers) < Sum(Left, st.workers) {
      StepLowersWork(job, st, threads, t);
    }
  }

  lemma {:induction false} LeftIsNatural(jobs: seq<Job>, threads: nat)
    ensures LaterSteps(jobs, threads) >= 0
  {
    if jobs != [] {
      StartReachable(jobs[0], threads, Null);
      WorkLeft(jobs[0], Start(jobs[0], threads, Null), threads, Null);
      LeftIsNatural(jobs[1..], threads);
    }
  }

  // Every event lowers the number of steps left, which is never negative, and until the session is broken or all
  // results are printed some event is possible. So if no user without a match comes after one with a match, and
  // an int can count the hashes, every session comes to the point where all users have their results.
  lemma SessionEnds(s: Session, jobs: seq<Job>, threads: nat)
    requires Inv(s, jobs, threads)
    ensures StepsLeft(s, jobs, threads) >= 0
    ensures (exists e :: Enabled(s, jobs, e)) <==> s.Session? && |s.printed| < |jobs|
    ensures forall e :: Enabled(s, jobs, e) ==> Lowers(s, jobs, threads, e)
    ensures Orderly(jobs) && Countable(jobs, threads) && |s.printed| < |jobs| ==> exists e :: Enabled(s, jobs, e)
  {
    var k := |s.printed|;
    if s.Session? && k < |jobs| {
      WorkLeft(jobs[k], s.current, threads, PointerBefore(jobs, k));
      LeftIsNatural(jobs[k + 1..], threads);
      var e := SomeEvent(s, jobs, threads);
      forall e | Enabled(s, jobs, e) ensures Lowers(s, jobs, threads, e) {
        EventLowers(s, jobs, threads, e);
      }
    }
  }

  lemma SomeEvent(s: Session, jobs: seq<Job>, threads: nat) returns (e: Event)
    requires Inv(s, jobs, threads) && s.Session? && |s.printed| < |jobs|
    ensures Enabled(s, jobs, e)
  {
    WorkLeft(jobs[|s.printed|], s.current, threads, PointerBefore(jobs, |s.printed|));
    if AllFinished(s.current) {
      e := Open;
    } else {
      var t :| Ready(s.current, t);
      e := Work(t);
    }
  }

  predicate Lowers(s: Session, jobs: seq<Job>, threads: nat, e: Event)
    requires |s.printed| <= |jobs| && Enabled(s, jobs, e)
  {
    var s' := Advance(s, jobs, threads, e);
    |s'.printed| <= |jobs| && StepsLeft(s', jobs, threads) < StepsLeft(s, jobs, threads)
  }

  lemma EventLowers(s: Session, jobs: seq<Job>, threads: nat, e: Event)
    requires Inv(s, jobs, threads) && Enabled(s, jobs, e)
    ensures Lowers(s, jobs, threads, e)
  {
    var k := |s.printed|;
    WorkLeft(jobs[k], s.current, threads, PointerBefore(jobs, k));
    LeftIsNatural(jobs[k + 1..], threads);
    if k + 1 < |jobs| {
      assert jobs[k + 1..][1..] == jobs[k + 2..];
    }
  }

  // ---------- exactly when a session can break ----------

  ghost predicate CanReach(s: Session, jobs: seq<Job>, threads: nat) {
    exists states: seq<Session>, events: seq<Event> ::
      IsSession(states, events, jobs, threads) && states[|events|] == s
  }

  ghost predicate CanBreak(jobs: seq<Job>, threads: nat) {
    exists s: Session :: s.Broken? && CanReach(s, jobs, threads)
  }

  lemma FirstReach(jobs: seq<Job>, threads: nat)
    requires jobs != []
    ensures CanReach(First(jobs, threads), jobs, threads)
  {
    assert IsSession([First(jobs, threads)], [], jobs, threads);
  }

  lemma AdvanceReach(s: Session, jobs: seq<Job>, threads: nat, e: Event)
    requires CanReach(s, jobs, threads) && Enabled(s, jobs, e)
    ensures CanReach(Advance(s, jobs, threads, e), jobs, threads)
  {
    var states: seq<Session>, events: seq<Event> :|
      IsSession(states, events, jobs, threads) && states[|events|] == s;
    var states', events' := states + [Advance(s, jobs, threads, e)], events + [e];
    forall i | 0 <= i < |events'| ensures Follows(states'[i], events'[i], states'[i + 1], jobs, threads) {
      if i < |events| {
        assert Follows(states[i], events[i], states[i + 1], jobs, threads);
      }
    }
    assert IsSession(states', events', jobs, threads) && states'[|events'|] == Advance(s, jobs, threads, e);
  }

  lemma ReachInv(s: Session, jobs: seq<Job>, threads: nat)
    requires CanReach(s, jobs, threads) && threads > 0
    ensures Inv(s, jobs, threads) && (Orderly(jobs) && Countable(jobs, threads) ==> s.Session?)
  {
    var states: seq<Session>, events: seq<Event> :|
      IsSession(states, events, jobs, threads) && states[|events|] == s;
    EveryResultIsRight(states, events, jobs, threads, |events|);
  }

  // The session is at the beginning of the search for user k, or at its end.
  ghost predicate Begins(s: Session, jobs: seq<Job>, threads: nat, k: nat)
    requires k <= |jobs|
  {
    && s.Session? && |s.printed| == k
    && (k < |jobs| ==> s.current == Start(jobs[k], threads, PointerBefore(jobs, k)))
  }

  // A session that does not break on the way comes to the search for each user, and to its end.
  lemma {:induction false} Onwards(s: Session, jobs: seq<Job>, threads: nat, k: nat) returns (r: Session)
    requires CanReach(s, jobs, threads) && threads > 0 && s.Session? && k <= |jobs|
    requires |s.printed| < k || Begins(s, jobs, threads, k)
    ensures CanReach(r, jobs, threads) && (r.Broken? || Begins(r, jobs, threads, k))
    decreases StepsLeft(s, jobs, threads)
  {
    ReachInv(s, jobs, threads);
    if |s.printed| == k {
      r := s;
    } else {
      var e := SomeEvent(s, jobs, threads);
      var next := Advance(s, jobs, threads, e);
      AdvanceReach(s, jobs, threads, e);
      ReachInv(next, jobs, threads);
      SessionEnds(s, jobs, threads);
      SessionEnds(next, jobs, threads);
      if next.Broken? {
        r := next;
      } else {
        if e.Open? {
          NextStart(s, jobs, threads);
        }
        r := Onwards(next, jobs, threads, k);
      }
    }
  }

  lemma NextStart(s: Session, jobs: seq<Job>, threads: nat)
    requires Inv(s, jobs, threads) && Enabled(s, jobs, Open) && threads > 0
    ensures var next := Advance(s, jobs, threads, Open); next.Broken? || Begins(next, jobs, threads, |s.printed| + 1)
  {
    OpenPointer(s, jobs, threads);
  }

  // The steps of a search are steps of the session.
  lemma {:induction false} SearchSteps(jobs: seq<Job>, threads: nat, k: nat, printed: seq<Summary>,
                                       states: seq<State>, moves: seq<nat>, i: nat)
    requires k < |jobs| && |printed| == k && IsRun(jobs[k], states, moves, threads) && i < |states|
    requires CanReach(Session(states[0], printed), jobs, threads)
    ensures CanReach(Session(states[i], printed), jobs, threads)
  {
    if i > 0 {
      SearchSteps(jobs, threads, k, printed, states, moves, i - 1);
      assert Cracker2.Follows(jobs[k], states[i - 1], moves[i - 1], states[i]);
      AdvanceReach(Session(states[i - 1], printed), jobs, threads, Work(moves[i - 1]));
    }
  }

  lemma UncountableBreaks(jobs: seq<Job>, threads: nat, k: nat)
    requires k < |jobs| && threads > 0 && MostHashes(jobs[k], threads) >= INT_LIMIT
    ensures CanBreak(jobs, threads)
  {
    FirstReach(jobs, threads);
    var s := Onwards(First(jobs, threads), jobs, threads, k);
    if s.Session? {
      var p := PointerBefore(jobs, k);
      OverflowIff(jobs[k], threads, p);
      var st, t :| Reachable(jobs[k], st, threads, p) && Overflows(jobs[k], st, t);
      var states: seq<State>, moves: seq<nat> :|
        IsRun(jobs[k], states, moves, threads) && states[0].password == p && states[|moves|] == st;
      SearchSteps(jobs, threads, k, s.printed, states, moves, |moves|);
      AdvanceReach(Session(st, s.printed), jobs, threads, Work(t));
    }
  }

  lemma DisorderBreaks(jobs: seq<Job>, threads: nat)
    requires jobs != [] && threads > 0 && !Orderly(jobs)
    ensures CanBreak(jobs, threads)
  {
    FirstReach(jobs, threads);
    var s := Onwards(First(jobs, threads), jobs, threads, |jobs|);
    ReachInv(s, jobs, threads);
  }

  // Some session breaks if and only if some user without a match comes after one with a match, or an int cannot
  // count the hashes for some user.
  lemma BreaksIff(jobs: seq<Job>, threads: nat)
    requires jobs != [] && threads > 0
    ensures CanBreak(jobs, threads) <==> !(Orderly(jobs) && Countable(jobs, threads))
  {
    if CanBreak(jobs, threads) {
      var s: Session :| s.Broken? && CanReach(s, jobs, threads);
      ReachInv(s, jobs, threads);
    }
    if !Orderly(jobs) {
      DisorderBreaks(jobs, threads);
    } else if !Countable(jobs, threads) {
      var k: nat :| k < |jobs| && MostHashes(jobs[k], threads) >= INT_LIMIT;
      UncountableBreaks(jobs, threads, k);
    }
  }

  // Two users whose hints have no unknown letter: the password of the first is its hint, that of the second is
  // not. Whatever the threads do, the session breaks before it could go on to a third user.
  lemma SecondFree(threads: nat, states: seq<Session>, events: seq<Event>, i: nat)
    requires threads > 0
    requires IsSession(states, events, [Job([A], 0, s => 0, 0), Job([A], 0, s => 0, 1)], threads) && i < |states|
    ensures CanBreak([Job([A], 0, s => 0, 0), Job([A], 0, s => 0, 1)], threads)
    ensures states[i].Session? ==> |states[i].printed| < 2
  {
    var jobs := [Job([A], 0, s => 0, 0), Job([A], 0, s => 0, 1)];
    EveryResultIsRight(states, events, jobs, threads, i);
    assert Matches(jobs[0], 0) && Pow26(0) == 1;
    assert NothingMatches(jobs[1]);
    BreaksIff(jobs, threads);
  }
}
