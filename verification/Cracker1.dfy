// cracker1.c: workers pull tasks and search for each password alone, until they find a null pointer, which
// each of them pushes back.
module Cracker1 {
  import opened Words
  import opened BoundedQueue
  import opened SearchSpace
  import opened CandidateLoop

  datatype Item = Task(job: Job) | Null
  datatype Worker = Pulling | Searching(job: Job, search: Search) | Leaving | Exited

  // The queue, the workers, the tasks taken so far, numSuccessful and numFailed.
  datatype System = System(queue: State<Item>, workers: seq<Worker>, taken: seq<Job>, succeeded: nat, failed: nat)

  function Items(tasks: seq<Job>): (r: seq<Item>)
    ensures |r| == |tasks|
  {
    seq(|tasks|, i requires 0 <= i < |tasks| => Item.Task(tasks[i]))
  }

  // start: the queue is unbounded; it holds all tasks and one null pointer before the workers begin.
  function Start(tasks: seq<Job>, n: nat): System {
    var items := Items(tasks) + [Null];
    System(State(items, -1, {}, {}), seq(n, _ => Pulling), [], 0, 0)
  }

  // A worker calls queue_pull, makes a pass of the loop over the completions, counts the result of a search
  // that has ended, pushes the null pointer back and exits, or wakes up although nobody has woken it. A pass
  // that would take hashCount beyond the values of an int is undefined, and so not among the actions.
  datatype Action =
    | TakeItem(worker: nat) | TryNext(worker: nat) | Report(worker: nat) | PushNull(worker: nat) | WakeUp(worker: nat)

  predicate Ready(sys: System, a: Action) {
    && a.worker < |sys.workers|
    && var w := sys.workers[a.worker];
       match a
       case TakeItem(i) => w.Pulling? && i !in sys.queue.asleepPull
       case TryNext(i) => w.Searching? && w.search.looping && w.search.hashCount + 1 < INT_LIMIT
       case Report(i) => w.Searching? && !w.search.looping
       case PushNull(i) => w.Leaving?
       case WakeUp(i) => i in sys.queue.asleepPull
  }

  function Act(sys: System, a: Action): System
    requires Ready(sys, a)
  {
    var w := sys.workers[a.worker];
    match a
    case TakeItem(i) =>
      var q := PullStep(sys.queue, i);
      if sys.queue.contents == [] then sys.(queue := q)
      else if sys.queue.contents[0].Null? then sys.(queue := q, workers := sys.workers[i := Leaving])
      else
        var job := sys.queue.contents[0].job;
        sys.(queue := q, workers := sys.workers[i := Searching(job, Begin(job))], taken := sys.taken + [job])
    case TryNext(i) => sys.(workers := sys.workers[i := Searching(w.job, Pass(w.job, w.search))])
    case Report(i) =>
      var next := sys.(workers := sys.workers[i := Pulling]);
      if w.search.fail then next.(failed := sys.failed + 1) else next.(succeeded := sys.succeeded + 1)
    case PushNull(i) => sys.(queue := PushStep(sys.queue, i, Null), workers := sys.workers[i := Exited])
    case WakeUp(i) => sys.(queue := SpuriousStep(sys.queue, i))
  }

  // ---------- the invariant of the queue ----------

  // The worker that has the null pointer, if there is one; n stands for none.
  predicate OnlyLeaving(sys: System, k: nat) {
    forall i :: 0 <= i < |sys.workers| ==> (sys.workers[i].Leaving? <==> i == k)
  }

  // The tasks have been taken in order, each once; what is left is in the queue, followed by the null
  // pointer, unless a worker is about to push that back.
  ghost predicate SysInv(sys: System, tasks: seq<Job>, k: nat) {
    && sys.queue.maxSize == -1 && sys.queue.asleepPush == {}
    && sys.taken <= tasks && OnlyLeaving(sys, k) && k <= |sys.workers|
    && sys.queue.contents ==
      (if k < |sys.workers| then [] else Items(tasks[|sys.taken|..]) + [Null])
    && (k < |sys.workers| || Exited in sys.workers ==> sys.taken == tasks)
    && (sys.queue.asleepPull != {} ==> sys.queue.contents == [])
  }

  function NextLeaving(sys: System, k: nat, a: Action): nat
    requires Ready(sys, a)
  {
    match a
    case TakeItem(i) => if sys.queue.contents != [] && sys.queue.contents[0].Null? then i else k
    case PushNull(i) => |sys.workers|
    case _ => k
  }

  lemma ItemsRest(tasks: seq<Job>, j: nat)
    requires j < |tasks|
    ensures Items(tasks[j..]) + [Null] == [Item.Task(tasks[j])] + (Items(tasks[j + 1..]) + [Null])
  {
  }

  // A worker that has not exited yet does so only by pushing the null pointer back.
  lemma NoneExits(sys: System, i: nat, w: Worker)
    requires i < |sys.workers| && w != Exited
    ensures Exited in sys.workers[i := w] ==> Exited in sys.workers
  {
    assert forall v :: v in sys.workers[i := w] && v == Exited ==> v in sys.workers;
  }

  lemma PullTask(sys: System, tasks: seq<Job>, k: nat, i: nat)
    requires SysInv(sys, tasks, k) && Ready(sys, TakeItem(i)) && k == |sys.workers| && |sys.taken| < |tasks|
    ensures SysInv(Act(sys, TakeItem(i)), tasks, k)
    ensures sys.queue.contents[0] == Item.Task(tasks[|sys.taken|])
    ensures Act(sys, TakeItem(i)).taken == sys.taken + [tasks[|sys.taken|]]
  {
    var j := |sys.taken|;
    ItemsRest(tasks, j);
    assert sys.taken + [tasks[j]] <= tasks;
    NoneExits(sys, i, Searching(tasks[j], Begin(tasks[j])));
  }

  lemma PullNull(sys: System, tasks: seq<Job>, k: nat, i: nat)
    requires SysInv(sys, tasks, k) && Ready(sys, TakeItem(i)) && k == |sys.workers| && |sys.taken| == |tasks|
    ensures SysInv(Act(sys, TakeItem(i)), tasks, i)
    ensures sys.queue.contents == [Null] && Act(sys, TakeItem(i)).taken == sys.taken
  {
    assert Items(tasks[|tasks|..]) == [];
  }

  lemma PullKeeps(sys: System, tasks: seq<Job>, k: nat, i: nat)
    requires SysInv(sys, tasks, k) && Ready(sys, TakeItem(i))
    ensures SysInv(Act(sys, TakeItem(i)), tasks, NextLeaving(sys, k, TakeItem(i)))
  {
    if k == |sys.workers| {
      if |sys.taken| < |tasks| {
        PullTask(sys, tasks, k, i);
      } else {
        PullNull(sys, tasks, k, i);
      }
    }
  }

  lemma ActKeeps(sys: System, tasks: seq<Job>, k: nat, a: Action)
    requires SysInv(sys, tasks, k) && Ready(sys, a)
    ensures SysInv(Act(sys, a), tasks, NextLeaving(sys, k, a))
  {
    var w := Act(sys, a).workers[a.worker];
    match a {
      case TakeItem(i) => PullKeeps(sys, tasks, k, i);
      case TryNext(i) => NoneExits(sys, i, w);
      case Report(i) => NoneExits(sys, i, w);
      case PushNull(i) =>
        assert Items(tasks[|tasks|..]) + [Null] == [Null];
      case WakeUp(i) =>
    }
  }

  // ---------- the searches ----------

  // A worker is somewhere in the search for its task.
  ghost predicate SearchIs(w: Worker) {
    w.Searching? ==> w.search.hashCount < INT_LIMIT && w.search == After(w.job, w.search.hashCount)
  }

  // What becomes of the search for a task.
  datatype Verdict = Hit | Miss | Endless

  ghost function VerdictOf(job: Job): (v: Verdict)
    ensures v == Endless <==> !Ends(job)
  {
    if !Ends(job) then Endless else if Crackable(job) then Hit else Miss
  }

  // How many of the tasks have the verdict v.
  ghost function Count(v: Verdict, tasks: seq<Job>): nat {
    if tasks == [] then 0
    else Count(v, tasks[..|tasks| - 1]) + if VerdictOf(tasks[|tasks| - 1]) == v then 1 else 0
  }

  ghost function Sum(f: Worker -> int, workers: seq<Worker>): int {
    if workers == [] then 0 else f(workers[0]) + Sum(f, workers[1..])
  }

  lemma {:induction false} SumUpdate(f: Worker -> int, workers: seq<Worker>, i: nat, w: Worker)
    requires i < |workers|
    ensures Sum(f, workers[i := w]) == Sum(f, workers) - f(workers[i]) + f(w)
  {
    if i > 0 {
      assert workers[i := w][1..] == workers[1..][i - 1 := w];
      SumUpdate(f, workers[1..], i - 1, w);
    } else {
      assert workers[i := w][1..] == workers[1..];
    }
  }

  lemma {:induction false} SumOfEqual(f: Worker -> int, workers: seq<Worker>, w: Worker)
    requires forall i :: 0 <= i < |workers| ==> workers[i] == w
    ensures Sum(f, workers) == |workers| * f(w)
  {
    if workers != [] {
      SumOfEqual(f, workers[1..], w);
    }
  }

  ghost function Busy(v: Verdict): Worker -> int {
    (w: Worker) => if w.Searching? && VerdictOf(w.job) == v then 1 else 0
  }

  // The counter of the verdict v. There is none for searches that do not end.
  function Counter(sys: System, v: Verdict): nat {
    match v
    case Hit => sys.succeeded
    case Miss => sys.failed
    case Endless => 0
  }

  // Every task taken that has the verdict v has been counted under it, or some worker is busy with it.
  ghost predicate TallyOf(sys: System, v: Verdict) {
    Counter(sys, v) + Sum(Busy(v), sys.workers) == Count(v, sys.taken)
  }

  ghost predicate Tally(sys: System) {
    TallyOf(sys, Hit) && TallyOf(sys, Miss) && TallyOf(sys, Endless)
  }

  ghost predicate Inv(sys: System) {
    Tally(sys) && forall i :: 0 <= i < |sys.workers| ==> SearchIs(sys.workers[i])
  }

  lemma BusyAfter(sys: System, a: Action, v: Verdict)
    requires Ready(sys, a)
    ensures Sum(Busy(v), Act(sys, a).workers) ==
      Sum(Busy(v), sys.workers) - Busy(v)(sys.workers[a.worker]) + Busy(v)(Act(sys, a).workers[a.worker])
  {
    SumUpdate(Busy(v), sys.workers, a.worker, Act(sys, a).workers[a.worker]);
    assert Act(sys, a).workers == sys.workers[a.worker := Act(sys, a).workers[a.worker]];
  }

  // The search that is reported on has found what there is to find.
  lemma ReportedVerdict(job: Job, k: nat)
    requires !After(job, k).looping && k < INT_LIMIT
    ensures VerdictOf(job) == if After(job, k).fail then Miss else Hit
  {
    EndedSearch(job, k);
  }

  lemma TakenCount(sys: System, a: Action, v: Verdict)
    requires Ready(sys, a)
    ensures Count(v, Act(sys, a).taken) == Count(v, sys.taken) +
      if a.TakeItem? then Busy(v)(Act(sys, a).workers[a.worker]) else 0
  {
    if a.TakeItem? && sys.queue.contents != [] && sys.queue.contents[0].Task? {
      CountAppend(v, sys.taken, sys.queue.contents[0].job);
    }
  }

  lemma CountAppend(v: Verdict, tasks: seq<Job>, job: Job)
    ensures Count(v, tasks + [job]) == Count(v, tasks) + if VerdictOf(job) == v then 1 else 0
  {
    assert (tasks + [job])[..|tasks|] == tasks;
  }

  lemma TallyKeeps(sys: System, a: Action, v: Verdict)
    requires TallyOf(sys, v) && Ready(sys, a) && SearchIs(sys.workers[a.worker])
    ensures TallyOf(Act(sys, a), v)
  {
    BusyAfter(sys, a, v);
    TakenCount(sys, a, v);
    if a.Report? {
      ReportedVerdict(sys.workers[a.worker].job, sys.workers[a.worker].search.hashCount);
    }
  }

  lemma SearchKeeps(sys: System, a: Action)
    requires Ready(sys, a) && SearchIs(sys.workers[a.worker])
    ensures SearchIs(Act(sys, a).workers[a.worker])
  {
    var w := sys.workers[a.worker];
    if a.TryNext? {
      AfterPass(w.job, w.search.hashCount, w.search);
    }
  }

  lemma InvKeeps(sys: System, a: Action)
    requires Inv(sys) && Ready(sys, a)
    ensures Inv(Act(sys, a))
  {
    assert SearchIs(sys.workers[a.worker]);
    TallyKeeps(sys, a, Hit);
    TallyKeeps(sys, a, Miss);
    TallyKeeps(sys, a, Endless);
    SearchKeeps(sys, a);
  }

  // ---------- runs ----------

  ghost predicate IsRun(states: seq<System>, actions: seq<Action>, tasks: seq<Job>, n: nat) {
    IsPath(states, actions) && states[0] == Start(tasks, n)
  }

  ghost predicate IsPath(states: seq<System>, actions: seq<Action>) {
    && |states| == |actions| + 1
    && forall i :: 0 <= i < |actions| ==> Follows(states[i], actions[i], states[i + 1])
  }

  ghost predicate Follows(sys: System, a: Action, sys': System) {
    Ready(sys, a) && sys' == Act(sys, a)
  }

  lemma StartInv(tasks: seq<Job>, n: nat)
    ensures SysInv(Start(tasks, n), tasks, n) && Inv(Start(tasks, n))
  {
    assert tasks[0..] == tasks;
    var workers := Start(tasks, n).workers;
    SumOfEqual(Busy(Hit), workers, Pulling);
    SumOfEqual(Busy(Miss), workers, Pulling);
    SumOfEqual(Busy(Endless), workers, Pulling);
  }

  // What holds in every state of a run with n workers.
  ghost predicate Kept(sys: System, tasks: seq<Job>, n: nat, k: nat) {
    SysInv(sys, tasks, k) && Inv(sys) && |sys.workers| == n
  }

  lemma FollowsKeeps(sys: System, a: Action, next: System, tasks: seq<Job>, n: nat, k: nat)
    requires Kept(sys, tasks, n, k) && Follows(sys, a, next)
    ensures Kept(next, tasks, n, NextLeaving(sys, k, a))
  {
    ActKeeps(sys, tasks, k, a);
    InvKeeps(sys, a);
  }

  lemma {:induction false} EveryRun(states: seq<System>, actions: seq<Action>, tasks: seq<Job>, n: nat, i: nat)
    returns (k: nat)
    requires IsRun(states, actions, tasks, n) && i < |states|
    ensures Kept(states[i], tasks, n, k)
  {
    if i == 0 {
      k := n;
      StartInv(tasks, n);
    } else {
      var before := EveryRun(states, actions, tasks, n, i - 1);
      var sys, a := states[i - 1], actions[i - 1];
      assert Follows(sys, a, states[i]);
      FollowsKeeps(sys, a, states[i], tasks, n, before);
      k := NextLeaving(sys, before, a);
    }
  }

  predicate AllExited(sys: System) {
    forall j :: 0 <= j < |sys.workers| ==> sys.workers[j] == Exited
  }

  lemma NobodyLeaves(sys: System, k: nat)
    requires OnlyLeaving(sys, k) && k <= |sys.workers|
    ensures AllExited(sys) ==> k == |sys.workers|
  {
    if k < |sys.workers| {
      assert sys.workers[k].Leaving?;
    }
  }

  lemma NobodyBusy(sys: System)
    requires Tally(sys) && AllExited(sys)
    ensures sys.succeeded == Count(Hit, sys.taken) && sys.failed == Count(Miss, sys.taken)
    ensures Count(Endless, sys.taken) == 0
  {
    SumOfEqual(Busy(Hit), sys.workers, Exited);
    SumOfEqual(Busy(Miss), sys.workers, Exited);
    SumOfEqual(Busy(Endless), sys.workers, Exited);
  }

  lemma {:induction false} NoneEndless(tasks: seq<Job>)
    ensures Count(Endless, tasks) == 0 <==> AllEnd(tasks)
    ensures Count(Hit, tasks) + Count(Miss, tasks) + Count(Endless, tasks) == |tasks|
  {
    if tasks != [] {
      var front := tasks[..|tasks| - 1];
      NoneEndless(front);
      assert tasks == front + [tasks[|tasks| - 1]];
    }
  }

  // The search for each of the tasks ends.
  ghost predicate AllEnd(tasks: seq<Job>) {
    forall job :: job in tasks ==> Ends(job)
  }

  lemma CountersStayBelow(sys: System)
    requires Tally(sys)
    ensures sys.succeeded + sys.failed <= |sys.taken|
  {
    NoneEndless(sys.taken);
    BusyIsNatural(Hit, sys.workers);
    BusyIsNatural(Miss, sys.workers);
    BusyIsNatural(Endless, sys.workers);
  }

  // In every state of every run the tasks taken are the first ones, in order, each taken once. When all
  // workers have exited every task has been taken, the search for each has ended, each has been counted as
  // cracked exactly if some completion has its hash, and one null pointer is left in the queue.
  lemma Shutdown(states: seq<System>, actions: seq<Action>, tasks: seq<Job>, n: nat, i: nat)
    requires IsRun(states, actions, tasks, n) && n > 0 && i < |states|
    ensures states[i].taken <= tasks && states[i].succeeded + states[i].failed <= |states[i].taken|
    ensures AllExited(states[i]) ==>
      && states[i].taken == tasks && states[i].queue.contents == [Null] && AllEnd(tasks)
      && states[i].succeeded == Count(Hit, tasks) && states[i].failed == |tasks| - Count(Hit, tasks)
  {
    var k := EveryRun(states, actions, tasks, n, i);
    var sys := states[i];
    CountersStayBelow(sys);
    if AllExited(sys) {
      assert sys.workers[0] in sys.workers;
      NobodyLeaves(sys, k);
      NobodyBusy(sys);
      NoneEndless(tasks);
      assert Items(tasks[|tasks|..]) == [];
    }
  }

  // ---------- progress, for tasks whose searches end ----------

  // The actions that a worker still has before it: to exit, to take the null pointer, to make the passes of
  // its search and report the result.
  ghost function Weight(w: Worker): int {
    match w
    case Exited => 0
    case Leaving => 1
    case Pulling => 2
    case Searching(job, search) => 3 + Passes(job) - search.hashCount
  }

  ghost function Cost(tasks: seq<Job>): nat {
    if tasks == [] then 0 else 2 + Passes(tasks[0]) + Cost(tasks[1..])
  }

  ghost function Measure(sys: System, tasks: seq<Job>): int
    requires |sys.taken| <= |tasks|
  {
    Cost(tasks[|sys.taken|..]) + Sum(Weight, sys.workers)
  }

  // Falling asleep and waking up.
  predicate Idles(sys: System, a: Action) {
    a.WakeUp? || (a.TakeItem? && sys.queue.contents == [])
  }

  function Effect(sys: System, a: Action): nat {
    if Idles(sys, a) then 0 else 1
  }

  lemma TakeCounts(sys: System, tasks: seq<Job>, k: nat, a: Action)
    requires SysInv(sys, tasks, k) && Ready(sys, a) && a.TakeItem? && !Idles(sys, a)
    ensures |Act(sys, a).taken| <= |tasks|
    ensures Cost(tasks[|Act(sys, a).taken|..]) + Weight(Act(sys, a).workers[a.worker]) ==
      Cost(tasks[|sys.taken|..]) + 1
  {
    var j := |sys.taken|;
    if j < |tasks| {
      PullTask(sys, tasks, k, a.worker);
      assert tasks[j..][1..] == tasks[j + 1..];
    } else {
      PullNull(sys, tasks, k, a.worker);
    }
  }

  // Nothing but falling asleep and waking up leaves the measure as it is; every other action lowers it by 1.
  lemma ActCounts(sys: System, tasks: seq<Job>, k: nat, a: Action)
    requires SysInv(sys, tasks, k) && Ready(sys, a)
    ensures |Act(sys, a).taken| <= |tasks|
    ensures SearchIs(sys.workers[a.worker]) && (sys.workers[a.worker].Searching? ==> Ends(sys.workers[a.worker].job))
      ==> Measure(Act(sys, a), tasks) == Measure(sys, tasks) - Effect(sys, a)
  {
    if !Idles(sys, a) {
      var w := sys.workers[a.worker];
      SumUpdate(Weight, sys.workers, a.worker, Act(sys, a).workers[a.worker]);
      if a.TakeItem? {
        TakeCounts(sys, tasks, k, a);
      } else if a.Report? && SearchIs(w) {
        EndedSearch(w.job, w.search.hashCount);
      }
    }
  }

  // No worker is busy with a task whose search never ends, because there is none.
  lemma {:induction false} BusyEnds(tasks: seq<Job>, workers: seq<Worker>, i: nat)
    requires i < |workers| && workers[i].Searching? && Sum(Busy(Endless), workers) == 0
    ensures Ends(workers[i].job)
  {
    BusyIsNatural(Endless, workers[1..]);
    if i > 0 {
      BusyEnds(tasks, workers[1..], i - 1);
    }
  }

  lemma {:induction false} BusyIsNatural(v: Verdict, workers: seq<Worker>)
    ensures Sum(Busy(v), workers) >= 0
  {
    if workers != [] {
      BusyIsNatural(v, workers[1..]);
    }
  }

  lemma TakenEnd(sys: System, tasks: seq<Job>, i: nat)
    requires Inv(sys) && sys.taken <= tasks && AllEnd(tasks) && i < |sys.workers| && sys.workers[i].Searching?
    ensures Ends(sys.workers[i].job)
  {
    assert forall job :: job in sys.taken ==> job in tasks;
    NoneEndless(sys.taken);
    BusyEnds(tasks, sys.workers, i);
  }

  lemma {:induction false} WeightsAreNatural(workers: seq<Worker>)
    requires forall i :: 0 <= i < |workers| ==> Weight(workers[i]) >= 0
    ensures Sum(Weight, workers) >= 0
  {
    if workers != [] {
      assert forall i :: 0 <= i < |workers| - 1 ==> Weight(workers[1..][i]) == Weight(workers[i + 1]);
      WeightsAreNatural(workers[1..]);
    }
  }

  lemma WorkerWeight(w: Worker)
    requires SearchIs(w) && (w.Searching? ==> Ends(w.job))
    ensures Weight(w) >= 0
  {
    if w.Searching? {
      if w.search.looping {
        LoopingBefore(w.job, w.search.hashCount);
      } else {
        EndedSearch(w.job, w.search.hashCount);
      }
    }
  }

  lemma MeasureIsNatural(sys: System, tasks: seq<Job>)
    requires Inv(sys) && sys.taken <= tasks && AllEnd(tasks)
    ensures Measure(sys, tasks) >= 0
  {
    forall i | 0 <= i < |sys.workers| ensures Weight(sys.workers[i]) >= 0 {
      assert SearchIs(sys.workers[i]);
      if sys.workers[i].Searching? {
        TakenEnd(sys, tasks, i);
      }
      WorkerWeight(sys.workers[i]);
    }
    WeightsAreNatural(sys.workers);
  }

  // One action of a run in which all searches end.
  lemma ActLowers(sys: System, tasks: seq<Job>, k: nat, a: Action, next: System)
    requires SysInv(sys, tasks, k) && Inv(sys) && Follows(sys, a, next) && AllEnd(tasks)
    ensures |next.taken| <= |tasks|
    ensures Measure(next, tasks) == Measure(sys, tasks) - Effect(sys, a)
  {
    assert SearchIs(sys.workers[a.worker]);
    if sys.workers[a.worker].Searching? {
      TakenEnd(sys, tasks, a.worker);
    }
    ActCounts(sys, tasks, k, a);
  }

  // As long as some worker has not exited, an action that is more than falling asleep is possible.
  lemma SomeoneCanAct(sys: System, tasks: seq<Job>, k: nat) returns (a: Action)
    requires SysInv(sys, tasks, k) && Inv(sys) && AllEnd(tasks) && !AllExited(sys)
    ensures Ready(sys, a) && !Idles(sys, a)
  {
    var i: nat :| i < |sys.workers| && sys.workers[i] != Exited;
    if k < |sys.workers| {
      a := PushNull(k);
    } else if sys.workers[i].Searching? {
      assert SearchIs(sys.workers[i]);
      TakenEnd(sys, tasks, i);
      if sys.workers[i].search.looping {
        PassIsDefined(sys.workers[i]);
      }
      a := if sys.workers[i].search.looping then TryNext(i) else Report(i);
    } else {
      a := TakeItem(i);
    }
  }

  lemma PassIsDefined(w: Worker)
    requires w.Searching? && SearchIs(w) && Ends(w.job) && w.search.looping
    ensures w.search.hashCount + 1 < INT_LIMIT
  {
    LoopingBefore(w.job, w.search.hashCount);
  }

  // The number of actions other than falling asleep and waking up among the first i.
  function Effective(states: seq<System>, actions: seq<Action>, i: nat): nat
    requires i <= |actions| && |states| == |actions| + 1
  {
    if i == 0 then 0
    else Effective(states, actions, i - 1) + Effect(states[i - 1], actions[i - 1])
  }

  // If all searches end: no run has more than Cost(tasks) + 2 * n actions other than falling asleep and waking
  // up, and as long as some worker has not exited another such action is possible.
  lemma {:induction false} RunsAreShort(states: seq<System>, actions: seq<Action>, tasks: seq<Job>, n: nat, i: nat)
    requires IsRun(states, actions, tasks, n) && i < |states| && AllEnd(tasks)
    ensures |states[i].taken| <= |tasks|
    ensures 0 <= Measure(states[i], tasks) == Cost(tasks) + 2 * n - Effective(states, actions, i)
    ensures !AllExited(states[i]) ==> exists a :: Ready(states[i], a) && !Idles(states[i], a)
  {
    var k := EveryRun(states, actions, tasks, n, i);
    MeasureIsNatural(states[i], tasks);
    if !AllExited(states[i]) {
      var a := SomeoneCanAct(states[i], tasks, k);
    }
    MeasureOfRun(states, actions, tasks, n, i);
  }

  lemma StartMeasure(tasks: seq<Job>, n: nat)
    ensures Measure(Start(tasks, n), tasks) == Cost(tasks) + 2 * n
  {
    SumOfEqual(Weight, Start(tasks, n).workers, Pulling);
    assert tasks[0..] == tasks;
  }

  // What is left of the measure after e actions other than falling asleep and waking up.
  ghost predicate Spent(sys: System, tasks: seq<Job>, n: nat, e: nat) {
    |sys.taken| <= |tasks| && Measure(sys, tasks) == Cost(tasks) + 2 * n - e
  }

  lemma SpentKeeps(sys: System, a: Action, next: System, tasks: seq<Job>, n: nat, k: nat, e: nat)
    requires Kept(sys, tasks, n, k) && Follows(sys, a, next) && AllEnd(tasks) && Spent(sys, tasks, n, e)
    ensures Spent(next, tasks, n, e + Effect(sys, a))
  {
    ActLowers(sys, tasks, k, a, next);
  }

  lemma {:induction false} MeasureOfRun(states: seq<System>, actions: seq<Action>, tasks: seq<Job>, n: nat, i: nat)
    requires IsRun(states, actions, tasks, n) && i < |states| && AllEnd(tasks)
    ensures Spent(states[i], tasks, n, Effective(states, actions, i))
  {
    if i == 0 {
      StartMeasure(tasks, n);
    } else {
      var k := EveryRun(states, actions, tasks, n, i - 1);
      var sys, a := states[i - 1], actions[i - 1];
      MeasureOfRun(states, actions, tasks, n, i - 1);
      assert Follows(sys, a, states[i]);
      SpentKeeps(sys, a, states[i], tasks, n, k, Effective(states, actions, i - 1));
    }
  }

  // ---------- exactly when the program ends ----------

  lemma {:induction false} RunOn(sys: System, tasks: seq<Job>, k: nat)
    returns (states: seq<System>, actions: seq<Action>)
    requires SysInv(sys, tasks, k) && Inv(sys) && AllEnd(tasks)
    ensures IsPath(states, actions) && states[0] == sys && AllExited(states[|actions|])
    decreases Measure(sys, tasks)
  {
    if AllExited(sys) {
      states, actions := [sys], [];
    } else {
      var a := SomeoneCanAct(sys, tasks, k);
      var next := Act(sys, a);
      ActKeeps(sys, tasks, k, a);
      InvKeeps(sys, a);
      ActLowers(sys, tasks, k, a, next);
      MeasureIsNatural(sys, tasks);
      var rest, others := RunOn(next, tasks, NextLeaving(sys, k, a));
      states, actions := [sys] + rest, [a] + others;
      PathExtends(sys, a, rest, others);
    }
  }

  lemma PathExtends(sys: System, a: Action, states: seq<System>, actions: seq<Action>)
    requires IsPath(states, actions) && Follows(sys, a, states[0])
    ensures IsPath([sys] + states, [a] + actions) && ([sys] + states)[|actions| + 1] == states[|actions|]
  {
    var longer, more := [sys] + states, [a] + actions;
    forall i | 0 <= i < |more| ensures Follows(longer[i], more[i], longer[i + 1]) {
      if i > 0 {
        assert Follows(states[i - 1], actions[i - 1], states[i]);
      }
    }
  }

  // The workers can come to the point where all have exited exactly if, for each task, some known letter is
  // not a z or some completion has the hash, and the passes up to there are fewer than 2^31.
  lemma ExitsIff(tasks: seq<Job>, n: nat)
    requires n > 0
    ensures (exists states, actions :: IsRun(states, actions, tasks, n) && AllExited(states[|actions|]))
      <==> forall job :: job in tasks ==> Endable(job) && Passes(job) < INT_LIMIT
  {
    forall job ensures Ends(job) <==> Endable(job) && Passes(job) < INT_LIMIT {
      EndsIff(job);
    }
    if AllEnd(tasks) {
      StartInv(tasks, n);
      var states, actions := RunOn(Start(tasks, n), tasks, n);
      assert IsRun(states, actions, tasks, n);
    }
    forall states, actions | IsRun(states, actions, tasks, n) && AllExited(states[|actions|])
      ensures AllEnd(tasks)
    {
      Shutdown(states, actions, tasks, n, |actions|);
    }
  }

  // With the hint "." and a hash that no letter has among the tasks, no run ever comes to its end.
  lemma SingleDotHangs(tasks: seq<Job>, n: nat, job: Job, states: seq<System>, actions: seq<Action>, i: nat)
    requires n > 0 && job in tasks && job.prefix == [] && job.unknown == 1
    requires forall c :: Letter(c) ==> job.hash([c]) != job.exp
    requires IsRun(states, actions, tasks, n) && i < |states|
    ensures !AllExited(states[i])
  {
    SingleDotNeverEnds(job);
    Shutdown(states, actions, tasks, n, i);
  }
}
