/** The server's worker pool: a queue, a condition variable, and notifications that are skipped when
    nobody sleeps. Every critical section is one atomic step; notifying happens outside the lock and
    is a step of its own. Condition variables may wake up spuriously. */
module WorkerPool {
  type Job = nat
  type Worker = nat

  datatype Activity =
    | AtLock
    | Asleep
    | Signalled
    | Executing(job: Job)
    | Exited

  /** `submitted`, `started` and `finished` record history. `notifies` counts the enqueuers that saw a
      sleeper and have not called `notify_one` yet; `broadcast` is the pending `notify_all`. */
  datatype State = State(
    workers: map<Worker, Activity>,
    queue: seq<Job>,
    sleeping: int,
    stopping: bool,
    notifies: nat,
    broadcast: bool,
    submitted: seq<Job>,
    started: seq<Job>,
    finished: set<Job>)

  datatype Action =
    | Enqueue(job: Job)
    | NotifyOne(worker: Worker)
    | NotifyNobody
    | Stop
    | NotifyAll
    | Lock(worker: Worker)
    | Finish(worker: Worker)
    | Spurious(worker: Worker)

  predicate Is(s: State, w: Worker, a: Activity) {
    w in s.workers && s.workers[w] == a
  }

  predicate Awake(s: State, w: Worker) {
    w in s.workers && (s.workers[w].AtLock? || s.workers[w].Signalled? || s.workers[w].Executing?)
  }

  /** Jobs are told apart; none is handed over once destruction has begun. */
  ghost predicate Enabled(s: State, a: Action) {
    match a
    case Enqueue(job) => !s.stopping && job !in s.submitted
    case NotifyOne(w) => s.notifies > 0 && Is(s, w, Asleep)
    case NotifyNobody => s.notifies > 0 && forall w :: !Is(s, w, Asleep)
    case Stop => !s.stopping
    case NotifyAll => s.broadcast
    case Lock(w) => Is(s, w, AtLock) || Is(s, w, Signalled)
    case Finish(w) => w in s.workers && s.workers[w].Executing?
    case Spurious(w) => Is(s, w, Asleep)
  }

  /** The locked part of `worker`: leave `wait`, then take a job, exit, or go to sleep. */
  function Critical(s: State, w: Worker): State
    requires w in s.workers
  {
    var left := s.sleeping - if s.workers[w].Signalled? then 1 else 0;
    if s.queue != [] then
      s.(sleeping := left, queue := s.queue[1..], started := s.started + [s.queue[0]],
         workers := s.workers[w := Executing(s.queue[0])])
    else if s.stopping then
      s.(sleeping := left, workers := s.workers[w := Exited])
    else
      s.(sleeping := left + 1, workers := s.workers[w := Asleep])
  }

  ghost function Next(s: State, a: Action): State
    requires Enabled(s, a)
  {
    match a
    case Enqueue(job) =>
      s.(queue := s.queue + [job], submitted := s.submitted + [job],
         notifies := s.notifies + if s.sleeping != 0 then 1 else 0)
    case NotifyOne(w) => s.(notifies := s.notifies - 1, workers := s.workers[w := Signalled])
    case NotifyNobody => s.(notifies := s.notifies - 1)
    case Stop => s.(stopping := true, broadcast := true)
    case NotifyAll =>
      s.(broadcast := false,
         workers := map w | w in s.workers :: if s.workers[w].Asleep? then Signalled else s.workers[w])
    case Lock(w) => Critical(s, w)
    case Finish(w) => s.(finished := s.finished + {s.workers[w].job}, workers := s.workers[w := AtLock])
    case Spurious(w) => s.(workers := s.workers[w := Signalled])
  }

  // ---- the invariant

  function Waiters(s: State): set<Worker> {
    set w | w in s.workers && (s.workers[w].Asleep? || s.workers[w].Signalled?)
  }

  ghost predicate SleepersCounted(s: State) {
    s.sleeping == |Waiters(s)|
  }

  /** Jobs leave the queue in submission order, each one once. */
  ghost predicate EachJobOnce(s: State) {
    && s.submitted == s.started + s.queue
    && (forall i, j :: 0 <= i < j < |s.submitted| ==> s.submitted[i] != s.submitted[j])
    && (forall job :: job in s.finished ==> job in s.started)
    && (forall w, job :: Is(s, w, Executing(job)) ==> job in s.started && job !in s.finished)
    && (forall v, w, job :: Is(s, v, Executing(job)) && Is(s, w, Executing(job)) ==> v == w)
    && (forall job :: job in s.started ==> job in s.finished || exists w :: Is(s, w, Executing(job)))
  }

  ghost predicate NotStranded(s: State) {
    s.queue != [] ==> s.notifies > 0 || exists w :: Awake(s, w)
  }

  ghost predicate Shutdown(s: State) {
    && (s.broadcast ==> s.stopping)
    && (forall w :: Is(s, w, Exited) ==> s.stopping && s.queue == [])
    && (s.stopping && !s.broadcast ==> forall w :: !Is(s, w, Asleep))
  }

  ghost predicate Inv(s: State) {
    s.workers != map[] && SleepersCounted(s) && EachJobOnce(s) && NotStranded(s) && Shutdown(s)
  }

  lemma CountAfterUpdate(s: State, t: State, w: Worker)
    requires w in s.workers && w in t.workers && t.workers == s.workers[w := t.workers[w]]
    ensures |Waiters(t)| ==
            |Waiters(s)| - (if w in Waiters(s) then 1 else 0) + (if w in Waiters(t) then 1 else 0)
  {
    assert Waiters(s) - {w} == Waiters(t) - {w};
    SizeAfterUpdate(Waiters(s), Waiters(t), w);
  }

  lemma EnqueueKeepsInv(s: State, job: Job)
    requires Inv(s) && Enabled(s, Enqueue(job))
    ensures Inv(Next(s, Enqueue(job)))
  {
    var t := Next(s, Enqueue(job));
    assert Waiters(t) == Waiters(s);
    assert forall w, a :: Is(t, w, a) == Is(s, w, a);
    if s.sleeping == 0 {
      // Nobody sleeps, so every worker is executing or on its way back to the queue.
      var w :| w in s.workers;
      assert w !in Waiters(s);
      assert !Is(s, w, Exited);
      assert Awake(t, w);
    }
  }

  lemma LockKeepsInv(s: State, w: Worker)
    requires Inv(s) && Enabled(s, Lock(w))
    ensures Inv(Next(s, Lock(w)))
  {
    var t := Critical(s, w);
    CountAfterUpdate(s, t, w);
    forall v, a | v != w ensures Is(t, v, a) == Is(s, v, a) {}
    if s.queue != [] {
      var job := s.queue[0];
      assert s.submitted == t.started + t.queue;
      forall i | 0 <= i < |s.started| ensures s.started[i] != job {
        assert s.submitted[i] == s.started[i] && s.submitted[|s.started|] == job;
      }
      assert Is(t, w, Executing(job)) && Awake(t, w);
    }
    forall job | job in t.started ensures job in t.finished || exists v :: Is(t, v, Executing(job)) {
      if job in s.started && job !in s.finished {
        var v :| Is(s, v, Executing(job));
        assert Is(t, v, Executing(job));
      }
    }
  }

  lemma FinishKeepsInv(s: State, w: Worker)
    requires Inv(s) && Enabled(s, Finish(w))
    ensures Inv(Next(s, Finish(w)))
  {
    var t := Next(s, Finish(w));
    CountAfterUpdate(s, t, w);
    assert Is(s, w, s.workers[w]);
    assert Awake(t, w);
    forall v, a | v != w ensures Is(t, v, a) == Is(s, v, a) {}
    forall job | job in t.started ensures job in t.finished || exists v :: Is(t, v, Executing(job)) {
      if job !in t.finished {
        var v :| Is(s, v, Executing(job));
        assert Is(t, v, Executing(job));
      }
    }
  }

  lemma SignalKeepsInv(s: State, a: Action)
    requires Inv(s) && Enabled(s, a) && (a.NotifyOne? || a.NotifyNobody? || a.Spurious?)
    ensures Inv(Next(s, a))
  {
    var t := Next(s, a);
    if a.NotifyNobody? {
      assert Waiters(t) == Waiters(s);
      assert forall w, b :: Is(t, w, b) == Is(s, w, b);
      if s.queue != [] {
        // With nobody asleep and nobody gone, the remaining workers are awake.
        var w :| w in s.workers;
        assert !Is(s, w, Exited) && !Is(s, w, Asleep);
        assert Awake(t, w);
      }
    } else {
      var w := a.worker;
      CountAfterUpdate(s, t, w);
      assert Awake(t, w);
      forall v, job ensures Is(t, v, Executing(job)) == Is(s, v, Executing(job)) {}
      assert forall v :: Is(t, v, Exited) == Is(s, v, Exited);
      assert forall v :: Is(t, v, Asleep) ==> Is(s, v, Asleep);
    }
  }

  lemma ShutdownKeepsInv(s: State, a: Action)
    requires Inv(s) && Enabled(s, a) && (a.Stop? || a.NotifyAll?)
    ensures Inv(Next(s, a))
  {
    var t := Next(s, a);
    assert Waiters(t) == Waiters(s);
    assert t.workers.Keys == s.workers.Keys;
    forall v, job ensures Is(t, v, Executing(job)) == Is(s, v, Executing(job)) {}
    assert forall v :: Is(t, v, Exited) == Is(s, v, Exited);
    assert forall v :: Awake(s, v) ==> Awake(t, v);
  }

  lemma StepKeepsInv(s: State, a: Action)
    requires Inv(s) && Enabled(s, a)
    ensures Inv(Next(s, a))
  {
    match a
    case Enqueue(job) => EnqueueKeepsInv(s, job);
    case Lock(w) => LockKeepsInv(s, w);
    case Finish(w) => FinishKeepsInv(s, w);
    case Stop => ShutdownKeepsInv(s, a);
    case NotifyAll => ShutdownKeepsInv(s, a);
    case _ => SignalKeepsInv(s, a);
  }

  // ---- every run

  /** At least one worker, all on their way to the lock. */
  ghost predicate IsInitial(s: State) {
    && s.workers != map[]
    && s == State(s.workers, [], 0, false, 0, false, [], [], {})
    && forall w :: w in s.workers ==> s.workers[w] == AtLock
  }

  ghost predicate IsRun(states: seq<State>, actions: seq<Action>) {
    && |states| == |actions| + 1
    && IsInitial(states[0])
    && forall i :: 0 <= i < |actions| ==> Enabled(states[i], actions[i]) && states[i + 1] == Next(states[i], actions[i])
  }

  lemma {:induction false} EveryStateIsSound(states: seq<State>, actions: seq<Action>, i: nat)
    requires IsRun(states, actions) && i < |states|
    ensures Inv(states[i])
    decreases i
  {
    if i == 0 {
      assert Waiters(states[0]) == {};
    } else {
      EveryStateIsSound(states, actions, i - 1);
      StepKeepsInv(states[i - 1], actions[i - 1]);
    }
  }

  /** No stranded work: a queued job always has a pending notification or an awake worker. */
  lemma NoStrandedWork(states: seq<State>, actions: seq<Action>, i: nat)
    requires IsRun(states, actions) && i < |states| && states[i].queue != []
    ensures states[i].notifies > 0 || exists w :: Awake(states[i], w)
  {
    EveryStateIsSound(states, actions, i);
  }

  /** Jobs start in submission order and no job starts twice; a finished job was started. */
  lemma JobsRunOnceInOrder(states: seq<State>, actions: seq<Action>, i: nat)
    requires IsRun(states, actions) && i < |states|
    ensures states[i].started <= states[i].submitted
    ensures forall j, k :: 0 <= j < k < |states[i].started| ==> states[i].started[j] != states[i].started[k]
    ensures forall v, w, job :: Is(states[i], v, Executing(job)) && Is(states[i], w, Executing(job)) ==> v == w
    ensures forall w, job :: Is(states[i], w, Executing(job)) ==> job !in states[i].finished
  {
    EveryStateIsSound(states, actions, i);
    var s := states[i];
    forall j, k | 0 <= j < k < |s.started| ensures s.started[j] != s.started[k] {
      assert s.submitted[j] == s.started[j] && s.submitted[k] == s.started[k];
    }
  }

  /** Queued jobs drain before the workers exit: once all threads are gone, every job has run. */
  lemma QueueDrainsBeforeExit(states: seq<State>, actions: seq<Action>, i: nat)
    requires IsRun(states, actions) && i < |states|
    requires forall w :: w in states[i].workers ==> states[i].workers[w].Exited?
    ensures states[i].queue == [] && forall job :: job in states[i].submitted ==> job in states[i].finished
  {
    var s := states[i];
    EveryStateIsSound(states, actions, i);
    var w :| w in s.workers;
    assert Is(s, w, Exited);
    forall job | job in s.submitted ensures job in s.finished {
      assert forall v :: !Is(s, v, Executing(job));
    }
  }

  /** The destructor's join cannot hang on a sleeper: while a thread is left, some step other than a
      spurious wakeup can happen. */
  lemma ShutdownMakesProgress(states: seq<State>, actions: seq<Action>, i: nat, w: Worker) returns (a: Action)
    requires IsRun(states, actions) && i < |states| && states[i].stopping
    requires w in states[i].workers && !states[i].workers[w].Exited?
    ensures Enabled(states[i], a) && (a == NotifyAll || a == Lock(w) || a == Finish(w))
  {
    EveryStateIsSound(states, actions, i);
    var s := states[i];
    a := if s.workers[w].Executing? then Finish(w) else if Is(s, w, Asleep) then NotifyAll else Lock(w);
  }

  // ---- joining ends

  /** The workers whose threads are still to be joined. */
  function Remaining(s: State): set<Worker> {
    set w | w in s.workers && !s.workers[w].Exited?
  }

  /** The workers that have one step more to do before they reach the lock. */
  function Occupied(s: State): set<Worker> {
    set w | w in s.workers && (s.workers[w].Asleep? || s.workers[w].Executing?)
  }

  /** How many steps are left once the stop flag is set: two for a queued job, one or two for a worker, and the notifications. */
  function Rank(s: State): nat {
    s.notifies + (if s.broadcast then 1 else 0) + 2 * |s.queue| + |Remaining(s)| + |Occupied(s)|
  }

  lemma SubsetSize(a: set<Worker>, b: set<Worker>)
    requires a <= b
    ensures |a| <= |b|
  {
    assert b == a + (b - a);
  }

  lemma SizeAfterUpdate(a: set<Worker>, b: set<Worker>, w: Worker)
    requires a - {w} == b - {w}
    ensures |b| == |a| - (if w in a then 1 else 0) + (if w in b then 1 else 0)
  {
    var rest := a - {w};
    assert a == if w in a then rest + {w} else rest;
    assert b == if w in b then rest + {w} else rest;
  }

  /** A step of one worker changes its own contribution alone. */
  lemma RankAfterUpdate(s: State, t: State, w: Worker)
    requires w in s.workers && w in t.workers && t.workers == s.workers[w := t.workers[w]]
    ensures |Remaining(t)| == |Remaining(s)| - (if w in Remaining(s) then 1 else 0) + (if w in Remaining(t) then 1 else 0)
    ensures |Occupied(t)| == |Occupied(s)| - (if w in Occupied(s) then 1 else 0) + (if w in Occupied(t) then 1 else 0)
  {
    assert Remaining(s) - {w} == Remaining(t) - {w};
    assert Occupied(s) - {w} == Occupied(t) - {w};
    hide Remaining, Occupied;
    SizeAfterUpdate(Remaining(s), Remaining(t), w);
    SizeAfterUpdate(Occupied(s), Occupied(t), w);
  }

  /** During shutdown every step counts, spurious wakeups included, because nobody falls asleep any more. */
  lemma EveryStepCounts(s: State, a: Action)
    requires s.stopping && Enabled(s, a)
    ensures Next(s, a).stopping && Rank(Next(s, a)) < Rank(s)
  {
    var t := Next(s, a);
    if a.NotifyNobody? || a.NotifyAll? {
      assert Remaining(t) == Remaining(s);
      SubsetSize(Occupied(t), Occupied(s));
    } else {
      RankAfterUpdate(s, t, a.worker);
    }
  }

  /** Joining ends: after the stop flag is set, no run takes more steps than twice the queued jobs and the workers,
      and the notifications still to be sent. */
  lemma {:induction false} ShutdownEnds(states: seq<State>, actions: seq<Action>, i: nat)
    requires IsRun(states, actions) && i < |states| && states[i].stopping
    ensures |actions| - i <= Rank(states[i]) <= 2 * (|states[i].queue| + |states[i].workers|) + states[i].notifies + 1
    decreases |states| - i
  {
    var s := states[i];
    SubsetSize(Remaining(s), s.workers.Keys);
    SubsetSize(Occupied(s), s.workers.Keys);
    if i < |actions| {
      EveryStepCounts(s, actions[i]);
      ShutdownEnds(states, actions, i + 1);
    }
  }

  /** A shutdown that cannot go on has joined every worker and run every job. */
  lemma ShutdownCompletes(states: seq<State>, actions: seq<Action>)
    requires IsRun(states, actions)
    requires states[|actions|].stopping && forall a :: !Enabled(states[|actions|], a)
    ensures forall w :: w in states[|actions|].workers ==> states[|actions|].workers[w].Exited?
    ensures forall job :: job in states[|actions|].submitted ==> job in states[|actions|].finished
  {
    var s := states[|actions|];
    forall w | w in s.workers ensures s.workers[w].Exited? {
      if !s.workers[w].Exited? { var a := ShutdownMakesProgress(states, actions, |actions|, w); }
    }
    QueueDrainsBeforeExit(states, actions, |actions|);
  }
}
