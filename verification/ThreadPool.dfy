/** server/thread_pool_mode.cpp: the queue that the acceptor, the workers and the main thread
    share under one mutex and one condition variable, as a transition system. A step is one
    operation between two points where threads can interleave; the mutex is explicit. */
module ThreadPool {

  /** {-1, ""}: tells a worker to stop. Accepted descriptors are never negative. */
  const SENTINEL := -1

  datatype WorkerPc =
    | Locking              // before unique_lock, or woken and locking again inside wait
    | Checking             // holds the mutex, about to test queue.empty()
    | Waiting              // inside queue_cv.wait, mutex released
    | Unlocking(job: int)  // holds the mutex with a job taken from the queue
    | Got(job: int)        // mutex released: serves the connection, or stops
    | Exited

  datatype AcceptorPc = Selecting | AcceptorLocking(fd: int) | AcceptorPushing(fd: int) | AcceptorNotifying | AcceptorUnlocking | AcceptorExited

  /** run_thread_pool after the threads have been started. */
  datatype MainPc = JoinAcceptor | MainLocking | MainPushing(pushed: nat) | MainNotifying | JoinWorkers | Returned

  datatype Owner = Free | Acceptor | Main | Worker(i: nat)

  /** `pushed` and `taken` are the jobs pushed to and popped from the queue so far, in order. */
  datatype State = State(
    queue: seq<int>, owner: Owner, acceptor: AcceptorPc, main: MainPc, workers: seq<WorkerPc>,
    pushed: seq<int>, taken: seq<int>)

  datatype Action =
    | Accept(fd: int) | LockForPush | Push | NotifyOne(woken: nat) | UnlockAfterPush | StopAccepting
    | AcceptorJoined | LockForSentinels | PushSentinel | UnlockSentinels | NotifyAll | WorkersJoined
    | Lock(i: nat) | Check(i: nat) | Unlock(i: nat) | Finish(i: nat) | SpuriousWake(i: nat)

  /** n workers; the configuration reader accepts no nThreads below 1. */
  function Initial(n: nat): State {
    State([], Free, Selecting, JoinAcceptor, seq(n, _ => Locking), [], [])
  }

  predicate Enabled(s: State, a: Action) {
    match a
    case Accept(fd) => s.acceptor.Selecting? && fd >= 0
    case LockForPush => s.acceptor.AcceptorLocking? && s.owner.Free?
    case Push => s.acceptor.AcceptorPushing?
    case NotifyOne(w) =>
      // some waiting worker is woken, if there is one
      s.acceptor.AcceptorNotifying? &&
      if exists i | 0 <= i < |s.workers| :: s.workers[i].Waiting? then w < |s.workers| && s.workers[w].Waiting? else true
    case UnlockAfterPush => s.acceptor.AcceptorUnlocking?
    case StopAccepting => s.acceptor.Selecting?
    case AcceptorJoined => s.main.JoinAcceptor? && s.acceptor.AcceptorExited?
    case LockForSentinels => s.main.MainLocking? && s.owner.Free?
    case PushSentinel => s.main.MainPushing? && s.main.pushed < |s.workers|
    case UnlockSentinels => s.main.MainPushing? && s.main.pushed == |s.workers|
    case NotifyAll => s.main.MainNotifying?
    case WorkersJoined => s.main.JoinWorkers? && forall i | 0 <= i < |s.workers| :: s.workers[i].Exited?
    case Lock(i) => i < |s.workers| && s.workers[i].Locking? && s.owner.Free?
    case Check(i) => i < |s.workers| && s.workers[i].Checking?
    case Unlock(i) => i < |s.workers| && s.workers[i].Unlocking?
    case Finish(i) => i < |s.workers| && s.workers[i].Got?
    case SpuriousWake(i) => i < |s.workers| && s.workers[i].Waiting?
  }

  function Wake(pc: WorkerPc): WorkerPc {
    if pc.Waiting? then Locking else pc
  }

  function WakeAll(workers: seq<WorkerPc>): (woken: seq<WorkerPc>)
    ensures |woken| == |workers|
    ensures forall i | 0 <= i < |workers| :: woken[i] == Wake(workers[i])
  {
    seq(|workers|, i requires 0 <= i < |workers| => Wake(workers[i]))
  }

  function Step(s: State, a: Action): State
    requires Enabled(s, a)
  {
    match a
    case Accept(fd) => s.(acceptor := AcceptorLocking(fd))
    case LockForPush => s.(acceptor := AcceptorPushing(s.acceptor.fd), owner := Acceptor)
    case Push =>
      s.(acceptor := AcceptorNotifying, queue := s.queue + [s.acceptor.fd], pushed := s.pushed + [s.acceptor.fd])
    case NotifyOne(w) =>
      s.(acceptor := AcceptorUnlocking,
         workers := if w < |s.workers| then s.workers[w := Wake(s.workers[w])] else s.workers)
    case UnlockAfterPush => s.(acceptor := Selecting, owner := Free)
    case StopAccepting => s.(acceptor := AcceptorExited)
    case AcceptorJoined => s.(main := MainLocking)
    case LockForSentinels => s.(main := MainPushing(0), owner := Main)
    case PushSentinel =>
      s.(main := MainPushing(s.main.pushed + 1), queue := s.queue + [SENTINEL], pushed := s.pushed + [SENTINEL])
    case UnlockSentinels => s.(main := MainNotifying, owner := Free)
    case NotifyAll => s.(main := JoinWorkers, workers := WakeAll(s.workers))
    case WorkersJoined => s.(main := Returned)
    case Lock(i) => s.(workers := s.workers[i := Checking], owner := Worker(i))
    case Check(i) =>
      if s.queue == [] then s.(workers := s.workers[i := Waiting], owner := Free)
      else
        s.(workers := s.workers[i := Unlocking(s.queue[0])], queue := s.queue[1..], taken := s.taken + [s.queue[0]])
    case Unlock(i) => s.(workers := s.workers[i := Got(s.workers[i].job)], owner := Free)
    case Finish(i) =>
      s.(workers := s.workers[i := if s.workers[i].job == SENTINEL then Exited else Locking])
    case SpuriousWake(i) => s.(workers := s.workers[i := Locking])
  }

  // ----- counting -----

  function Count(workers: seq<WorkerPc>, p: WorkerPc -> bool): (n: nat)
    ensures n <= |workers|
  {
    if workers == [] then 0 else (if p(workers[0]) then 1 else 0) + Count(workers[1..], p)
  }

  predicate CountMoved(workers: seq<WorkerPc>, i: nat, pc: WorkerPc, p: WorkerPc -> bool)
    requires i < |workers|
  {
    Count(workers[i := pc], p) + (if p(workers[i]) then 1 else 0) == Count(workers, p) + (if p(pc) then 1 else 0)
  }

  lemma {:induction false} CountUpdate(workers: seq<WorkerPc>, i: nat, pc: WorkerPc, p: WorkerPc -> bool)
    requires i < |workers|
    ensures CountMoved(workers, i, pc, p)
  {
    if i == 0 {
      assert workers[0 := pc][1..] == workers[1..];
    } else {
      assert workers[i := pc][1..] == workers[1..][i - 1 := pc];
      CountUpdate(workers[1..], i - 1, pc, p);
    }
  }

  lemma {:induction false} CountAll(workers: seq<WorkerPc>, p: WorkerPc -> bool)
    ensures Count(workers, p) == |workers| <==> forall i | 0 <= i < |workers| :: p(workers[i])
    ensures Count(workers, p) == 0 <==> forall i | 0 <= i < |workers| :: !p(workers[i])
  {
    if workers != [] {
      CountAll(workers[1..], p);
      assert forall i | 1 <= i < |workers| :: workers[i] == workers[1..][i - 1];
    }
  }

  /** About to test the queue, again or for the first time. */
  const AWAKE := (pc: WorkerPc) => pc.Locking? || pc.Checking?

  const ASLEEP := (pc: WorkerPc) => pc.Waiting?

  /** Has taken a sentinel. */
  const STOPPING := (pc: WorkerPc) =>
    pc.Exited? || ((pc.Unlocking? || pc.Got?) && pc.job == SENTINEL)

  function Sentinels(jobs: seq<int>): nat {
    if jobs == [] then 0 else (if jobs[|jobs| - 1] == SENTINEL then 1 else 0) + Sentinels(jobs[..|jobs| - 1])
  }

  // ----- the invariant -----

  predicate HoldsLock(pc: WorkerPc) {
    pc.Checking? || pc.Unlocking?
  }

  /** The mutex is held by exactly the thread whose program counter says so. */
  predicate LockInv(s: State) {
    && (s.owner.Acceptor? <==> s.acceptor.AcceptorPushing? || s.acceptor.AcceptorNotifying? || s.acceptor.AcceptorUnlocking?)
    && (s.owner.Main? <==> s.main.MainPushing?)
    && (s.owner.Worker? ==> s.owner.i < |s.workers|)
    && (forall i | 0 <= i < |s.workers| :: HoldsLock(s.workers[i]) <==> s.owner == Worker(i))
  }

  /** A notification that is still to come covers at most this many jobs. */
  predicate NotifyAllPending(s: State) {
    s.main.MainPushing? || s.main.MainNotifying?
  }

  /** No lost wakeup: while anyone waits, every queued job has an awake worker about to test the
      queue, except for the one that is being notified and for the sentinels before notify_all. */
  predicate WakeInv(s: State) {
    Count(s.workers, ASLEEP) > 0 && !NotifyAllPending(s) ==>
      |s.queue| <= Count(s.workers, AWAKE) + (if s.acceptor.AcceptorNotifying? then 1 else 0)
  }

  function SentinelsPushed(s: State): nat {
    match s.main
    case MainPushing(k) => k
    case MainNotifying => |s.workers|
    case JoinWorkers => |s.workers|
    case Returned => |s.workers|
    case _ => 0
  }

  /** The queue is first in, first out, and the sentinels come after every connection. */
  ghost predicate OrderInv(s: State) {
    && s.pushed == s.taken + s.queue
    && SentinelsPushed(s) <= |s.workers|
    && SentinelsPushed(s) <= |s.pushed|
    && (forall i | 0 <= i < |s.pushed| :: s.pushed[i] == SENTINEL <==> i >= |s.pushed| - SentinelsPushed(s))
    && (s.acceptor.AcceptorLocking? || s.acceptor.AcceptorPushing? ==> s.acceptor.fd >= 0)
  }

  /** As many sentinels have been taken as workers are stopping. */
  predicate JobsMatch(s: State) {
    Sentinels(s.taken) == Count(s.workers, STOPPING)
  }

  ghost predicate JobInv(s: State) {
    OrderInv(s) && JobsMatch(s)
  }

  /** The main thread waits for the acceptor first; when it waits for the workers nobody sleeps. */
  predicate MainInv(s: State) {
    && (!s.main.JoinAcceptor? ==> s.acceptor.AcceptorExited?)
    && (s.main.JoinWorkers? || s.main.Returned? ==> Count(s.workers, ASLEEP) == 0)
    && (s.main.Returned? ==> forall i | 0 <= i < |s.workers| :: s.workers[i].Exited?)
  }

  ghost predicate Inv(s: State) {
    |s.workers| > 0 && LockInv(s) && WakeInv(s) && JobInv(s) && MainInv(s)
  }

  // ----- every step keeps it -----

  lemma InitialInv(n: nat)
    requires n > 0
    ensures Inv(Initial(n))
  {
    CountAll(Initial(n).workers, ASLEEP);
    CountAll(Initial(n).workers, STOPPING);
  }

  lemma LockStep(s: State, a: Action)
    requires Inv(s) && Enabled(s, a)
    ensures LockInv(Step(s, a))
  {
    hide WakeInv, JobInv, Count;
  }

  /** The counts after worker i moved to pc. */
  lemma Moved(workers: seq<WorkerPc>, i: nat, pc: WorkerPc)
    requires i < |workers|
    ensures CountMoved(workers, i, pc, AWAKE) && CountMoved(workers, i, pc, ASLEEP) && CountMoved(workers, i, pc, STOPPING)
  {
    CountUpdate(workers, i, pc, AWAKE);
    CountUpdate(workers, i, pc, ASLEEP);
    CountUpdate(workers, i, pc, STOPPING);
  }

  /** Steps that move no worker. */
  predicate MovesNobody(a: Action) {
    a.Accept? || a.LockForPush? || a.Push? || a.UnlockAfterPush? || a.StopAccepting? || a.AcceptorJoined?
    || a.LockForSentinels? || a.PushSentinel? || a.UnlockSentinels? || a.WorkersJoined?
  }

  lemma WakeUnmoved(s: State, a: Action)
    requires Inv(s) && Enabled(s, a) && MovesNobody(a)
    ensures WakeInv(Step(s, a))
  {
    hide LockInv, JobInv, Count;
  }

  lemma WakeNotifyOne(s: State, w: nat)
    requires WakeInv(s) && Enabled(s, NotifyOne(w))
    ensures WakeInv(Step(s, NotifyOne(w)))
  {
    CountAll(s.workers, ASLEEP);
    if w < |s.workers| { Moved(s.workers, w, Wake(s.workers[w])); }
    hide Count;
  }

  lemma WakeNotifyAll(s: State)
    requires Enabled(s, NotifyAll)
    ensures WakeInv(Step(s, NotifyAll))
  {
    CountAll(WakeAll(s.workers), ASLEEP);
    hide Count;
  }

  lemma WakeLock(s: State, i: nat)
    requires WakeInv(s) && Enabled(s, Lock(i))
    ensures WakeInv(Step(s, Lock(i)))
  {
    Moved(s.workers, i, Checking);
    hide Count;
  }

  lemma WakeCheck(s: State, i: nat)
    requires LockInv(s) && WakeInv(s) && Enabled(s, Check(i))
    ensures WakeInv(Step(s, Check(i)))
  {
    Moved(s.workers, i, Step(s, Check(i)).workers[i]);
    hide Count;
  }

  lemma WakeUnlock(s: State, i: nat)
    requires WakeInv(s) && Enabled(s, Unlock(i))
    ensures WakeInv(Step(s, Unlock(i)))
  {
    Moved(s.workers, i, Step(s, Unlock(i)).workers[i]);
    hide Count;
  }

  lemma WakeFinish(s: State, i: nat)
    requires WakeInv(s) && Enabled(s, Finish(i))
    ensures WakeInv(Step(s, Finish(i)))
  {
    Moved(s.workers, i, Step(s, Finish(i)).workers[i]);
    hide Count;
  }

  lemma WakeSpurious(s: State, i: nat)
    requires WakeInv(s) && Enabled(s, SpuriousWake(i))
    ensures WakeInv(Step(s, SpuriousWake(i)))
  {
    Moved(s.workers, i, Locking);
    hide Count;
  }

  lemma WakeStep(s: State, a: Action)
    requires Inv(s) && Enabled(s, a)
    ensures WakeInv(Step(s, a))
  {
    hide LockInv, WakeInv, JobInv, MainInv, Enabled, Step;
    match a
    case NotifyOne(w) => WakeNotifyOne(s, w);
    case NotifyAll => WakeNotifyAll(s);
    case Lock(i) => WakeLock(s, i);
    case Check(i) => WakeCheck(s, i);
    case Unlock(i) => WakeUnlock(s, i);
    case Finish(i) => WakeFinish(s, i);
    case SpuriousWake(i) => WakeSpurious(s, i);
    case _ => WakeUnmoved(s, a);
  }

  lemma {:induction false} WakeAllCount(workers: seq<WorkerPc>)
    ensures Count(WakeAll(workers), STOPPING) == Count(workers, STOPPING)
  {
    if workers != [] {
      assert WakeAll(workers)[1..] == WakeAll(workers[1..]);
      WakeAllCount(workers[1..]);
    }
  }

  lemma OrderStep(s: State, a: Action)
    requires Inv(s) && Enabled(s, a)
    ensures OrderInv(Step(s, a))
  {
    hide WakeInv, LockInv, Count, Sentinels;
    if a.Check? && s.queue != [] {
      assert s.taken + s.queue == s.taken + [s.queue[0]] + s.queue[1..];
    }
  }

  lemma JobUnmoved(s: State, a: Action)
    requires JobsMatch(s) && Enabled(s, a) && MovesNobody(a)
    ensures JobsMatch(Step(s, a))
  {
    hide Count, Sentinels;
  }

  lemma JobNotifyOne(s: State, w: nat)
    requires JobsMatch(s) && Enabled(s, NotifyOne(w))
    ensures JobsMatch(Step(s, NotifyOne(w)))
  {
    if w < |s.workers| { Moved(s.workers, w, Wake(s.workers[w])); }
    hide Count, Sentinels;
  }

  lemma JobNotifyAll(s: State)
    requires JobsMatch(s) && Enabled(s, NotifyAll)
    ensures JobsMatch(Step(s, NotifyAll))
  {
    WakeAllCount(s.workers);
    hide Count, Sentinels;
  }

  lemma SentinelsPush(jobs: seq<int>, job: int)
    ensures Sentinels(jobs + [job]) == Sentinels(jobs) + if job == SENTINEL then 1 else 0
  {
    assert (jobs + [job])[..|jobs|] == jobs;
  }

  /** The worker that takes a sentinel is the one that stops. */
  lemma JobCheck(s: State, i: nat)
    requires JobsMatch(s) && Enabled(s, Check(i))
    ensures JobsMatch(Step(s, Check(i)))
  {
    hide Count, Sentinels;
    if s.queue == [] {
      Moved(s.workers, i, Waiting);
    } else {
      Moved(s.workers, i, Unlocking(s.queue[0]));
      SentinelsPush(s.taken, s.queue[0]);
    }
  }

  lemma JobWorker(s: State, a: Action, i: nat)
    requires JobsMatch(s) && Enabled(s, a) && (a == Lock(i) || a == Unlock(i) || a == Finish(i) || a == SpuriousWake(i))
    ensures JobsMatch(Step(s, a))
  {
    Moved(s.workers, i, Step(s, a).workers[i]);
    hide Count, Sentinels;
  }

  lemma JobStep(s: State, a: Action)
    requires Inv(s) && Enabled(s, a)
    ensures JobInv(Step(s, a))
  {
    OrderStep(s, a);
    hide LockInv, WakeInv, OrderInv, MainInv, Count, Sentinels, Enabled, Step;
    match a
    case NotifyOne(w) => JobNotifyOne(s, w);
    case NotifyAll => JobNotifyAll(s);
    case Lock(i) => JobWorker(s, a, i);
    case Check(i) => JobCheck(s, i);
    case Unlock(i) => JobWorker(s, a, i);
    case Finish(i) => JobWorker(s, a, i);
    case SpuriousWake(i) => JobWorker(s, a, i);
    case _ => JobUnmoved(s, a);
  }

  lemma {:induction false} SentinelsAtEnd(jobs: seq<int>, k: nat)
    requires k <= |jobs|
    requires forall i | 0 <= i < |jobs| :: jobs[i] == SENTINEL <==> i >= |jobs| - k
    ensures Sentinels(jobs) == k
    decreases |jobs|
  {
    if jobs != [] {
      SentinelsAtEnd(jobs[..|jobs| - 1], if k == 0 then 0 else k - 1);
    }
  }

  /** After the sentinels have been pushed, a worker that is not stopping finds a job. */
  lemma JobForEach(s: State, i: nat)
    requires Inv(s) && (s.main.JoinWorkers? || s.main.Returned?)
    requires i < |s.workers| && !STOPPING(s.workers[i])
    ensures s.queue != []
  {
    CountAll(s.workers, STOPPING);
    SentinelsAtEnd(s.pushed, |s.workers|);
    SentinelsSum(s.taken, s.queue);
  }

  lemma MainUnmoved(s: State, a: Action)
    requires Inv(s) && Enabled(s, a) && (MovesNobody(a) || a.NotifyOne?)
    ensures MainInv(Step(s, a))
  {
    hide WakeInv, JobInv, LockInv;
    if a.NotifyOne? && a.woken < |s.workers| { Moved(s.workers, a.woken, Wake(s.workers[a.woken])); }
    hide Count;
  }

  lemma MainNotifyAll(s: State)
    requires Inv(s) && Enabled(s, NotifyAll)
    ensures MainInv(Step(s, NotifyAll))
  {
    hide WakeInv, JobInv, LockInv;
    CountAll(WakeAll(s.workers), ASLEEP);
    hide Count;
  }

  lemma MainWorker(s: State, a: Action, i: nat)
    requires Inv(s) && Enabled(s, a)
    requires a == Lock(i) || a == Check(i) || a == Unlock(i) || a == Finish(i) || a == SpuriousWake(i)
    ensures MainInv(Step(s, a))
  {
    if a.Check? && (s.main.JoinWorkers? || s.main.Returned?) { JobForEach(s, i); }
    hide WakeInv, JobInv, LockInv;
    Moved(s.workers, i, Step(s, a).workers[i]);
    hide Count;
  }

  lemma MainStep(s: State, a: Action)
    requires Inv(s) && Enabled(s, a)
    ensures MainInv(Step(s, a))
  {
    hide Inv, MainInv, Enabled, Step;
    match a
    case NotifyAll => MainNotifyAll(s);
    case Lock(i) => MainWorker(s, a, i);
    case Check(i) => MainWorker(s, a, i);
    case Unlock(i) => MainWorker(s, a, i);
    case Finish(i) => MainWorker(s, a, i);
    case SpuriousWake(i) => MainWorker(s, a, i);
    case _ => MainUnmoved(s, a);
  }

  lemma StepInv(s: State, a: Action)
    requires Inv(s) && Enabled(s, a)
    ensures Inv(Step(s, a)) && |Step(s, a).workers| == |s.workers|
  {
    LockStep(s, a);
    WakeStep(s, a);
    JobStep(s, a);
    MainStep(s, a);
    SameWorkers(s, a);
    hide LockInv, WakeInv, JobInv, MainInv, Enabled, Step;
  }

  lemma SameWorkers(s: State, a: Action)
    requires Enabled(s, a)
    ensures |Step(s, a).workers| == |s.workers|
  {}

  // ----- runs -----

  predicate Possible(s: State, actions: seq<Action>)
    decreases |actions|
  {
    actions == [] || (Enabled(s, actions[0]) && Possible(Step(s, actions[0]), actions[1..]))
  }

  function After(s: State, actions: seq<Action>): State
    requires Possible(s, actions)
    decreases |actions|
  {
    if actions == [] then s else After(Step(s, actions[0]), actions[1..])
  }

  /** Every interleaving of every run keeps the invariant. */
  lemma {:induction false} RunInv(s: State, actions: seq<Action>)
    requires Inv(s) && Possible(s, actions)
    ensures Inv(After(s, actions)) && |After(s, actions).workers| == |s.workers|
    decreases |actions|
  {
    if actions != [] {
      StepInv(s, actions[0]);
      RunInv(Step(s, actions[0]), actions[1..]);
    }
  }

  // ----- what the invariant is for -----

  /** No lost wakeup, over every run: whenever a worker sleeps, no notification is under way and
      the queue is not empty, some other worker is awake and about to test the queue. */
  lemma NoLostWakeup(n: nat, actions: seq<Action>)
    requires n > 0 && Possible(Initial(n), actions)
    ensures var s := After(Initial(n), actions);
            (exists i | 0 <= i < |s.workers| :: s.workers[i].Waiting?)
            && !s.acceptor.AcceptorNotifying? && !NotifyAllPending(s) ==>
              |s.queue| <= Count(s.workers, AWAKE)
              && (s.queue != [] ==> exists i | 0 <= i < |s.workers| :: AWAKE(s.workers[i]))
  {
    InitialInv(n);
    RunInv(Initial(n), actions);
    var s := After(Initial(n), actions);
    CountAll(s.workers, ASLEEP);
    CountAll(s.workers, AWAKE);
  }

  /** Clean shutdown, over every run: connections are taken in the order in which they were
      pushed and before any sentinel; once the main thread waits for the workers none sleeps and
      the sentinels still queued and the workers that are stopping make up all the workers; and
      when it returns, every worker has exited and the queue is empty. */
  lemma CleanShutdown(n: nat, actions: seq<Action>)
    requires n > 0 && Possible(Initial(n), actions)
    ensures var s := After(Initial(n), actions);
            && |s.workers| == n && s.pushed == s.taken + s.queue
            && (forall i, j | 0 <= i < j < |s.pushed| && s.pushed[i] == SENTINEL :: s.pushed[j] == SENTINEL)
            && (s.main.JoinWorkers? || s.main.Returned? ==>
                  && (forall i | 0 <= i < n :: !s.workers[i].Waiting?)
                  && Sentinels(s.pushed) == n && Sentinels(s.taken) == Count(s.workers, STOPPING))
            && (s.main.Returned? ==>
                  (forall i | 0 <= i < n :: s.workers[i].Exited?) && s.queue == [] && s.taken == s.pushed)
  {
    InitialInv(n);
    RunInv(Initial(n), actions);
    var s := After(Initial(n), actions);
    CountAll(s.workers, ASLEEP);
    if s.main.JoinWorkers? || s.main.Returned? {
      SentinelsAtEnd(s.pushed, n);
    }
    if s.main.Returned? {
      CountAll(s.workers, STOPPING);
      AllTaken(s.taken, s.queue);
      assert s.taken + [] == s.taken;
    }
  }

  lemma {:induction false} SentinelsSum(a: seq<int>, b: seq<int>)
    ensures Sentinels(a + b) == Sentinels(a) + Sentinels(b)
    decreases |b|
  {
    if b == [] {
      assert a + b == a;
    } else {
      assert (a + b)[..|a + b| - 1] == a + b[..|b| - 1];
      SentinelsSum(a, b[..|b| - 1]);
    }
  }

  lemma LastIsSentinel(taken: seq<int>, queue: seq<int>)
    requires taken + queue != [] && (taken + queue)[|taken + queue| - 1] == SENTINEL
    ensures queue != [] ==> Sentinels(queue) > 0
  {
    if queue != [] {
      assert (taken + queue)[|taken + queue| - 1] == queue[|queue| - 1];
    }
  }

  /** If all the sentinels have been taken and they come last, nothing is left. */
  lemma AllTaken(taken: seq<int>, queue: seq<int>)
    requires Sentinels(taken) == Sentinels(taken + queue)
    requires taken + queue != [] && (taken + queue)[|taken + queue| - 1] == SENTINEL
    ensures queue == []
  {
    SentinelsSum(taken, queue);
    LastIsSentinel(taken, queue);
  }

  // ----- the join ends -----

  function Rank(pc: WorkerPc): nat {
    match pc
    case Exited => 0
    case Checking => 1
    case Locking => 2
    case Got(_) => 3
    case Unlocking(_) => 4
    case Waiting => 0
  }

  function Work(workers: seq<WorkerPc>): nat {
    if workers == [] then 0 else Rank(workers[0]) + Work(workers[1..])
  }

  lemma {:induction false} WorkUpdate(workers: seq<WorkerPc>, i: nat, pc: WorkerPc)
    requires i < |workers|
    ensures Work(workers[i := pc]) + Rank(workers[i]) == Work(workers) + Rank(pc)
  {
    if i == 0 {
      assert workers[0 := pc][1..] == workers[1..];
    } else {
      assert workers[i := pc][1..] == workers[1..][i - 1 := pc];
      WorkUpdate(workers[1..], i - 1, pc);
    }
  }

  /** How much is left to do while the main thread waits for the workers. */
  function Remaining(s: State): nat {
    4 * |s.queue| + Work(s.workers)
  }

  predicate CanStep(s: State, i: nat) {
    Enabled(s, Lock(i)) || Enabled(s, Check(i)) || Enabled(s, Unlock(i)) || Enabled(s, Finish(i))
  }

  lemma SomebodyCanStep(s: State, i: nat)
    requires Inv(s) && s.main.JoinWorkers? && i < |s.workers| && !s.workers[i].Exited?
    ensures exists h :: CanStep(s, h)
  {
    hide WakeInv, JobInv, Count;
    CountAll(s.workers, ASLEEP);
    if s.owner.Worker? {
      assert HoldsLock(s.workers[s.owner.i]) && CanStep(s, s.owner.i);
    } else {
      assert CanStep(s, i);
    }
  }

  /** While the main thread waits, every step of a worker is progress, and as long as one has not
      exited some worker can step: if each handle_connection returns, so does run_thread_pool. */
  lemma JoinEnds(s: State)
    requires Inv(s) && s.main.JoinWorkers?
    ensures forall a | Enabled(s, a) && !a.WorkersJoined? :: Remaining(Step(s, a)) < Remaining(s)
    ensures Enabled(s, WorkersJoined) || exists h :: CanStep(s, h)
  {
    forall a | Enabled(s, a) && !a.WorkersJoined? ensures Remaining(Step(s, a)) < Remaining(s) {
      JoinProgress(s, a);
    }
    hide Inv, CanStep;
    if !Enabled(s, WorkersJoined) {
      var i :| 0 <= i < |s.workers| && !s.workers[i].Exited?;
      SomebodyCanStep(s, i);
    }
  }

  lemma JoinProgress(s: State, a: Action)
    requires Inv(s) && s.main.JoinWorkers? && Enabled(s, a) && !a.WorkersJoined?
    ensures Remaining(Step(s, a)) < Remaining(s)
  {
    CountAll(s.workers, ASLEEP);
    match a
    case Lock(i) => WorkUpdate(s.workers, i, Checking);
    case Check(i) =>
      WorkUpdate(s.workers, i, Step(s, a).workers[i]);
      JobForEach(s, i);
    case Unlock(i) => WorkUpdate(s.workers, i, Step(s, a).workers[i]);
    case Finish(i) => WorkUpdate(s.workers, i, Step(s, a).workers[i]);
    case _ =>
  }
}
