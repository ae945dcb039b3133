/** server/select_mode.cpp:32-82, 217-228 and 279-314: the queue of accepted connections and the
    pipe of wake-up bytes, shared by one acceptor and the event-loop workers. */
module WakePipe {

  const DRAIN := 64  // sizeof(buf)

  datatype AcceptorPc = Waiting | Pushed  // between push and write

  /** What a worker has read from the pipe and not yet spent on try_accept_from_queue; at 0 it is
      at a point where it may read again or leave the loop. */
  datatype WorkerPc = Draining(tokens: nat) | Stopped

  /** `accepted` are the descriptors pushed so far and `taken` those popped, in order; `lost`
      counts writes to the pipe that failed, which the acceptor ignores; `starved` says that a
      token was spent on an empty queue. */
  datatype State = State(
    queue: seq<int>, pipe: nat, acceptor: AcceptorPc, workers: seq<WorkerPc>,
    accepted: seq<int>, taken: seq<int>, lost: nat, starved: bool)

  datatype Action =
    | Push(fd: int)
    | WriteByte(ok: bool)
    | ReadBytes(i: nat, n: nat)
    | TryAccept(i: nat)
    | Stop(i: nat)

  function Initial(n: nat): State {
    State([], 0, Waiting, seq(n, _ => Draining(0)), [], [], 0, false)
  }

  predicate Enabled(s: State, a: Action) {
    match a
    case Push(fd) => s.acceptor.Waiting? && fd >= 0
    case WriteByte(ok) => s.acceptor.Pushed?
    case ReadBytes(i, n) => i < |s.workers| && s.workers[i] == Draining(0) && 0 < n <= s.pipe && n <= DRAIN
    case TryAccept(i) => i < |s.workers| && s.workers[i].Draining? && s.workers[i].tokens > 0
    case Stop(i) => i < |s.workers| && s.workers[i] == Draining(0)
  }

  function Step(s: State, a: Action): State
    requires Enabled(s, a)
  {
    match a
    case Push(fd) => s.(queue := s.queue + [fd], accepted := s.accepted + [fd], acceptor := Pushed)
    case WriteByte(ok) =>
      s.(acceptor := Waiting, pipe := if ok then s.pipe + 1 else s.pipe, lost := if ok then s.lost else s.lost + 1)
    case ReadBytes(i, n) => s.(pipe := s.pipe - n, workers := s.workers[i := Draining(n)])
    case TryAccept(i) =>
      var spent := s.(workers := s.workers[i := Draining(s.workers[i].tokens - 1)]);
      if s.queue == [] then spent.(starved := true)
      else spent.(queue := s.queue[1..], taken := s.taken + [s.queue[0]])
    case Stop(i) => s.(workers := s.workers[i := Stopped])
  }

  function TokensOf(w: WorkerPc): nat {
    if w.Draining? then w.tokens else 0
  }

  /** The tokens that workers hold. */
  function Held(workers: seq<WorkerPc>): nat {
    if workers == [] then 0 else TokensOf(workers[0]) + Held(workers[1..])
  }

  lemma {:induction false} HeldUpdate(workers: seq<WorkerPc>, i: nat, w: WorkerPc)
    requires i < |workers|
    ensures Held(workers[i := w]) + TokensOf(workers[i]) == Held(workers) + TokensOf(w)
  {
    if i == 0 {
      assert workers[0 := w][1..] == workers[1..];
    } else {
      assert workers[i := w][1..] == workers[1..][i - 1 := w];
      HeldUpdate(workers[1..], i - 1, w);
    }
  }

  lemma {:induction false} HeldAtLeast(workers: seq<WorkerPc>, i: nat)
    requires i < |workers|
    ensures Held(workers) >= TokensOf(workers[i])
  {
    if i > 0 { HeldAtLeast(workers[1..], i - 1); }
  }

  lemma {:induction false} HeldNothing(n: nat)
    ensures Held(seq(n, _ => Draining(0))) == 0
  {
    if n > 0 {
      assert seq(n, _ => Draining(0))[1..] == seq(n - 1, _ => Draining(0));
      HeldNothing(n - 1);
    }
  }

  /** Every queued connection has its byte in the pipe, its token with a worker, its byte about
      to be written, or had its byte lost; connections are taken in the order of acceptance. */
  predicate Inv(s: State) {
    && |s.queue| == s.pipe + Held(s.workers) + (if s.acceptor.Pushed? then 1 else 0) + s.lost
    && s.accepted == s.taken + s.queue
    && !s.starved
  }

  lemma PushInv(s: State, fd: int)
    requires Inv(s) && Enabled(s, Push(fd))
    ensures Inv(Step(s, Push(fd)))
  {
    assert s.accepted + [fd] == s.taken + (s.queue + [fd]);
  }

  lemma ReadInv(s: State, i: nat, n: nat)
    requires Inv(s) && Enabled(s, ReadBytes(i, n))
    ensures Inv(Step(s, ReadBytes(i, n)))
  {
    HeldUpdate(s.workers, i, Draining(n));
    hide Held;
  }

  lemma TryAcceptInv(s: State, i: nat)
    requires Inv(s) && Enabled(s, TryAccept(i))
    ensures Inv(Step(s, TryAccept(i)))
  {
    HeldAtLeast(s.workers, i);
    HeldUpdate(s.workers, i, Draining(s.workers[i].tokens - 1));
    hide Held;
    assert s.queue == [s.queue[0]] + s.queue[1..];
  }

  lemma StopInv(s: State, i: nat)
    requires Inv(s) && Enabled(s, Stop(i))
    ensures Inv(Step(s, Stop(i)))
  {
    HeldUpdate(s.workers, i, Stopped);
    hide Held;
  }

  lemma StepInv(s: State, a: Action)
    requires Inv(s) && Enabled(s, a)
    ensures Inv(Step(s, a))
  {
    match a
    case Push(fd) => PushInv(s, fd);
    case WriteByte(_) =>
    case ReadBytes(i, n) => ReadInv(s, i, n);
    case TryAccept(i) => TryAcceptInv(s, i);
    case Stop(i) => StopInv(s, i);
  }

  predicate Possible(s: State, actions: seq<Action>)
    decreases |actions|
  {
    actions == [] || (Enabled(s, actions[0]) && Possible(Step(s, actions[0]), actions[1..]))
  }

  function After(s: State, actions: seq<Action>): State
    requires Possible(s, actions)
    decreases |actions|
  {
    if actions == [] then s else After(Step(s, actions[0]), actions[1..])
  }

  lemma {:induction false} RunInv(s: State, actions: seq<Action>)
    requires Inv(s) && Possible(s, actions)
    ensures Inv(After(s, actions))
    decreases |actions|
  {
    if actions != [] {
      StepInv(s, actions[0]);
      RunInv(Step(s, actions[0]), actions[1..]);
    }
  }

  /** Token conservation, in every interleaving: no token is ever spent on an empty queue, and
      each connection is taken once, in the order of acceptance. Once the acceptor waits, the
      pipe is empty and the workers have spent their tokens, the connections still queued are
      exactly as many as the bytes that could not be written. */
  lemma TokenConservation(n: nat, actions: seq<Action>)
    requires Possible(Initial(n), actions)
    ensures var s := After(Initial(n), actions);
            && !s.starved && s.accepted == s.taken + s.queue
            && |s.queue| == s.pipe + Held(s.workers) + (if s.acceptor.Pushed? then 1 else 0) + s.lost
            && (s.pipe == 0 && Held(s.workers) == 0 && s.acceptor.Waiting? ==> (s.queue == [] <==> s.lost == 0))
  {
    HeldNothing(n);
    RunInv(Initial(n), actions);
  }
}
