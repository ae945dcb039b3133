/** One event-loop worker on values (server/select_mode.cpp:191-276): which descriptors it owns, what
    the events of one wait do to its connections, and the past of every connection that came. */
module WorkerSpec {
  import opened ConnectionSpec
  import opened Connection
  import opened EventLoopSpec
  import opened EventLoop

  type Interest = map<int, (bool, bool)>

  predicate Sends(conns: map<int, Conn>, fd: int) {
    fd in conns && conns[fd].file.OpenFile?
  }

  /** The descriptors of the files that a set of connections is sending. */
  function Bodies(conns: map<int, Conn>): set<int> {
    set fd | fd in conns && Sends(conns, fd) :: conns[fd].file.fd
  }

  /** All descriptors that a set of connections holds. */
  function Owned(conns: map<int, Conn>): set<int> {
    conns.Keys + Bodies(conns)
  }

  predicate ConnSound(conns: map<int, Conn>, open: set<int>, interest: Interest, fd: int)
    requires fd in conns
  {
    var c := conns[fd];
    && c.fd == fd && fd in open && ValidConn(c)
    && fd in interest && interest[fd] == Wanted(c.phase)
    && (c.phase.Reading? ==> c.file.NoFile?)
    && (c.file.OpenFile? ==> c.file.fd in open && c.file.fd !in conns)
  }

  ghost predicate DistinctBodies(conns: map<int, Conn>) {
    forall a, b | Sends(conns, a) && Sends(conns, b) && a != b :: conns[a].file.fd != conns[b].file.fd
  }

  /** No descriptor is held twice, everything held is open, and each connection is watched for
      exactly what its phase waits for. */
  ghost predicate Sound(conns: map<int, Conn>, open: set<int>, interest: Interest, pipes: set<int>) {
    && (forall fd | fd in conns :: ConnSound(conns, open, interest, fd))
    && DistinctBodies(conns)
    && pipes <= open && pipes !! Owned(conns)
    && interest.Keys == conns.Keys + pipes
  }

  // ----- what one change does to the ownership -----

  function BodyOf(c: Conn): set<int> {
    if c.file.OpenFile? then {c.file.fd} else {}
  }

  lemma RemoveBodies(conns: map<int, Conn>, fd: int)
    requires fd in conns && DistinctBodies(conns)
    ensures Bodies(conns - {fd}) == Bodies(conns) - BodyOf(conns[fd])
    ensures DistinctBodies(conns - {fd})
  {
    var rest := conns - {fd};
    forall g ensures Sends(rest, g) <==> Sends(conns, g) && g != fd {}
    forall b | b in Bodies(conns) - BodyOf(conns[fd]) ensures b in Bodies(rest) {
      var g :| g in conns && Sends(conns, g) && conns[g].file.fd == b;
      assert g != fd && Sends(rest, g) && rest[g].file.fd == b;
    }
    forall b | b in Bodies(rest) ensures b in Bodies(conns) - BodyOf(conns[fd]) {
      var g :| g in rest && Sends(rest, g) && rest[g].file.fd == b;
      assert Sends(conns, g) && conns[g].file.fd == b;
      assert Sends(conns, fd) ==> conns[fd].file.fd != b;
    }
  }

  lemma AddBody(conns: map<int, Conn>, fd: int, c: Conn)
    requires fd !in conns && DistinctBodies(conns) && BodyOf(c) !! Bodies(conns)
    ensures Bodies(conns[fd := c]) == Bodies(conns) + BodyOf(c)
    ensures DistinctBodies(conns[fd := c])
  {
    var more := conns[fd := c];
    forall g | g != fd ensures Sends(more, g) <==> Sends(conns, g) {}
    forall g | Sends(conns, g) ensures g in more && Sends(more, g) && more[g].file.fd in Bodies(conns) {}
    forall b | b in Bodies(more) ensures b in Bodies(conns) + BodyOf(c) {
      var g :| g in more && Sends(more, g) && more[g].file.fd == b;
    }
    forall b | b in Bodies(conns) ensures b in Bodies(more) {
      var g :| g in conns && Sends(conns, g) && conns[g].file.fd == b;
      assert Sends(more, g) && more[g].file.fd == b;
    }
    forall b | b in BodyOf(c) ensures b in Bodies(more) {
      assert Sends(more, fd) && more[fd].file.fd == b;
    }
  }

  lemma ReplaceBodies(conns: map<int, Conn>, fd: int, c: Conn)
    requires fd in conns && DistinctBodies(conns) && BodyOf(c) !! Bodies(conns) - BodyOf(conns[fd])
    ensures Bodies(conns[fd := c]) == Bodies(conns) - BodyOf(conns[fd]) + BodyOf(c)
    ensures DistinctBodies(conns[fd := c])
  {
    RemoveBodies(conns, fd);
    AddBody(conns - {fd}, fd, c);
    assert (conns - {fd})[fd := c] == conns[fd := c];
  }

  lemma BodiesOpen(conns: map<int, Conn>, open: set<int>, interest: Interest, pipes: set<int>)
    requires Sound(conns, open, interest, pipes)
    ensures Bodies(conns) <= open && Bodies(conns) !! conns.Keys && conns.Keys <= open
  {
    forall b | b in Bodies(conns) ensures b in open && b !in conns.Keys {
      var g :| g in conns && Sends(conns, g) && conns[g].file.fd == b;
      assert ConnSound(conns, open, interest, g);
    }
    forall g | g in conns ensures g in open {
      assert ConnSound(conns, open, interest, g);
    }
  }

  /** The open set after a connection's file changed from the old to the new one. */
  predicate FileSwapped(before: Conn, after: Conn, open: set<int>, open': set<int>) {
    || (after.file == before.file && open' == open)
    || (after.file.NoFile? && before.file.OpenFile? && open' == open - BodyOf(before))
    || (after.file.OpenFile? && before.file.NoFile? && after.file.fd !in open && open' == open + BodyOf(after))
  }

  lemma ReplaceSound(conns: map<int, Conn>, open: set<int>, interest: Interest, pipes: set<int>,
                     fd: int, c: Conn, open': set<int>)
    requires Sound(conns, open, interest, pipes) && fd in conns
    requires c.fd == fd && ValidConn(c) && (c.phase.Reading? ==> c.file.NoFile?)
    requires FileSwapped(conns[fd], c, open, open')
    ensures Sound(conns[fd := c], open', interest[fd := Wanted(c.phase)], pipes)
    ensures open' - Owned(conns[fd := c]) == open - Owned(conns)
  {
    hide ValidConn, Wanted;
    var conns', interest' := conns[fd := c], interest[fd := Wanted(c.phase)];
    BodiesOpen(conns, open, interest, pipes);
    assert ConnSound(conns, open, interest, fd);
    assert BodyOf(conns[fd]) <= Bodies(conns) by { assert Sends(conns, fd) <==> conns[fd].file.OpenFile?; }
    ReplaceBodies(conns, fd, c);
    forall g | g in conns' ensures ConnSound(conns', open', interest', g) {
      assert ConnSound(conns, open, interest, g);
      if g != fd {
        assert Sends(conns, fd) && Sends(conns, g) ==> conns[fd].file.fd != conns[g].file.fd;
      }
    }
  }

  lemma RemoveSound(conns: map<int, Conn>, open: set<int>, interest: Interest, pipes: set<int>, fd: int)
    requires Sound(conns, open, interest, pipes) && fd in conns
    ensures var open' := open - BodyOf(conns[fd]) - {fd};
            && Sound(conns - {fd}, open', interest - {fd}, pipes)
            && open' - Owned(conns - {fd}) == open - Owned(conns)
    ensures BodyOf(conns[fd]) <= open - {fd} && fd in open
  {
    hide ValidConn, Wanted;
    var open' := open - BodyOf(conns[fd]) - {fd};
    var rest := conns - {fd};
    BodiesOpen(conns, open, interest, pipes);
    assert ConnSound(conns, open, interest, fd);
    assert BodyOf(conns[fd]) <= Bodies(conns) by { assert Sends(conns, fd) <==> conns[fd].file.OpenFile?; }
    RemoveBodies(conns, fd);
    forall g | g in rest ensures ConnSound(rest, open', interest - {fd}, g) {
      assert ConnSound(conns, open, interest, g);
      assert Sends(conns, fd) && Sends(conns, g) ==> conns[fd].file.fd != conns[g].file.fd;
    }
  }

  lemma AcceptSound(conns: map<int, Conn>, open: set<int>, interest: Interest, pipes: set<int>, fd: int, now: int)
    requires Sound(conns, open, interest, pipes)
    requires fd in open && fd !in Owned(conns) && fd !in pipes
    ensures Sound(conns[fd := Accepted(fd, now)], open, interest[fd := Wanted(Reading)], pipes)
    ensures Owned(conns[fd := Accepted(fd, now)]) == Owned(conns) + {fd}
    ensures open - Owned(conns[fd := Accepted(fd, now)]) == (open - Owned(conns)) - {fd}
  {
    var conns' := conns[fd := Accepted(fd, now)];
    AddBody(conns, fd, Accepted(fd, now));
    forall g | g in conns' ensures ConnSound(conns', open, interest[fd := Wanted(Reading)], g) {
      if g != fd {
        assert ConnSound(conns, open, interest, g);
        assert Sends(conns, g) ==> conns[g].file.fd in Bodies(conns);
      }
    }
  }

  /** A foreign descriptor that is no pipe stands for no connection and is not registered. */
  lemma SoundFds(conns: map<int, Conn>, open: set<int>, interest: Interest, pipes: set<int>, fd: int)
    requires Sound(conns, open, interest, pipes)
    ensures fd !in Owned(conns) && fd !in pipes ==> fd !in conns && fd !in interest
  {}

  // ----- what the handlers do to a connection -----

  lemma ReadableShape(c: Conn, r: ReadResult, a: Answer)
    requires ValidConn(c) && c.phase.Reading? && c.file.NoFile? && ValidAnswer(a)
    ensures var (c', v) := OnReadable(c, r, a);
            && c'.fd == c.fd && ValidConn(c')
            && (c'.phase.Reading? ==> c'.file.NoFile?)
            && (c'.file.OpenFile? ==> c'.file == a.response.file)
  {}

  lemma WritableShape(c: Conn, script: seq<SysResult>)
    requires ValidConn(c) && c.phase.Writing?
    ensures var (c', v) := OnWritable(c, script);
            && c'.fd == c.fd && ValidConn(c')
            && (c'.file == c.file || c'.file.NoFile?)
            && (c'.phase.Reading? ==> c'.file.NoFile?)
  {
    hide Send;
    var pkg := Package(c.writeBuf, c.closeAfterWrite, c.file, c.fileOffset, c.fileSize);
    SendProgress(c, script, pkg);
    MirrorsValid(Send(c, script).conn, pkg);
  }

  // ----- the worker -----

  /** One readiness report, with the answers that its dispatch will get: of read and of the
      handler in process_readable, and of the kernel to what is sent. */
  datatype PollEvent = PollEvent(
    fd: int, readable: bool, writable: bool, result: ReadResult, answer: Answer, sends: seq<SysResult>)

  /** A worker on values: its connections, what each has on the wire, the descriptors, and the
      connections that a handler asked to remove. */
  datatype Loop = Loop(conns: map<int, Conn>, wires: map<int, string>, table: FdTable, dropped: seq<int>)

  predicate LoopConn(l: Loop, fd: int)
    requires fd in l.conns
  {
    fd in l.wires && ValidConn(l.conns[fd]) && (l.conns[fd].phase.Reading? ==> l.conns[fd].file.NoFile?)
  }

  ghost predicate LoopOk(l: Loop) {
    forall fd | fd in l.conns :: LoopConn(l, fd)
  }

  function Asked(l: Loop, fd: int, v: Verdict): seq<int> {
    if v.Keep? then l.dropped else l.dropped + [fd]
  }

  function DispatchRead(l: Loop, ev: PollEvent): Loop
    requires ev.fd in l.conns && LoopConn(l, ev.fd)
  {
    var (c, v) := OnReadable(l.conns[ev.fd], ev.result, Placed(ev.answer, l.table));
    var reply := if v.Refuse? then Written(ErrorReply(c.parser.error), ev.sends) else "";
    Loop(l.conns[ev.fd := c], l.wires[ev.fd := l.wires[ev.fd] + reply],
         if c.phase.Writing? && c.file.OpenFile? then AfterOpen(l.table) else l.table, Asked(l, ev.fd, v))
  }

  function DispatchWrite(l: Loop, ev: PollEvent): Loop
    requires ev.fd in l.conns && LoopConn(l, ev.fd)
  {
    var before := l.conns[ev.fd];
    var (c, v) := OnWritable(before, ev.sends);
    Loop(l.conns[ev.fd := c], l.wires[ev.fd := l.wires[ev.fd] + Send(before, ev.sends).bytes],
         Closing(l.table, if c.file.NoFile? then Descriptors(before.file) else []), Asked(l, ev.fd, v))
  }

  /** One event: an unknown descriptor and a readiness that the phase does not want are ignored. */
  ghost function Dispatch(l: Loop, ev: PollEvent): Loop
    requires LoopOk(l)
  {
    if ev.fd !in l.conns then l
    else if l.conns[ev.fd].phase.Reading? && ev.readable then DispatchRead(l, ev)
    else if l.conns[ev.fd].phase.Writing? && ev.writable then DispatchWrite(l, ev)
    else l
  }

  lemma DispatchOk(l: Loop, ev: PollEvent)
    requires LoopOk(l) && ValidAnswer(ev.answer)
    ensures LoopOk(Dispatch(l, ev)) && Dispatch(l, ev).conns.Keys == l.conns.Keys
  {
    hide OnReadable, OnWritable, Send, ErrorReply, Written, LowestFree;
    if ev.fd in l.conns {
      assert LoopConn(l, ev.fd);
      if l.conns[ev.fd].phase.Reading? {
        ReadableShape(l.conns[ev.fd], ev.result, Placed(ev.answer, l.table));
      } else {
        WritableShape(l.conns[ev.fd], ev.sends);
      }
      forall fd | fd in l.conns ensures LoopConn(Dispatch(l, ev), fd) {
        assert LoopConn(l, fd);
      }
    }
  }

  predicate ValidAnswers(events: seq<PollEvent>) {
    forall i | 0 <= i < |events| :: ValidAnswer(events[i].answer)
  }

  /** All events of one wait, in order. */
  ghost function DispatchAll(l: Loop, events: seq<PollEvent>): (r: Loop)
    requires LoopOk(l) && ValidAnswers(events)
    ensures LoopOk(r)
  {
    if events == [] then l
    else
      var before := DispatchAll(l, events[..|events| - 1]);
      DispatchOk(before, events[|events| - 1]);
      Dispatch(before, events[|events| - 1])
  }

  /** Still reading when its time is up. */
  predicate TimedOut(c: Conn, now: int, timeoutSeconds: int) {
    timeoutSeconds > 0 && c.phase.Reading? && now - c.acceptedAt >= timeoutSeconds
  }

  /** The connections that go after a pass: a handler dropped them, or their time is up. */
  function Gone(l: Loop, now: int, timeoutSeconds: int): set<int> {
    set fd | fd in l.conns && (fd in l.dropped || TimedOut(l.conns[fd], now, timeoutSeconds))
  }

  /** A connection that no handler drops goes at the end of the first pass in which it is still reading
      as long after its acceptance as the timeout says; while it writes, and without a timeout, never. */
  lemma GoneAt(l: Loop, fd: int, now: int, timeoutSeconds: int, late: nat)
    requires fd in l.conns && fd !in l.dropped
    ensures var c := l.conns[fd];
            && (c.phase.Reading? && timeoutSeconds > 0 ==>
                  && fd !in Gone(l, c.acceptedAt + timeoutSeconds - 1 - late, timeoutSeconds)
                  && fd in Gone(l, c.acceptedAt + timeoutSeconds + late, timeoutSeconds))
            && (c.phase.Writing? || timeoutSeconds <= 0 ==> fd !in Gone(l, now, timeoutSeconds))
  {}

  lemma GoneIs<T>(l: Loop, expired: seq<int>, now: int, timeoutSeconds: int, conns: map<int, T>)
    requires forall fd :: fd in expired <==> fd in l.conns && TimedOut(l.conns[fd], now, timeoutSeconds)
    requires conns.Keys == l.conns.Keys
    ensures conns - Elements(l.dropped + expired) == conns - Gone(l, now, timeoutSeconds)
  {
    hide TimedOut;
    forall fd | fd in conns ensures fd in Elements(l.dropped + expired) <==> fd in Gone(l, now, timeoutSeconds) {
      assert fd in l.conns;
      assert fd in l.dropped + expired <==> fd in l.dropped || fd in expired;
    }
  }

  /** The event as the connection sees it. */
  function EventFor(l: Loop, ev: PollEvent): Event
    requires ev.fd in l.conns
  {
    if l.conns[ev.fd].phase.Reading? then Readable(ev.result, Placed(ev.answer, l.table), ev.sends)
    else Writable(ev.sends)
  }

  /** What the worker does to a connection is a step of its history: the same bytes go out, the
      same state is left, and it is to be removed exactly if the history ends. */
  lemma DispatchIsStep(l: Loop, ev: PollEvent, s: History)
    requires LoopOk(l) && ev.fd in l.conns && ValidAnswer(ev.answer)
    requires if l.conns[ev.fd].phase.Reading? then ev.readable else ev.writable
    requires !s.gone && s.conn == l.conns[ev.fd] && s.wire == l.wires[ev.fd]
    ensures ValidConn(s.conn)
    ensures var t := Step(s, EventFor(l, ev));
            var l' := Dispatch(l, ev);
            && t.wire == l'.wires[ev.fd]
            && l'.dropped == (if t.gone then l.dropped + [ev.fd] else l.dropped)
            && (!t.gone ==> t.conn == l'.conns[ev.fd])
  {
    hide Send, OnWritable, ParserSpec.Feed, ParserSpec.Next, ProcessRequest, ErrorReply, Written, LowestFree, Placed;
    assert LoopConn(l, ev.fd);
    assert s.wire + "" == s.wire;
    if s.conn.phase.Reading? {
      ReadHandsOn(s.conn, ev.result, Placed(ev.answer, l.table));
    } else {
      WritableVerdict(s.conn, ev.sends);
    }
  }

  lemma ReadHandsOn(c: Conn, r: ReadResult, a: Answer)
    requires c.phase.Reading?
    ensures OnReadable(c, r, a).0.phase.Writing? ==> OnReadable(c, r, a).1.Keep?
  {}

  lemma WritableVerdict(c: Conn, script: seq<SysResult>)
    requires ValidConn(c)
    ensures !OnWritable(c, script).1.Refuse?
  {
    hide Send;
  }

  function Elements(fds: seq<int>): set<int> {
    set fd | fd in fds
  }

  lemma ElementsPush(fds: seq<int>, i: nat)
    requires i < |fds|
    ensures Elements(fds[..i + 1]) == Elements(fds[..i]) + {fds[i]}
  {
    assert fds[..i + 1] == fds[..i] + [fds[i]];
  }

  /** One order in which the unordered_map of connections can be walked. */
  ghost predicate Walks(order: seq<int>, keys: set<int>) {
    Elements(order) == keys && forall i, j | 0 <= i < j < |order| :: order[i] != order[j]
  }

  lemma WalkIs(order: seq<int>, keys: set<int>)
    requires Walks(order, keys)
    ensures forall fd :: fd in order <==> fd in keys
  {
    assert forall fd :: fd in order <==> fd in Elements(order);
  }

  lemma WalkStep(order: seq<int>, keys: set<int>, i: nat)
    requires Walks(order, keys) && i < |order|
    ensures order[i] in keys && order[i] !in Elements(order[..i])
    ensures Elements(order[..i + 1]) == Elements(order[..i]) + {order[i]}
  {
    ElementsPush(order, i);
  }

  lemma PlacedShape(a: Answer, t: FdTable)
    requires ValidAnswer(a)
    ensures var p := Placed(a, t);
            ValidAnswer(p) && (p.response.file.OpenFile? ==> p.response.file.fd == LowestFree(t.open, 0))
  {}

  // ----- the past of every connection -----

  predicate ValidEvents(events: seq<Event>) {
    forall i | 0 <= i < |events| :: ValidEvent(events[i])
  }

  /** A connection that came on a descriptor at some time, what has happened to it since, and what
      it has on the wire. */
  datatype Past = Past(fd: int, since: int, events: seq<Event>, wire: string)

  ghost function Lived(p: Past): History
    requires ValidEvents(p.events)
  {
    Run(Opening(p.fd, p.since), p.events)
  }

  /** All connections in the order in which they came, and which of them the descriptors in use
      stand for. */
  datatype Record = Record(pasts: seq<Past>, current: map<int, nat>)

  predicate IsCurrent(r: Record, i: nat)
    requires i < |r.pasts|
  {
    r.pasts[i].fd in r.current && r.current[r.pasts[i].fd] == i
  }

  predicate Named(r: Record, fd: int)
    requires fd in r.current
  {
    r.current[fd] < |r.pasts| && r.pasts[r.current[fd]].fd == fd
  }

  /** What the i-th connection has on the wire is what its events put there; it is gone, or still
      there in the state that they leave. */
  ghost predicate PastHolds(r: Record, conns: map<int, Conn>, wires: map<int, string>, i: nat)
    requires i < |r.pasts|
  {
    var p := r.pasts[i];
    && ValidEvents(p.events) && Lived(p).wire == p.wire
    && (IsCurrent(r, i) ==> p.fd in conns && p.fd in wires && conns[p.fd] == Lived(p).conn && wires[p.fd] == p.wire)
    && (IsCurrent(r, i) <==> !Lived(p).gone)
  }

  ghost predicate Recorded(r: Record, conns: map<int, Conn>, wires: map<int, string>) {
    && r.current.Keys == conns.Keys
    && (forall fd | fd in r.current :: Named(r, fd))
    && forall i | 0 <= i < |r.pasts| :: PastHolds(r, conns, wires, i)
  }

  /** epoll_wait reports a descriptor once. */
  predicate OnceEach(events: seq<PollEvent>) {
    forall i, j | 0 <= i < j < |events| :: events[i].fd != events[j].fd
  }

  predicate Served(l: Loop, ev: PollEvent) {
    ev.fd in l.conns && if l.conns[ev.fd].phase.Reading? then ev.readable else ev.writable
  }

  /** What a connection sees of the events of one wait. */
  ghost function Seen(l: Loop, fd: int, events: seq<PollEvent>): (r: seq<Event>)
    requires LoopOk(l) && ValidAnswers(events)
    ensures ValidEvents(r)
    decreases |events|
  {
    if events == [] then []
    else
      var n := |events| - 1;
      var before := DispatchAll(l, events[..n]);
      var ev := events[n];
      PlacedShape(ev.answer, before.table);
      Seen(l, fd, events[..n]) + if ev.fd == fd && Served(before, ev) then [EventFor(before, ev)] else []
  }

  lemma {:induction false} RunAppend(s: History, a: seq<Event>, b: seq<Event>)
    requires Inv(s) && ValidEvents(a) && ValidEvents(b)
    ensures Inv(Run(s, a)) && Run(s, a + b) == Run(Run(s, a), b)
    decreases |a|
  {
    hide Inv, Step;
    RunInv(s, a);
    if a == [] {
      assert a + b == b;
    } else {
      StepInv(s, a[0]);
      assert (a + b)[1..] == a[1..] + b;
      RunAppend(Step(s, a[0]), a[1..], b);
    }
  }

  lemma RunOne(s: History, e: Event)
    requires Inv(s) && ValidEvent(e)
    ensures ValidConn(s.conn) && Inv(Step(s, e)) && Run(s, [e]) == Step(s, e)
  {
    hide Inv, Step;
    StepInv(s, e);
    assert [e][1..] == [];
    assert Run(Step(s, e), []) == Step(s, e);
  }

  /** A dispatch to another connection. */
  lemma DispatchElsewhere(l: Loop, ev: PollEvent, fd: int)
    requires LoopOk(l) && fd in l.conns && (ev.fd != fd || !Served(l, ev))
    ensures var l' := Dispatch(l, ev);
            && fd in l'.conns && l'.conns[fd] == l.conns[fd]
            && fd in l.wires && fd in l'.wires && l'.wires[fd] == l.wires[fd]
            && (fd in l'.dropped <==> fd in l.dropped)
  {
    assert LoopConn(l, fd);
    hide OnReadable, OnWritable, Send, Closing, Written, ParserSpec.Feed, ErrorReply, AfterOpen, Placed;
  }

  /** Where a connection is after the events of one wait. */
  ghost predicate At(l: Loop, fd: int, t: History) {
    && fd in l.conns && fd in l.wires && t.wire == l.wires[fd]
    && (t.gone <==> fd in l.dropped) && (!t.gone ==> t.conn == l.conns[fd])
  }

  lemma DispatchAt(l: Loop, ev: PollEvent, fd: int, t: History)
    requires LoopOk(l) && ValidAnswer(ev.answer) && Inv(t) && At(l, fd, t)
    requires ev.fd == fd && Served(l, ev) ==> !t.gone
    ensures var seen := if ev.fd == fd && Served(l, ev) then [EventFor(l, ev)] else [];
            && ValidEvents(seen)
            && At(Dispatch(l, ev), fd, Run(t, seen))
  {
    PlacedShape(ev.answer, l.table);
    hide Dispatch, Step, Inv, Placed;
    if ev.fd == fd && Served(l, ev) {
      DispatchIsStep(l, ev, t);
      DispatchOk(l, ev);
      RunOne(t, EventFor(l, ev));
      WiresKept(l, ev, fd);
    } else {
      DispatchElsewhere(l, ev, fd);
      assert Run(t, []) == t;
    }
  }

  lemma WiresKept(l: Loop, ev: PollEvent, fd: int)
    requires LoopOk(l) && fd in l.wires
    ensures fd in Dispatch(l, ev).wires
  {}

  /** The events of one wait, for one connection: a run of its history. */
  lemma {:induction false} SeenIsRun(l: Loop, fd: int, events: seq<PollEvent>, s: History)
    requires LoopOk(l) && ValidAnswers(events) && OnceEach(events)
    requires Inv(s) && !s.gone && At(l, fd, s)
    ensures At(DispatchAll(l, events), fd, Run(s, Seen(l, fd, events)))
    ensures (forall i | 0 <= i < |events| :: events[i].fd != fd) ==> Seen(l, fd, events) == []
    decreases |events|
  {
    hide Inv, At, LoopOk, Dispatch;
    if events == [] {
      assert Run(s, []) == s;
    } else {
      var n := |events| - 1;
      var seen, ev := Seen(l, fd, events[..n]), events[n];
      SeenIsRun(l, fd, events[..n], s);
      var before := DispatchAll(l, events[..n]);
      RunInv(s, seen);
      if ev.fd == fd {
        assert forall i | 0 <= i < n :: events[i].fd != fd;
        assert Run(s, []) == s;
      }
      DispatchAt(before, ev, fd, Run(s, seen));
      PlacedShape(ev.answer, before.table);
      RunAppend(s, seen, if ev.fd == fd && Served(before, ev) then [EventFor(before, ev)] else []);
    }
  }

  function WireIn(l: Loop, fd: int): string {
    if fd in l.wires then l.wires[fd] else ""
  }

  /** A connection after one pass of the loop. */
  ghost function Grown(p: Past, l: Loop, events: seq<PollEvent>, kept: set<int>): Past
    requires LoopOk(l) && ValidAnswers(events)
  {
    Past(p.fd, p.since, p.events + Seen(l, p.fd, events) + (if p.fd in kept then [] else [Removal]), WireIn(DispatchAll(l, events), p.fd))
  }

  /** The record after a pass that keeps some of the connections and removes the others. */
  ghost function RecordPass(r: Record, l: Loop, events: seq<PollEvent>, kept: set<int>): Record
    requires LoopOk(l) && ValidAnswers(events)
  {
    Record(seq(|r.pasts|, i requires 0 <= i < |r.pasts| => if IsCurrent(r, i) then Grown(r.pasts[i], l, events, kept) else r.pasts[i]),
           map fd | fd in r.current && fd in kept :: r.current[fd])
  }

  /** The record when a connection comes. */
  function RecordAccept(r: Record, fd: int, now: int): Record {
    Record(r.pasts + [Past(fd, now, [], "")], r.current[fd := |r.pasts|])
  }

  lemma AcceptRecorded(r: Record, conns: map<int, Conn>, wires: map<int, string>, fd: int, now: int)
    requires Recorded(r, conns, wires) && fd !in conns
    ensures Recorded(RecordAccept(r, fd, now), conns[fd := Accepted(fd, now)], wires[fd := ""])
  {
    hide Inv, Accepted;
    var r', conns', wires' := RecordAccept(r, fd, now), conns[fd := Accepted(fd, now)], wires[fd := ""];
    forall g | g in r'.current ensures Named(r', g) {
      if g != fd { assert Named(r, g); }
    }
    forall i | 0 <= i < |r'.pasts| ensures PastHolds(r', conns', wires', i) {
      if i < |r.pasts| {
        assert PastHolds(r, conns, wires, i);
      } else {
        assert Lived(r'.pasts[i]) == Opening(fd, now);
      }
    }
  }

  /** One connection over one pass. */
  lemma GrownHolds(p: Past, l: Loop, events: seq<PollEvent>, kept: set<int>)
    requires LoopOk(l) && ValidAnswers(events) && OnceEach(events) && ValidEvents(p.events)
    requires At(l, p.fd, Lived(p)) && !Lived(p).gone
    requires p.fd in kept ==> p.fd !in DispatchAll(l, events).dropped
    ensures var q := Grown(p, l, events, kept);
            var l' := DispatchAll(l, events);
            && ValidEvents(q.events) && Lived(q).wire == q.wire && p.fd in l'.conns && p.fd in l'.wires
            && (if p.fd in kept then !Lived(q).gone && Lived(q).conn == l'.conns[p.fd] else Lived(q).gone)
  {
    hide Inv, DispatchAll, LoopOk, Run, Step;
    var seen := Seen(l, p.fd, events);
    var start := Opening(p.fd, p.since);
    RunInv(start, p.events);
    SeenIsRun(l, p.fd, events, Lived(p));
    RunAppend(start, p.events, seen);
    var t := Run(Lived(p), seen);
    if p.fd in kept {
      assert p.events + seen + [] == p.events + seen;
    } else {
      RunAppend(start, p.events + seen, [Removal]);
      RunOne(t, Removal);
      RemovalEnds(t);
    }
  }

  lemma RemovalEnds(t: History)
    requires ValidConn(t.conn)
    ensures Step(t, Removal).gone && Step(t, Removal).wire == t.wire
  {}

  /** A pass keeps the record true: in the connections that are kept, and on the wires, is what the
      events of each make of it, and all others are gone. */
  lemma PassRecorded(r: Record, l: Loop, events: seq<PollEvent>, conns': map<int, Conn>, wires': map<int, string>)
    requires LoopOk(l) && ValidAnswers(events) && OnceEach(events) && l.dropped == []
    requires Recorded(r, l.conns, l.wires) && conns'.Keys <= l.conns.Keys
    requires forall fd | fd in conns' ::
               var l' := DispatchAll(l, events);
               && fd !in l'.dropped && fd in l'.conns && fd in l'.wires && fd in wires'
               && conns'[fd] == l'.conns[fd] && wires'[fd] == l'.wires[fd]
    ensures Recorded(RecordPass(r, l, events, conns'.Keys), conns', wires')
  {
    hide LoopOk, DispatchAll, Lived, Seen, OnceEach, ValidAnswers;
    var r' := RecordPass(r, l, events, conns'.Keys);
    forall fd | fd in r'.current ensures Named(r', fd) {
      assert Named(r, fd);
    }
    forall i | 0 <= i < |r'.pasts| ensures PastHolds(r', conns', wires', i) {
      assert PastHolds(r, l.conns, l.wires, i);
      CurrentAfter(r, l, events, conns'.Keys, i);
      if IsCurrent(r, i) {
        GrownHolds(r.pasts[i], l, events, conns'.Keys);
      }
    }
  }

  lemma CurrentAfter(r: Record, l: Loop, events: seq<PollEvent>, kept: set<int>, i: nat)
    requires LoopOk(l) && ValidAnswers(events) && i < |r.pasts|
    ensures var r' := RecordPass(r, l, events, kept);
            && |r'.pasts| == |r.pasts| && r'.pasts[i].fd == r.pasts[i].fd
            && (IsCurrent(r', i) <==> IsCurrent(r, i) && r.pasts[i].fd in kept)
  {
    hide LoopOk, DispatchAll, Seen;
  }

  /** What the record says of one connection of a worker, whatever the others did: it is a run of
      EventLoopSpec, so complete answers to its requests are on its wire, in order, then part of the
      last one or of the error reply, and its files and then its socket are closed once. */
  lemma PastWire(r: Record, conns: map<int, Conn>, wires: map<int, string>, i: nat)
    requires Recorded(r, conns, wires) && i < |r.pasts|
    ensures var p := r.pasts[i];
            && ValidEvents(p.events)
            && var t := Lived(p);
               && AllValid(t.packages) && Answered(t)
               && (t.gone <==> !IsCurrent(r, i))
               && (t.gone ==> p.wire <= Rendered(t.packages) + EndingReply(EndingNow(t)) && t.closed == Opened(t.packages) + [p.fd])
               && (!t.gone ==> p.fd in conns && conns[p.fd] == t.conn && p.wire <= Rendered(t.packages))
               && (!t.gone && t.conn.phase.Reading? ==> p.wire == Rendered(t.packages))
  {
    assert PastHolds(r, conns, wires, i);
    hide Run, Rendered, Opened, Answered, EndingNow, EndingReply, AllValid, Recorded;
    WireOverRuns(r.pasts[i].fd, r.pasts[i].since, r.pasts[i].events);
  }
}
