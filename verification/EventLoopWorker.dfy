/** server/select_mode.cpp:55-82 and 191-276: one event-loop worker as an object, with its
    connections, its poller and the descriptors it owns. */
module EventLoopWorker {
  import opened HttpResponse
  import opened Connection
  import opened EventLoopSpec
  import opened EventLoop
  import opened WorkerSpec

  class Worker {
    const kernel: Kernel
    const poller: Poller
    const pipes: set<int>
    var conns: map<int, ConnState>
    ghost var record: Record

    ghost function Footprint(): set<object>
      reads this`conns
    {
      (set fd | fd in conns :: conns[fd] as object) + (set fd | fd in conns :: conns[fd].parser as object)
      + (set fd | fd in conns :: conns[fd].sock as object)
    }

    /** No two entries share an object. */
    ghost predicate Separate()
      reads this`conns
    {
      forall a, b | a in conns && b in conns && a != b ::
        conns[a] != conns[b] && conns[a].parser != conns[b].parser && conns[a].sock != conns[b].sock
    }

    ghost function Views(): (views: map<int, Conn>)
      reads this`conns, Footprint()
      ensures views.Keys == conns.Keys
    {
      map fd | fd in conns :: conns[fd].View()
    }

    ghost predicate Valid()
      reads this`conns, Footprint(), kernel, poller
    {
      && Separate() && kernel.table.clean
      && Sound(Views(), kernel.table.open, poller.interest, pipes)
    }

    /** The open descriptors that belong to somebody else. */
    ghost function Foreign(): set<int>
      reads this`conns, Footprint(), kernel
    {
      kernel.table.open - Owned(Views())
    }

    /** The record is true of the connections. */
    ghost predicate Remembers()
      reads this`conns, this`record, Footprint()
    {
      Recorded(record, Views(), Wires())
    }

    constructor (kernel: Kernel, poller: Poller, pipes: set<int>)
      requires kernel.table.clean && pipes <= kernel.table.open
      requires poller.interest.Keys == pipes
      ensures Valid() && conns == map[] && this.kernel == kernel && this.poller == poller && this.pipes == pipes
      ensures Remembers() && record == Record([], map[])
    {
      this.kernel, this.poller, this.pipes, conns := kernel, poller, pipes, map[];
      record := Record([], map[]);
    }

    lemma ValidIs()
      ensures Valid() <==> Separate() && kernel.table.clean && Sound(Views(), kernel.table.open, poller.interest, pipes)
      ensures Foreign() == kernel.table.open - Owned(Views())
    {
      hide Separate, Sound, Owned, Views;
    }

    /** One new connection, with objects that are nobody else's: the rest is as before. */
    twostate lemma Registered(fd: int)
      requires old(Separate()) && fd !in old(conns) && fd in conns && conns == old(conns)[fd := conns[fd]]
      requires forall g | g in old(conns) ::
                 && unchanged(old(conns[g])) && unchanged(old(conns[g]).parser) && unchanged(old(conns[g]).sock)
                 && conns[g] != conns[fd] && conns[g].parser != conns[fd].parser && conns[g].sock != conns[fd].sock
      ensures Views() == old(Views())[fd := conns[fd].View()] && Wires() == old(Wires())[fd := conns[fd].sock.sent]
      ensures Valid() <==> kernel.table.clean && Sound(Views(), kernel.table.open, poller.interest, pipes)
      ensures Foreign() == kernel.table.open - Owned(Views())
    {
      OnlyAdded(fd);
      OnlyAddedWire(fd);
      StaySeparate(fd);
      ValidIs();
    }

    /** A new connection's state, watched for reading. */
    method Watch(fd: int, sock: Socket, now: int) returns (state: ConnState)
      requires fd !in poller.interest
      modifies poller
      ensures fresh(state) && fresh(state.parser) && state.sock == sock && state.View() == Accepted(fd, now)
      ensures poller.interest == old(poller.interest)[fd := Wanted(Reading)]
    {
      state := new ConnState(fd, sock, now);
      poller.Add(fd, true, false);
    }

    /** It enters conns. */
    method Register(fd: int, sock: Socket, now: int)
      requires Valid() && fd in Foreign() && fd !in pipes
      requires forall g | g in conns :: conns[g].sock != sock
      modifies this`conns, poller
      ensures Valid() && Foreign() == old(Foreign()) - {fd}
      ensures fd !in old(conns) && fd in conns && conns[fd].sock == sock
      ensures Views() == old(Views())[fd := Accepted(fd, now)] && Wires() == old(Wires())[fd := sock.sent]
    {
      ghost var views := Views();
      ValidIs();
      SoundFds(views, kernel.table.open, poller.interest, pipes, fd);
      hide *;
      AcceptSound(views, kernel.table.open, poller.interest, pipes, fd, now);
      var state := Watch(fd, sock, now);
      conns := conns[fd := state];
      Registered(fd);
    }

    /** try_accept_from_queue, once a descriptor has been taken from the queue; nothing has been
        sent on it yet. The record takes the connection in. */
    method AcceptClient(fd: int, sock: Socket, now: int)
      requires Valid() && fd in Foreign() && fd !in pipes
      requires sock.sent == "" && forall g | g in conns :: conns[g].sock != sock
      modifies this`conns, this`record, poller
      ensures Valid() && Foreign() == old(Foreign()) - {fd}
      ensures fd in conns && conns[fd].sock == sock
      ensures Views() == old(Views())[fd := Accepted(fd, now)] && Wires() == old(Wires())[fd := ""]
      ensures record == RecordAccept(old(record), fd, now)
      ensures old(Remembers()) ==> Remembers()
    {
      ghost var before, views, wires := record, Views(), Wires();
      hide Accepted, Views, Wires, Valid, Foreign, RecordAccept, Recorded;
      Register(fd, sock, now);
      Note(RecordAccept(record, fd, now));
      if Recorded(before, views, wires) { AcceptRecorded(before, views, wires, fd, now); }
    }

    /** The connection fd is new: the rest of the worker's view is as before. */
    twostate lemma OnlyAdded(fd: int)
      requires fd !in old(conns) && fd in conns && conns == old(conns)[fd := conns[fd]]
      requires forall g | g in old(conns) :: unchanged(old(conns[g])) && unchanged(old(conns[g]).parser)
      ensures Views() == old(Views())[fd := conns[fd].View()]
    {
      forall g | g in old(conns) ensures conns[g].View() == old(conns[g].View()) {}
      hide ConnState.View;
    }

    twostate lemma OnlyAddedWire(fd: int)
      requires fd !in old(conns) && fd in conns && conns == old(conns)[fd := conns[fd]]
      requires forall g | g in old(conns) :: unchanged(old(conns[g]).sock)
      ensures Wires() == old(Wires())[fd := conns[fd].sock.sent]
    {
      forall g | g in old(conns) ensures conns[g].sock.sent == old(conns[g].sock.sent) {}
    }

    /** The new objects are nobody else's. */
    twostate lemma StaySeparate(fd: int)
      requires old(Separate()) && fd !in old(conns) && fd in conns && conns == old(conns)[fd := conns[fd]]
      requires forall g | g in old(conns) ::
                 conns[g] != conns[fd] && conns[g].parser != conns[fd].parser && conns[g].sock != conns[fd].sock
      ensures Separate()
    {}

    /** Only the connection fd has changed: the rest of the worker's view is as before. */
    twostate lemma OnlyChanged(fd: int)
      requires old(Separate()) && fd in old(conns) && conns == old(conns)
      requires forall g | g in conns && g != fd ::
                 unchanged(conns[g]) && unchanged(conns[g].parser)
      ensures Views() == old(Views())[fd := conns[fd].View()]
    {
      forall g | g in conns && g != fd ensures conns[g].View() == old(conns[g].View()) {}
    }

    ghost function Wires(): (wires: map<int, string>)
      reads this`conns, Footprint()
      ensures wires.Keys == conns.Keys
    {
      map fd | fd in conns :: conns[fd].sock.sent
    }

    /** The worker as a value, with the removals asked for so far. */
    ghost function AsLoop(dropped: seq<int>): Loop
      reads this`conns, Footprint(), kernel
    {
      Loop(Views(), Wires(), kernel.table, dropped)
    }

    lemma ValidLoop(dropped: seq<int>)
      requires Valid()
      ensures LoopOk(AsLoop(dropped))
    {
      var views := Views();
      forall fd | fd in views ensures LoopConn(AsLoop(dropped), fd) {
        assert ConnSound(views, kernel.table.open, poller.interest, fd);
      }
    }

    /** Only the connection fd has sent anything. */
    twostate lemma OnlySent(fd: int)
      requires old(Separate()) && fd in old(conns) && conns == old(conns)
      requires forall g | g in conns && g != fd :: unchanged(conns[g].sock)
      ensures Wires() == old(Wires())[fd := conns[fd].sock.sent]
    {
      forall g | g in conns && g != fd ensures conns[g].sock.sent == old(conns[g].sock.sent) {}
    }

    method DispatchReadable(ev: PollEvent) returns (drop: bool)
      requires Valid() && ev.fd in conns && conns[ev.fd].phase.Reading? && ValidAnswer(ev.answer)
      modifies kernel, poller, conns[ev.fd], conns[ev.fd].parser, conns[ev.fd].sock
      ensures Valid() && Foreign() == old(Foreign())
      ensures var (c, v) := OnReadable(old(conns[ev.fd].View()), ev.result, Placed(ev.answer, old(kernel.table)));
              && Views() == old(Views())[ev.fd := c] && drop == !v.Keep?
              && Wires() == old(Wires())[ev.fd := old(Wires())[ev.fd] +
                                         if v.Refuse? then Written(ErrorReply(c.parser.error), ev.sends) else ""]
              && kernel.table == if c.phase.Writing? && c.file.OpenFile? then AfterOpen(old(kernel.table)) else old(kernel.table)
    {
      hide LowestFree, Sound, OnReadable, Owned, ErrorReply, Written, Placed;
      ghost var views := Views();
      var state := conns[ev.fd];
      KeptSound(views, kernel.table.open, poller.interest, pipes, ev.fd);
      PlacedShape(ev.answer, kernel.table);
      ReadableShape(views[ev.fd], ev.result, Placed(ev.answer, kernel.table));
      state.sock.script := ev.sends;
      drop := state.ProcessReadable(ev.result, ev.answer, kernel, poller);
      OnlyChanged(ev.fd);
      OnlySent(ev.fd);
      ReplaceSound(views, old(kernel.table.open), old(poller.interest), pipes, ev.fd, state.View(), kernel.table.open);
    }

    method DispatchWritable(ev: PollEvent) returns (drop: bool)
      requires Valid() && ev.fd in conns && conns[ev.fd].phase.Writing?
      modifies kernel, poller, conns[ev.fd], conns[ev.fd].parser, conns[ev.fd].sock
      ensures Valid() && Foreign() == old(Foreign())
      ensures ValidConn(old(conns[ev.fd].View()))
      ensures var before := old(conns[ev.fd].View());
              var (c, v) := OnWritable(before, ev.sends);
              && Views() == old(Views())[ev.fd := c] && drop == v.Drop?
              && Wires() == old(Wires())[ev.fd := old(Wires())[ev.fd] + Send(before, ev.sends).bytes]
              && kernel.table == Closing(old(kernel.table), if c.file.NoFile? then Descriptors(before.file) else [])
    {
      hide Sound, OnWritable, Owned, Closing, Send, ValidConn;
      ghost var views := Views();
      var state := conns[ev.fd];
      KeptSound(views, kernel.table.open, poller.interest, pipes, ev.fd);
      WritableShape(views[ev.fd], ev.sends);
      state.sock.script := ev.sends;
      drop := state.ProcessWritable(kernel, poller);
      OnlyChanged(ev.fd);
      OnlySent(ev.fd);
      ClosingFile(old(kernel.table), views[ev.fd].file);
      ReplaceSound(views, old(kernel.table.open), old(poller.interest), pipes, ev.fd, state.View(), kernel.table.open);
    }

    lemma InFootprint(fd: int)
      requires fd in conns
      ensures conns[fd] in Footprint() && conns[fd].parser in Footprint() && conns[fd].sock in Footprint()
      ensures Views()[fd] == conns[fd].View() && Views()[fd].phase == conns[fd].phase
    {}

    lemma LoopShows(dropped: seq<int>)
      ensures AsLoop(dropped).conns.Keys == conns.Keys && AsLoop(dropped).wires.Keys == conns.Keys
      ensures forall fd | fd in conns ::
                AsLoop(dropped).conns[fd] == conns[fd].View() && AsLoop(dropped).wires[fd] == conns[fd].sock.sent
    {}

    lemma LoopIs(dropped: seq<int>)
      ensures AsLoop(dropped) == Loop(Views(), Wires(), kernel.table, dropped)
    {}

    /** The dispatch of an event to process_readable, as a step of the whole worker. */
    method ReadEvent(ev: PollEvent, ghost dropped: seq<int>) returns (drop: bool)
      requires Valid() && ValidAnswer(ev.answer) && ev.fd in conns && conns[ev.fd].phase.Reading? && ev.readable
      modifies kernel, poller, conns[ev.fd], conns[ev.fd].parser, conns[ev.fd].sock
      ensures Valid() && Foreign() == old(Foreign()) && LoopOk(old(AsLoop(dropped)))
      ensures AsLoop(if drop then dropped + [ev.fd] else dropped) == Dispatch(old(AsLoop(dropped)), ev)
    {
      ValidLoop(dropped);
      LoopIs(dropped);
      InFootprint(ev.fd);
      hide *;
      ReadIs(AsLoop(dropped), ev);
      drop := DispatchReadable(ev);
      LoopIs(if drop then dropped + [ev.fd] else dropped);
    }

    /** The same for process_writable. */
    method WriteEvent(ev: PollEvent, ghost dropped: seq<int>) returns (drop: bool)
      requires Valid() && ev.fd in conns && conns[ev.fd].phase.Writing? && ev.writable
      modifies kernel, poller, conns[ev.fd], conns[ev.fd].parser, conns[ev.fd].sock
      ensures Valid() && Foreign() == old(Foreign()) && LoopOk(old(AsLoop(dropped)))
      ensures AsLoop(if drop then dropped + [ev.fd] else dropped) == Dispatch(old(AsLoop(dropped)), ev)
    {
      ValidLoop(dropped);
      LoopIs(dropped);
      InFootprint(ev.fd);
      hide *;
      WriteIs(AsLoop(dropped), ev);
      WritableVerdict(AsLoop(dropped).conns[ev.fd], ev.sends);
      drop := DispatchWritable(ev);
      LoopIs(if drop then dropped + [ev.fd] else dropped);
    }

    lemma NothingToDo(ev: PollEvent, dropped: seq<int>)
      requires Valid()
      requires ev.fd in conns ==>
                 !(conns[ev.fd].phase.Reading? && ev.readable) && !(conns[ev.fd].phase.Writing? && ev.writable)
      ensures LoopOk(AsLoop(dropped)) && Dispatch(AsLoop(dropped), ev) == AsLoop(dropped)
    {
      ValidLoop(dropped);
      hide Valid, LoopOk, Dispatch;
      NotDispatched(AsLoop(dropped), ev);
    }

    /** One event. */
    method HandleEvent(ev: PollEvent, ghost dropped: seq<int>) returns (drop: bool)
      requires Valid() && ValidAnswer(ev.answer)
      modifies kernel, poller, Footprint()
      ensures conns == old(conns) && record == old(record) && Valid() && Foreign() == old(Foreign()) && LoopOk(old(AsLoop(dropped)))
      ensures AsLoop(if drop then dropped + [ev.fd] else dropped) == Dispatch(old(AsLoop(dropped)), ev)
    {
      hide *;
      drop := false;
      if ev.fd in conns { InFootprint(ev.fd); }
      if ev.fd in conns && conns[ev.fd].phase.Reading? && ev.readable {
        drop := ReadEvent(ev, dropped);
      } else if ev.fd in conns && conns[ev.fd].phase.Writing? && ev.writable {
        drop := WriteEvent(ev, dropped);
      } else {
        NothingToDo(ev, dropped);
      }
    }

    /** The events of one wait, in order; the result lists the connections to remove, an entry
        for every handler that asked. */
    method HandleEvents(events: seq<PollEvent>) returns (toRemove: seq<int>)
      requires Valid() && ValidAnswers(events)
      modifies kernel, poller, Footprint()
      ensures conns == old(conns) && record == old(record) && Valid() && Foreign() == old(Foreign()) && LoopOk(old(AsLoop([])))
      ensures AsLoop(toRemove) == DispatchAll(old(AsLoop([])), events)
    {
      hide Sound, Owned, Valid, Foreign, Separate, Dispatch, ValidAnswers, LoopOk, Views, Wires;
      toRemove := [];
      ValidLoop([]);
      ghost var start := AsLoop([]);
      assert events[..0] == [] && ValidAnswers([]) by { NoAnswers(); }
      for i := 0 to |events|
        invariant conns == old(conns) && record == old(record)
        invariant Valid() && Foreign() == old(Foreign())
        invariant ValidAnswers(events[..i]) && AsLoop(toRemove) == DispatchAll(start, events[..i])
      {
        AnswerAt(events, i);
        DispatchStep(start, events, i);
        var drop := HandleEvent(events[i], toRemove);
        if drop {
          toRemove := toRemove + [events[i].fd];
        }
      }
      assert events[..|events|] == events;
    }

    /** The reading connections whose time is up. */
    method Expired(order: seq<int>, now: int, timeoutSeconds: int) returns (toRemove: seq<int>)
      requires Valid() && Walks(order, conns.Keys)
      ensures Valid() && Foreign() == old(Foreign()) && Views() == old(Views())
      ensures forall fd :: fd in toRemove <==> fd in Views() && TimedOut(Views()[fd], now, timeoutSeconds)
    {
      toRemove := [];
      WalkIs(order, conns.Keys);
      TimedOutIs(now, timeoutSeconds);
      hide *;
      if timeoutSeconds > 0 {
        for i := 0 to |order|
          invariant forall fd :: fd in toRemove <==> fd in order[..i] && fd in Views() && TimedOut(Views()[fd], now, timeoutSeconds)
        {
          var fd := order[i];
          assert order[..i + 1] == order[..i] + [fd];
          if conns[fd].phase.Reading? && now - conns[fd].acceptedAt >= timeoutSeconds {
            toRemove := toRemove + [fd];
          }
        }
        assert order[..|order|] == order;
      }
    }

    lemma TimedOutIs(now: int, timeoutSeconds: int)
      ensures forall fd | fd in conns ::
                TimedOut(Views()[fd], now, timeoutSeconds) <==>
                  timeoutSeconds > 0 && conns[fd].phase.Reading? && now - conns[fd].acceptedAt >= timeoutSeconds
    {}

    /** The removal loop. However often a descriptor is listed, its connection goes once. */
    method RemoveAll(toRemove: seq<int>)
      requires Valid()
      modifies this`conns, kernel, poller
      ensures Valid() && Foreign() == old(Foreign())
      ensures conns == old(conns) - Elements(toRemove) && Views() == old(Views()) - Elements(toRemove)
    {
      NothingIn(toRemove, conns);
      NothingIn(toRemove, Views());
      hide *;
      ghost var before, views := conns, Views();
      for i := 0 to |toRemove|
        invariant Valid() && Foreign() == old(Foreign())
        invariant conns == before - Elements(toRemove[..i]) && Views() == views - Elements(toRemove[..i])
      {
        RemoveConn(toRemove[i]);
        ElementsPush(toRemove, i);
      }
      assert toRemove[..|toRemove|] == toRemove;
    }

    /** The events of one wait, the timeouts and the removals. */
    method DispatchAndRemove(events: seq<PollEvent>, order: seq<int>, now: int, timeoutSeconds: int)
      requires Valid() && Walks(order, conns.Keys) && ValidAnswers(events)
      modifies this`conns, kernel, poller, Footprint()
      ensures record == old(record)
      ensures Valid() && Foreign() == old(Foreign()) && LoopOk(old(AsLoop([])))
      ensures var l := DispatchAll(old(AsLoop([])), events);
              && conns == old(conns) - Gone(l, now, timeoutSeconds) && Views() == l.conns - Gone(l, now, timeoutSeconds)
              && forall fd | fd in old(conns) :: fd in l.wires && old(conns)[fd].sock.sent == l.wires[fd]
    {
      hide *;
      var dropped := HandleEvents(events);
      LoopIs(dropped);
      LoopShows(dropped);
      ghost var l := AsLoop(dropped);
      var expired := Expired(order, now, timeoutSeconds);
      GoneIs(l, expired, now, timeoutSeconds, conns);
      GoneIs(l, expired, now, timeoutSeconds, Views());
      RemoveAll(dropped + expired);
    }

    /** One pass of the loop after its wait: events, timeouts, removals. The connections left are
        those that were there, but for the ones a handler dropped and the ones still reading when
        their time is up; each is as its events leave it, and so is the wire of each that was there.
        The record takes the events in. */
    method RunOnce(events: seq<PollEvent>, order: seq<int>, now: int, timeoutSeconds: int)
      requires Valid() && Walks(order, conns.Keys) && ValidAnswers(events)
      modifies this`conns, this`record, kernel, poller, Footprint()
      ensures Valid() && Foreign() == old(Foreign()) && LoopOk(old(AsLoop([])))
      ensures var l := DispatchAll(old(AsLoop([])), events);
              && conns == old(conns) - Gone(l, now, timeoutSeconds) && Views() == l.conns - Gone(l, now, timeoutSeconds)
              && forall fd | fd in old(conns) :: fd in l.wires && old(conns)[fd].sock.sent == l.wires[fd]
      ensures record == RecordPass(old(record), old(AsLoop([])), events, conns.Keys)
      ensures OnceEach(events) && old(Remembers()) ==> Remembers()
    {
      hide *;
      ghost var start, before := AsLoop([]), record;
      RemembersMeans();
      DispatchAndRemove(events, order, now, timeoutSeconds);
      Note(RecordPass(before, start, events, conns.Keys));
      if OnceEach(events) && Recorded(before, start.conns, start.wires) { PassRemembered(start, before, events, now, timeoutSeconds); }
    }

    lemma RemembersMeans()
      ensures Remembers() <==> Recorded(record, AsLoop([]).conns, AsLoop([]).wires)
      ensures AsLoop([]).dropped == [] && AsLoop([]).conns.Keys == conns.Keys
    {}

    lemma PassRemembered(start: Loop, before: Record, events: seq<PollEvent>, now: int, timeoutSeconds: int)
      requires LoopOk(start) && start.dropped == [] && ValidAnswers(events) && OnceEach(events)
      requires Recorded(before, start.conns, start.wires) && conns.Keys <= start.conns.Keys
      requires var l := DispatchAll(start, events);
               && Views() == l.conns - Gone(l, now, timeoutSeconds)
               && forall fd | fd in conns :: fd in l.wires && conns[fd].sock.sent == l.wires[fd]
      requires record == RecordPass(before, start, events, conns.Keys)
      ensures Remembers()
    {
      hide Recorded, LoopOk, DispatchAll, RecordPass, OnceEach, ValidAnswers, ConnState.View;
      PassRecorded(before, start, events, Views(), Wires());
    }

    /** The end of the worker: every connection and every file it still holds is closed, and by the
        record all connections that ever came are gone. */
    method Shutdown(order: seq<int>)
      requires Valid() && Walks(order, conns.Keys)
      modifies kernel, this`record
      ensures kernel.table.clean && kernel.table.open == old(Foreign())
      ensures LoopOk(old(AsLoop([]))) && record == RecordPass(old(record), old(AsLoop([])), [], {})
      ensures old(Remembers()) ==> Recorded(record, map[], map[])
    {
      AllGone();
      hide *;
      ghost var noted := RecordPass(record, AsLoop([]), [], {});
      CloseAll(order);
      record := noted;
    }

    /** The loop after the loop. */
    method CloseAll(order: seq<int>)
      requires Valid() && Walks(order, conns.Keys)
      modifies kernel
      ensures kernel.table.clean && kernel.table.open == old(Foreign())
    {
      hide Sound, Owned, Elements, Walks;
      ghost var views, rest, interest := Views(), Views(), poller.interest;
      assert rest == views - Elements(order[..0]) by { NothingWalked(order); }
      for i := 0 to |order|
        invariant kernel.table.clean && rest == views - Elements(order[..i])
        invariant Sound(rest, kernel.table.open, interest, pipes)
        invariant kernel.table.open - Owned(rest) == old(Foreign())
      {
        var fd := order[i];
        WalkStep(order, conns.Keys, i);
        ghost var open := kernel.table.open;
        RemoveSound(rest, open, interest, pipes, fd);
        CloseFile(rest[fd], conns[fd]);
        kernel.Close(fd);
        rest, interest := rest - {fd}, interest - {fd};
        assert rest == views - Elements(order[..i + 1]);
      }
      assert rest == map[] && Owned(rest) == {} by { AllWalked(order, views, rest); }
    }

    ghost method Note(r: Record)
      modifies this`record
      ensures record == r
      ensures Views() == old(Views()) && Wires() == old(Wires()) && Foreign() == old(Foreign())
      ensures old(Valid()) ==> Valid()
      ensures forall fd | fd in conns :: conns[fd].View() == old(conns[fd].View()) && conns[fd].sock.sent == old(conns[fd].sock.sent)
    {
      hide Sound, Owned, Separate;
      record := r;
    }

    /** At the end all connections are gone. */
    lemma AllGone()
      requires Valid()
      ensures LoopOk(AsLoop([]))
      ensures Remembers() ==> Recorded(RecordPass(record, AsLoop([]), [], {}), map[], map[])
    {
      ValidLoop([]);
      hide Recorded, Valid, LoopOk;
      var none: map<int, Conn> := map[];
      assert none.Keys == {};
      if Remembers() { PassRecorded(record, AsLoop([]), [], none, map[]); }
    }

    /** Closes the file that a connection is still sending, if any. */
    method CloseFile(ghost view: Conn, state: ConnState)
      requires view.file == state.sendfile
      modifies kernel
      ensures kernel.table.open == old(kernel.table.open) - BodyOf(view)
      ensures kernel.table.clean == (old(kernel.table.clean) && BodyOf(view) <= old(kernel.table.open))
    {
      if state.sendfile.OpenFile? {
        kernel.Close(state.sendfile.fd);
      }
    }

    /** What is left when the connection fd goes. */
    twostate lemma OnlyRemoved(fd: int)
      requires conns == old(conns) - {fd} && old(Separate())
      requires forall g | g in conns :: unchanged(conns[g]) && unchanged(conns[g].parser)
      ensures Separate() && Views() == old(Views()) - {fd}
    {
      forall g | g in conns ensures conns[g].View() == old(conns[g].View()) {}
      hide ConnState.View;
    }

    /** The descriptors of a connection are closed and it is no longer watched. */
    method Release(fd: int, ghost view: Conn, state: ConnState)
      requires view.file == state.sendfile && BodyOf(view) <= kernel.table.open - {fd} && fd in kernel.table.open
      modifies kernel, poller
      ensures kernel.table.open == old(kernel.table.open) - BodyOf(view) - {fd}
      ensures kernel.table.clean == old(kernel.table.clean) && poller.interest == old(poller.interest) - {fd}
    {
      CloseFile(view, state);
      poller.Remove(fd);
      ClosingOne(kernel.table, fd);
      kernel.Close(fd);
    }

    /** The end of a connection that is in conns. */
    method Erase(fd: int)
      requires Valid() && fd in conns
      modifies this`conns, kernel, poller
      ensures Valid() && Foreign() == old(Foreign())
      ensures conns == old(conns) - {fd} && Views() == old(Views()) - {fd}
    {
      ghost var views := Views();
      ValidIs();
      InFootprint(fd);
      ViewFile(fd);
      RemoveSound(views, kernel.table.open, poller.interest, pipes, fd);
      hide *;
      Release(fd, views[fd], conns[fd]);
      conns := conns - {fd};
      OnlyRemoved(fd);
      ValidIs();
    }

    lemma ViewFile(fd: int)
      requires fd in conns
      ensures Views()[fd].file == conns[fd].sendfile
    {}

    /** One turn of the removal loop; a descriptor that is not in conns any more is skipped. */
    method RemoveConn(fd: int)
      requires Valid()
      modifies this`conns, kernel, poller
      ensures Valid() && Foreign() == old(Foreign())
      ensures conns == old(conns) - {fd} && Views() == old(Views()) - {fd}
    {
      NotThere(fd);
      hide *;
      if fd in conns {
        Erase(fd);
      }
    }

    lemma NotThere(fd: int)
      ensures fd !in conns ==> conns - {fd} == conns && Views() - {fd} == Views()
    {}
  }

  lemma ReadIs(l: Loop, ev: PollEvent)
    requires LoopOk(l) && ev.fd in l.conns && l.conns[ev.fd].phase.Reading? && ev.readable
    ensures LoopConn(l, ev.fd)
    ensures var (c, v) := OnReadable(l.conns[ev.fd], ev.result, Placed(ev.answer, l.table));
            Dispatch(l, ev) ==
            Loop(l.conns[ev.fd := c],
                 l.wires[ev.fd := l.wires[ev.fd] + if v.Refuse? then Written(ErrorReply(c.parser.error), ev.sends) else ""],
                 if c.phase.Writing? && c.file.OpenFile? then AfterOpen(l.table) else l.table,
                 if v.Keep? then l.dropped else l.dropped + [ev.fd])
  {
    assert LoopConn(l, ev.fd);
    hide OnReadable, Placed, Written, ErrorReply, AfterOpen;
  }

  lemma WriteIs(l: Loop, ev: PollEvent)
    requires LoopOk(l) && ev.fd in l.conns && l.conns[ev.fd].phase.Writing? && ev.writable
    ensures LoopConn(l, ev.fd)
    ensures var before := l.conns[ev.fd];
            var (c, v) := OnWritable(before, ev.sends);
            Dispatch(l, ev) ==
            Loop(l.conns[ev.fd := c], l.wires[ev.fd := l.wires[ev.fd] + Send(before, ev.sends).bytes],
                 Closing(l.table, if c.file.NoFile? then Descriptors(before.file) else []),
                 if v.Keep? then l.dropped else l.dropped + [ev.fd])
  {
    assert LoopConn(l, ev.fd);
    hide OnWritable, Send, Closing;
  }

  lemma NoAnswers()
    ensures ValidAnswers([])
  {}

  lemma AnswerAt(events: seq<PollEvent>, i: nat)
    requires ValidAnswers(events) && i < |events|
    ensures ValidAnswer(events[i].answer)
  {}

  lemma DispatchStep(l: Loop, events: seq<PollEvent>, i: nat)
    requires LoopOk(l) && ValidAnswers(events) && i < |events|
    ensures ValidAnswers(events[..i]) && ValidAnswers(events[..i + 1])
    ensures DispatchAll(l, events[..i + 1]) == Dispatch(DispatchAll(l, events[..i]), events[i])
  {
    assert events[..i + 1][..i] == events[..i];
  }

  lemma NotDispatched(l: Loop, ev: PollEvent)
    requires LoopOk(l)
    requires ev.fd in l.conns ==>
               !(l.conns[ev.fd].phase.Reading? && ev.readable) && !(l.conns[ev.fd].phase.Writing? && ev.writable)
    ensures Dispatch(l, ev) == l
  {}

  lemma NothingIn<T>(fds: seq<int>, conns: map<int, T>)
    ensures conns - Elements(fds[..0]) == conns
  {
    assert Elements(fds[..0]) == {};
  }

  lemma NothingWalked(order: seq<int>)
    ensures forall views: map<int, Conn> :: views - Elements(order[..0]) == views
  {
    assert Elements(order[..0]) == {};
  }

  lemma AllWalked(order: seq<int>, views: map<int, Conn>, rest: map<int, Conn>)
    requires Walks(order, views.Keys) && rest == views - Elements(order[..|order|])
    ensures rest == map[] && Owned(rest) == {}
  {
    assert order[..|order|] == order;
    assert rest == map[];
  }

  lemma KeptSound(conns: map<int, Conn>, open: set<int>, interest: Interest, pipes: set<int>, fd: int)
    requires Sound(conns, open, interest, pipes) && fd in conns
    ensures ConnSound(conns, open, interest, fd)
    ensures ValidConn(conns[fd]) && conns[fd].fd == fd && interest.Keys >= {fd}
    ensures interest[fd] == Wanted(conns[fd].phase) && interest == interest[fd := Wanted(conns[fd].phase)]
    ensures conns[fd].phase.Reading? ==> conns[fd].file.NoFile?
    ensures conns[fd].file.OpenFile? ==> conns[fd].file.fd in open
  {
    assert ConnSound(conns, open, interest, fd);
  }

  lemma ClosingFile(t: FdTable, file: FileHandle)
    ensures var t' := Closing(t, Descriptors(file));
            && t'.open == t.open - (if file.OpenFile? then {file.fd} else {})
            && t'.clean == (t.clean && (file.OpenFile? ==> file.fd in t.open))
            && Closing(t, []) == t
  {}
}
