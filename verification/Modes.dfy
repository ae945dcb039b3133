/** The two ways of serving plain connections compared: one connection of the event loop
    (server/select_mode.cpp:84-189) against the blocking driver of
    http/connection/connection_manager.cpp:110-189. */
module Modes {
  import opened Text
  import opened Http
  import opened ParserSpec
  import opened HttpResponse
  import opened ConnectionSpec
  import opened Connection
  import opened EventLoopSpec
  import opened HttpClient
  import Client = ResponseReader

  /** After a request the blocking driver and the event loop hold the same parser exactly when
      the request ended where the read did. */
  lemma NextIsFreshIff(q: Parser)
    ensures Next(q) == Fresh("") <==> q.buffer == ""
  {
    if q.buffer != "" { NeverBack(q.buffer); }
  }

  lemma NeverBack(w: string)
    requires w != ""
    ensures Cap(Scan(Fresh(w))) != Fresh("")
  {
    hide Scan, OnHeaderLine, Split, IndexOf, LineBefore, Trim, MethodOf;
    var n := IndexOf(w, '\n');
    if n < |w| {
      var q := OnLine(Fresh(w[n + 1..]), LineBefore(w, n));
      LeavesRequestLine(q);
      ScanStep(Fresh(w));
    } else {
      ScanStep(Fresh(w));
    }
  }

  lemma {:induction false} LeavesRequestLine(p: Parser)
    requires !p.state.RequestLine?
    ensures !Scan(p).state.RequestLine?
    decreases |p.buffer|
  {
    ScanStep(p);
    if p.state.HeaderLines? && IndexOf(p.buffer, '\n') < |p.buffer| {
      var n := IndexOf(p.buffer, '\n');
      LeavesRequestLine(OnLine(p.(buffer := p.buffer[n + 1..]), LineBefore(p.buffer, n)));
    }
  }

  /** The read that an event causes, if any; one that would block reads nothing. */
  function ReadBy(s: History, e: Event): seq<ReadResult> {
    if !s.gone && e.Readable? && s.conn.phase.Reading? && e.result != ReadError(EAGAIN) then [e.result] else []
  }

  /** The reads that a run makes. */
  ghost function ReadsOf(s: History, events: seq<Event>): seq<ReadResult>
    requires Inv(s) && forall i | 0 <= i < |events| :: ValidEvent(events[i])
    decreases |events|
  {
    if events == [] then []
    else
      StepInv(s, events[0]);
      ReadBy(s, events[0]) + ReadsOf(Step(s, events[0]), events[1..])
  }

  // ----- bytes past the end of a request -----

  /** What a parser that reads is between events: it needs more. */
  predicate Waiting(p: Parser) {
    p.Live() && Scan(p) == p
  }

  lemma FreshWaits()
    ensures Waiting(Fresh(""))
  {}

  /** A request that is completed by new bytes ends among them. */
  lemma EndsInside(p: Parser, data: string)
    requires Waiting(p) && Scan(p.Plus(data)).state.Done?
    ensures |Scan(p.Plus(data)).buffer| < |data|
  {
    var whole := p.buffer + data;
    if p.AtLine() {
      hide OnLine;
      ScanStep(p.Plus(data));
      var n := IndexOf(whole, '\n');
      IndexOfIn(whole, '\n', |p.buffer|);
    }
  }

  lemma IndexOfIn(s: string, c: char, k: nat)
    requires k <= |s| && c !in s[..k]
    ensures k <= IndexOf(s, c)
  {
    assert forall i | 0 <= i < k :: s[i] == s[..k][i];
  }

  lemma FeedWaits(p: Parser, data: string)
    requires Waiting(p)
    ensures var q := Feed(p, data);
            (q.Live() ==> Waiting(q)) && (q.state.Done? ==> q == Scan(p.Plus(data)) && |q.buffer| < |data|)
  {
    ScanIdempotent(p.Plus(data));
    hide Scan;
    if Feed(p, data).state.Done? { EndsInside(p, data); }
  }

  lemma NothingBefore(r: Parser, rest: string)
    requires Scan(r) == r && Scan(r.Plus(rest)).state.Done? && Scan(r.Plus(rest)).buffer == rest
    ensures r == Scan(r.Plus(rest)).(buffer := "")
  {
    if r.Live() {
      StableWaits(r);
      EndsInside(r, rest);
    } else {
      ScanStep(r.Plus(rest));
      hide Scan;
      assert |r.Plus(rest).buffer| == |r.buffer| + |rest|;
    }
  }

  /** Without the bytes past its end the same request is read, and nothing is left. */
  lemma ScanCropped(p: Parser, used: string, rest: string)
    requires Scan(p.Plus(used + rest)).state.Done? && Scan(p.Plus(used + rest)).buffer == rest
    ensures Scan(p.Plus(used)) == Scan(p.Plus(used + rest)).(buffer := "")
  {
    hide Scan;
    ScanSplit(p.Plus(used), rest);
    assert (p.buffer + used) + rest == p.buffer + (used + rest);
    assert p.Plus(used).Plus(rest) == p.Plus(used + rest);
    ScanIdempotent(p.Plus(used));
    NothingBefore(Scan(p.Plus(used)), rest);
  }

  lemma StableWaits(p: Parser)
    requires p.Live() && Scan(p) == p
    ensures Waiting(p)
  {}

  lemma FeedCropped(p: Parser, data: string)
    requires Waiting(p) && Feed(p, data).state.Done?
    ensures var q := Feed(p, data);
            |q.buffer| < |data| && Feed(p, data[..|data| - |q.buffer|]) == q.(buffer := "")
  {
    FeedWaits(p, data);
    var q := Feed(p, data);
    var used := data[..|data| - |q.buffer|];
    assert q.buffer == data[|data| - |q.buffer|..] by { LeftoverIs(p, data, q.buffer); }
    assert data == used + q.buffer;
    hide Scan;
    ScanCropped(p, used, q.buffer);
  }

  lemma LeftoverIs(p: Parser, data: string, left: string)
    requires left == Scan(p.Plus(data)).buffer && |left| <= |data|
    ensures left == data[|data| - |left|..]
  {
    ScanConsumesFront(p.Plus(data));
    hide Scan;
    var whole := p.buffer + data;
    assert whole[|whole| - |left|..] == data[|data| - |left|..];
  }

  /** The reads with the bytes past the end of each request cut off; after one that asks to close
      they do not matter. */
  function Cropped(p: Parser, input: seq<ReadResult>): seq<ReadResult>
    requires Waiting(p)
    decreases |input|
  {
    if Ends(input) || input[0].ReadError? then input
    else
      var data := input[0].data;
      var q := Feed(p, data);
      FeedWaits(p, data);
      if q.Live() then [input[0]] + Cropped(q, input[1..])
      else if q.state.Error? || WantsClose(q.request) then input
      else [Bytes(data[..|data| - |q.buffer|])] + Cropped(Fresh(""), input[1..])
  }

  /** No read carries bytes past the end of the request that it completes, unless the request asks
      to close. */
  predicate Aligned(p: Parser, input: seq<ReadResult>)
    decreases |input|
  {
    Ends(input) || input[0].ReadError? ||
    var q := Feed(p, input[0].data);
    if q.Live() then Aligned(q, input[1..])
    else q.state.Error? || WantsClose(q.request) || (q.buffer == "" && Aligned(Fresh(""), input[1..]))
  }

  lemma {:induction false} CroppedIff(p: Parser, input: seq<ReadResult>)
    requires Waiting(p)
    ensures Cropped(p, input) == input <==> Aligned(p, input)
    ensures |Cropped(p, input)| == |input|
    decreases |input|
  {
    FreshWaits();
    hide Feed, WantsClose, Scan, Waiting;
    if !Ends(input) && input[0].Bytes? {
      var data, rest := input[0].data, input[1..];
      var q := Feed(p, data);
      FeedWaits(p, data);
      assert input == [input[0]] + rest;
      if q.Live() {
        CroppedIff(q, rest);
        ConsSame(input[0], Cropped(q, rest), input[0], rest);
      } else if q.state.Done? && !WantsClose(q.request) {
        CroppedIff(Fresh(""), rest);
        var used := data[..|data| - |q.buffer|];
        assert used == data <==> q.buffer == "" by { assert |used| == |data| - |q.buffer|; }
        ConsSame(Bytes(used), Cropped(Fresh(""), rest), input[0], rest);
      }
    }
  }

  lemma ConsSame<T>(a: T, s: seq<T>, b: T, t: seq<T>)
    ensures [a] + s == [b] + t <==> a == b && s == t
  {
    if [a] + s == [b] + t {
      assert ([a] + s)[0] == a && ([b] + t)[0] == b;
      assert ([a] + s)[1..] == s && ([b] + t)[1..] == t;
    }
  }

  // ----- the two modes -----

  /** The parser as it will be when the connection reads again. */
  function Resumed(c: Conn): Parser {
    if c.phase.Reading? then c.parser else Fresh("")
  }

  predicate Stopped(s: History) {
    s.gone || (s.conn.phase.Writing? && s.conn.closeAfterWrite)
  }

  /** Between events the parser of a connection that reads needs more. */
  predicate Ready(s: History) {
    !s.gone && s.conn.phase.Reading? ==> Waiting(s.conn.parser)
  }

  /** What the blocking driver would do from here: the requests it would hand on and its end. */
  function Upcoming(s: History, input: seq<ReadResult>): Outcome
    requires Ready(s)
  {
    if Stopped(s) then Outcome([], EndingNow(s)) else Drive(Resumed(s.conn), Cropped(Resumed(s.conn), input))
  }

  predicate Agrees(s: History, e: Event, t: History, more: seq<ReadResult>)
    requires Ready(s)
  {
    Ready(t) && Following(t.requests, Upcoming(t, more)) == Following(s.requests, Upcoming(s, ReadBy(s, e) + more))
  }

  lemma FollowingOne(requests: seq<Request>, r: Request, o: Outcome)
    ensures Following(requests + [r], o) == Following(requests, o.(requests := [r] + o.requests))
  {
    assert requests + [r] + o.requests == requests + ([r] + o.requests);
  }

  lemma DriveFirst(p: Parser, data: string, more: seq<ReadResult>)
    requires p.Live() && data != ""
    ensures Drive(p, [Bytes(data)] + more) == Drive(Feed(p, data), more)
    ensures !Ends([Bytes(data)] + more)
  {
    hide Feed;
    assert ([Bytes(data)] + more)[1..] == more;
  }

  lemma DriveServed(q: Parser, input: seq<ReadResult>)
    requires q.state.Done?
    ensures WantsClose(q.request) ==> Drive(q, input) == Outcome([q.request], CloseAsked)
    ensures !WantsClose(q.request) && q.buffer == "" ==>
              var rest := Drive(Fresh(""), input);
              Drive(q, input) == rest.(requests := [q.request] + rest.requests)
  {
    NextIsFreshIff(q);
    hide WantsClose, Next;
  }

  lemma CroppedStep(p: Parser, data: string, more: seq<ReadResult>)
    requires Waiting(p) && data != ""
    ensures Waiting(Fresh(""))
    ensures var q := Feed(p, data);
            var input := [Bytes(data)] + more;
            && (q.Live() ==> Waiting(q) && Cropped(p, input) == [Bytes(data)] + Cropped(q, more))
            && (q.state.Error? || (q.state.Done? && WantsClose(q.request)) ==> Cropped(p, input) == input)
            && (q.state.Done? && !WantsClose(q.request) ==>
                  && |q.buffer| < |data|
                  && Cropped(p, input) == [Bytes(data[..|data| - |q.buffer|])] + Cropped(Fresh(""), more))
  {
    var input := [Bytes(data)] + more;
    assert input[1..] == more;
    FeedWaits(p, data);
    FreshWaits();
    DriveFirst(p, data, more);
    hide Scan, Feed, WantsClose, Waiting, Ends, Drive, Fresh;
  }

  /** The driver on cropped reads, by what the first of them does. */
  lemma DriveRead(p: Parser, data: string, more: seq<ReadResult>)
    requires Waiting(p) && data != ""
    ensures var q := Feed(p, data);
            var o := Drive(p, Cropped(p, [Bytes(data)] + more));
            && (q.Live() ==> Waiting(q) && o == Drive(q, Cropped(q, more)))
            && (q.state.Error? ==> o == Outcome([], Replied(q.error, q.message)))
            && (q.state.Done? && WantsClose(q.request) ==> o == Outcome([q.request], CloseAsked))
            && (q.state.Done? && !WantsClose(q.request) ==>
                  && Waiting(Fresh(""))
                  && var rest := Drive(Fresh(""), Cropped(Fresh(""), more));
                     o == rest.(requests := [q.request] + rest.requests))
  {
    var q := Feed(p, data);
    CroppedStep(p, data, more);
    hide Feed, WantsClose, Cropped;
    if q.Live() {
      DriveFirst(p, data, Cropped(q, more));
    } else if q.state.Error? {
      DriveFirst(p, data, more);
    } else {
      hide Drive;
      if WantsClose(q.request) {
        DriveFirst(p, data, more);
        DriveServed(q, more);
      } else {
        FeedCropped(p, data);
        DriveFirst(p, data[..|data| - |q.buffer|], Cropped(Fresh(""), more));
        DriveServed(q.(buffer := ""), Cropped(Fresh(""), more));
      }
    }
  }

  lemma DriveNothing(p: Parser, r: ReadResult)
    requires Waiting(p) && r != ReadError(EAGAIN) && (r.Bytes? ==> r.data == "")
    ensures Drive(p, Cropped(p, [r])) == Outcome([], PeerGone)
  {
    assert [r][1..] == [];
  }

  /** What a read does to the history, as far as the two modes go. */
  lemma ReadServed(s: History, data: string, a: Answer, sends: seq<SysResult>)
    requires !s.gone && s.conn.phase.Reading? && s.conn.parser.Live() && data != ""
    ensures var q := Feed(s.conn.parser, data);
            var t := AfterRead(s, Bytes(data), a, sends);
            && (q.Live() ==> t == s.(conn := s.conn.(parser := q)))
            && (q.state.Error? ==> t.gone && t.requests == s.requests && EndingNow(t) == Replied(q.error, q.message))
            && (q.state.Done? ==>
                  && t.requests == s.requests + [q.request] && !t.gone && t.conn.phase.Writing?
                  && t.conn.closeAfterWrite == WantsClose(q.request)
                  && (WantsClose(q.request) ==> EndingNow(t) == CloseAsked))
  {
    var q := Feed(s.conn.parser, data);
    if q.state.Done? { ClosesIfAsked(q.request, a); }
    hide Feed, Next, WantsClose, ErrorReply, Written, ProcessRequest;
  }

  lemma ReadEnds(s: History, r: ReadResult, a: Answer, sends: seq<SysResult>)
    requires !s.gone && s.conn.phase.Reading? && s.conn.parser.Live() && r != ReadError(EAGAIN) && (r.Bytes? ==> r.data == "")
    ensures var t := AfterRead(s, r, a, sends);
            t.gone && t.requests == s.requests && EndingNow(t) == PeerGone
  {}

  lemma ReadAgrees(s: History, r: ReadResult, a: Answer, sends: seq<SysResult>, more: seq<ReadResult>)
    requires !s.gone && s.conn.phase.Reading? && Ready(s) && ValidAnswer(a) && r != ReadError(EAGAIN)
    requires AfterRead(s, r, a, sends).gone ==> more == []
    ensures Agrees(s, Readable(r, a, sends), AfterRead(s, r, a, sends), more)
  {
    FreshWaits();
    assert s.conn.parser.Live();
    hide AfterRead, Feed, WantsClose, Following, Waiting, Cropped, Drive, EndingNow;
    var p := s.conn.parser;
    var t := AfterRead(s, r, a, sends);
    if r.Bytes? && r.data != "" {
      var q := Feed(p, r.data);
      ReadServed(s, r.data, a, sends);
      DriveRead(p, r.data, more);
      if q.state.Done? {
        FollowingOne(s.requests, q.request, Upcoming(t, more));
      }
    } else {
      ReadEnds(s, r, a, sends);
      assert [r] + more == [r];
      DriveNothing(p, r);
    }
  }

  lemma ClosesIfAsked(req: Request, a: Answer)
    ensures ProcessRequest(req, a).closeAfter == WantsClose(req)
  {}

  lemma WriteAgrees(s: History, script: seq<SysResult>, more: seq<ReadResult>)
    requires !s.gone && s.conn.phase.Writing? && ValidConn(s.conn)
    requires AfterWrite(s, script).gone ==> more == []
    ensures Agrees(s, Writable(script), AfterWrite(s, script), more)
  {
    hide Send;
    SendKeepsRest(s.conn, script);
    assert [] + more == more;
    DriveNoMore(Fresh(""));
    hide Cropped, Drive;
  }

  lemma DriveNoMore(p: Parser)
    requires p == Fresh("") || Waiting(p)
    ensures Waiting(p) && Cropped(p, []) == [] && Drive(p, []) == Outcome([], PeerGone)
  {}

  lemma StepAgrees(s: History, e: Event, more: seq<ReadResult>)
    requires Inv(s) && ValidConn(s.conn) && Ready(s) && ValidEvent(e)
    requires Step(s, e).gone ==> more == []
    ensures Agrees(s, e, Step(s, e), more)
  {
    hide Inv, Feed, AfterWrite, AfterRead, ErrorReply, Written, Following, Waiting, Cropped, Drive;
    assert [] + more == more;
    if !s.gone && e.Readable? && s.conn.phase.Reading? {
      if e.result == ReadError(EAGAIN) {
        assert Step(s, e) == s by { BlockedRead(s, e.answer, e.sends); }
      } else {
        ReadAgrees(s, e.result, e.answer, e.sends, more);
      }
    } else if !s.gone && e.Writable? && s.conn.phase.Writing? {
      WriteAgrees(s, e.script, more);
    } else if !s.gone && e.Removal? {
      assert more == [];
      NothingUpcoming(s);
      RemovedEnding(s);
    }
  }

  lemma RemovedEnding(s: History)
    requires Ready(s) && !s.gone
    ensures EndingNow(Remove(s)) == EndingNow(s)
  {}

  lemma BlockedRead(s: History, a: Answer, sends: seq<SysResult>)
    requires s.conn.phase.Reading?
    ensures AfterRead(s, ReadError(EAGAIN), a, sends) == s
  {}

  lemma {:induction false} GoneReadsNothing(s: History, events: seq<Event>)
    requires Inv(s) && s.gone && forall i | 0 <= i < |events| :: ValidEvent(events[i])
    ensures ReadsOf(s, events) == []
    decreases |events|
  {
    hide Inv;
    if events != [] {
      StepInv(s, events[0]);
      GoneReadsNothing(s, events[1..]);
    }
  }

  lemma {:induction false} RunAgrees(s: History, events: seq<Event>)
    requires Inv(s) && Ready(s) && forall i | 0 <= i < |events| :: ValidEvent(events[i])
    ensures var t := Run(s, events);
            Ready(t) && Outcome(t.requests, EndingNow(t)) == Following(s.requests, Upcoming(s, ReadsOf(s, events)))
    decreases |events|
  {
    hide Inv, Step, Ready, Upcoming;
    if events == [] {
      NothingUpcoming(s);
      assert s.requests + [] == s.requests;
    } else {
      StepInv(s, events[0]);
      var t := Step(s, events[0]);
      var more := ReadsOf(t, events[1..]);
      if t.gone { GoneReadsNothing(t, events[1..]); }
      StepAgrees(s, events[0], more);
      RunAgrees(t, events[1..]);
    }
  }

  lemma NothingUpcoming(s: History)
    requires Ready(s)
    ensures Upcoming(s, []) == Outcome([], EndingNow(s))
  {
    if !Stopped(s) {
      DriveNoMore(Resumed(s.conn));
    }
  }

  /** Over every run of a connection, whatever the writes do and whenever it is removed, the event
      loop hands on exactly the requests that the blocking driver hands on, and ends as it does, for
      the same reads without the bytes past the end of a request; and those are the same reads
      exactly if no read carries such bytes, other than after a request that asks to close. */
  lemma ModeAgreement(fd: int, now: int, events: seq<Event>)
    requires forall i | 0 <= i < |events| :: ValidEvent(events[i])
    ensures Waiting(Fresh(""))
    ensures var t := Run(Opening(fd, now), events);
            var input := ReadsOf(Opening(fd, now), events);
            && Outcome(t.requests, EndingNow(t)) == Drive(Fresh(""), Cropped(Fresh(""), input))
            && (Cropped(Fresh(""), input) == input <==> Aligned(Fresh(""), input))
  {
    hide Run, ReadsOf, Aligned, Drive, EndingNow, Cropped, Waiting;
    FreshWaits();
    var s := Opening(fd, now);
    RunAgrees(s, events);
    CroppedIff(Fresh(""), ReadsOf(s, events));
    FollowingNothing(Drive(Fresh(""), Cropped(Fresh(""), ReadsOf(s, events))));
  }

  lemma FollowingNothing(o: Outcome)
    ensures Following([], o) == o
  {
    assert [] + o.requests == o.requests;
  }

  // ----- the wires -----

  /** No send fails: short counts and EAGAIN while a response is written, no failure in an error
      reply, and no removal in the middle of a response. */
  predicate SmoothStep(s: History, e: Event) {
    match e
    case Readable(_, _, sends) => FailureFree(sends)
    case Writable(script) => Benign(script)
    case Removal => s.gone || s.conn.phase.Reading?
  }

  ghost predicate Smooth(s: History, events: seq<Event>)
    requires Inv(s) && forall i | 0 <= i < |events| :: ValidEvent(events[i])
    decreases |events|
  {
    events == [] ||
    (StepInv(s, events[0]);
     SmoothStep(s, events[0]) && Smooth(Step(s, events[0]), events[1..]))
  }

  /** Outside of a response the wire is everything that was to be sent. */
  predicate Whole(s: History)
    requires AllValid(s.packages)
  {
    s.gone || s.conn.phase.Reading? ==> s.wire == Rendered(s.packages) + EndingReply(EndingNow(s))
  }

  lemma WholeAfterRead(s: History, r: ReadResult, a: Answer, sends: seq<SysResult>)
    requires LiveInv(s) && !s.gone && s.conn.phase.Reading? && s.conn.parser.Live() && FailureFree(sends) && ValidAnswer(a)
    ensures AllValid(AfterRead(s, r, a, sends).packages) && Whole(AfterRead(s, r, a, sends))
  {
    hide Rendered, Answered, Feed, ErrorReply, Written, ProcessRequest, Render, Opened;
    var (c, v) := OnReadable(s.conn, r, a);
    assert s.wire + "" == s.wire;
    WrittenPrefix(ErrorReply(c.parser.error), sends);
    ReadableInv(s, r, a, sends);
  }

  lemma WholeAfterWrite(s: History, script: seq<SysResult>)
    requires LiveInv(s) && !s.gone && s.conn.phase.Writing? && ValidConn(s.conn) && Benign(script)
    ensures AllValid(AfterWrite(s, script).packages) && Whole(AfterWrite(s, script))
  {
    hide Rendered, Answered, Send, Render, Opened, Benign, SentSoFar;
    SendBenign(s.conn, script);
    WireStep(s, script);
    assert Rendered(s.packages) + "" == Rendered(s.packages);
  }

  lemma WholeStep(s: History, e: Event)
    requires Inv(s) && ValidConn(s.conn) && ValidEvent(e) && Ready(s) && AllValid(s.packages) && Whole(s) && SmoothStep(s, e)
    ensures AllValid(Step(s, e).packages) && Whole(Step(s, e))
  {
    hide AfterRead, AfterWrite, LiveInv, Rendered, EndingReply;
    if !s.gone {
      match e
      case Removal => assert EndingNow(Remove(s)) == EndingNow(s);
      case Readable(r, a, sends) => if s.conn.phase.Reading? { WholeAfterRead(s, r, a, sends); }
      case Writable(script) => if s.conn.phase.Writing? { WholeAfterWrite(s, script); }
    }
  }

  lemma StaysReady(s: History, e: Event)
    requires Inv(s) && ValidConn(s.conn) && Ready(s) && ValidEvent(e)
    ensures Ready(Step(s, e))
  {
    hide Send, ErrorReply, Written, ProcessRequest;
    FreshWaits();
    if !s.gone && e.Readable? && s.conn.phase.Reading? && e.result.Bytes? { FeedWaits(s.conn.parser, e.result.data); }
    hide Feed, Waiting;
    if !s.gone && e.Writable? && s.conn.phase.Writing? { SendKeepsRest(s.conn, e.script); }
  }

  lemma {:induction false} WholeRun(s: History, events: seq<Event>)
    requires Inv(s) && Ready(s) && AllValid(s.packages) && Whole(s)
    requires forall i | 0 <= i < |events| :: ValidEvent(events[i])
    requires Smooth(s, events)
    ensures AllValid(Run(s, events).packages) && Whole(Run(s, events))
    decreases |events|
  {
    hide Inv, Step, Whole, AllValid, SmoothStep;
    if events != [] {
      StepInv(s, events[0]);
      WholeStep(s, events[0]);
      StaysReady(s, events[0]);
      WholeRun(Step(s, events[0]), events[1..]);
    }
  }

  /** The answers given are those of one handler. */
  predicate GivenBy(s: History, handler: (nat, Request) -> Answer) {
    |s.answers| == |s.requests| && forall i | 0 <= i < |s.requests| :: s.answers[i] == handler(i, s.requests[i])
  }

  lemma {:induction false} RenderedIsReplies(requests: seq<Request>, packages: seq<Package>, handler: (nat, Request) -> Answer)
    requires forall i, r :: ValidAnswer(handler(i, r))
    requires |requests| == |packages| && AllValid(packages)
    requires forall i | 0 <= i < |requests| :: packages[i] == ProcessRequest(requests[i], handler(i, requests[i]))
    ensures Rendered(packages) == Replies(requests, 0, handler)
    decreases |requests|
  {
    hide Render, ProcessRequest, ValidPackage, ValidAnswer;
    if requests != [] {
      var n := |requests| - 1;
      RenderedIsReplies(requests[..n], packages[..n], handler);
      assert requests == requests[..n] + [requests[n]];
      RepliesAppend(requests[..n], requests[n], 0, handler);
    }
  }

  lemma WireIsReplies(s: History, handler: (nat, Request) -> Answer)
    requires forall i, r :: ValidAnswer(handler(i, r))
    requires AllValid(s.packages) && Answered(s) && GivenBy(s, handler)
    ensures Rendered(s.packages) == Replies(s.requests, 0, handler)
  {
    hide ProcessRequest, AllValid, Rendered, Replies, ValidAnswer;
    RenderedIsReplies(s.requests, s.packages, handler);
  }

  /** With one handler for both modes, the wires agree too. Whatever happens, the event loop's is a
      prefix of what the blocking driver writes on a socket that never fails; in phase Reading it
      is exactly the driver's replies; and if no send fails, a connection that is gone has sent
      exactly what the driver sends, error reply included. */
  lemma WireAgreement(fd: int, now: int, events: seq<Event>, handler: (nat, Request) -> Answer)
    requires forall i | 0 <= i < |events| :: ValidEvent(events[i])
    requires forall i, r :: ValidAnswer(handler(i, r))
    requires GivenBy(Run(Opening(fd, now), events), handler)
    ensures Waiting(Fresh(""))
    ensures var t := Run(Opening(fd, now), events);
            var o := Drive(Fresh(""), Cropped(Fresh(""), ReadsOf(Opening(fd, now), events)));
            var wire := Replies(o.requests, 0, handler) + EndingReply(o.ending);
            && t.wire <= wire
            && (!t.gone && t.conn.phase.Reading? ==> t.wire == Replies(o.requests, 0, handler))
            && (t.gone && Smooth(Opening(fd, now), events) ==> t.wire == wire)
  {
    hide *;
    var s := Opening(fd, now);
    var t := Run(s, events);
    ModeAgreement(fd, now, events);
    WireOverRuns(fd, now, events);
    OpeningWhole(fd, now);
    if Smooth(s, events) {
      WholeRun(s, events);
    }
    WiresOf(t, Drive(Fresh(""), Cropped(Fresh(""), ReadsOf(s, events))), handler);
  }

  lemma WiresOf(t: History, o: Outcome, handler: (nat, Request) -> Answer)
    requires forall i, r :: ValidAnswer(handler(i, r))
    requires AllValid(t.packages) && Answered(t) && GivenBy(t, handler) && o == Outcome(t.requests, EndingNow(t))
    ensures var wire := Replies(o.requests, 0, handler) + EndingReply(o.ending);
            && (t.wire <= Rendered(t.packages) || t.wire <= Rendered(t.packages) + EndingReply(EndingNow(t)) ==> t.wire <= wire)
            && (t.wire == Rendered(t.packages) ==> t.wire == Replies(o.requests, 0, handler))
            && (Whole(t) && t.gone ==> t.wire == wire)
  {
    hide ValidPackage, Answered, GivenBy, EndingReply, EndingNow, Rendered, Replies, ValidAnswer;
    WireIsReplies(t, handler);
    var all := Rendered(t.packages) + EndingReply(EndingNow(t));
    assert Rendered(t.packages) <= all;
  }

  lemma OpeningWhole(fd: int, now: int)
    ensures Inv(Opening(fd, now)) && Ready(Opening(fd, now)) && AllValid(Opening(fd, now).packages) && Whole(Opening(fd, now))
  {}

  // ----- the client -----

  function Given(answers: seq<Answer>): (nat, Request) -> Answer {
    (i: nat, r: Request) => if i < |answers| then answers[i] else Answer(Plain(200), [])
  }

  function AllExpected(s: History): seq<Received>
    requires Answered(s)
  {
    seq(|s.requests|, k requires 0 <= k < |s.requests| => Client.Expected(s.requests[k], s.answers[k]))
  }

  /** The client can tell where each answer given ends; the last one may end with the connection. */
  ghost predicate AllReadable(s: History) {
    |s.answers| == |s.requests| &&
    forall k | 0 <= k < |s.requests| ::
      Client.Readable(s.requests[k], s.answers[k], k == |s.requests| - 1 && s.gone && !EndingNow(s).Replied?)
  }

  lemma GivenReadable(s: History)
    requires AllValid(s.packages) && Answered(s) && AllReadable(s)
    ensures var handler := Given(s.answers);
            && (forall i, r :: ValidAnswer(handler(i, r)))
            && GivenBy(s, handler)
            && Client.AllReadable(s.requests, 0, handler, s.gone && !EndingNow(s).Replied?)
            && Client.AllExpected(s.requests, 0, handler) == AllExpected(s)
  {
    hide ProcessRequest, Client.Readable, Client.Expected, EndingNow, AllValid;
    var handler := Given(s.answers);
    forall i: nat, r: Request ensures ValidAnswer(handler(i, r)) {
      if i < |s.answers| {
        assert s.packages[i] == ProcessRequest(s.requests[i], s.answers[i]);
        assert handler(i, r) == s.answers[i];
      } else {
        assert handler(i, r) == Answer(Plain(200), []);
      }
    }
  }

  /** A client of the event loop reads, from the wire of a connection that is back in Reading or
      that is gone without a failed send, exactly one response for each request handed on, in
      order, each of them the one the handler gave, and after them the error reply if there is
      one. */
  lemma LoopToClient(fd: int, now: int, events: seq<Event>)
    requires forall i | 0 <= i < |events| :: ValidEvent(events[i])
    requires AllReadable(Run(Opening(fd, now), events))
    ensures var t := Run(Opening(fd, now), events);
            && Answered(t)
            && ((if t.gone then Smooth(Opening(fd, now), events) else t.conn.phase.Reading?) ==>
                  ReadAll(t.wire, Client.Verbs(t.requests) + Client.EndingVerbs(EndingNow(t)))
                  == Some(AllExpected(t) + Client.EndingReceived(EndingNow(t))))
  {
    hide Run, EndingNow, EndingReply, Rendered, Replies, Answered, AllValid, Smooth, AllReadable, AllExpected, Given,
      ReadAll, Client.AllExpected, Client.AllReadable, Client.EndingReceived, Client.EndingVerbs, Client.Verbs;
    var s := Opening(fd, now);
    var t := Run(s, events);
    WireOverRuns(fd, now, events);
    if if t.gone then Smooth(s, events) else t.conn.phase.Reading? {
      if t.gone {
        OpeningWhole(fd, now);
        WholeRun(s, events);
      } else {
        LiveEnding(t);
        assert t.wire + "" == t.wire;
      }
      WholeToClient(t);
    }
  }

  lemma WholeToClient(t: History)
    requires AllValid(t.packages) && Answered(t) && AllReadable(t)
    requires t.wire == Rendered(t.packages) + EndingReply(EndingNow(t))
    requires !t.gone ==> EndingNow(t) == PeerGone
    ensures ReadAll(t.wire, Client.Verbs(t.requests) + Client.EndingVerbs(EndingNow(t)))
         == Some(AllExpected(t) + Client.EndingReceived(EndingNow(t)))
  {
    hide EndingNow, EndingReply, Rendered, Replies, Answered, AllValid, AllReadable, AllExpected, Given, ValidAnswer,
      ReadAll, Client.AllExpected, Client.AllReadable, Client.EndingReceived, Client.EndingVerbs, Client.Verbs;
    var handler := Given(t.answers);
    GivenReadable(t);
    WireIsReplies(t, handler);
    if !EndingNow(t).Replied? {
      Client.ReadableAtEnd(t.requests, 0, handler, t.gone && !EndingNow(t).Replied?);
    }
    Client.SessionToClient(Outcome(t.requests, EndingNow(t)), handler);
  }

  lemma LiveEnding(s: History)
    requires !s.gone && s.conn.phase.Reading?
    ensures EndingNow(s) == PeerGone && EndingReply(EndingNow(s)) == ""
  {}
}
