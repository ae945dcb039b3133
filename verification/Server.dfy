/** The handler joined to the drivers: the blocking driver of
    http/connection/connection_manager.cpp:110-189 over RequestHandler::handle, with the files that
    the answers bring along. */
module Server {
  import opened Text
  import opened Http
  import opened ParserSpec
  import opened RequestParserClass
  import opened HttpResponse
  import opened ConnectionSpec
  import opened Connection
  import opened StaticFile
  import opened CgiChild
  import opened RequestHandler
  import Loop = EventLoop

  /** What the handler finds at the i-th request of a session: the site, whether connections are
      still accepted, the kernel's answers to a CGI run, and the order of the response's headers. */
  datatype Setting = Setting(site: Site, accepting: nat -> bool, world: nat -> World, order: (nat, Request) -> seq<string>)

  ghost predicate ValidSetting(s: Setting) {
    forall i :: s.world(i).pid != 0
  }

  function ActionAt(s: Setting, i: nat, req: Request): Action {
    Decide(s.site, req, s.accepting(i))
  }

  /** The range makes the handler throw; nothing catches that, and the process ends. */
  predicate Crashes(s: Setting, i: nat, req: Request) {
    var action := ActionAt(s, i, req);
    action.ServeFile? && Leaks(action.file, req.headers, action.openFails)
  }

  /** The response of handle while exactly `open` is open. */
  function ResponseAt(s: Setting, open: set<int>, i: nat, req: Request): Option<Response> {
    match ActionAt(s, i, req)
    case Reply(r) => Some(r)
    case RunProgram => Some(CgiResponse(s.world(i), req.verb, req.body))
    case ServeFile(f, openFails) => ContentResponse(f, req.verb, req.headers, openFails, LowestFree(open, 0))
  }

  /** The same as a handler of sessions. */
  function Handler(s: Setting, open: set<int>): (nat, Request) -> Answer {
    (i: nat, req: Request) =>
      var r := ResponseAt(s, open, i, req);
      Answer(if r.Some? then r.value else Plain(500), s.order(i, req))
  }

  lemma ContentInside(f: Resource, verb: Method, headers: Headers, openFails: bool, fd: int)
    ensures var r := ContentResponse(f, verb, headers, openFails, fd);
            r.Some? ==> InsideFile(r.value.file, r.value.fileOffset, r.value.fileSize)
  {
    hide ParseRange, StatusText, Decimal, EntityHeaders, ContentRange, Stamp;
    RangeInside(GetHeader(headers, "range"), |f.content|);
  }

  /** A response made without a file from serve_static_file has none. */
  lemma ReplyNoFile(site: Site, req: Request, accepting: bool)
    ensures Decide(site, req, accepting).Reply? ==> Decide(site, req, accepting).response.file.NoFile?
  {
    hide Paths.ResolvePath, ResolveVhost, HostName, OriginPath, DirOf, Auth.Check, StatusText, FirstRegular, Candidates, Decimal;
  }

  lemma ResponseInside(s: Setting, open: set<int>, i: nat, req: Request)
    ensures var r := ResponseAt(s, open, i, req);
            r.Some? ==> InsideFile(r.value.file, r.value.fileOffset, r.value.fileSize)
  {
    hide Decide, ContentResponse, CgiResponse, LowestFree;
    var action := ActionAt(s, i, req);
    ReplyNoFile(s.site, req, s.accepting(i));
    CgiNoFile(s.world(i), req.verb, req.body);
    if action.ServeFile? { ContentInside(action.file, req.verb, req.headers, action.openFails, LowestFree(open, 0)); }
  }

  lemma HandlerAt(s: Setting, open: set<int>, i: nat, req: Request)
    ensures ValidAnswer(Handler(s, open)(i, req))
    ensures ResponseAt(s, open, i, req).Some? ==>
              Handler(s, open)(i, req) == Answer(ResponseAt(s, open, i, req).value, s.order(i, req))
  {
    hide ResponseAt, StatusText;
    ResponseInside(s, open, i, req);
    var r := ResponseAt(s, open, i, req);
    var a := Answer(if r.Some? then r.value else Plain(500), s.order(i, req));
    assert Handler(s, open)(i, req) == a;
    assert ValidAnswer(a);
  }

  lemma HandlerValid(s: Setting, open: set<int>)
    ensures forall i, req :: ValidAnswer(Handler(s, open)(i, req))
  {
    hide Handler, ValidAnswer;
    forall i: nat, req: Request ensures ValidAnswer(Handler(s, open)(i, req)) {
      HandlerAt(s, open, i, req);
    }
  }

  /** What Carried says of the response and the descriptors. */
  lemma CarriedMeans(s: Setting, i: nat, req: Request, before: FdTable, after: FdTable,
                     calls: seq<ChildCall>, calls': seq<ChildCall>, r: Option<Response>)
    requires Carried(ActionAt(s, i, req), req, s.world(i), before, after, calls, calls', r)
    ensures r == ResponseAt(s, before.open, i, req)
    ensures r.None? <==> Crashes(s, i, req)
    ensures after.clean == before.clean
    ensures r.Some? ==> after.open == before.open + Held(r) && Held(r) !! before.open
  {
    hide Decide, ContentResponse, CgiResponse, LowestFree, Leaks, ChildCalls;
    ReplyNoFile(s.site, req, s.accepting(i));
  }

  /** For the event loop, where the file is opened when the answer is placed: what handle does to
      the descriptors is that, for every action. */
  lemma HandleIsPlaced(s: Setting, i: nat, req: Request, before: FdTable, after: FdTable,
                       calls: seq<ChildCall>, calls': seq<ChildCall>, r: Response, order: seq<string>)
    requires Carried(ActionAt(s, i, req), req, s.world(i), before, after, calls, calls', Some(r))
    ensures Loop.Placed(Answer(r, order), before) == Answer(r, order)
    ensures after.open == (if r.file.OpenFile? then AfterOpen(before).open else before.open) && after.clean == before.clean
  {
    hide Decide, CgiResponse, LowestFree, Leaks, ContentResponse;
    CarriedMeans(s, i, req, before, after, calls, calls', Some(r));
    var action := ActionAt(s, i, req);
    if action.ServeFile? {
      ContentFd(action.file, req.verb, req.headers, action.openFails, LowestFree(before.open, 0));
    } else {
      CgiNoFile(s.world(i), req.verb, req.body);
      ReplyNoFile(s.site, req, s.accepting(i));
    }
  }

  lemma ContentFd(f: Resource, verb: Method, headers: Headers, openFails: bool, fd: int)
    ensures var r := ContentResponse(f, verb, headers, openFails, fd);
            r.Some? && r.value.file.OpenFile? ==> r.value.file == OpenFile(fd, f.content)
  {
    hide ParseRange, StatusText, Decimal, EntityHeaders, ContentRange, Stamp;
  }

  /** One request, from the handler to the wire: handle, process_request and write_response in
      turn. Unless the handler throws, the descriptors are afterwards what they were, whatever the
      sends did; and if no send fails the wire has the rendered answer. */
  method Respond(sock: Socket, kernel: Kernel, children: Children, s: Setting, i: nat, req: Request)
    returns (thrown: bool, close: bool)
    requires ValidSetting(s)
    modifies sock, kernel, children
    ensures thrown <==> Crashes(s, i, req)
    ensures kernel.table.clean == old(kernel.table.clean)
    ensures thrown ==> sock.sent == old(sock.sent) && sock.script == old(sock.script)
    ensures !thrown ==>
              && kernel.table.open == old(kernel.table.open) && close == WantsClose(req)
              && var a := Handler(s, old(kernel.table.open))(i, req);
                 && ValidAnswer(a)
                 && (FailureFree(old(sock.script)) ==>
                       sock.sent == old(sock.sent) + Render(ProcessRequest(req, a)) && FailureFree(sock.script))
  {
    hide Decide, ResponseAt, Render, WantsClose, Closing, LowestFree, Crashes, FailureFree, Carried, HeadersToBytes, ToBytes;
    HandlerValid(s, kernel.table.open);
    ghost var before, calls := kernel.table, children.calls;
    var r := RequestHandler.Handle(kernel, children, s.site, req, s.accepting(i), s.world(i));
    CarriedMeans(s, i, req, before, kernel.table, calls, children.calls, r);
    if r.None? {
      return true, false;
    }
    var a := Answer(r.value, s.order(i, req));
    assert a == Handler(s, before.open)(i, req);
    var pkg := ProcessRequest(req, a);
    FileGivenBack(before, kernel.table, r.value.file);
    ghost var n, m := WriteResponse(sock, kernel, pkg);
    return false, pkg.closeAfter;
  }

  lemma FileGivenBack(before: FdTable, t: FdTable, file: FileHandle)
    requires t.open == before.open + (if file.OpenFile? then {file.fd} else {})
    requires file.OpenFile? ==> file.fd !in before.open
    ensures Closing(t, Descriptors(file)).open == before.open && Closing(t, Descriptors(file)).clean == t.clean
  {
    if file.OpenFile? {
      ClosingOne(t, file.fd);
    }
  }

  // ----- a whole connection -----

  /** No request before the n-th makes the handler throw. */
  predicate AllServed(s: Setting, requests: seq<Request>) {
    forall k | 0 <= k < |requests| :: !Crashes(s, k, requests[k])
  }

  lemma ServedMore(s: Setting, requests: seq<Request>, more: Request)
    requires AllServed(s, requests) && !Crashes(s, |requests|, more)
    ensures AllServed(s, requests + [more])
  {
    hide Crashes;
  }

  lemma FollowingPrefix(served: seq<Request>, o: Outcome, more: Outcome)
    requires o == Following(served, more)
    ensures served <= o.requests
    ensures more.requests != [] ==> |served| < |o.requests| && o.requests[|served|] == more.requests[0]
  {}

  lemma DriveFirst(p: Parser, input: seq<ReadResult>)
    requires p.state.Done?
    ensures Drive(p, input).requests != [] && Drive(p, input).requests[0] == p.request
  {}

  /** What is served of all requests: none of it makes the handler throw, and it is all of them or
      the next one does. */
  predicate UpToThrow(s: Setting, all: seq<Request>, served: seq<Request>, thrown: bool) {
    && served <= all && AllServed(s, served)
    && (thrown <==> |served| < |all|) && (thrown ==> Crashes(s, |served|, all[|served|]))
  }

  lemma AllOfThem(s: Setting, all: seq<Request>)
    requires AllServed(s, all)
    ensures UpToThrow(s, all, all, false)
  {
    hide AllServed, Crashes;
  }

  /** handle_connection with this server's handler. It serves the requests of Drive, in order, up
      to the first that makes the handler throw, if there is one; it ends as Drive does if there is
      none; the descriptors are then what they were; and on a socket that never fails the wire has
      exactly the answers to the requests served, and then the error reply if any. */
  method ServeConnection(sock: Socket, kernel: Kernel, children: Children, s: Setting, input: seq<ReadResult>)
    returns (served: seq<Request>, thrown: bool)
    requires ValidSetting(s)
    modifies sock, kernel, children
    ensures UpToThrow(s, Drive(Fresh(""), input).requests, served, thrown)
    ensures kernel.table.clean == old(kernel.table.clean)
    ensures !thrown ==> kernel.table.open == old(kernel.table.open)
    ensures forall i, r :: ValidAnswer(Handler(s, old(kernel.table.open))(i, r))
    ensures FailureFree(old(sock.script)) ==>
              sock.sent == old(sock.sent) + Replies(served, 0, Handler(s, old(kernel.table.open)))
                           + if thrown then "" else EndingReply(Drive(Fresh(""), input).ending)
  {
    hide Drive, Cap, Scan, Render, ProcessRequest, ErrorReply, EndingReply, Replies, WantsClose, Fresh, Crashes, AllServed, UpToThrow,
      FailureFree, Handler, ValidSetting, Following;
    ghost var open, wire := kernel.table.open, sock.sent;
    HandlerValid(s, open);
    ghost var handler := Handler(s, open);
    NoneServed(s);
    RepliesNone(handler);
    var parser := new RequestParser();
    var next: nat := 0;
    served := [];
    thrown := false;
    assert input[next..] == input;
    FollowingNone(Drive(Fresh(""), input));
    NothingMore(wire);
    while true
      invariant fresh(parser) && next <= |input|
      invariant Drive(Fresh(""), input) == Following(served, Drive(parser.View(), input[next..]))
      invariant kernel.table.open == open && kernel.table.clean == old(kernel.table.clean) && AllServed(s, served)
      invariant FailureFree(old(sock.script)) ==>
                  sock.sent == wire + Replies(served, 0, handler) && FailureFree(sock.script)
      decreases |input| - next, |parser.buffer| + (if parser.state.Done? then 1 else 0)
    {
      var stop;
      next, stop := ReadRequest(parser, input, next);
      if stop.Some? {
        ReplyAtEnd(sock, stop.value, parser.error);
        NoMoreRequests(served, stop.value);
        AllOfThem(s, served);
        return served, false;
      }
      NextServed(served, parser.View(), input, next);
      var req := parser.GetRequest();
      var failed, close := Respond(sock, kernel, children, s, |served|, req);
      NothingMore(wire + Replies(served, 0, handler));
      if failed {
        ThrownAt(s, Drive(Fresh(""), input).requests, served);
        return served, true;
      }
      RepliesAppend(served, req, 0, handler);
      ServedMore(s, served, req);
      served := served + [req];
      NothingMore(wire + Replies(served, 0, handler));
      if close {
        AllOfThem(s, served);
        return served, false;
      }
    }
  }

  lemma ThrownAt(s: Setting, all: seq<Request>, served: seq<Request>)
    requires served <= all && AllServed(s, served) && |served| < |all| && Crashes(s, |served|, all[|served|])
    ensures UpToThrow(s, all, served, true)
  {
    hide AllServed, Crashes;
  }

  lemma NoMoreRequests(served: seq<Request>, e: Ending)
    ensures Following(served, Outcome([], e)) == Outcome(served, e)
  {
    assert served + [] == served;
  }

  /** The driver's next request, and how it goes on after it. */
  lemma NextServed(served: seq<Request>, p: Parser, input: seq<ReadResult>, next: nat)
    requires p.state.Done? && next <= |input| && Drive(Fresh(""), input) == Following(served, Drive(p, input[next..]))
    ensures var all := Drive(Fresh(""), input);
            && served <= all.requests && |served| < |all.requests| && all.requests[|served|] == p.request
            && (WantsClose(p.request) ==> all == Outcome(served + [p.request], CloseAsked))
            && (!WantsClose(p.request) ==> all == Following(served + [p.request], Drive(Next(p), input[next..])))
            && (WantsClose(p.request) ==> EndingReply(all.ending) == "")
            && |Next(p).buffer| + (if Next(p).state.Done? then 1 else 0) <= |p.buffer|
  {
    hide Scan, Cap, WantsClose, ErrorReply;
    DriveFirst(p, input[next..]);
    FollowingPrefix(served, Drive(Fresh(""), input), Drive(p, input[next..]));
    DriveRequest(served, p, input[next..]);
  }

  lemma FollowingNone(o: Outcome)
    ensures Following([], o) == o
  {
    assert [] + o.requests == o.requests;
  }

  lemma NothingMore(s: string)
    ensures s + "" == s
  {}

  lemma NoneServed(s: Setting)
    ensures AllServed(s, [])
  {}
}
