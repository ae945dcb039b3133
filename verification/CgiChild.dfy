/** http/handlers/cgi_handler.cpp: the life of a CGI child and of its two pipes, seen from the
    parent, under any answers of the kernel. */
module CgiChild {
  import opened Text
  import opened Http
  import opened HttpResponse
  import opened ConnectionSpec
  import opened Connection
  import opened HttpClient
  import opened ResponseReader
  import opened Cgi

  /** One round of select and, when select reports data, read on the child's stdout. */
  datatype ChildEvent = TimedOut | SelectFailed(errno: Errno) | ReadFailed(errno: Errno) | Output(data: string)

  datatype WaitResult = WaitFailed | ExitedWith(code: int) | Signalled

  /** What the kernel answers during one run_cgi: whether the pipes can be made, fork's result,
      the results of write to the child, the rounds of select and read (when they are used up
      the child has closed its end), and the last waitpid. */
  datatype World = World(
    firstPipe: bool, secondPipe: bool, pid: int, writes: seq<SysResult>, events: seq<ChildEvent>, exit: WaitResult)

  // ----- what reaches the child, and what comes back -----

  /** The bytes the child is sent, and whether all of them were. */
  function FedToChild(body: string, writes: seq<SysResult>): (string, bool)
    decreases |body|, |writes|
  {
    if body == "" then ("", true)
    else if writes == [] then (body, true)
    else if writes[0].ret < 0 then
      if writes[0].errno.EINTR? then FedToChild(body, writes[1..]) else ("", false)
    else
      var k := ParserSpec.Min(writes[0].ret, |body|);
      var more := FedToChild(body[k..], writes[1..]);
      (body[..k] + more.0, more.1)
  }

  /** The child never sees anything but a prefix of the body, and write_post_body_to_child is
      true exactly when that is all of it. */
  lemma {:induction false} FedPrefix(body: string, writes: seq<SysResult>)
    ensures FedToChild(body, writes).0 <= body
    ensures FedToChild(body, writes).1 <==> FedToChild(body, writes).0 == body
    decreases |body|, |writes|
  {
    if body != "" && writes != [] {
      if writes[0].ret < 0 {
        FedPrefix(body, writes[1..]);
      } else {
        var k := ParserSpec.Min(writes[0].ret, |body|);
        FedPrefix(body[k..], writes[1..]);
        assert body == body[..k] + body[k..];
        if FedToChild(body, writes).0 == body {
          assert FedToChild(body[k..], writes[1..]).0 == FedToChild(body, writes).0[k..] == body[k..];
        }
      }
    }
  }

  /** Everything the child printed, unless it hangs or reading fails first. */
  function Collected(events: seq<ChildEvent>): Option<string>
    decreases |events|
  {
    if events == [] || events[0] == Output("") then Some("")
    else
      match events[0]
      case TimedOut => None
      case SelectFailed(e) => if e.EINTR? then Collected(events[1..]) else None
      case ReadFailed(e) => if e.EINTR? then Collected(events[1..]) else None
      case Output(data) => Gathered(data, Collected(events[1..]))
  }

  function Gathered(data: string, more: Option<string>): Option<string> {
    if more.None? then None else Some(data + more.value)
  }

  predicate Harmless(e: ChildEvent) {
    match e
    case TimedOut => false
    case SelectFailed(e) => e.EINTR?
    case ReadFailed(e) => e.EINTR?
    case Output(data) => true
  }

  /** What the child printed up to its end of file. */
  function Printed(events: seq<ChildEvent>): string
    decreases |events|
  {
    if events == [] || events[0] == Output("") then ""
    else (if events[0].Output? then events[0].data else "") + Printed(events[1..])
  }

  /** The rounds before end of file. */
  function BeforeEof(events: seq<ChildEvent>): (n: nat)
    ensures n <= |events|
    decreases |events|
  {
    if events == [] || events[0] == Output("") then 0 else 1 + BeforeEof(events[1..])
  }

  /** Nothing but EINTR goes wrong before end of file. */
  predicate Unbroken(events: seq<ChildEvent>) {
    forall i | 0 <= i < BeforeEof(events) :: Harmless(events[i])
  }

  lemma UnbrokenTail(events: seq<ChildEvent>)
    requires events != [] && events[0] != Output("")
    ensures Unbroken(events) <==> Harmless(events[0]) && Unbroken(events[1..])
  {
    hide Harmless;
    var tail := events[1..];
    assert forall i | 0 <= i < BeforeEof(tail) :: tail[i] == events[i + 1];
    assert forall i | 1 <= i < BeforeEof(events) :: events[i] == tail[i - 1];
    if Unbroken(events) {
      forall i | 0 <= i < BeforeEof(tail) ensures Harmless(tail[i]) {
        assert Harmless(events[i + 1]);
      }
    }
  }

  /** Reading succeeds exactly when nothing but EINTR goes wrong before end of file, and then it
      yields all that was printed, however the reads cut it. */
  lemma {:induction false} CollectedIff(events: seq<ChildEvent>)
    ensures Collected(events) == if Unbroken(events) then Some(Printed(events)) else None
    decreases |events|
  {
    if events != [] && events[0] != Output("") {
      CollectedIff(events[1..]);
      UnbrokenTail(events);
      hide Unbroken;
      assert "" + Printed(events[1..]) == Printed(events[1..]);
    }
  }

  // ----- the calls about the child -----

  datatype ChildCall = Kill(pid: int) | WaitFor(pid: int)

  class Children {
    var calls: seq<ChildCall>

    constructor () ensures calls == [] { calls := []; }

    method Call(c: ChildCall)
      modifies this
      ensures calls == old(calls) + [c]
    {
      calls := calls + [c];
    }
  }

  /** write_post_body_to_child. */
  method WritePostBody(pipe: Socket, kernel: Kernel, children: Children, fd: int, body: string, pid: int) returns (ok: bool)
    modifies pipe, kernel, children
    ensures (pipe.sent, ok) == (old(pipe.sent) + FedToChild(body, old(pipe.script)).0, FedToChild(body, old(pipe.script)).1)
    ensures kernel.table == if ok then old(kernel.table) else Closing(old(kernel.table), [fd])
    ensures children.calls == if ok then old(children.calls) else old(children.calls) + [WaitFor(pid)]
  {
    hide Prefix;
    var written: nat := 0;
    assert body[0..] == body;
    while written < |body|
      invariant written <= |body|
      invariant pipe.sent + FedToChild(body[written..], pipe.script).0 == old(pipe.sent) + FedToChild(body, old(pipe.script)).0
      invariant FedToChild(body[written..], pipe.script).1 == FedToChild(body, old(pipe.script)).1
      invariant kernel.table == old(kernel.table) && children.calls == old(children.calls)
      decreases |body| - written, |pipe.script|
    {
      ghost var before, script := pipe.sent, pipe.script;
      var r := pipe.Write(body[written..]);
      FeedOnce(before, body, written, script, r);
      if r.ret < 0 {
        if r.errno == EINTR {
          continue;
        }
        kernel.Close(fd);
        children.Call(WaitFor(pid));
        return false;
      }
      written := written + r.ret;
    }
    assert body[written..] == "" && pipe.sent + "" == pipe.sent;
    ok := true;
  }

  lemma FeedOnce(wire: string, body: string, at: nat, script: seq<SysResult>, r: SysResult)
    requires at < |body| && r.ret <= |body| - at
    requires script == [] ==> r.ret == |body| - at
    requires script != [] ==> r.errno == script[0].errno
    requires script != [] ==> r.ret == if script[0].ret < |body| - at then script[0].ret else |body| - at
    ensures r.ret < 0 && !r.errno.EINTR? ==> FedToChild(body[at..], script) == ("", false)
    ensures r.ret < 0 && r.errno.EINTR? ==>
              FedToChild(body[at..], script) == FedToChild(body[at..], Rest(script)) && Prefix(body[at..], r.ret) == ""
    ensures r.ret >= 0 ==>
              && wire + FedToChild(body[at..], script).0
                 == wire + Prefix(body[at..], r.ret) + FedToChild(body[at + r.ret..], Rest(script)).0
              && FedToChild(body[at..], script).1 == FedToChild(body[at + r.ret..], Rest(script)).1
  {
    if r.ret >= 0 {
      assert body[at..][r.ret..] == body[at + r.ret..];
      assert Prefix(body[at..], r.ret) == body[at..][..r.ret];
    }
  }

  /** read_child_output. */
  method ReadOutput(children: Children, pid: int, events: seq<ChildEvent>) returns (out: Option<string>)
    modifies children
    ensures out == Collected(events)
    ensures children.calls == old(children.calls) + if out.Some? then [] else [Kill(pid), WaitFor(pid)]
  {
    var collected, next := "", 0;
    assert events[0..] == events;
    GatheredNothing(Collected(events));
    while next < |events| && events[next] != Output("")
      invariant next <= |events|
      invariant Collected(events) == Gathered(collected, Collected(events[next..]))
      invariant children.calls == old(children.calls)
    {
      var e := events[next];
      CollectOnce(collected, events, next);
      if !Harmless(e) {
        children.Call(Kill(pid));
        children.Call(WaitFor(pid));
        return None;
      }
      if e.Output? {
        collected := collected + e.data;
      }
      next := next + 1;
    }
    assert collected + "" == collected;
    out := Some(collected);
  }

  lemma GatheredNothing(r: Option<string>)
    ensures Gathered("", r) == r
  {
    if r.Some? {
      assert "" + r.value == r.value;
    }
  }

  lemma CollectOnce(collected: string, events: seq<ChildEvent>, at: nat)
    requires at < |events| && events[at] != Output("")
    ensures !Harmless(events[at]) ==> Gathered(collected, Collected(events[at..])) == None
    ensures Harmless(events[at]) ==>
              Gathered(collected, Collected(events[at..])) ==
              Gathered(collected + if events[at].Output? then events[at].data else "", Collected(events[at + 1..]))
  {
    assert events[at..][1..] == events[at + 1..];
    if events[at].Output? && Collected(events[at + 1..]).Some? {
      var d, m := events[at].data, Collected(events[at + 1..]).value;
      assert collected + (d + m) == collected + d + m;
    }
    assert collected + "" == collected;
  }

  // ----- run_cgi -----

  predicate Distinct(s: seq<int>) {
    forall i, j | 0 <= i < j < |s| :: s[i] != s[j]
  }

  /** Since `before`, exactly n descriptors were opened, all were closed again once each, no
      other close was called, and nothing is left open. */
  ghost predicate Balanced(before: FdTable, after: FdTable, n: nat) {
    && after.open == before.open && after.clean == before.clean
    && |after.closes| == |before.closes| + n && before.closes <= after.closes
    && Distinct(after.closes[|before.closes|..])
    && forall fd | fd in after.closes[|before.closes|..] :: fd !in before.open
  }

  lemma BalancedIf(before: FdTable, after: FdTable, ends: seq<int>)
    requires Distinct(ends) && forall fd | fd in ends :: fd !in before.open
    requires after == before.(closes := before.closes + ends)
    ensures Balanced(before, after, |ends|)
  {
    assert after.closes[|before.closes|..] == ends;
  }

  predicate AllDifferent(a: int, b: int, c: int, d: int) {
    a != b && a != c && a != d && b != c && b != d && c != d
  }

  /** Closing four new descriptors, in any order, balances. */
  lemma CloseFour(before: FdTable, a: int, b: int, c: int, d: int)
    requires AllDifferent(a, b, c, d) && {a, b, c, d} !! before.open
    ensures Balanced(before, Closing(Closing(Closing(Closing(before.(open := before.open + {a, b, c, d}), [a]), [b]), [c]), [d]), 4)
  {
    var t := before.(open := before.open + {a, b, c, d});
    ClosingOne(t, a);
    var t1 := Closing(t, [a]);
    ClosingOne(t1, b);
    var t2 := Closing(t1, [b]);
    ClosingOne(t2, c);
    var t3 := Closing(t2, [c]);
    ClosingOne(t3, d);
    var t4 := Closing(t3, [d]);
    assert t4.open == before.open;
    assert t4.closes == before.closes + [a, b, c, d];
    BalancedIf(before, t4, [a, b, c, d]);
  }

  /** setup_cgi_pipes. */
  method SetupPipes(kernel: Kernel, firstPipe: bool, secondPipe: bool)
    returns (ok: bool, in0: int, in1: int, out0: int, out1: int)
    modifies kernel
    ensures ok <==> firstPipe && secondPipe
    ensures !ok ==> Balanced(old(kernel.table), kernel.table, if firstPipe then 2 else 0)
    ensures ok ==>
              && kernel.table == old(kernel.table).(open := old(kernel.table.open) + {in0, in1, out0, out1})
              && AllDifferent(in0, in1, out0, out1) && {in0, in1, out0, out1} !! old(kernel.table.open)
  {
    hide LowestFree, Balanced;
    ok, in0, in1, out0, out1 := false, -1, -1, -1, -1;
    if !firstPipe {
      BalancedIf(old(kernel.table), kernel.table, []);
      return;
    }
    in0 := kernel.Open();
    in1 := kernel.Open();
    if !secondPipe {
      kernel.Close(in0);
      kernel.Close(in1);
      assert kernel.table.open == old(kernel.table.open);
      BalancedIf(old(kernel.table), kernel.table, [in0, in1]);
      return;
    }
    out0 := kernel.Open();
    out1 := kernel.Open();
    ok := true;
  }

  function PipeEnds(w: World): nat {
    if !w.firstPipe then 0 else if !w.secondPipe then 2 else 4
  }

  predicate Forked(w: World) {
    w.firstPipe && w.secondPipe && w.pid > 0
  }

  /** The POST body did not reach the child whole. */
  predicate BodyLost(w: World, verb: Method, body: string) {
    verb.POST? && !FedToChild(body, w.writes).1
  }

  /** The calls that a run makes about its child. */
  function ChildCalls(w: World, verb: Method, body: string): seq<ChildCall> {
    if !Forked(w) then []
    else if !BodyLost(w, verb, body) && Collected(w.events).None? then [Kill(w.pid), WaitFor(w.pid)]
    else [WaitFor(w.pid)]
  }

  function CgiResponse(w: World, verb: Method, body: string): Response {
    if !Forked(w) || BodyLost(w, verb, body) then Plain(500)
    else if Collected(w.events).None? then Plain(504)
    else if w.exit != ExitedWith(0) then Plain(502)
    else ParseCgiOutput(Collected(w.events).value)
  }

  /** run_cgi, on the parent's side. Whatever the kernel answers, every pipe end is closed once;
      a child that was forked is waited for once, last of all, and killed before that only when
      its output could not be read. `given` is what the child could read. */
  method RunCgi(kernel: Kernel, children: Children, w: World, verb: Method, body: string)
    returns (r: Response, given: string)
    requires w.pid != 0 // 0 is the child's side
    modifies kernel, children
    ensures r == CgiResponse(w, verb, body)
    ensures Balanced(old(kernel.table), kernel.table, PipeEnds(w))
    ensures children.calls == old(children.calls) + ChildCalls(w, verb, body)
    ensures given == if Forked(w) && verb.POST? then FedToChild(body, w.writes).0 else ""
  {
    hide LowestFree, Balanced, Closing, FedToChild, Collected, ParseCgiOutput, StatusText;
    given := "";
    var ok, in0, in1, out0, out1 := SetupPipes(kernel, w.firstPipe, w.secondPipe);
    if !ok {
      return Plain(500), given;
    }
    if w.pid < 0 {
      kernel.Close(in0);
      kernel.Close(in1);
      kernel.Close(out0);
      kernel.Close(out1);
      CloseFour(old(kernel.table), in0, in1, out0, out1);
      return Plain(500), given;
    }
    CloseFour(old(kernel.table), in0, out1, in1, out0);
    assert {in0, in1, out0, out1} == {in0, out1, in1, out0};
    kernel.Close(in0);
    kernel.Close(out1);
    if verb.POST? {
      var pipe := new Socket(w.writes);
      var written := WritePostBody(pipe, kernel, children, in1, body, w.pid);
      given := pipe.sent;
      if !written {
        kernel.Close(out0);
        return Plain(500), given;
      }
    }
    kernel.Close(in1);
    var output := ReadOutput(children, w.pid, w.events);
    kernel.Close(out0);
    if output.None? {
      return Plain(504), given;
    }
    children.Call(WaitFor(w.pid));
    if w.exit != ExitedWith(0) {
      return Plain(502), given;
    }
    r := ParseOutput(output.value);
  }

  lemma {:induction false} LinesNoFile(r: Response, lines: seq<string>)
    requires r.file.NoFile?
    ensures OnCgiLines(r, lines).file.NoFile?
    decreases |lines|
  {
    hide ParseHeaderLine, StatusOf, Dropped;
    if lines != [] {
      LinesNoFile(OnCgiLine(r, Chomp(lines[0])), lines[1..]);
    }
  }

  lemma ParsedNoFile(output: string)
    ensures ParseCgiOutput(output).file.NoFile?
  {
    hide CutHead, Split, OnCgiLines, StatusText;
    var cut := CutHead(output);
    if cut.Some? {
      LinesNoFile(Plain(200), Split(cut.value.0, '\n'));
    }
  }

  lemma CgiNoFile(w: World, verb: Method, body: string)
    ensures CgiResponse(w, verb, body).file.NoFile?
  {
    hide FedToChild, Collected, ParseCgiOutput, StatusText;
    if Collected(w.events).Some? {
      ParsedNoFile(Collected(w.events).value);
    }
  }

  // ----- which end of a child gives which answer -----

  /** Of these rounds one goes wrong: no data in time, or an error that is not EINTR. */
  predicate Breaks(rounds: seq<ChildEvent>) {
    exists i | 0 <= i < |rounds| ::
      || rounds[i].TimedOut?
      || (rounds[i].SelectFailed? && rounds[i].errno != EINTR)
      || (rounds[i].ReadFailed? && rounds[i].errno != EINTR)
  }

  lemma {:induction false} EofAfter(rounds: seq<ChildEvent>, rest: seq<ChildEvent>)
    requires Output("") !in rounds && (rest == [] || rest[0] == Output(""))
    ensures BeforeEof(rounds + rest) == |rounds|
    decreases |rounds|
  {
    if rounds == [] {
      assert rounds + rest == rest;
    } else {
      assert (rounds + rest)[1..] == rounds[1..] + rest && (rounds + rest)[0] == rounds[0];
      EofAfter(rounds[1..], rest);
    }
  }

  lemma UnbrokenIff(rounds: seq<ChildEvent>, rest: seq<ChildEvent>)
    requires Output("") !in rounds && (rest == [] || rest[0] == Output(""))
    ensures Unbroken(rounds + rest) <==> !Breaks(rounds)
  {
    EofAfter(rounds, rest);
    hide BeforeEof;
    assert forall i | 0 <= i < |rounds| :: (rounds + rest)[i] == rounds[i];
  }

  lemma PrintedHead(output: string)
    ensures CutHead(output).None? ==> ParseCgiOutput(output) == Plain(500)
    ensures CutHead(output).Some? ==> IsChunked(ParseCgiOutput(output).headers)
  {
    if CutHead(output).Some? {
      hide CutHead, ParseCgiOutput;
      ParsedShape(output);
    }
  }

  lemma PlainCodes()
    ensures !IsChunked(map[])
    ensures Plain(500).code == 500 && Plain(502).code == 502 && Plain(504).code == 504
  {
    hide StatusText;
  }

  /** `rounds` are those before the end of the child's output. The answer is 500 exactly if there is
      no child, or its body does not reach it whole, or it ends well without a blank line in what it
      printed; 504 exactly if a round goes wrong; 502 exactly if none does and the child does not exit
      with 0; and its output, parsed, in every other case. */
  lemma RunOutcome(w: World, verb: Method, body: string, rounds: seq<ChildEvent>, rest: seq<ChildEvent>)
    requires w.events == rounds + rest && Output("") !in rounds && (rest == [] || rest[0] == Output(""))
    ensures var r := CgiResponse(w, verb, body);
            var reached := Forked(w) && (verb.POST? ==> FedToChild(body, w.writes).0 == body);
            var ended := reached && !Breaks(rounds) && w.exit == ExitedWith(0);
            var blank := Find(Printed(w.events), "\r\n\r\n") < |Printed(w.events)| || Find(Printed(w.events), "\n\n") < |Printed(w.events)|;
            && (r == Plain(500) <==> !reached || (ended && !blank))
            && (r == Plain(504) <==> reached && Breaks(rounds))
            && (r == Plain(502) <==> reached && !Breaks(rounds) && w.exit != ExitedWith(0))
            && (ended && blank ==> r == ParseCgiOutput(Printed(w.events)))
  {
    FedPrefix(body, w.writes);
    CollectedIff(w.events);
    UnbrokenIff(rounds, rest);
    var output := Printed(w.events);
    BlankIff(output);
    PrintedHead(output);
    PlainCodes();
    hide FedToChild, Collected, Printed, Breaks, Unbroken, ParseCgiOutput, CutHead, StatusText, IsChunked, Find;
  }

  lemma BlankIff(output: string)
    ensures CutHead(output).Some? <==> Find(output, "\r\n\r\n") < |output| || Find(output, "\n\n") < |output|
  {
    hide Find;
  }

  /** The calls about a child: none without one; else it is waited for once, last of all, and killed
      before that exactly if the body reached it and a round went wrong. */
  lemma RunCalls(w: World, verb: Method, body: string, rounds: seq<ChildEvent>, rest: seq<ChildEvent>)
    requires w.events == rounds + rest && Output("") !in rounds && (rest == [] || rest[0] == Output(""))
    ensures var calls := ChildCalls(w, verb, body);
            var reached := verb.POST? ==> FedToChild(body, w.writes).0 == body;
            && (!Forked(w) ==> calls == [])
            && (Forked(w) && reached && Breaks(rounds) ==> calls == [Kill(w.pid), WaitFor(w.pid)])
            && (Forked(w) && !(reached && Breaks(rounds)) ==> calls == [WaitFor(w.pid)])
  {
    FedPrefix(body, w.writes);
    CollectedIff(w.events);
    UnbrokenIff(rounds, rest);
    hide FedToChild, Collected, Printed, Breaks, Unbroken;
  }

  /** Up to the first error that is not EINTR the child gets what the writes take, in order, and after
      it nothing; without one it gets the whole body. */
  lemma {:induction false} FedUntil(body: string, writes: seq<SysResult>, bad: seq<SysResult>)
    requires forall i | 0 <= i < |writes| :: writes[i].ret >= 0 || writes[i].errno == EINTR
    requires bad != [] ==> bad[0].ret < 0 && bad[0].errno != EINTR
    ensures FedToChild(body, writes + bad).0 ==
            if bad == [] || |body| <= Total(writes) then body else body[..Total(writes)]
    decreases |writes|
  {
    if writes == [] {
      assert writes + bad == bad;
    } else if body != "" {
      assert (writes + bad)[0] == writes[0] && (writes + bad)[1..] == writes[1..] + bad;
      var k := if writes[0].ret < 0 then 0 else ParserSpec.Min(writes[0].ret, |body|);
      FedUntil(body[k..], writes[1..], bad);
      CutPiece(body, k, Total(writes[1..]));
      assert body[0..] == body && body[..0] == "";
    }
  }

  /** A child that is run, reads the whole body, prints h, a blank line and b in whatever pieces,
      and exits with 0: the client reads b, exactly if the lines of h are good for that. */
  lemma CgiEndToEnd(w: World, req: Request, h: string, b: string, order: seq<string>, tail: string)
    requires Forked(w) && w.exit == ExitedWith(0)
    requires req.verb.POST? ==> FedToChild(req.body, w.writes).0 == req.body
    requires Unbroken(w.events)
    requires Printed(w.events) == h + BLANK_LINE + b && Find(h + BLANK_LINE + b, BLANK_LINE) == |h|
    ensures var r := CgiResponse(w, req.verb, req.body);
            Enumerates(order, Connected(req, r.headers)) ==>
              && ValidAnswer(Answer(r, order))
              && (GoodLines(Split(h, '\n'), req.verb) <==>
                    ReadAnswer(req.verb, Render(ProcessRequest(req, Answer(r, order))) + tail)
                    == Some((Received(r.code, r.message, FieldsOf(Connected(req, r.headers), order), b), tail)))
  {
    hide ReadAnswer, Render, ProcessRequest, ParseCgiOutput, Connected, Find, Enumerates, FedToChild, Collected, GoodLines, Split,
      FieldsOf;
    CollectedIff(w.events);
    FedPrefix(req.body, w.writes);
    if Enumerates(order, Connected(req, ParseCgiOutput(h + BLANK_LINE + b).headers)) {
      CgiToClient(h, b, req, order, tail);
    }
  }
}
