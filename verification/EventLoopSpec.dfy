/** One connection of the event loop (server/select_mode.cpp:84-189) as a function on values,
    and what every run of it keeps. */
module EventLoopSpec {
  import opened Http
  import opened ParserSpec
  import opened HttpResponse
  import opened ConnectionSpec
  import opened Connection

  datatype Phase = Reading | Writing

  /** ConnState; sendfile_fd == -1 is NoFile. */
  datatype Conn = Conn(
    fd: int, parser: Parser, phase: Phase, writeBuf: string, writeOffset: nat, acceptedAt: int,
    closeAfterWrite: bool, file: FileHandle, fileOffset: nat, fileSize: nat)

  function Accepted(fd: int, now: int): Conn {
    Conn(fd, Fresh(""), Reading, "", 0, now, false, NoFile, 0, 0)
  }

  /** reset_conn_to_reading, the close of an open file aside; leftover input is discarded. */
  function BackToReading(c: Conn): Conn {
    Accepted(c.fd, c.acceptedAt)
  }

  /** What a handler call tells the loop: keep the connection, drop it, or drop it after an
      error reply. */
  datatype Verdict = Keep | Drop | Refuse

  function StartWriting(c: Conn, pkg: Package): Conn {
    c.(closeAfterWrite := pkg.closeAfter, writeBuf := pkg.bytes, writeOffset := 0,
       file := pkg.file, fileOffset := pkg.offset, fileSize := pkg.size, phase := Writing)
  }

  /** process_readable; the answer is used only if the read completes a request. */
  function OnReadable(c: Conn, r: ReadResult, a: Answer): (Conn, Verdict) {
    match r
    case ReadError(e) => (c, if e.EAGAIN? then Keep else Drop)
    case Bytes(data) =>
      if data == "" then (c, Drop)
      else
        var p := Feed(c.parser, data);
        if p.state.Done? then
          (StartWriting(c.(parser := Next(p)), ProcessRequest(p.request, a)), Keep)
        else (c.(parser := p), if p.state.Error? then Refuse else Keep)
  }

  /** How a call to process_writable ends. */
  datatype Progress = Blocked | Broken | Complete

  datatype Sending = Sending(conn: Conn, bytes: string, script: seq<SysResult>, progress: Progress)

  predicate ValidConn(c: Conn) {
    c.writeOffset <= |c.writeBuf| && InsideFile(c.file, c.fileOffset, c.fileSize)
  }

  /** The sendfile loop. */
  function SendFile(c: Conn, script: seq<SysResult>): Sending
    requires ValidConn(c) && c.file.OpenFile?
    decreases c.fileSize, |script|
  {
    if c.fileSize == 0 then Sending(c, "", script, Complete)
    else if script != [] && script[0].ret < 0 then
      Sending(c, "", Rest(script), if script[0].errno.EAGAIN? then Blocked else Broken)
    else
      var k := Taken(script, c.fileSize);
      var more := SendFile(c.(fileOffset := c.fileOffset + k, fileSize := c.fileSize - k), Rest(script));
      more.(bytes := c.file.content[c.fileOffset..c.fileOffset + k] + more.bytes)
  }

  /** The two phases of process_writable, before the connection is reset or dropped. */
  function Send(c: Conn, script: seq<SysResult>): Sending
    requires ValidConn(c)
  {
    var left := c.writeBuf[c.writeOffset..];
    var k := if left == "" then 0 else Taken(script, |left|);
    var sent := c.(writeOffset := c.writeOffset + k);
    var rest := if left == "" then script else Rest(script);
    if k < |left| then
      Sending(sent, left[..k], rest, if script[0].ret > 0 || script[0].errno.EAGAIN? then Blocked else Broken)
    else if c.file.NoFile? then Sending(sent, left, rest, Complete)
    else
      var s := SendFile(sent, rest);
      s.(bytes := left + s.bytes)
  }

  /** process_writable. A write that fails leaves the file to the loop's removal; sendfile that
      fails or finishes closes it here. */
  function OnWritable(c: Conn, script: seq<SysResult>): (Conn, Verdict)
    requires ValidConn(c)
  {
    var s := Send(c, script);
    match s.progress
    case Blocked => (s.conn, Keep)
    case Broken => (if s.conn.writeOffset == |c.writeBuf| then s.conn.(file := NoFile) else s.conn, Drop)
    case Complete =>
      if c.closeAfterWrite then (s.conn.(file := NoFile), Drop) else (BackToReading(c), Keep)
  }

  // ----- how a call to process_writable ends -----

  /** n bytes of the file have gone out: all of it, or up to an error, after which the response waits
      or is broken, by whether that is EAGAIN. */
  predicate FileEnds(c: Conn, s: Sending, n: nat, bad: seq<SysResult>)
    requires ValidConn(c) && c.file.OpenFile?
  {
    if bad == [] || c.fileSize <= n then
      s.progress.Complete? && s.bytes == c.file.content[c.fileOffset..c.fileOffset + c.fileSize]
    else
      && s.progress == (if bad[0].errno == EAGAIN then Blocked else Broken)
      && s.bytes == c.file.content[c.fileOffset..c.fileOffset + n]
  }

  /** Exactly: the file goes on by what the calls before the first error take. */
  lemma {:induction false} SendFileUntil(c: Conn, script: seq<SysResult>, bad: seq<SysResult>)
    requires ValidConn(c) && c.file.OpenFile? && forall i | 0 <= i < |script| :: script[i].ret >= 0
    requires bad != [] ==> bad[0].ret < 0
    ensures FileEnds(c, SendFile(c, script + bad), Total(script), bad)
    decreases |script|
  {
    hide SendFile, FileEnds;
    if script == [] || c.fileSize == 0 {
      SendFileBase(c, script, bad);
    } else {
      var all := script + bad;
      assert all[0] == script[0] && all[1..] == script[1..] + bad;
      var k := Taken(all, c.fileSize);
      SendFileStep(c, all);
      SendFileUntil(c.(fileOffset := c.fileOffset + k, fileSize := c.fileSize - k), script[1..], bad);
      FileEndsStep(c, SendFile(c.(fileOffset := c.fileOffset + k, fileSize := c.fileSize - k), all[1..]), k, script, bad);
    }
  }

  lemma FileEndsStep(c: Conn, more: Sending, k: nat, script: seq<SysResult>, bad: seq<SysResult>)
    requires ValidConn(c) && c.file.OpenFile? && script != [] && script[0].ret >= 0 && k == Min(script[0].ret, c.fileSize)
    requires FileEnds(c.(fileOffset := c.fileOffset + k, fileSize := c.fileSize - k), more, Total(script[1..]), bad)
    ensures FileEnds(c, more.(bytes := c.file.content[c.fileOffset..c.fileOffset + k] + more.bytes), Total(script), bad)
  {
    SliceGrows(c.file.content, c.fileOffset, c.fileOffset + k, |more.bytes|);
  }

  lemma SendFileBase(c: Conn, script: seq<SysResult>, bad: seq<SysResult>)
    requires ValidConn(c) && c.file.OpenFile? && (script == [] || c.fileSize == 0)
    requires bad != [] ==> bad[0].ret < 0
    ensures FileEnds(c, SendFile(c, script + bad), Total(script), bad)
  {
    var all := script + bad;
    SendFileStep(c, all);
    if c.fileSize > 0 {
      assert all == bad;
      if bad == [] { SendFileAtOnce(c); }
    }
  }

  lemma SendFileAtOnce(c: Conn)
    requires ValidConn(c) && c.file.OpenFile? && c.fileSize > 0
    ensures var s := SendFile(c, []); s.progress.Complete? && s.bytes == c.file.content[c.fileOffset..c.fileOffset + c.fileSize]
  {
    var done := c.(fileOffset := c.fileOffset + c.fileSize, fileSize := 0);
    assert SendFile(done, []).progress.Complete? && SendFile(done, []).bytes == "";
  }

  /** The buffered bytes first, in one call: if that fails, or takes not all, the call ends there. */
  lemma SendHeadUntil(c: Conn, script: seq<SysResult>)
    requires ValidConn(c) && c.writeOffset < |c.writeBuf| && script != [] && script[0].ret < |c.writeBuf| - c.writeOffset
    ensures var s := Send(c, script);
            && s.bytes == c.writeBuf[c.writeOffset..c.writeOffset + if script[0].ret > 0 then script[0].ret else 0]
            && s.progress == (if script[0].ret > 0 || script[0].errno == EAGAIN then Blocked else Broken)
  {
    var left := c.writeBuf[c.writeOffset..];
    var k := Taken(script, |left|);
    assert left[..k] == c.writeBuf[c.writeOffset..c.writeOffset + k];
  }

  /** When they are out, the file follows in the same call. */
  lemma SendHeadWhole(c: Conn, script: seq<SysResult>)
    requires ValidConn(c)
    requires c.writeOffset < |c.writeBuf| ==> script == [] || script[0].ret >= |c.writeBuf| - c.writeOffset
    ensures var rest := if c.writeOffset == |c.writeBuf| then script else Rest(script);
            var out := c.(writeOffset := |c.writeBuf|);
            var s := Send(c, script);
            if c.file.NoFile? then s.progress.Complete? && s.bytes == c.writeBuf[c.writeOffset..]
            else
              && s.progress == SendFile(out, rest).progress
              && s.bytes == c.writeBuf[c.writeOffset..] + SendFile(out, rest).bytes
  {
    hide SendFile;
  }

  /** The connection is dropped by a call that breaks, and by one that completes a response after
      which the client wants to close; after any other completed response it reads again. */
  lemma WritableEnds(c: Conn, script: seq<SysResult>)
    requires ValidConn(c)
    ensures var (c', v) := OnWritable(c, script);
            var progress := Send(c, script).progress;
            && (v.Drop? <==> progress.Broken? || (progress.Complete? && c.closeAfterWrite))
            && (v.Keep? <==> progress.Blocked? || (progress.Complete? && !c.closeAfterWrite))
            && (progress.Complete? && !c.closeAfterWrite ==> c' == Accepted(c.fd, c.acceptedAt))
            && (progress.Blocked? ==> c' == Send(c, script).conn)
  {
    hide Send;
  }

  // ----- runs -----

  datatype Event =
    | Readable(result: ReadResult, answer: Answer, sends: seq<SysResult>)  // sends: of an error reply
    | Writable(script: seq<SysResult>)
    | Removal                                                              // timeout or loop exit

  predicate ValidEvent(e: Event) {
    e.Readable? ==> ValidAnswer(e.answer)
  }

  /** A connection together with its history: the bytes on the wire, the requests handed to
      process_request, the handler's answers to them and the packages made from both, and the
      descriptors closed. */
  datatype History = History(
    conn: Conn, wire: string, requests: seq<Request>, answers: seq<Answer>, packages: seq<Package>, closed: seq<int>,
    refusal: string, gone: bool)

  function Opening(fd: int, now: int): (s: History)
    ensures Inv(s)
  {
    History(Accepted(fd, now), "", [], [], [], [], "", false)
  }

  /** Removal from conns: the file if one is still open, then the connection. */
  function Remove(s: History): History {
    s.(closed := s.closed + Descriptors(s.conn.file) + [s.conn.fd], conn := s.conn.(file := NoFile), gone := true)
  }

  /** A read in phase Reading. */
  function AfterRead(s: History, r: ReadResult, a: Answer, sends: seq<SysResult>): History
    requires s.conn.phase.Reading?
  {
    var (c, v) := OnReadable(s.conn, r, a);
    var s' := s.(conn := c);
    if c.phase.Writing? then HandOn(s', Feed(s.conn.parser, r.data).request, a)
    else if v.Keep? then s'
    else if v.Drop? then Remove(s')
    else Remove(Reply(s', Written(ErrorReply(c.parser.error), sends)))
  }

  function HandOn(s: History, request: Request, a: Answer): History {
    s.(requests := s.requests + [request], answers := s.answers + [a],
       packages := s.packages + [ProcessRequest(request, a)])
  }

  function Reply(s: History, reply: string): History {
    s.(wire := s.wire + reply, refusal := reply)
  }

  /** A write in phase Writing. */
  function AfterWrite(s: History, script: seq<SysResult>): History
    requires ValidConn(s.conn)
  {
    var (c, v) := OnWritable(s.conn, script);
    var closedNow := if c.file.NoFile? then Descriptors(s.conn.file) else [];
    var s' := s.(conn := c, wire := s.wire + Send(s.conn, script).bytes, closed := s.closed + closedNow);
    if v.Keep? then s' else Remove(s')
  }

  /** One event, as the loop dispatches it: readiness that the phase does not want is ignored,
      and whatever is removed is gone. */
  function Step(s: History, e: Event): History
    requires ValidConn(s.conn)
  {
    if s.gone then s
    else
      match e
      case Removal => Remove(s)
      case Readable(r, a, sends) => if s.conn.phase.Reading? then AfterRead(s, r, a, sends) else s
      case Writable(script) => if s.conn.phase.Writing? then AfterWrite(s, script) else s
  }

  function Rendered(packages: seq<Package>): string
    requires forall i | 0 <= i < |packages| :: ValidPackage(packages[i])
  {
    if packages == [] then ""
    else Rendered(packages[..|packages| - 1]) + Render(packages[|packages| - 1])
  }

  function Opened(packages: seq<Package>): seq<int> {
    if packages == [] then []
    else Opened(packages[..|packages| - 1]) + Descriptors(packages[|packages| - 1].file)
  }

  /** How far a connection is into the package it is sending. */
  predicate Mirrors(c: Conn, pkg: Package) {
    && c.closeAfterWrite == pkg.closeAfter && c.writeBuf == pkg.bytes && c.file == pkg.file
    && c.writeOffset <= |c.writeBuf|
    && pkg.offset <= c.fileOffset && c.fileOffset + c.fileSize == pkg.offset + pkg.size
    && (c.writeOffset < |c.writeBuf| || c.file.NoFile? ==> c.fileOffset == pkg.offset)
  }

  function SentSoFar(c: Conn, pkg: Package): string
    requires ValidPackage(pkg) && Mirrors(c, pkg)
  {
    c.writeBuf[..c.writeOffset] + FileSlice(pkg.file, pkg.offset, c.fileOffset - pkg.offset)
  }

  predicate AllValid(packages: seq<Package>) {
    forall i | 0 <= i < |packages| :: ValidPackage(packages[i])
  }

  /** Each package is what process_request makes of its request and the handler's answer to it. */
  predicate Answered(s: History) {
    && |s.requests| == |s.packages| == |s.answers|
    && forall i | 0 <= i < |s.packages| ::
         ValidAnswer(s.answers[i]) && s.packages[i] == ProcessRequest(s.requests[i], s.answers[i])
  }

  /** How the connection ends, as far as can be seen now. */
  function EndingNow(s: History): Ending {
    if s.conn.phase.Writing? && s.conn.closeAfterWrite then CloseAsked
    else if s.gone && s.conn.phase.Reading? && s.conn.parser.state.Error? then
      Replied(s.conn.parser.error, s.conn.parser.message)
    else PeerGone
  }

  /** The invariant of a live connection. */
  predicate LiveInv(s: History) {
    && AllValid(s.packages) && Answered(s) && s.refusal == ""
    && if s.conn.phase.Reading? then
         && s.conn.file == NoFile && s.conn.writeBuf == "" && s.conn.writeOffset == 0
         && s.conn.fileSize == 0 && s.conn.fileOffset == 0
         && s.wire == Rendered(s.packages)
         && s.closed == Opened(s.packages)
       else
         && s.packages != []
         && var n := |s.packages| - 1;
            && Mirrors(s.conn, s.packages[n])
            && s.wire == Rendered(s.packages[..n]) + SentSoFar(s.conn, s.packages[n])
            && s.closed == Opened(s.packages[..n])
  }

  /** What is left of a removed connection: every body file and then the socket closed once, in
      the order they were opened, and on the wire complete responses, then a prefix of the last
      one, or after complete responses (part of) an error reply. */
  predicate GoneInv(s: History) {
    && AllValid(s.packages) && Answered(s) && s.refusal <= EndingReply(EndingNow(s))
    && s.conn.file == NoFile && s.conn.writeOffset <= |s.conn.writeBuf|
    && s.closed == Opened(s.packages) + [s.conn.fd]
    && (s.refusal != "" ==> s.wire == Rendered(s.packages) + s.refusal)
    && (s.refusal == "" ==>
          || s.wire == Rendered(s.packages)
          || (s.packages != []
              && var n := |s.packages| - 1;
                 && Rendered(s.packages[..n]) <= s.wire
                 && s.wire <= Rendered(s.packages)))
  }

  predicate Inv(s: History) {
    if s.gone then GoneInv(s) else LiveInv(s)
  }

  // ----- proofs -----

  lemma SliceGrows(content: string, from: nat, at: nat, k: nat)
    requires from <= at && at + k <= |content|
    ensures content[from..at] + content[at..at + k] == content[from..at + k]
  {}

  lemma SendFileStep(c: Conn, script: seq<SysResult>)
    requires ValidConn(c) && c.file.OpenFile?
    ensures var s := SendFile(c, script);
            if c.fileSize == 0 || (script != [] && script[0].ret < 0) then
              s.conn == c && s.bytes == "" && (s.progress.Complete? ==> c.fileSize == 0)
            else
              var k := Taken(script, c.fileSize);
              var more := SendFile(c.(fileOffset := c.fileOffset + k, fileSize := c.fileSize - k), Rest(script));
              s == more.(bytes := c.file.content[c.fileOffset..c.fileOffset + k] + more.bytes)
  {}

  /** s sends the next bytes of the package that c is sending, and no more. */
  ghost predicate Advances(c: Conn, s: Sending, pkg: Package)
    requires ValidPackage(pkg) && Mirrors(c, pkg)
  {
    && Mirrors(s.conn, pkg) && s.conn.writeOffset == |s.conn.writeBuf|
    && s.conn == c.(fileOffset := s.conn.fileOffset, fileSize := s.conn.fileSize)
    && SentSoFar(s.conn, pkg) == SentSoFar(c, pkg) + s.bytes
    && (s.progress.Complete? ==> s.conn.fileSize == 0)
  }

  lemma AdvancesStep(c: Conn, pkg: Package, k: nat, more: Sending)
    requires ValidPackage(pkg) && Mirrors(c, pkg) && c.file.OpenFile? && c.writeOffset == |c.writeBuf| && k <= c.fileSize
    ensures ValidConn(c)
    ensures var next := c.(fileOffset := c.fileOffset + k, fileSize := c.fileSize - k);
            Mirrors(next, pkg) &&
            (Advances(next, more, pkg) ==>
               Advances(c, more.(bytes := c.file.content[c.fileOffset..c.fileOffset + k] + more.bytes), pkg))
  {
    hide SentSoFar;
    var next := c.(fileOffset := c.fileOffset + k, fileSize := c.fileSize - k);
    var piece := c.file.content[c.fileOffset..c.fileOffset + k];
    FilePiece(c, pkg, k);
    assert SentSoFar(c, pkg) + piece + more.bytes == SentSoFar(c, pkg) + (piece + more.bytes);
  }

  lemma {:induction false} SendFileProgress(c: Conn, script: seq<SysResult>, pkg: Package)
    requires ValidPackage(pkg) && Mirrors(c, pkg) && c.file.OpenFile? && c.writeOffset == |c.writeBuf|
    ensures ValidConn(c) && Advances(c, SendFile(c, script), pkg)
    decreases c.fileSize, |script|
  {
    hide SendFile, SentSoFar, Mirrors, ValidPackage;
    MirrorsValid(c, pkg);
    SendFileStep(c, script);
    if c.fileSize == 0 || (script != [] && script[0].ret < 0) {
      assert SentSoFar(c, pkg) + "" == SentSoFar(c, pkg);
    } else {
      hide Advances, ValidConn;
      var k := Taken(script, c.fileSize);
      var next := c.(fileOffset := c.fileOffset + k, fileSize := c.fileSize - k);
      FilePiece(c, pkg, k);
      SendFileProgress(next, Rest(script), pkg);
      AdvancesStep(c, pkg, k, SendFile(next, Rest(script)));
    }
  }

  lemma FilePiece(c: Conn, pkg: Package, k: nat)
    requires ValidPackage(pkg) && Mirrors(c, pkg) && c.file.OpenFile? && c.writeOffset == |c.writeBuf|
    requires k <= c.fileSize
    ensures var next := c.(fileOffset := c.fileOffset + k, fileSize := c.fileSize - k);
            && Mirrors(next, pkg)
            && SentSoFar(next, pkg) == SentSoFar(c, pkg) + c.file.content[c.fileOffset..c.fileOffset + k]
  {
    SliceGrows(c.file.content, pkg.offset, c.fileOffset, k);
  }

  lemma WholeSent(c: Conn, pkg: Package)
    requires ValidPackage(pkg) && Mirrors(c, pkg) && c.writeOffset == |c.writeBuf|
    requires c.file.NoFile? || c.fileSize == 0
    ensures SentSoFar(c, pkg) == Render(pkg)
  {
    assert c.writeBuf[..|c.writeBuf|] == c.writeBuf;
  }

  /** A call to process_writable sends exactly the next piece of the package. */
  lemma SendProgress(c: Conn, script: seq<SysResult>, pkg: Package)
    requires ValidPackage(pkg) && Mirrors(c, pkg)
    ensures ValidConn(c)
    ensures var s := Send(c, script);
            && Mirrors(s.conn, pkg)
            && s.conn == c.(writeOffset := s.conn.writeOffset, fileOffset := s.conn.fileOffset, fileSize := s.conn.fileSize)
            && SentSoFar(s.conn, pkg) == SentSoFar(c, pkg) + s.bytes
            && (s.progress.Complete? ==> SentSoFar(s.conn, pkg) == Render(pkg))
  {
    hide SendFile, Taken, SentSoFar, Render;
    var left := c.writeBuf[c.writeOffset..];
    var k := if left == "" then 0 else Taken(script, |left|);
    var sent := c.(writeOffset := c.writeOffset + k);
    var rest := if left == "" then script else Rest(script);
    HeadProgress(c, pkg, k);
    if k == |left| {
      assert left[..k] == left;
      if c.file.OpenFile? {
        SendFileProgress(sent, rest, pkg);
        var more := SendFile(sent, rest);
        assert SentSoFar(c, pkg) + left + more.bytes == SentSoFar(c, pkg) + (left + more.bytes);
        if more.progress.Complete? { WholeSent(more.conn, pkg); }
      } else {
        WholeSent(sent, pkg);
      }
    }
  }

  lemma HeadProgress(c: Conn, pkg: Package, k: nat)
    requires ValidPackage(pkg) && Mirrors(c, pkg) && k <= |c.writeBuf| - c.writeOffset
    ensures var sent := c.(writeOffset := c.writeOffset + k);
            && Mirrors(sent, pkg)
            && SentSoFar(sent, pkg) == SentSoFar(c, pkg) + c.writeBuf[c.writeOffset..][..k]
  {
    var left := c.writeBuf[c.writeOffset..];
    assert c.writeBuf[..c.writeOffset + k] == c.writeBuf[..c.writeOffset] + left[..k];
    if k > 0 {
      assert FileSlice(pkg.file, pkg.offset, c.fileOffset - pkg.offset) == "";
    } else {
      assert left[..0] == "";
      assert SentSoFar(c, pkg) + "" == SentSoFar(c, pkg);
    }
  }

  lemma PackagesPush(packages: seq<Package>, pkg: Package)
    requires AllValid(packages) && ValidPackage(pkg)
    ensures AllValid(packages + [pkg])
    ensures Rendered(packages + [pkg]) == Rendered(packages) + Render(pkg)
    ensures Opened(packages + [pkg]) == Opened(packages) + Descriptors(pkg.file)
  {
    assert (packages + [pkg])[..|packages|] == packages;
  }

  lemma RemoveInv(s: History)
    requires !s.gone && LiveInv(s)
    ensures GoneInv(Remove(s))
  {
    hide Render, Rendered, Opened, SentSoFar, Answered, EndingReply, EndingNow;
    AnsweredKept(s);
    if s.conn.phase.Writing? {
      var n := |s.packages| - 1;
      assert s.packages == s.packages[..n] + [s.packages[n]];
      PackagesPush(s.packages[..n], s.packages[n]);
      SentIsPrefix(s.conn, s.packages[n]);
      assert s.closed + Descriptors(s.conn.file) == Opened(s.packages);
    } else {
      assert s.closed + Descriptors(s.conn.file) == s.closed;
    }
  }

  lemma SentIsPrefix(c: Conn, pkg: Package)
    requires ValidPackage(pkg) && Mirrors(c, pkg)
    ensures SentSoFar(c, pkg) <= Render(pkg)
  {
    if c.writeOffset < |c.writeBuf| || c.file.NoFile? {
      assert FileSlice(pkg.file, pkg.offset, 0) == "";
    } else {
      assert c.writeBuf[..c.writeOffset] == pkg.bytes;
    }
  }

  /** The link between requests and packages is about nothing else. */
  lemma AnsweredKept(s: History)
    requires Answered(s)
    ensures forall t: History |
              t.requests == s.requests && t.answers == s.answers && t.packages == s.packages :: Answered(t)
  {}

  lemma AnsweredMore(s: History, request: Request, a: Answer)
    requires Answered(s) && ValidAnswer(a)
    ensures Answered(HandOn(s, request, a))
  {
    hide ProcessRequest, ValidAnswer;
  }

  lemma HandOnInv(s: History, request: Request, a: Answer, p: Parser)
    requires LiveInv(s) && !s.gone && s.conn.phase.Reading? && ValidAnswer(a)
    ensures LiveInv(HandOn(s.(conn := StartWriting(s.conn.(parser := p), ProcessRequest(request, a))), request, a))
  {
    hide Render, Rendered, ProcessRequest, Opened, SentSoFar, Answered;
    AnsweredKept(s);
    AnsweredMore(s.(conn := StartWriting(s.conn.(parser := p), ProcessRequest(request, a))), request, a);
    var pkg := ProcessRequest(request, a);
    var c := StartWriting(s.conn.(parser := p), pkg);
    var all := s.packages + [pkg];
    PackagesPush(s.packages, pkg);
    assert all[..|s.packages|] == s.packages && all[|s.packages|] == pkg;
    NothingSent(c, pkg);
    assert s.wire + "" == s.wire;
  }

  lemma ReadableInv(s: History, r: ReadResult, a: Answer, sends: seq<SysResult>)
    requires LiveInv(s) && !s.gone && s.conn.phase.Reading? && ValidAnswer(a)
    ensures Inv(AfterRead(s, r, a, sends))
  {
    hide Render, Rendered, Opened, ErrorReply, Written, ProcessRequest, Feed, Next, Answered;
    var (c, v) := OnReadable(s.conn, r, a);
    if c.phase.Writing? {
      var p := Feed(s.conn.parser, r.data);
      HandOnInv(s, p.request, a, Next(p));
    } else {
      AnsweredKept(s);
      WrittenPrefix(ErrorReply(c.parser.error), sends);
      assert LiveInv(s.(conn := c));
      RemoveInv(s.(conn := c));
      if v.Refuse? {
        assert s.closed + [] == s.closed && s.wire + "" == s.wire;
      }
    }
  }

  lemma NothingSent(c: Conn, pkg: Package)
    requires ValidPackage(pkg) && Mirrors(c, pkg) && c.writeOffset == 0 && c.fileOffset == pkg.offset
    ensures SentSoFar(c, pkg) == ""
  {}

  /** What one call to process_writable adds to the wire of a live connection. */
  lemma WireStep(s: History, script: seq<SysResult>)
    requires LiveInv(s) && s.conn.phase.Writing?
    ensures ValidConn(s.conn)
    ensures var n := |s.packages| - 1;
            var pkg := s.packages[n];
            var sending := Send(s.conn, script);
            && Mirrors(sending.conn, pkg)
            && sending.conn == s.conn.(writeOffset := sending.conn.writeOffset,
                                       fileOffset := sending.conn.fileOffset, fileSize := sending.conn.fileSize)
            && s.wire + sending.bytes == Rendered(s.packages[..n]) + SentSoFar(sending.conn, pkg)
            && SentSoFar(sending.conn, pkg) <= Render(pkg)
            && Rendered(s.packages) == Rendered(s.packages[..n]) + Render(pkg)
            && s.closed + Descriptors(pkg.file) == Opened(s.packages)
            && (sending.progress.Complete? ==> s.wire + sending.bytes == Rendered(s.packages))
  {
    hide Render, Rendered, Opened, Send, SentSoFar, Answered;
    var n := |s.packages| - 1;
    var pkg := s.packages[n];
    SendProgress(s.conn, script, pkg);
    var sending := Send(s.conn, script);
    assert s.packages == s.packages[..n] + [pkg];
    PackagesPush(s.packages[..n], pkg);
    assert s.wire + sending.bytes == Rendered(s.packages[..n]) + (SentSoFar(s.conn, pkg) + sending.bytes);
    SentIsPrefix(sending.conn, pkg);
  }

  lemma WritableKept(s: History, script: seq<SysResult>)
    requires LiveInv(s) && !s.gone && s.conn.phase.Writing? && ValidConn(s.conn)
    requires OnWritable(s.conn, script).1.Keep?
    ensures LiveInv(AfterWrite(s, script))
  {
    hide Render, Rendered, Opened, Send, SentSoFar, Answered;
    AnsweredKept(s);
    WireStep(s, script);
    assert s.closed + [] == s.closed;
  }

  lemma PrefixAfter(a: string, b: string, c: string)
    requires b <= c
    ensures a <= a + b <= a + c
  {}

  lemma WritableDropped(s: History, script: seq<SysResult>)
    requires LiveInv(s) && !s.gone && s.conn.phase.Writing? && ValidConn(s.conn)
    requires OnWritable(s.conn, script).1.Drop?
    ensures GoneInv(AfterWrite(s, script))
  {
    hide Render, Rendered, Opened, Send, SentSoFar, Mirrors, Answered, EndingReply, EndingNow;
    AnsweredKept(s);
    WireStep(s, script);
    var n := |s.packages| - 1;
    var sending := Send(s.conn, script);
    PrefixAfter(Rendered(s.packages[..n]), SentSoFar(sending.conn, s.packages[n]), Render(s.packages[n]));
    var (c, v) := OnWritable(s.conn, script);
    var closedNow := if c.file.NoFile? then Descriptors(s.conn.file) else [];
    assert s.conn.file == s.packages[n].file by { MirrorsValid(s.conn, s.packages[n]); }
    assert s.closed + closedNow + Descriptors(c.file) == Opened(s.packages) by {
      assert s.closed + [] == s.closed;
      assert Opened(s.packages) + [] == Opened(s.packages);
    }
    MirrorsValid(sending.conn, s.packages[n]);
  }

  lemma MirrorsValid(c: Conn, pkg: Package)
    requires ValidPackage(pkg) && Mirrors(c, pkg)
    ensures ValidConn(c) && c.file == pkg.file
  {}

  lemma WritableInv(s: History, script: seq<SysResult>)
    requires LiveInv(s) && !s.gone && s.conn.phase.Writing?
    ensures ValidConn(s.conn) && Inv(AfterWrite(s, script))
  {
    LiveValid(s);
    hide LiveInv, GoneInv, Send, ValidConn;
    if OnWritable(s.conn, script).1.Keep? {
      WritableKept(s, script);
    } else {
      WritableDropped(s, script);
    }
  }

  lemma StepInv(s: History, e: Event)
    requires Inv(s) && ValidEvent(e)
    ensures ValidConn(s.conn) && Inv(Step(s, e))
  {
    hide LiveInv, AfterRead, AfterWrite;
    if !s.gone {
      LiveValid(s);
      match e
      case Removal => RemoveInv(s);
      case Readable(r, a, sends) => if s.conn.phase.Reading? { ReadableInv(s, r, a, sends); }
      case Writable(script) => if s.conn.phase.Writing? { WritableInv(s, script); }
    }
  }

  lemma LiveValid(s: History)
    requires LiveInv(s)
    ensures ValidConn(s.conn)
  {}

  /** All events of a run. */
  ghost function Run(s: History, events: seq<Event>): History
    requires Inv(s) && forall i | 0 <= i < |events| :: ValidEvent(events[i])
    decreases |events|
  {
    if events == [] then s
    else
      StepInv(s, events[0]);
      Run(Step(s, events[0]), events[1..])
  }

  /** Every run of a connection, whatever the reads, short writes, short sendfiles and errors,
      keeps the invariant. */
  lemma {:induction false} RunInv(s: History, events: seq<Event>)
    requires Inv(s) && forall i | 0 <= i < |events| :: ValidEvent(events[i])
    ensures Inv(Run(s, events))
    decreases |events|
  {
    if events != [] {
      StepInv(s, events[0]);
      RunInv(Step(s, events[0]), events[1..]);
    }
  }

  /** All packages are a part of the wire's end at most. */
  lemma SentOfLast(s: History)
    requires LiveInv(s) && s.conn.phase.Writing?
    ensures var n := |s.packages| - 1;
            && Rendered(s.packages[..n]) <= s.wire <= Rendered(s.packages)
            && s.closed + Descriptors(s.packages[n].file) == Opened(s.packages)
  {
    hide Render, SentSoFar, Answered;
    var n := |s.packages| - 1;
    assert s.packages == s.packages[..n] + [s.packages[n]];
    PackagesPush(s.packages[..n], s.packages[n]);
    SentIsPrefix(s.conn, s.packages[n]);
  }

  lemma WireOfGone(s: History)
    requires GoneInv(s)
    ensures s.wire <= Rendered(s.packages) + EndingReply(EndingNow(s))
    ensures s.packages != [] ==> Rendered(s.packages[..|s.packages| - 1]) <= s.wire
  {
    hide Render, Rendered, Answered, EndingNow, EndingReply, Opened;
    if s.packages != [] {
      var n := |s.packages| - 1;
      assert s.packages == s.packages[..n] + [s.packages[n]];
      PackagesPush(s.packages[..n], s.packages[n]);
    }
    if s.refusal != "" {
      PrefixAfter(Rendered(s.packages), s.refusal, EndingReply(EndingNow(s)));
    }
  }

  /** The same for a connection from its acceptance, spelled out. The packages are those of the
      requests handed on and of the handler's answers to them, one by one. While the connection
      lives, the complete packages are on the wire in order, followed by the part of the last one
      that is being sent; back in phase Reading all are complete and no descriptor is held. Once
      it is gone, every body file and then the socket has been closed exactly once, and the wire
      is complete packages and a part of the last one, or of the error reply after all of them. */
  lemma WireOverRuns(fd: int, now: int, events: seq<Event>)
    requires forall i | 0 <= i < |events| :: ValidEvent(events[i])
    ensures var s := Run(Opening(fd, now), events);
            && AllValid(s.packages) && Answered(s)
            && (!s.gone && s.conn.phase.Reading? ==>
                  s.wire == Rendered(s.packages) && s.closed == Opened(s.packages)
                  && s.conn.file == NoFile && s.conn.writeBuf == "")
            && (!s.gone && s.conn.phase.Writing? ==>
                  s.packages != []
                  && var pkg := s.packages[|s.packages| - 1];
                     && Rendered(s.packages[..|s.packages| - 1]) <= s.wire <= Rendered(s.packages)
                     && s.conn.fileOffset + s.conn.fileSize == pkg.offset + pkg.size
                     && s.conn.writeOffset <= |s.conn.writeBuf|
                     && s.closed + Descriptors(pkg.file) == Opened(s.packages))
            && (s.gone ==>
                  && s.closed == Opened(s.packages) + [fd]
                  && s.wire <= Rendered(s.packages) + EndingReply(EndingNow(s))
                  && (s.packages != [] ==> Rendered(s.packages[..|s.packages| - 1]) <= s.wire))
  {
    hide Render, Rendered, Opened, SentSoFar, Step, Answered, EndingNow, EndingReply;
    var s := Run(Opening(fd, now), events);
    RunInv(Opening(fd, now), events);
    RunKeepsFd(Opening(fd, now), events);
    if s.gone {
      WireOfGone(s);
    } else if s.conn.phase.Writing? {
      SentOfLast(s);
    }
  }

  lemma StepKeepsFd(s: History, e: Event)
    requires ValidConn(s.conn)
    ensures Step(s, e).conn.fd == s.conn.fd
  {
    hide Feed, Next, ProcessRequest, ErrorReply, Written;
    SendKeepsRest(s.conn, if e.Writable? then e.script else []);
  }

  lemma {:induction false} RunKeepsFd(s: History, events: seq<Event>)
    requires Inv(s) && forall i | 0 <= i < |events| :: ValidEvent(events[i])
    ensures Run(s, events).conn.fd == s.conn.fd
    decreases |events|
  {
    hide Step;
    if events != [] {
      StepInv(s, events[0]);
      StepKeepsFd(s, events[0]);
      RunKeepsFd(Step(s, events[0]), events[1..]);
    }
  }

  // ----- every sender sends the same -----

  lemma {:induction false} SendFileBenign(c: Conn, script: seq<SysResult>)
    requires ValidConn(c) && c.file.OpenFile? && Benign(script)
    ensures !SendFile(c, script).progress.Broken?
    decreases c.fileSize, |script|
  {
    if c.fileSize > 0 && !(script != [] && script[0].ret < 0) {
      var k := Taken(script, c.fileSize);
      SendFileBenign(c.(fileOffset := c.fileOffset + k, fileSize := c.fileSize - k), Rest(script));
    }
  }

  lemma SendBenign(c: Conn, script: seq<SysResult>)
    requires ValidConn(c) && Benign(script)
    ensures !Send(c, script).progress.Broken?
  {
    hide SendFile;
    var left := c.writeBuf[c.writeOffset..];
    var k := if left == "" then 0 else Taken(script, |left|);
    if k == |left| && c.file.OpenFile? {
      SendFileBenign(c.(writeOffset := c.writeOffset + k), if left == "" then script else Rest(script));
    }
  }

  function Writes(scripts: seq<seq<SysResult>>): seq<Event> {
    seq(|scripts|, i requires 0 <= i < |scripts| => Writable(scripts[i]))
  }

  /** The wire up to the end of the last package. */
  predicate LastComplete(packages: seq<Package>, wire: string) {
    && packages != [] && AllValid(packages)
    && wire == Rendered(packages[..|packages| - 1]) + Render(packages[|packages| - 1])
  }

  /** One write that does not fail: the package is complete, or the connection goes on sending it. */
  lemma BenignWrite(s: History, script: seq<SysResult>)
    requires LiveInv(s) && !s.gone && s.conn.phase.Writing? && Benign(script)
    ensures ValidConn(s.conn) && Inv(Step(s, Writable(script)))
    ensures var t := Step(s, Writable(script));
            if t.gone || t.conn.phase.Reading? then LastComplete(s.packages, t.wire) else LiveInv(t) && t.packages == s.packages
  {
    LiveValid(s);
    StepInv(s, Writable(script));
    SendBenign(s.conn, script);
    WireStep(s, script);
    hide Rendered, Render, Send, SentSoFar, Opened, Benign, Answered, Mirrors, LiveInv, GoneInv;
  }

  lemma RunWrites(s: History, scripts: seq<seq<SysResult>>)
    requires Inv(s) && scripts != []
    ensures ValidConn(s.conn) && Inv(Step(s, Writable(scripts[0])))
    ensures Run(s, Writes(scripts)) == Run(Step(s, Writable(scripts[0])), Writes(scripts[1..]))
  {
    hide Inv, Step;
    StepInv(s, Writable(scripts[0]));
    assert Writes(scripts)[0] == Writable(scripts[0]) && Writes(scripts)[1..] == Writes(scripts[1..]);
  }

  lemma {:induction false} WritesRun(s: History, scripts: seq<seq<SysResult>>)
    requires LiveInv(s) && !s.gone && s.conn.phase.Writing?
    requires forall i | 0 <= i < |scripts| :: Benign(scripts[i])
    ensures var t := Run(s, Writes(scripts));
            t.gone || t.conn.phase.Reading? ==> LastComplete(s.packages, t.wire)
    decreases |scripts|
  {
    hide LastComplete, Benign, LiveInv, Step, GoneInv, Writes, Run;
    if scripts != [] {
      RunWrites(s, scripts);
      BenignWrite(s, scripts[0]);
      var t := Step(s, Writable(scripts[0]));
      if !t.gone && t.conn.phase.Writing? {
        WritesRun(t, scripts[1..]);
      } else {
        WritesIdle(t, scripts[1..]);
      }
    } else {
      NoWrites(s);
    }
  }

  lemma NoWrites(s: History)
    requires Inv(s)
    ensures Run(s, Writes([])) == s
  {}

  /** However a benign kernel cuts the writes, a connection that has stopped writing has put
      exactly the rendered package on the wire: what write_response and the TLS sender put there. */
  lemma SendersAgree(s: History, scripts: seq<seq<SysResult>>)
    requires LiveInv(s) && !s.gone && s.conn.phase.Writing?
    requires forall i | 0 <= i < |scripts| :: Benign(scripts[i])
    ensures var t := Run(s, Writes(scripts));
            && AllValid(s.packages)
            && (t.gone || t.conn.phase.Reading? ==>
                  t.wire == Rendered(s.packages[..|s.packages| - 1]) + Render(s.packages[|s.packages| - 1]))
  {
    assert AllValid(s.packages);
    hide Rendered, Render, Run, Benign, Writes, LiveInv;
    WritesRun(s, scripts);
  }

  lemma {:induction false} WritesIdle(s: History, scripts: seq<seq<SysResult>>)
    requires Inv(s) && (s.gone || s.conn.phase.Reading?)
    ensures Run(s, Writes(scripts)) == s
    decreases |scripts|
  {
    hide Inv;
    if scripts != [] {
      assert Writes(scripts)[0] == Writable(scripts[0]) && Writes(scripts)[1..] == Writes(scripts[1..]);
      StepInv(s, Writable(scripts[0]));
      WritesIdle(s, scripts[1..]);
    }
  }

  lemma {:induction false} SendFileKeepsRest(c: Conn, script: seq<SysResult>)
    requires ValidConn(c) && c.file.OpenFile?
    ensures var d := SendFile(c, script).conn; d == c.(fileOffset := d.fileOffset, fileSize := d.fileSize)
    decreases c.fileSize, |script|
  {
    if c.fileSize > 0 && !(script != [] && script[0].ret < 0) {
      var k := Taken(script, c.fileSize);
      SendFileKeepsRest(c.(fileOffset := c.fileOffset + k, fileSize := c.fileSize - k), Rest(script));
    }
  }

  lemma SendKeepsRest(c: Conn, script: seq<SysResult>)
    requires ValidConn(c)
    ensures var d := Send(c, script).conn;
            d == c.(writeOffset := d.writeOffset, fileOffset := d.fileOffset, fileSize := d.fileSize)
  {
    hide SendFile, Taken;
    var left := c.writeBuf[c.writeOffset..];
    var k := if left == "" then 0 else Taken(script, |left|);
    if k == |left| && c.file.OpenFile? {
      SendFileKeepsRest(c.(writeOffset := c.writeOffset + k), if left == "" then script else Rest(script));
    }
  }
}
