/** http/connection/connection_manager.cpp: response packages, the blocking senders and the
    blocking driver of one connection. */
module Connection {
  import opened Text
  import opened Http
  import opened ParserSpec
  import opened RequestParserClass
  import opened HttpResponse
  import opened ConnectionSpec

  /** ResponsePackage: bytes first, then `size` bytes of the file from `offset`. */
  datatype Package = Package(bytes: string, closeAfter: bool, file: FileHandle, offset: nat, size: nat)

  /** The served file keeps its length: the range lies inside what it holds. */
  predicate InsideFile(file: FileHandle, offset: nat, size: nat) {
    file.OpenFile? ==> offset + size <= |file.content|
  }

  function FileSlice(file: FileHandle, offset: nat, size: nat): string
    requires InsideFile(file, offset, size)
  {
    if file.NoFile? then "" else file.content[offset..offset + size]
  }

  predicate ValidPackage(pkg: Package) {
    InsideFile(pkg.file, pkg.offset, pkg.size)
  }

  /** What a package means on the wire. */
  function Render(pkg: Package): (s: string)
    requires ValidPackage(pkg)
  {
    pkg.bytes + FileSlice(pkg.file, pkg.offset, pkg.size)
  }

  /** A handler's response and the order in which its header map happens to be walked. */
  datatype Answer = Answer(response: Response, order: seq<string>)

  predicate ValidAnswer(a: Answer) {
    InsideFile(a.response.file, a.response.fileOffset, a.response.fileSize)
  }

  /** process_request, after the handler has answered. */
  function ProcessRequest(req: Request, a: Answer): (pkg: Package)
    ensures pkg.closeAfter == WantsClose(req)
    ensures pkg.file == a.response.file
    ensures ValidAnswer(a) ==> ValidPackage(pkg)
  {
    var resp := a.response.(headers :=
      a.response.headers["Connection" := if WantsClose(req) then "close" else "keep-alive"]);
    if resp.file.OpenFile? then
      Package(HeadersToBytes(resp, a.order), WantsClose(req), resp.file, resp.fileOffset, resp.fileSize)
    else
      Package(ToBytes(resp, a.order), WantsClose(req), NoFile, 0, 0)
  }

  /** The error reply of both drivers. */
  function ErrorReply(e: ParseError): string {
    var code := if e.PayloadTooLarge? then 413 else 400;
    ToBytes(Plain(code).(headers := map["Connection" := "close"]), ["Connection"])
  }

  // ----- the kernel's side -----

  /** A system call's return value and errno. */
  datatype SysResult = Sys(ret: int, errno: Errno)

  predicate FailureFree(script: seq<SysResult>) {
    forall i | 0 <= i < |script| :: script[i].ret > 0
  }

  /** Some bytes are taken, or the caller is asked to come back later. */
  predicate Benign(script: seq<SysResult>) {
    forall i | 0 <= i < |script| :: script[i].ret > 0 || (script[i].ret < 0 && script[i].errno.EAGAIN?)
  }

  function Prefix(s: string, n: int): string {
    if n <= 0 then "" else if n >= |s| then s else s[..n]
  }

  /** A connected socket. `script` holds the kernel's coming answers to write and sendfile:
      a positive count is cut to what was offered; when the script is used up, the kernel
      takes everything. `sent` is the wire. */
  class Socket {
    var sent: string
    var script: seq<SysResult>

    constructor (script: seq<SysResult>)
      ensures sent == "" && this.script == script
    {
      this.sent, this.script := "", script;
    }

    method Write(data: string) returns (r: SysResult)
      modifies this
      ensures sent == old(sent) + Prefix(data, r.ret) && r.ret <= |data|
      ensures r.ret <= 0 ==> sent == old(sent)
      ensures old(script) == [] ==> r.ret == |data| && script == []
      ensures old(script) != [] ==>
                && script == old(script)[1..] && r.errno == old(script)[0].errno
                && r.ret == if old(script)[0].ret < |data| then old(script)[0].ret else |data|
    {
      if script == [] {
        r := Sys(|data|, OtherErrno);
      } else {
        r := script[0];
        if r.ret > |data| { r := r.(ret := |data|); }
        script := script[1..];
      }
      sent := sent + Prefix(data, r.ret);
    }
  }

  /** The process's descriptors: those open, the calls to close in order, and whether every one
      of those calls named a descriptor that was open. */
  datatype FdTable = FdTable(open: set<int>, closes: seq<int>, clean: bool)

  function Closing(t: FdTable, fds: seq<int>): FdTable
    decreases |fds|
  {
    if fds == [] then t
    else Closing(FdTable(t.open - {fds[0]}, t.closes + [fds[0]], t.clean && fds[0] in t.open), fds[1..])
  }

  /** open(2) and accept(2) give the lowest descriptor that is free. */
  function LowestFree(open: set<int>, from: nat): (fd: nat)
    ensures fd !in open
    decreases |set fd | fd in open && fd >= from|
  {
    if from !in open then from
    else
      assert (set fd | fd in open && fd >= from) == (set fd | fd in open && fd >= from + 1) + {from};
      LowestFree(open, from + 1)
  }

  function AfterOpen(t: FdTable): FdTable {
    t.(open := t.open + {LowestFree(t.open, 0)})
  }

  class Kernel {
    var table: FdTable

    constructor () ensures table == FdTable({}, [], true) { table := FdTable({}, [], true); }

    method Close(fd: int)
      modifies this
      ensures table == Closing(old(table), [fd])
    {
      table := FdTable(table.open - {fd}, table.closes + [fd], table.clean && fd in table.open);
    }

    method Open() returns (fd: int)
      modifies this
      ensures fd == LowestFree(old(table).open, 0) && table == AfterOpen(old(table))
    {
      fd := LowestFree(table.open, 0);
      table := table.(open := table.open + {fd});
    }
  }

  function Descriptors(file: FileHandle): seq<int> {
    if file.OpenFile? then [file.fd] else []
  }

  // ----- blocking senders -----

  /** What the kernel's next answer takes of n bytes offered; no answer left takes them all. */
  function Taken(script: seq<SysResult>, n: nat): (k: nat)
    ensures k <= n
  {
    if script == [] then n
    else if script[0].ret <= 0 then 0
    else Min(script[0].ret, n)
  }

  function Rest(script: seq<SysResult>): seq<SysResult> {
    if script == [] then [] else script[1..]
  }

  /** What write_all gets onto the wire: it stops at the first result that is not positive. */
  function Written(data: string, script: seq<SysResult>): string
    decreases |data|, |script|
  {
    var k := Taken(script, |data|);
    if k == 0 then "" else data[..k] + Written(data[k..], Rest(script))
  }

  lemma {:induction false} WrittenPrefix(data: string, script: seq<SysResult>)
    ensures Written(data, script) <= data
    ensures FailureFree(script) ==> Written(data, script) == data
    decreases |data|
  {
    var k := Taken(script, |data|);
    if k > 0 {
      WrittenPrefix(data[k..], Rest(script));
      assert data == data[..k] + data[k..];
    }
  }

  /** What the calls take together, as far as they take anything. */
  function Total(script: seq<SysResult>): nat {
    if script == [] then 0 else (if script[0].ret > 0 then script[0].ret else 0) + Total(script[1..])
  }

  lemma CutPiece(s: string, k: nat, n: nat)
    requires k <= |s|
    ensures s[..k] + s[k..] == s
    ensures n <= |s| - k ==> s[..k] + s[k..][..n] == s[..k + n]
  {}

  /** Exactly: what the calls before the first that fails take, and nothing after it. */
  lemma {:induction false} WrittenUntil(data: string, script: seq<SysResult>, bad: seq<SysResult>)
    requires FailureFree(script) && (bad != [] ==> bad[0].ret <= 0)
    ensures Written(data, script + bad) == if bad == [] || |data| <= Total(script) then data else data[..Total(script)]
    decreases |script|
  {
    if script == [] {
      assert script + bad == bad;
      WrittenPrefix(data, bad);
      assert data[..0] == "";
    } else if data != "" {
      var all := script + bad;
      assert all[0] == script[0] && all[1..] == script[1..] + bad;
      var k := Taken(all, |data|);
      WrittenUntil(data[k..], script[1..], bad);
      CutPiece(data, k, Total(script[1..]));
    }
  }

  /** write_all. */
  method WriteAll(sock: Socket, data: string)
    modifies sock
    ensures sock.sent == old(sock.sent) + Written(data, old(sock.script))
    ensures FailureFree(old(sock.script)) ==> FailureFree(sock.script)
  {
    hide Prefix, Written, FailureFree;
    var sent: nat := 0;
    assert data[0..] == data;
    while sent < |data|
      invariant sent <= |data|
      invariant sock.sent + Written(data[sent..], sock.script) == old(sock.sent) + Written(data, old(sock.script))
      invariant FailureFree(old(sock.script)) ==> FailureFree(sock.script)
    {
      ghost var before, script := sock.sent, sock.script;
      FailureFreeStep(script);
      var r := sock.Write(data[sent..]);
      WriteOnce(before, data, sent, script, r.ret);
      if r.ret <= 0 {
        return;
      }
      sent := sent + r.ret;
    }
    assert Written(data[sent..], sock.script) == "" by { WrittenPrefix(data[sent..], sock.script); }
  }

  lemma WriteOnce(wire: string, data: string, at: nat, script: seq<SysResult>, ret: int)
    requires at < |data| && ret <= |data| - at
    requires script == [] ==> ret == |data| - at
    requires script != [] ==> ret == if script[0].ret < |data| - at then script[0].ret else |data| - at
    ensures ret <= 0 ==> Written(data[at..], script) == ""
    ensures ret > 0 ==>
              wire + Written(data[at..], script) == wire + Prefix(data[at..], ret) + Written(data[at + ret..], Rest(script))
  {
    if ret > 0 {
      assert data[at..][ret..] == data[at + ret..];
      assert Prefix(data[at..], ret) == data[at..][..ret];
    }
  }

  lemma FailureFreeStep(script: seq<SysResult>)
    ensures FailureFree(script) && script != [] ==> script[0].ret > 0 && FailureFree(script[1..])
  {}

  /** How much of a file range goes out: a call that fails ends it, unless with EAGAIN or EINTR. */
  function Streamed(size: nat, script: seq<SysResult>): (m: nat)
    ensures m <= size
    decreases |script|
  {
    if size == 0 || script == [] then size
    else if script[0].ret > 0 then
      var k := Min(script[0].ret, size);
      k + Streamed(size - k, script[1..])
    else if script[0].ret < 0 && !script[0].errno.EAGAIN? && !script[0].errno.EINTR? then 0
    else Streamed(size, script[1..])
  }

  /** Exactly: what the calls before the first such failure take; all of it without one. */
  lemma {:induction false} StreamedUntil(size: nat, script: seq<SysResult>, bad: seq<SysResult>)
    requires forall i | 0 <= i < |script| :: script[i].ret >= 0 || script[i].errno == EAGAIN || script[i].errno == EINTR
    requires bad != [] ==> bad[0].ret < 0 && bad[0].errno != EAGAIN && bad[0].errno != EINTR
    ensures Streamed(size, script + bad) == if bad == [] || size <= Total(script) then size else Total(script)
    decreases |script|
  {
    if script == [] {
      assert script + bad == bad;
    } else if size > 0 {
      assert (script + bad)[0] == script[0] && (script + bad)[1..] == script[1..] + bad;
      StreamedUntil(size - if script[0].ret > 0 then Min(script[0].ret, size) else 0, script[1..], bad);
    }
  }

  /** One call, by its result. */
  lemma StreamedOnce(size: nat, script: seq<SysResult>, ret: int)
    requires size > 0 && ret <= size
    requires script == [] ==> ret == size
    requires script != [] ==> ret == if script[0].ret < size then script[0].ret else size
    ensures ret > 0 ==> Streamed(size, script) == ret + Streamed(size - ret, Rest(script))
    ensures ret <= 0 ==>
              Streamed(size, script) ==
              if ret < 0 && script[0].errno != EAGAIN && script[0].errno != EINTR then 0 else Streamed(size, Rest(script))
  {}

  lemma {:induction false} StreamedFree(size: nat, script: seq<SysResult>)
    requires FailureFree(script)
    ensures Streamed(size, script) == size
  {
    StreamedUntil(size, script, []);
    assert script + [] == script;
  }

  /** One turn of the sendfile loop of write_response: k bytes go out, or the loop is to stop. */
  method RangeTurn(sock: Socket, content: string, offset: nat, remaining: nat) returns (k: nat, stop: bool)
    requires remaining > 0 && offset + remaining <= |content|
    modifies sock
    ensures k <= remaining && sock.sent == old(sock.sent) + content[offset..offset + k]
    ensures Streamed(remaining, old(sock.script)) == if stop then 0 else k + Streamed(remaining - k, sock.script)
    ensures stop ==> k == 0
    ensures k == 0 && !stop ==> |sock.script| < |old(sock.script)|
    ensures FailureFree(old(sock.script)) ==> FailureFree(sock.script)
  {
    hide FailureFree, Streamed;
    FailureFreeStep(sock.script);
    ghost var script := sock.script;
    var r := sock.Write(content[offset..offset + remaining]);
    StreamedOnce(remaining, script, r.ret);
    k, stop := 0, false;
    if r.ret > 0 {
      k := r.ret;
    } else if r.ret < 0 && r.errno != EAGAIN && r.errno != EINTR {
      stop := true;
    }
  }

  /** The sendfile loop of write_response. */
  method SendRange(sock: Socket, content: string, start: nat, size: nat) returns (ghost m: nat)
    requires start + size <= |content|
    modifies sock
    ensures m == Streamed(size, old(sock.script))
    ensures m <= size && sock.sent == old(sock.sent) + content[start..start + m]
    ensures FailureFree(old(sock.script)) ==> m == size && FailureFree(sock.script)
  {
    if FailureFree(sock.script) { StreamedFree(size, sock.script); }
    hide FailureFree, Streamed;
    var offset: nat, remaining: nat := start, size;
    m := 0;
    while remaining > 0
      invariant m + remaining == size && offset == start + m
      invariant m + Streamed(remaining, sock.script) == Streamed(size, old(sock.script))
      invariant sock.sent == old(sock.sent) + content[start..start + m]
      invariant FailureFree(old(sock.script)) ==> FailureFree(sock.script)
      decreases remaining, |sock.script|
    {
      var k, stop := RangeTurn(sock, content, offset, remaining);
      if stop {
        return;
      }
      SlicesJoin(content, start, offset, k);
      offset, remaining, m := offset + k, remaining - k, m + k;
    }
    StreamedNone(sock.script);
  }

  lemma SlicesJoin(content: string, from: nat, at: nat, k: nat)
    requires from <= at && at + k <= |content|
    ensures content[from..at] + content[at..at + k] == content[from..at + k]
  {}

  lemma StreamedNone(script: seq<SysResult>)
    ensures Streamed(0, script) == 0
  {}

  /** write_response: the bytes, then the file range; the file is closed once, whatever the
      sends did. */
  method WriteResponse(sock: Socket, kernel: Kernel, pkg: Package) returns (ghost n: nat, ghost m: nat)
    requires ValidPackage(pkg)
    modifies sock, kernel
    ensures kernel.table == Closing(old(kernel.table), Descriptors(pkg.file))
    ensures n <= |pkg.bytes| && m <= pkg.size
    ensures sock.sent == old(sock.sent) + pkg.bytes[..n] + FileSlice(pkg.file, pkg.offset, m)
    ensures FailureFree(old(sock.script)) ==>
              sock.sent == old(sock.sent) + Render(pkg) && FailureFree(sock.script)
  {
    hide Render, FailureFree, Written;
    n := |Written(pkg.bytes, sock.script)|;
    WrittenPrefix(pkg.bytes, sock.script);
    WriteAll(sock, pkg.bytes);
    m := 0;
    if pkg.file.OpenFile? {
      m := SendRange(sock, pkg.file.content, pkg.offset, pkg.size);
      kernel.Close(pkg.file.fd);
    }
    if FailureFree(old(sock.script)) {
      WholePackage(old(sock.sent), pkg);
    }
  }

  lemma WholePackage(wire: string, pkg: Package)
    requires ValidPackage(pkg)
    ensures wire + pkg.bytes[..|pkg.bytes|] + FileSlice(pkg.file, pkg.offset, pkg.size) == wire + Render(pkg)
    ensures pkg.file.NoFile? ==> FileSlice(pkg.file, pkg.offset, 0) == FileSlice(pkg.file, pkg.offset, pkg.size)
  {
    assert pkg.bytes[..|pkg.bytes|] == pkg.bytes;
  }

  // ----- the blocking driver -----

  /** The bytes a session writes when no send fails. */
  function Replies(requests: seq<Request>, from: nat, handler: (nat, Request) -> Answer): string
    requires forall i, r :: ValidAnswer(handler(i, r))
  {
    if requests == [] then ""
    else Render(ProcessRequest(requests[0], handler(from, requests[0]))) + Replies(requests[1..], from + 1, handler)
  }

  function EndingReply(e: Ending): string {
    if e.Replied? then ErrorReply(e.error) else ""
  }

  lemma RepliesNone(handler: (nat, Request) -> Answer)
    requires forall i, r :: ValidAnswer(handler(i, r))
    ensures Replies([], 0, handler) == ""
  {}

  lemma {:induction false} RepliesAppend(requests: seq<Request>, more: Request, from: nat, handler: (nat, Request) -> Answer)
    requires forall i, r :: ValidAnswer(handler(i, r))
    ensures Replies(requests + [more], from, handler)
         == Replies(requests, from, handler) + Render(ProcessRequest(more, handler(from + |requests|, more)))
    decreases |requests|
  {
    hide ProcessRequest, Render;
    if requests == [] {
      assert (requests + [more])[1..] == [];
    } else {
      assert (requests + [more])[1..] == requests[1..] + [more];
      RepliesAppend(requests[1..], more, from + 1, handler);
    }
  }

  /** The files behind the answers, in order. */
  function Files(requests: seq<Request>, handler: (nat, Request) -> Answer): seq<int> {
    if requests == [] then []
    else
      var n := |requests| - 1;
      Files(requests[..n], handler) + Descriptors(handler(n, requests[n]).response.file)
  }

  lemma {:induction false} ClosingMore(t: FdTable, a: seq<int>, b: seq<int>)
    ensures Closing(Closing(t, a), b) == Closing(t, a + b)
    decreases |a|
  {
    if a == [] {
      assert a + b == b;
    } else {
      assert (a + b)[1..] == a[1..] + b;
      ClosingMore(FdTable(t.open - {a[0]}, t.closes + [a[0]], t.clean && a[0] in t.open), a[1..], b);
    }
  }

  lemma ClosingOne(t: FdTable, fd: int)
    ensures Closing(t, [fd]) == FdTable(t.open - {fd}, t.closes + [fd], t.clean && fd in t.open)
  {
    assert [fd][1..] == [];
  }

  lemma ClosingNone(t: FdTable)
    ensures Closing(t, []) == t
  {}

  lemma FilesAppend(t: FdTable, requests: seq<Request>, more: Request, handler: (nat, Request) -> Answer)
    ensures Closing(Closing(t, Files(requests, handler)), Descriptors(handler(|requests|, more).response.file))
         == Closing(t, Files(requests + [more], handler))
    ensures Files([], handler) == []
  {
    assert (requests + [more])[..|requests|] == requests;
    ClosingMore(t, Files(requests, handler), Descriptors(handler(|requests|, more).response.file));
  }

  /** The reading part of handle_connection: up to a complete request, an error or the end. */
  method ReadRequest(parser: RequestParser, input: seq<ReadResult>, from: nat) returns (next: nat, stop: Option<Ending>)
    requires from <= |input|
    modifies parser
    ensures from <= next <= |input|
    ensures stop.None? ==>
              && parser.state.Done?
              && Drive(parser.View(), input[next..]) == Drive(old(parser.View()), input[from..])
              && (old(parser.state.Done?) ==> parser.View() == old(parser.View()))
              && (!old(parser.state.Done?) ==> from < next)
    ensures stop.Some? ==> Drive(old(parser.View()), input[from..]) == Outcome([], stop.value)
    ensures stop.Some? && stop.value.Replied? ==> stop.value.error == parser.error
  {
    next := from;
    while !parser.HasRequest()
      invariant from <= next <= |input|
      invariant Drive(parser.View(), input[next..]) == Drive(old(parser.View()), input[from..])
      invariant next == from ==> parser.View() == old(parser.View())
      invariant old(parser.state.Done?) ==> next == from
      decreases |input| - next
    {
      hide Cap, Scan;
      if parser.HasError() {
        return next, Some(Replied(parser.error, parser.errorMessage));
      }
      if next == |input| {
        return next, Some(PeerGone);
      }
      var r := input[next];
      assert input[next..][0] == r && input[next..][1..] == input[next + 1..];
      next := next + 1;
      if r == Bytes("") || (r.ReadError? && r.errno != EINTR) {
        return next, Some(PeerGone);
      }
      if r.Bytes? {
        parser.Feed(r.data);
      }
    }
    stop := None;
  }

  function Following(served: seq<Request>, o: Outcome): Outcome {
    o.(requests := served + o.requests)
  }

  lemma DriveRequest(served: seq<Request>, p: Parser, input: seq<ReadResult>)
    requires p.state.Done?
    ensures WantsClose(p.request) ==>
              Following(served, Drive(p, input)) == Outcome(served + [p.request], CloseAsked)
    ensures !WantsClose(p.request) ==> Following(served, Drive(p, input)) == Following(served + [p.request], Drive(Next(p), input))
    ensures |Next(p).buffer| + (if Next(p).state.Done? then 1 else 0) <= |p.buffer|
  {
    ScanDoneShrinks(p.buffer);
    if !WantsClose(p.request) {
      var o := Drive(Next(p), input);
      assert served + ([p.request] + o.requests) == (served + [p.request]) + o.requests;
    }
  }

  /** One request of handle_connection: it leaves the parser and its response is sent. */
  method ServeRequest(sock: Socket, kernel: Kernel, parser: RequestParser, i: nat, handler: (nat, Request) -> Answer)
    returns (req: Request, close: bool)
    requires forall i, r :: ValidAnswer(handler(i, r))
    modifies sock, kernel, parser
    ensures req == old(parser.request) && parser.View() == Next(old(parser.View())) && close == WantsClose(req)
    ensures kernel.table == Closing(old(kernel.table), Descriptors(handler(i, req).response.file))
    ensures FailureFree(old(sock.script)) ==>
              && FailureFree(sock.script)
              && sock.sent == old(sock.sent) + Render(ProcessRequest(req, handler(i, req)))
  {
    hide Cap, Scan, Render, WantsClose;
    req := parser.GetRequest();
    var pkg := ProcessRequest(req, handler(i, req));
    ghost var n, m := WriteResponse(sock, kernel, pkg);
    close := pkg.closeAfter;
  }

  /** What the driver sends when it stops: the reply to an error that the parser has found. */
  method ReplyAtEnd(sock: Socket, e: Ending, error: ParseError)
    requires e.Replied? ==> e.error == error
    modifies sock
    ensures FailureFree(old(sock.script)) ==> sock.sent == old(sock.sent) + EndingReply(e)
  {
    hide ErrorReply, Written;
    if e.Replied? {
      WrittenPrefix(ErrorReply(error), sock.script);
      WriteAll(sock, ErrorReply(error));
    } else {
      assert sock.sent + "" == sock.sent;
    }
  }

  /** handle_connection. `input` are the results of read, `handler` answers the i-th request.
      The requests handed on and the way it ends are those of Drive; the file behind each answer
      is closed once, whatever the sends do; and on a socket that never fails the wire holds
      exactly the responses, in order, and then the error reply if any. */
  method HandleConnection(sock: Socket, kernel: Kernel, input: seq<ReadResult>, handler: (nat, Request) -> Answer)
    returns (outcome: Outcome)
    requires forall i, r :: ValidAnswer(handler(i, r))
    modifies sock, kernel
    ensures outcome == Drive(Fresh(""), input)
    ensures kernel.table == Closing(old(kernel.table), Files(outcome.requests, handler))
    ensures FailureFree(old(sock.script)) ==>
              sock.sent == old(sock.sent) + Replies(outcome.requests, 0, handler) + EndingReply(outcome.ending)
  {
    hide Drive, Cap, Scan, Render, ProcessRequest, ErrorReply, Replies, WantsClose, Fresh, Closing, Files;
    FilesAppend(kernel.table, [], EMPTY_REQUEST, handler);
    ClosingNone(kernel.table);
    assert Replies([], 0, handler) == "" by { RepliesNone(handler); }
    var parser := new RequestParser();
    var next: nat := 0;
    var served: seq<Request> := [];
    assert input[next..] == input;
    while true
      invariant fresh(parser) && next <= |input|
      invariant kernel.table == Closing(old(kernel.table), Files(served, handler))
      invariant Drive(Fresh(""), input) == Following(served, Drive(parser.View(), input[next..]))
      invariant FailureFree(old(sock.script)) ==>
                  sock.sent == old(sock.sent) + Replies(served, 0, handler) && FailureFree(sock.script)
      decreases |input| - next, |parser.buffer| + (if parser.state.Done? then 1 else 0)
    {
      var stop;
      next, stop := ReadRequest(parser, input, next);
      if stop.Some? {
        ReplyAtEnd(sock, stop.value, parser.error);
        return Outcome(served, stop.value);
      }
      DriveRequest(served, parser.View(), input[next..]);
      var req, close := ServeRequest(sock, kernel, parser, |served|, handler);
      RepliesAppend(served, req, 0, handler);
      FilesAppend(old(kernel.table), served, req, handler);
      served := served + [req];
      if close {
        return Outcome(served, CloseAsked);
      }
    }
  }
}
