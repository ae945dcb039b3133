/** server/select_mode.cpp:84-276 and the epoll side of server/poller.hpp: the connection object,
    whose handlers update it in place, and one event-loop worker with its descriptors. */
module EventLoop {
  import opened Http
  import opened ParserSpec
  import opened RequestParserClass
  import opened HttpResponse
  import opened ConnectionSpec
  import opened Connection
  import opened EventLoopSpec

  /** EpollPoller: what each registered descriptor is watched for. Adding a registered one,
      or changing or removing an unregistered one, fails and changes nothing. */
  class Poller {
    var interest: map<int, (bool, bool)>

    constructor () ensures interest == map[] { interest := map[]; }

    method Add(fd: int, wantRead: bool, wantWrite: bool)
      modifies this
      ensures interest == if fd in old(interest) then old(interest) else old(interest)[fd := (wantRead, wantWrite)]
    {
      if fd !in interest { interest := interest[fd := (wantRead, wantWrite)]; }
    }

    method Modify(fd: int, wantRead: bool, wantWrite: bool)
      modifies this
      ensures interest == if fd in old(interest) then old(interest)[fd := (wantRead, wantWrite)] else old(interest)
    {
      if fd in interest { interest := interest[fd := (wantRead, wantWrite)]; }
    }

    method Remove(fd: int)
      modifies this
      ensures interest == old(interest) - {fd}
    {
      interest := interest - {fd};
    }
  }

  /** The interest a connection is registered with in each phase. */
  function Wanted(phase: Phase): (bool, bool) {
    (phase.Reading?, phase.Writing?)
  }

  /** The answer with its file, if any, at the descriptor that open(2) gives. */
  function Placed(a: Answer, t: FdTable): Answer {
    if a.response.file.NoFile? then a
    else a.(response := a.response.(file := a.response.file.(fd := LowestFree(t.open, 0))))
  }

  class ConnState {
    const fd: int
    const parser: RequestParser
    const sock: Socket
    var phase: Phase
    var writeBuf: string
    var writeOffset: nat
    var acceptedAt: int
    var closeAfterWrite: bool
    var sendfile: FileHandle
    var sendfileOffset: nat
    var sendfileSize: nat

    function View(): Conn
      reads this, parser
    {
      Conn(fd, parser.View(), phase, writeBuf, writeOffset, acceptedAt, closeAfterWrite,
           sendfile, sendfileOffset, sendfileSize)
    }

    constructor (fd: int, sock: Socket, now: int)
      ensures View() == Accepted(fd, now) && this.sock == sock && fresh(parser)
    {
      this.fd, this.sock := fd, sock;
      this.parser := new RequestParser();
      phase, writeBuf, writeOffset, acceptedAt, closeAfterWrite := Reading, "", 0, now, false;
      sendfile, sendfileOffset, sendfileSize := NoFile, 0, 0;
    }

    /** reset_conn_to_reading. */
    method ResetToReading(kernel: Kernel, poller: Poller)
      modifies this, parser, kernel, poller
      ensures View() == BackToReading(old(View()))
      ensures kernel.table == Closing(old(kernel.table), Descriptors(old(sendfile)))
      ensures fd in old(poller.interest) ==> poller.interest == old(poller.interest)[fd := Wanted(Reading)]
    {
      if sendfile.OpenFile? {
        kernel.Close(sendfile.fd);
        sendfile := NoFile;
      }
      parser.Reset();
      phase, writeBuf, writeOffset := Reading, "", 0;
      sendfileOffset, sendfileSize, closeAfterWrite := 0, 0, false;
      poller.Modify(fd, true, false);
    }

    /** The handler's answer becomes the state of phase Writing; a file that it serves is opened
        on the way. */
    method StartResponse(req: Request, answer: Answer, kernel: Kernel, poller: Poller)
      modifies this, kernel, poller
      ensures View() == StartWriting(old(View()), ProcessRequest(req, Placed(answer, old(kernel.table))))
      ensures kernel.table == if sendfile.OpenFile? then AfterOpen(old(kernel.table)) else old(kernel.table)
      ensures poller.interest ==
                if fd in old(poller.interest) then old(poller.interest)[fd := Wanted(Writing)] else old(poller.interest)
    {
      hide LowestFree, ProcessRequest;
      var a := answer;
      if answer.response.file.OpenFile? {
        var bodyFd := kernel.Open();
        a := a.(response := a.response.(file := a.response.file.(fd := bodyFd)));
      }
      var pkg := ProcessRequest(req, a);
      closeAfterWrite, writeBuf, writeOffset := pkg.closeAfter, pkg.bytes, 0;
      sendfile, sendfileOffset, sendfileSize := pkg.file, pkg.offset, pkg.size;
      phase := Writing;
      poller.Modify(fd, false, true);
    }

    /** process_readable: true asks the loop to drop the connection. A file that the handler
        serves is opened when the request is complete. */
    method ProcessReadable(r: ReadResult, answer: Answer, kernel: Kernel, poller: Poller) returns (drop: bool)
      requires phase.Reading?
      modifies this, parser, sock, kernel, poller
      ensures var (c, v) := OnReadable(old(View()), r, Placed(answer, old(kernel.table)));
              && View() == c && drop == !v.Keep?
              && sock.sent == old(sock.sent) + if v.Refuse? then Written(ErrorReply(parser.error), old(sock.script)) else ""
      ensures kernel.table == if phase.Writing? && sendfile.OpenFile? then AfterOpen(old(kernel.table)) else old(kernel.table)
      ensures poller.interest ==
                if phase.Writing? && fd in old(poller.interest) then old(poller.interest)[fd := Wanted(Writing)]
                else old(poller.interest)
    {
      hide ParserSpec.Feed, Next, ErrorReply, Written, LowestFree, ProcessRequest, Placed, AfterOpen;
      if r.ReadError? {
        return r.errno != EAGAIN;
      }
      if r.data == "" {
        return true;
      }
      parser.Feed(r.data);
      if parser.HasRequest() {
        var req := parser.GetRequest();
        StartResponse(req, answer, kernel, poller);
        return false;
      }
      if parser.HasError() {
        WriteAll(sock, ErrorReply(parser.error));
        return true;
      }
      return false;
    }

    /** The sendfile loop of process_writable. */
    method SendFileBody() returns (ghost sent: string, progress: Progress)
      requires ValidConn(View()) && sendfile.OpenFile?
      modifies this`sendfileOffset, this`sendfileSize, sock
      ensures SendFile(old(View()), old(sock.script)) == Sending(View(), sent, sock.script, progress)
      ensures sock.sent == old(sock.sent) + sent
    {
      hide SendFile, Prefix, Before;
      sent := "";
      BeforeNothing(SendFile(View(), sock.script));
      ghost var total := SendFile(View(), sock.script);
      while sendfileSize > 0
        invariant ValidConn(View()) && sendfile.OpenFile?
        invariant total == Before(sent, SendFile(View(), sock.script))
        invariant sock.sent == old(sock.sent) + sent
        decreases sendfileSize, |sock.script|
      {
        ghost var c, script := View(), sock.script;
        var r := sock.Write(sendfile.content[sendfileOffset..sendfileOffset + sendfileSize]);
        TakenBySocket(script, sendfile.content, sendfileOffset, sendfileSize, r.ret);
        SendFileTurn(total, sent, c, script, r.ret);
        if r.ret < 0 {
          return sent, if r.errno == EAGAIN then Blocked else Broken;
        }
        sent := sent + sendfile.content[sendfileOffset..sendfileOffset + r.ret];
        sendfileOffset, sendfileSize := sendfileOffset + r.ret, sendfileSize - r.ret;
      }
      progress := Complete;
      SendFileEnd(sent, View(), sock.script);
    }

    /** The end of process_writable, when everything has been sent. */
    method FinishResponse(kernel: Kernel, poller: Poller) returns (drop: bool)
      requires phase.Writing? && sendfile.NoFile?
      modifies this, parser, kernel, poller
      ensures drop == old(closeAfterWrite) && kernel.table == old(kernel.table)
      ensures View() == if drop then old(View()) else BackToReading(old(View()))
      ensures phase.Reading? && fd in old(poller.interest) ==>
                poller.interest == old(poller.interest)[fd := Wanted(Reading)]
      ensures phase.Writing? ==> poller.interest == old(poller.interest)
    {
      if closeAfterWrite {
        return true;
      }
      ResetToReading(kernel, poller);
      return false;
    }

    /** The second part of process_writable, once the header bytes are out: the file. */
    method FinishWriting(kernel: Kernel, poller: Poller) returns (drop: bool)
      requires ValidConn(View()) && phase.Writing? && writeOffset == |writeBuf|
      modifies this, parser, sock, kernel, poller
      ensures (View(), drop) ==
                (OnWritable(old(View()), old(sock.script)).0, OnWritable(old(View()), old(sock.script)).1.Drop?)
      ensures sock.sent == old(sock.sent) + Send(old(View()), old(sock.script)).bytes
      ensures kernel.table == Closing(old(kernel.table), if sendfile.NoFile? then Descriptors(old(sendfile)) else [])
      ensures phase.Reading? && fd in old(poller.interest) ==>
                poller.interest == old(poller.interest)[fd := Wanted(Reading)]
      ensures phase.Writing? ==> poller.interest == old(poller.interest)
    {
      hide SendFile;
      SendNoHead(View(), sock.script);
      hide Send;
      if sendfile.OpenFile? {
        ghost var sent;
        var progress;
        sent, progress := SendFileBody();
        if progress.Blocked? {
          return false;
        }
        kernel.Close(sendfile.fd);
        sendfile := NoFile;
        if progress.Broken? {
          return true;
        }
      }
      drop := FinishResponse(kernel, poller);
    }

    /** process_writable: true asks the loop to drop the connection. */
    method ProcessWritable(kernel: Kernel, poller: Poller) returns (drop: bool)
      requires ValidConn(View()) && phase.Writing?
      modifies this, parser, sock, kernel, poller
      ensures (View(), drop) ==
                (OnWritable(old(View()), old(sock.script)).0, OnWritable(old(View()), old(sock.script)).1.Drop?)
      ensures sock.sent == old(sock.sent) + Send(old(View()), old(sock.script)).bytes
      ensures kernel.table == Closing(old(kernel.table), if sendfile.NoFile? then Descriptors(old(sendfile)) else [])
      ensures phase.Reading? && fd in old(poller.interest) ==>
                poller.interest == old(poller.interest)[fd := Wanted(Reading)]
      ensures phase.Writing? ==> poller.interest == old(poller.interest)
    {
      hide SendFile, Send, OnWritable, Closing, Prefix;
      var left := writeBuf[writeOffset..];
      ClosingNone(kernel.table);
      if left != "" {
        ghost var c, script := View(), sock.script;
        var r := sock.Write(left);
        SendHead(c, script, r);
        WritableHead(c, script, r);
        if r.ret <= 0 {
          return r.errno != EAGAIN;
        }
        writeOffset := writeOffset + r.ret;
        if writeOffset < |writeBuf| {
          return false;
        }
      }
      drop := FinishWriting(kernel, poller);
    }
  }

  function Before(bytes: string, s: Sending): Sending {
    s.(bytes := bytes + s.bytes)
  }

  /** One turn of the sendfile loop, by the kernel's answer. */
  lemma SendFileTurn(total: Sending, sent: string, c: Conn, script: seq<SysResult>, ret: int)
    requires ValidConn(c) && c.file.OpenFile? && c.fileSize > 0 && ret <= c.fileSize
    requires total == Before(sent, SendFile(c, script))
    requires ret >= 0 ==> ret == Taken(script, c.fileSize)
    requires ret < 0 <==> script != [] && script[0].ret < 0
    ensures ret >= 0 ==>
              total == Before(sent + c.file.content[c.fileOffset..c.fileOffset + ret],
                              SendFile(c.(fileOffset := c.fileOffset + ret, fileSize := c.fileSize - ret), Rest(script)))
    ensures ret < 0 ==>
              total == Sending(c, sent, Rest(script), if script[0].errno.EAGAIN? then Blocked else Broken)
  {
    hide SendFile;
    if ret >= 0 {
      SendFileStep(c, script);
      BeforeBefore(sent, c.file.content[c.fileOffset..c.fileOffset + ret],
                   SendFile(c.(fileOffset := c.fileOffset + ret, fileSize := c.fileSize - ret), Rest(script)));
    } else {
      SendFileFails(c, script);
      assert sent + "" == sent;
    }
  }

  lemma BeforeBefore(a: string, b: string, s: Sending)
    ensures Before(a, Before(b, s)) == Before(a + b, s)
  {
    assert a + (b + s.bytes) == a + b + s.bytes;
  }

  lemma SendFileFails(c: Conn, script: seq<SysResult>)
    requires ValidConn(c) && c.file.OpenFile? && c.fileSize > 0 && script != [] && script[0].ret < 0
    ensures SendFile(c, script) == Sending(c, "", Rest(script), if script[0].errno.EAGAIN? then Blocked else Broken)
  {}

  lemma SendFileEnd(sent: string, c: Conn, script: seq<SysResult>)
    requires ValidConn(c) && c.file.OpenFile? && c.fileSize == 0
    ensures Before(sent, SendFile(c, script)) == Sending(c, sent, script, Complete)
  {
    assert sent + "" == sent;
  }

  lemma BeforeNothing(s: Sending)
    ensures Before("", s) == s
  {
    assert "" + s.bytes == s.bytes;
  }

  lemma TakenBySocket(script: seq<SysResult>, content: string, at: nat, size: nat, ret: int)
    requires at + size <= |content| && size > 0 && ret <= size
    requires script == [] ==> ret == size
    requires script != [] ==> ret == if script[0].ret < size then script[0].ret else size
    ensures ret >= 0 ==> Taken(script, size) == ret
    ensures ret >= 0 ==> Prefix(content[at..at + size], ret) == content[at..at + ret]
    ensures ret < 0 <==> script != [] && script[0].ret < 0
  {}

  /** Send when the header bytes are out already. */
  lemma SendNoHead(c: Conn, script: seq<SysResult>)
    requires ValidConn(c) && c.writeOffset == |c.writeBuf|
    ensures c.file.NoFile? ==> Send(c, script) == Sending(c, "", script, Complete)
    ensures c.file.OpenFile? ==> Send(c, script) == SendFile(c, script)
  {
    assert c.writeBuf[c.writeOffset..] == "";
    if c.file.OpenFile? {
      assert "" + SendFile(c, script).bytes == SendFile(c, script).bytes;
    }
  }

  /** The first write of process_writable, by the kernel's answer: nothing is taken, or not all,
      or all of the header bytes, in which case the rest is sent as if they had been out. */
  lemma SendHead(c: Conn, script: seq<SysResult>, r: SysResult)
    requires ValidConn(c) && c.writeOffset < |c.writeBuf|
    requires r.ret <= |c.writeBuf| - c.writeOffset
    requires script == [] ==> r.ret == |c.writeBuf| - c.writeOffset
    requires script != [] ==>
               r.ret == (if script[0].ret < |c.writeBuf| - c.writeOffset then script[0].ret else |c.writeBuf| - c.writeOffset)
               && r.errno == script[0].errno
    ensures r.ret <= 0 ==>
              && Send(c, script) == Sending(c, "", Rest(script), if r.errno.EAGAIN? then Blocked else Broken)
    ensures 0 < r.ret < |c.writeBuf| - c.writeOffset ==>
              Send(c, script) == Sending(c.(writeOffset := c.writeOffset + r.ret), Prefix(c.writeBuf[c.writeOffset..], r.ret),
                                         Rest(script), Blocked)
    ensures r.ret == |c.writeBuf| - c.writeOffset ==>
              var out := c.(writeOffset := |c.writeBuf|);
              Send(c, script) == Before(Prefix(c.writeBuf[c.writeOffset..], r.ret), Send(out, Rest(script)))
  {
    var left := c.writeBuf[c.writeOffset..];
    assert Taken(script, |left|) == if r.ret <= 0 then 0 else r.ret;
    if r.ret == |left| {
      SendNoHead(c.(writeOffset := |c.writeBuf|), Rest(script));
      assert left + "" == left;
    } else if r.ret <= 0 {
      assert left[..0] == "";
    }
  }

  /** The same for the outcome of the whole call. */
  lemma WritableHead(c: Conn, script: seq<SysResult>, r: SysResult)
    requires ValidConn(c) && c.writeOffset < |c.writeBuf|
    requires r.ret <= |c.writeBuf| - c.writeOffset
    requires script == [] ==> r.ret == |c.writeBuf| - c.writeOffset
    requires script != [] ==>
               r.ret == (if script[0].ret < |c.writeBuf| - c.writeOffset then script[0].ret else |c.writeBuf| - c.writeOffset)
               && r.errno == script[0].errno
    ensures r.ret <= 0 ==> OnWritable(c, script) == (c, if r.errno.EAGAIN? then Keep else Drop)
    ensures 0 < r.ret < |c.writeBuf| - c.writeOffset ==>
              OnWritable(c, script) == (c.(writeOffset := c.writeOffset + r.ret), Keep)
    ensures r.ret == |c.writeBuf| - c.writeOffset ==>
              OnWritable(c, script) == OnWritable(c.(writeOffset := |c.writeBuf|), Rest(script))
  {
    SendHead(c, script, r);
    hide Send;
  }
}
