/** Inputs on which the conditions of the two main equivalences matter: a request line longer
    than 8192 bytes, and two requests in one read. */
module Limits {
  import opened Text
  import opened Http
  import opened ParserSpec
  import opened HttpResponse
  import opened HttpRequest
  import opened ConnectionSpec
  import opened Connection
  import opened EventLoopSpec
  import opened Modes

  /** A request as a client prints it. */
  function Wire(r: Request, order: seq<string>): string {
    RequestToBytes(r.(body := ""), order) + CRLF + r.body
  }

  lemma FeedWire(r: Request, order: seq<string>, rest: string)
    requires GoodRequest(r) && Enumerates(order, r.headers)
    ensures var q := Feed(Fresh(""), Wire(r, order) + rest);
            q.state.Done? && q.request == r && q.buffer == rest
  {
    hide Feed, RequestToBytes, GoodHead, Enumerates;
    PrintParse(r, order, rest);
  }

  lemma FeedNoLine(s: string)
    requires '\n' !in s && |s| > 8192
    ensures Feed(Fresh(""), s) == Fresh(s).Fail(BadRequest, RequestLineTooLong)
  {
    assert "" + s == s;
    IndexOfIs(s, '\n', |s|);
  }

  lemma WireStarts(r: Request, order: seq<string>, k: nat)
    requires GoodUri(r.uri) && k <= |RequestLineText(r)|
    ensures k <= |Wire(r, order)| && '\n' !in Wire(r, order)[..k]
  {
    var line := RequestLineText(r);
    assert '\n' !in MethodName(r.verb) && '\n' !in line;
    hide RequestLineText, HeaderBlock, GoodUri, MethodName;
    assert RequestLineText(r.(body := "")) == line by { SameLine(r); }
    assert Wire(r, order)[..k] == line[..k];
  }

  lemma SameLine(r: Request)
    ensures RequestLineText(r.(body := "")) == RequestLineText(r)
  {}

  lemma DriveOne(data: string, r: Request)
    requires Feed(Fresh(""), data).state.Done? && Feed(Fresh(""), data).request == r
    requires Feed(Fresh(""), data).buffer == "" && !WantsClose(r) && data != ""
    ensures Drive(Fresh(""), [Bytes(data)]) == Outcome([r], PeerGone)
  {
    hide Feed, WantsClose;
    var q := Feed(Fresh(""), data);
    NextIsFreshIff(q);
    ScanDoneShrinks(q.buffer);
    assert [Bytes(data)][1..] == [];
    assert Drive(q, []) == Outcome([r], PeerGone);
  }

  lemma DriveTooLong(data: string, more: seq<ReadResult>)
    requires '\n' !in data && |data| > 8192
    ensures Drive(Fresh(""), [Bytes(data)] + more) == Outcome([], Replied(BadRequest, RequestLineTooLong))
  {
    FeedNoLine(data);
    hide Feed;
    assert ([Bytes(data)] + more)[1..] == more;
  }

  /** A request with a long first line is served when it comes in one read, and refused when the
      first read ends more than 8192 bytes into that line. */
  lemma CutShows(r: Request, order: seq<string>, k: nat)
    requires GoodRequest(r) && Enumerates(order, r.headers) && !WantsClose(r)
    requires 8192 < k <= |RequestLineText(r)|
    ensures k <= |Wire(r, order)|
    ensures Drive(Fresh(""), [Bytes(Wire(r, order))]) == Outcome([r], PeerGone)
    ensures Drive(Fresh(""), [Bytes(Wire(r, order)[..k]), Bytes(Wire(r, order)[k..])])
         == Outcome([], Replied(BadRequest, RequestLineTooLong))
  {
    var text := Wire(r, order);
    FeedWire(r, order, "");
    WireStarts(r, order, k);
    hide Wire, Feed, Drive, Enumerates, WantsClose, RequestLineText, GoodHead;
    assert text + "" == text;
    DriveOne(text, r);
    DriveTooLong(text[..k], [Bytes(text[k..])]);
    assert [Bytes(text[..k])] + [Bytes(text[k..])] == [Bytes(text[..k]), Bytes(text[k..])];
  }

  /** Up to 8192 bytes into the line the cut does not matter. */
  lemma CutFits(r: Request, order: seq<string>, k: nat)
    requires GoodRequest(r) && Enumerates(order, r.headers) && !WantsClose(r)
    requires 0 < k <= 8192 && k <= |RequestLineText(r)|
    ensures k <= |Wire(r, order)|
    ensures Drive(Fresh(""), [Bytes(Wire(r, order)[..k]), Bytes(Wire(r, order)[k..])]) == Outcome([r], PeerGone)
  {
    var text := Wire(r, order);
    FeedWire(r, order, "");
    WireStarts(r, order, k);
    LineMore(r, order, k);
    NoNewlineScan(Fresh(""), text[..k]);
    assert Fresh("").Plus(text[..k]) == Fresh(text[..k]);
    hide Wire, Drive, Enumerates, WantsClose, RequestLineText, GoodHead, Scan;
    assert text + "" == text && text[..k] + text[k..] == text;
    FeedSplitLive(Fresh(""), text[..k], text[k..]);
    DriveTwoReads(text[..k], text[k..], r);
  }

  /** Behind the request line there is more. */
  lemma LineMore(r: Request, order: seq<string>, k: nat)
    requires k <= |RequestLineText(r)|
    ensures k < |Wire(r, order)|
  {}

  lemma DriveTwoReads(a: string, b: string, r: Request)
    requires a != "" && b != "" && Feed(Fresh(""), a).Live()
    requires var q := Feed(Feed(Fresh(""), a), b); q.state.Done? && q.request == r && q.buffer == "" && !WantsClose(r)
    ensures Drive(Fresh(""), [Bytes(a), Bytes(b)]) == Outcome([r], PeerGone)
  {
    hide Feed, WantsClose;
    var p := Feed(Fresh(""), a);
    var q := Feed(p, b);
    NextIsFreshIff(q);
    ScanDoneShrinks(q.buffer);
    assert [Bytes(a), Bytes(b)][1..] == [Bytes(b)] && [Bytes(b)][1..] == [];
    assert Drive(q, []) == Outcome([r], PeerGone);
    assert Drive(p, [Bytes(b)]) == Drive(q, []);
  }

  const LONG_URI: string := seq(8200, _ => '/')

  /** Such a request exists. */
  lemma CutShowsHere()
    ensures var r := Request(GET, LONG_URI, map[], 0, "");
            var text := Wire(r, []);
            && |text| > 8200
            && Drive(Fresh(""), [Bytes(text)]) == Outcome([r], PeerGone)
            && Drive(Fresh(""), [Bytes(text[..8200]), Bytes(text[8200..])]) == Outcome([], Replied(BadRequest, RequestLineTooLong))
  {
    var r := Request(GET, LONG_URI, map[], 0, "");
    assert |RequestLineText(r)| > 8200;
    assert |Wire(r, [])| > 8200;
    hide Drive, Wire, RequestLineText;
    CutShows(r, [], 8200);
  }

  /** Two requests in one read: the blocking driver hands both on, the event loop only the first,
      and afterwards its connection is as if the second had never been sent. */
  lemma PipeliningShows(r1: Request, order1: seq<string>, r2: Request, order2: seq<string>, fd: int, now: int, a: Answer)
    requires GoodRequest(r1) && Enumerates(order1, r1.headers) && !WantsClose(r1)
    requires GoodRequest(r2) && Enumerates(order2, r2.headers) && !WantsClose(r2)
    requires ValidAnswer(a)
    ensures var data := Wire(r1, order1) + Wire(r2, order2);
            var t := Run(Opening(fd, now), [Readable(Bytes(data), a, []), Writable([])]);
            && Drive(Fresh(""), [Bytes(data)]) == Outcome([r1, r2], PeerGone)
            && t.requests == [r1] && t.conn == Accepted(fd, now) && !t.gone
  {
    var data := Wire(r1, order1) + Wire(r2, order2);
    FeedWire(r1, order1, Wire(r2, order2));
    FeedWire(r2, order2, "");
    assert Wire(r2, order2) + "" == Wire(r2, order2);
    WireNotEmpty(r1, order1);
    WireNotEmpty(r2, order2);
    hide Wire, Enumerates, WantsClose, GoodHead;
    DriveTwo(data, Wire(r2, order2), r1, r2);
    LoopOne(data, r1, fd, now, a);
  }

  lemma WireNotEmpty(r: Request, order: seq<string>)
    ensures Wire(r, order) != ""
  {}

  lemma DriveTwo(data: string, second: string, r1: Request, r2: Request)
    requires var q := Feed(Fresh(""), data); q.state.Done? && q.request == r1 && q.buffer == second
    requires var q := Feed(Fresh(""), second); q.state.Done? && q.request == r2 && q.buffer == ""
    requires !WantsClose(r1) && !WantsClose(r2) && data != ""
    ensures Drive(Fresh(""), [Bytes(data)]) == Outcome([r1, r2], PeerGone)
  {
    hide WantsClose, Scan;
    var q1 := Feed(Fresh(""), data);
    var q2 := Feed(Fresh(""), second);
    assert "" + second == second;
    assert Next(q1) == q2;
    NextIsFreshIff(q2);
    ScanDoneShrinks(q1.buffer);
    ScanDoneShrinks(q2.buffer);
    hide Feed, Next;
    assert [Bytes(data)][1..] == [];
    assert Drive(q2, []) == Outcome([r2], PeerGone);
    assert [r1] + [r2] == [r1, r2];
  }

  lemma LoopOne(data: string, r: Request, fd: int, now: int, a: Answer)
    requires Feed(Fresh(""), data).state.Done? && Feed(Fresh(""), data).request == r && !WantsClose(r)
    requires ValidAnswer(a) && data != ""
    ensures var t := Run(Opening(fd, now), [Readable(Bytes(data), a, []), Writable([])]);
            t.requests == [r] && t.conn == Accepted(fd, now) && !t.gone
  {
    hide Feed, Next, WantsClose, Send, Inv;
    var s := Opening(fd, now);
    var e1, e2 := Readable(Bytes(data), a, []), Writable([]);
    StepInv(s, e1);
    var mid := Step(s, e1);
    StepInv(mid, e2);
    SendAll(mid.conn);
    var t := Step(mid, e2);
    assert [e1, e2][1..] == [e2] && [e2][1..] == [];
    assert Run(t, []) == t;
    assert Run(mid, [e2]) == t;
  }

  /** When the kernel takes everything, one call to process_writable completes the response. */
  lemma SendAll(c: Conn)
    requires ValidConn(c)
    ensures Send(c, []).progress.Complete?
  {
    if c.file.OpenFile? {
      SendFileAll(c.(writeOffset := |c.writeBuf|));
    }
  }

  lemma SendFileAll(c: Conn)
    requires ValidConn(c) && c.file.OpenFile?
    ensures SendFile(c, []).progress.Complete?
  {
    assert SendFile(c.(fileOffset := c.fileOffset + c.fileSize, fileSize := 0), []).progress.Complete?;
  }
}
