/** The request parser as a function on values.

    Scan consumes a buffer without any limit on line length; Cap is the 8192-byte limit,
    which the code tests only on a line whose end has not arrived. The incremental parser
    is Feed, their composition. The laws at the end say what cutting the input changes. */
module ParserSpec {
  import opened Text
  import opened Http

  const MAX_LINE := 8192
  const MAX_BODY_SIZE := 10 * 1024 * 1024
  const UINT16_MAX := 65535

  datatype State = RequestLine | HeaderLines | Body | Done | Error

  datatype Parser = Parser(
    buffer: string, state: State, request: Request, error: ParseError, message: Message, remaining: nat)
  {
    predicate Live() { !state.Done? && !state.Error? }

    predicate AtLine() { state.RequestLine? || state.HeaderLines? }

    function Fail(e: ParseError, m: Message): Parser {
      this.(state := Error, error := e, message := m)
    }

    /** The parser with more bytes behind its buffer. */
    function Plus(data: string): Parser {
      this.(buffer := buffer + data)
    }
  }

  /** A parser about to read a request from the given bytes. */
  function Fresh(buffer: string): Parser {
    Parser(buffer, RequestLine, EMPTY_REQUEST, Ok, NoMessage, 0)
  }

  // ----- lines -----

  /** The line ending before position n, without the CR of a CRLF. */
  function LineBefore(buffer: string, n: nat): string
    requires n <= |buffer|
  {
    if n > 0 && buffer[n - 1] == '\r' then buffer[..n - 1] else buffer[..n]
  }

  /** The three fields of a request line. */
  function OnFields(p: Parser, methodName: string, uri: string, version: string): (q: Parser)
    ensures q.buffer == p.buffer
  {
    var named := p.(request := p.request.(uri := uri));
    if Trim(version, WHITESPACE) == "" || methodName == "" || uri == "" then
      named.Fail(InvalidRequestLine, EmptyField)
    else
      match MethodOf(methodName)
      case None => named.Fail(MethodNotAllowed, UnknownMethod)
      case Some(m) => named.(request := named.request.(verb := m), state := HeaderLines)
  }

  function OnRequestLine(p: Parser, line: string): (q: Parser)
    ensures q.buffer == p.buffer
  {
    var fields := Split(line, ' ');
    if |fields| == 1 then p.Fail(InvalidRequestLine, MissingSpace)
    else if |fields| == 2 then p.Fail(InvalidRequestLine, MissingVersion)
    else if |fields| > 3 then p.Fail(InvalidRequestLine, ExtraField)
    else OnFields(p, fields[0], fields[1], fields[2])
  }

  /** The declared body length; None is a value that std::stoll rejects or a negative one. */
  function DeclaredLength(headers: Headers): Option<nat> {
    if "content-length" !in headers then Some(0)
    else
      match Stoll(headers["content-length"])
      case None => None
      case Some(v) => if v < 0 then None else Some(v)
  }

  function Min(a: nat, b: nat): nat { if a < b then a else b }

  function OnBlankLine(p: Parser): (q: Parser)
    ensures q.buffer == p.buffer
  {
    match DeclaredLength(p.request.headers)
    case None => p.Fail(BadRequest, BadContentLength)
    case Some(length) =>
      if length > MAX_BODY_SIZE then
        p.Fail(PayloadTooLarge, BodyTooLarge)
      else
        p.(request := p.request.(contentLength := Min(length, UINT16_MAX)),
           remaining := length,
           state := if p.request.verb.POST? && length > 0 then Body else Done)
  }

  function OnHeaderLine(p: Parser, line: string): (q: Parser)
    ensures q.buffer == p.buffer
  {
    if line == "" then OnBlankLine(p)
    else
      var (name, value) := ParseHeaderLine(line, true);
      if name == "" then p.Fail(InvalidHeader, BadHeaderLine)
      else p.(request := p.request.(headers := p.request.headers[name := value]))
  }

  function OnLine(p: Parser, line: string): (q: Parser)
    requires p.AtLine()
    ensures q.buffer == p.buffer
  {
    if p.state.RequestLine? then OnRequestLine(p, line) else OnHeaderLine(p, line)
  }

  // ----- a whole buffer -----

  /** Consumes lines and body until a request is complete, an error is met, or the buffer
      holds no further complete piece. No line is too long here. */
  function Scan(p: Parser): (q: Parser)
    ensures |q.buffer| <= |p.buffer|
    ensures q.Live() && q.AtLine() ==> '\n' !in q.buffer
    decreases |p.buffer|
  {
    match p.state
    case Done => p
    case Error => p
    case Body =>
      if p.remaining == 0 then p.(state := Done)
      else if |p.buffer| < p.remaining then p
      else p.(request := p.request.(body := p.buffer[..p.remaining]),
              buffer := p.buffer[p.remaining..], remaining := 0, state := Done)
    case _ =>
      var n := IndexOf(p.buffer, '\n');
      if n == |p.buffer| then p
      else Scan(OnLine(p.(buffer := p.buffer[n + 1..]), LineBefore(p.buffer, n)))
  }

  predicate OverLimit(p: Parser) {
    p.AtLine() && |p.buffer| > MAX_LINE
  }

  /** The limit check on a buffer that holds no complete line. */
  function Cap(p: Parser): Parser {
    if !OverLimit(p) then p
    else if p.state.RequestLine? then p.Fail(BadRequest, RequestLineTooLong)
    else p.Fail(InvalidHeader, HeaderLineTooLong)
  }

  predicate TooLong(p: Parser) {
    p.state.Error? && (p.message.RequestLineTooLong? || p.message.HeaderLineTooLong?)
  }

  /** RequestParser::feed. */
  function Feed(p: Parser, data: string): Parser {
    if !p.Live() then p else Cap(Scan(p.Plus(data)))
  }

  /** RequestParser::get_request: the next request is already parsed from the leftover. */
  function Next(p: Parser): Parser {
    Cap(Scan(Fresh(p.buffer)))
  }

  // ----- laws -----

  lemma {:induction false} ScanLines(p: Parser)
    requires p.AtLine()
    ensures IndexOf(p.buffer, '\n') == |p.buffer| ==> Scan(p) == p
    ensures IndexOf(p.buffer, '\n') < |p.buffer| ==>
              var n := IndexOf(p.buffer, '\n');
              Scan(p) == Scan(OnLine(p.(buffer := p.buffer[n + 1..]), LineBefore(p.buffer, n)))
  {
    hide OnLine, LineBefore, IndexOf;
  }

  lemma ScanBody(p: Parser)
    requires p.state.Body?
    ensures Scan(p).state.Done? ==> Scan(Scan(p)) == Scan(p)
    ensures Cap(Scan(p)) == Scan(p)
  {}

  /** One step of a scan. */
  lemma ScanStep(p: Parser)
    ensures p.AtLine() && IndexOf(p.buffer, '\n') == |p.buffer| ==> Scan(p) == p
    ensures p.AtLine() && IndexOf(p.buffer, '\n') < |p.buffer| ==>
              var n := IndexOf(p.buffer, '\n');
              Scan(p) == Scan(OnLine(p.(buffer := p.buffer[n + 1..]), LineBefore(p.buffer, n)))
    ensures !p.Live() ==> Scan(p) == p
    ensures p.state.Body? && Scan(p).state.Done? ==> Scan(Scan(p)) == Scan(p)
    ensures p.state.Body? ==> Cap(Scan(p)) == Scan(p)
  {
    hide OnLine, LineBefore, IndexOf, Cap;
    if p.AtLine() {
      ScanLines(p);
    } else if p.state.Body? {
      ScanBody(p);
    }
  }

  /** What a line does does not depend on what follows it. */
  lemma OnLinePlus(q: Parser, line: string, data: string)
    requires q.AtLine()
    ensures OnLine(q.Plus(data), line) == OnLine(q, line).Plus(data)
  {
    hide Split, Trim, MethodOf, ParseHeaderLine, DeclaredLength;
  }

  /** One line is the same line however much follows it. */
  lemma LineAppend(p: Parser, data: string, n: nat)
    requires p.AtLine() && n < |p.buffer| && IndexOf(p.buffer, '\n') == n
    ensures IndexOf(p.Plus(data).buffer, '\n') == n
    ensures LineBefore(p.Plus(data).buffer, n) == LineBefore(p.buffer, n)
    ensures OnLine(p.Plus(data).(buffer := p.Plus(data).buffer[n + 1..]), LineBefore(p.buffer, n))
         == OnLine(p.(buffer := p.buffer[n + 1..]), LineBefore(p.buffer, n)).Plus(data)
  {
    IndexOfAppend(p.buffer, data, '\n');
    hide IndexOf, OnLine;
    var whole := p.buffer + data;
    assert whole[..n] == p.buffer[..n];
    if n > 0 { assert whole[..n - 1] == p.buffer[..n - 1]; }
    assert whole[n + 1..] == p.buffer[n + 1..] + data;
    OnLinePlus(p.(buffer := p.buffer[n + 1..]), LineBefore(p.buffer, n), data);
  }

  lemma BodySplit(p: Parser, data: string)
    requires p.state.Body?
    ensures Scan(p.Plus(data)) == Scan(Scan(p).Plus(data))
  {
    if p.remaining > 0 && |p.buffer| >= p.remaining {
      var whole := p.Plus(data).buffer;
      assert whole[..p.remaining] == p.buffer[..p.remaining];
      assert whole[p.remaining..] == p.buffer[p.remaining..] + data;
    }
  }

  /** The unlimited scan can stop after any prefix and go on when the rest arrives. */
  lemma {:induction false} ScanSplit(p: Parser, data: string)
    ensures Scan(p.Plus(data)) == Scan(Scan(p).Plus(data))
    decreases |p.buffer|
  {
    hide Scan, OnLine, LineBefore, IndexOf;
    ScanStep(p);
    if p.AtLine() {
      var n := IndexOf(p.buffer, '\n');
      if n < |p.buffer| {
        LineAppend(p, data, n);
        ScanStep(p.Plus(data));
        ScanSplit(OnLine(p.(buffer := p.buffer[n + 1..]), LineBefore(p.buffer, n)), data);
      }
    } else if p.state.Body? {
      BodySplit(p, data);
    }
  }

  lemma ScanIdempotent(p: Parser)
    ensures Scan(Scan(p)) == Scan(p)
  {
    ScanSplit(p, "");
    assert p.Plus("") == p && Scan(p).Plus("") == Scan(p);
  }

  /** Only the limit reports a line that is too long. */
  lemma {:induction false} ScanNeverTooLong(p: Parser)
    requires !TooLong(p)
    ensures !TooLong(Scan(p))
    decreases |p.buffer|
  {
    if p.AtLine() {
      var n := IndexOf(p.buffer, '\n');
      if n < |p.buffer| {
        ScanNeverTooLong(OnLine(p.(buffer := p.buffer[n + 1..]), LineBefore(p.buffer, n)));
      }
    }
  }

  lemma NoNewlineScan(q: Parser, b: string)
    requires q.AtLine() && '\n' !in q.buffer && '\n' !in b
    ensures Scan(q.Plus(b)) == q.Plus(b)
  {
    IndexOfIs(q.buffer + b, '\n', |q.buffer + b|);
  }

  lemma FeedJoin(p: Parser, a: string, b: string)
    requires p.Live()
    ensures Feed(p, a + b) == Cap(Scan(Scan(p.Plus(a)).Plus(b)))
  {
    hide Scan, Cap;
    ScanSplit(p.Plus(a), b);
    assert (p.buffer + a) + b == p.buffer + (a + b);
    assert p.Plus(a).Plus(b) == p.Plus(a + b);
  }

  /** While the parser needs more, cutting a feed in two changes nothing. */
  lemma FeedSplitLive(p: Parser, a: string, b: string)
    requires p.Live() && Feed(p, a).Live()
    ensures Feed(Feed(p, a), b) == Feed(p, a + b)
  {
    FeedJoin(p, a, b);
  }

  /** After a complete request, or an error other than "too long", the only difference is
      that the second part is not kept. */
  lemma FeedSplitEnded(p: Parser, a: string, b: string)
    requires p.Live() && !Feed(p, a).Live() && !OverLimit(Scan(p.Plus(a)))
    ensures Feed(Feed(p, a), b) == Feed(p, a)
    ensures Feed(p, a + b) == Feed(p, a).Plus(b)
  {
    FeedJoin(p, a, b);
  }

  /** After "too long", one feed judges the line that the second part may still end: the
      answers agree when it does not, and need not agree when it does. */
  lemma FeedSplitTooLong(p: Parser, a: string, b: string)
    requires p.Live() && OverLimit(Scan(p.Plus(a)))
    ensures TooLong(Feed(p, a)) && Feed(Feed(p, a), b) == Feed(p, a)
    ensures Feed(p, a + b) == Cap(Scan(Scan(p.Plus(a)).Plus(b)))
    ensures '\n' !in b ==> Feed(p, a + b) == Feed(p, a).Plus(b)
  {
    FeedJoin(p, a, b);
    if '\n' !in b {
      NoNewlineScan(Scan(p.Plus(a)), b);
    }
  }

  // ----- what every reachable parser satisfies -----

  predicate GoodHeaders(headers: Headers) {
    forall name | name in headers ::
      && name != "" && Trimmed(name, WHITESPACE) && IsLower(name) && ':' !in name
      && Trimmed(headers[name], WHITESPACE) && '\n' !in name && '\n' !in headers[name]
  }

  predicate GoodUri(uri: string) {
    uri != "" && ' ' !in uri && '\n' !in uri
  }

  /** A request whose head is complete: content_length is the declared length in 16 bits. */
  predicate GoodHead(r: Request) {
    && GoodHeaders(r.headers)
    && GoodUri(r.uri)
    && DeclaredLength(r.headers).Some?
    && DeclaredLength(r.headers).value <= MAX_BODY_SIZE
    && r.contentLength == Min(DeclaredLength(r.headers).value, UINT16_MAX)
  }

  /** A complete request: only POST has a body, and it has the declared length. */
  predicate GoodRequest(r: Request) {
    GoodHead(r) && |r.body| == if r.verb.POST? then DeclaredLength(r.headers).value else 0
  }

  predicate Reachable(p: Parser) {
    match p.state
    case RequestLine => p.request == EMPTY_REQUEST && p.remaining == 0 && p.error == Ok
    case HeaderLines =>
      && GoodHeaders(p.request.headers) && GoodUri(p.request.uri)
      && p.request.body == "" && p.remaining == 0 && p.error == Ok
    case Body =>
      && GoodHead(p.request) && p.request.verb.POST? && p.request.body == ""
      && p.remaining > 0 && DeclaredLength(p.request.headers) == Some(p.remaining) && p.error == Ok
    case Done => GoodRequest(p.request) && p.error == Ok
    case Error => p.error != Ok && p.error != Incomplete
  }

  lemma OnRequestLineReachable(p: Parser, line: string)
    requires Reachable(p) && p.state.RequestLine? && '\n' !in line
    ensures Reachable(OnRequestLine(p, line))
  {
    hide Split, Trim, MethodOf;
    SplitFields(line, ' ');
  }

  lemma OnHeaderLineReachable(p: Parser, line: string)
    requires Reachable(p) && p.state.HeaderLines? && '\n' !in line
    ensures Reachable(OnHeaderLine(p, line))
  {
    hide ParseHeaderLine, Trimmed, IsLower, GoodUri, DeclaredLength;
    if line != "" {
      HeaderLineShape(line);
    }
  }

  lemma OnLineReachable(p: Parser, line: string)
    requires Reachable(p) && p.AtLine() && '\n' !in line
    ensures Reachable(OnLine(p, line))
  {
    hide Reachable, OnRequestLine, OnHeaderLine;
    if p.state.RequestLine? {
      OnRequestLineReachable(p, line);
    } else {
      OnHeaderLineReachable(p, line);
    }
  }

  lemma {:induction false} ScanReachable(p: Parser)
    requires Reachable(p)
    ensures Reachable(Scan(p))
    decreases |p.buffer|
  {
    if p.AtLine() {
      var n := IndexOf(p.buffer, '\n');
      if n < |p.buffer| {
        var q := p.(buffer := p.buffer[n + 1..]);
        assert '\n' !in LineBefore(p.buffer, n);
        hide OnLine, GoodHead, GoodHeaders;
        OnLineReachable(q, LineBefore(p.buffer, n));
        ScanReachable(OnLine(q, LineBefore(p.buffer, n)));
      }
    }
  }

  lemma DropDrop<T>(s: seq<T>, a: nat, b: nat)
    requires a + b <= |s|
    ensures s[a..][b..] == s[a + b..]
  {}

  /** What a scan leaves is the end of what it was given. */
  lemma {:induction false} ScanConsumesFront(p: Parser)
    ensures Scan(p).buffer == p.buffer[|p.buffer| - |Scan(p).buffer|..]
    decreases |p.buffer|
  {
    hide OnLine, LineBefore, IndexOf;
    if p.AtLine() {
      var n := IndexOf(p.buffer, '\n');
      if n < |p.buffer| {
        var q := OnLine(p.(buffer := p.buffer[n + 1..]), LineBefore(p.buffer, n));
        ScanConsumesFront(q);
        DropDrop(p.buffer, n + 1, |q.buffer| - |Scan(q).buffer|);
      }
    }
  }

  /** Every parser that feeds and get_request calls can reach satisfies Reachable, and what
      it has not consumed is the end of what it was fed. */
  lemma FeedReachable(p: Parser, data: string)
    requires Reachable(p)
    ensures Reachable(Feed(p, data)) && Reachable(Next(p))
    ensures p.Live() ==>
              var fed := p.buffer + data;
              && |Feed(p, data).buffer| <= |fed|
              && Feed(p, data).buffer == fed[|fed| - |Feed(p, data).buffer|..]
  {
    hide Scan, GoodHead, GoodHeaders, DeclaredLength;
    ScanReachable(p.Plus(data));
    ScanConsumesFront(p.Plus(data));
    ScanReachable(Fresh(p.buffer));
  }
}
