/** http/core/request_parser.cpp: the parser object, whose methods update the buffer and the
    state in place. Each method is proved against ParserSpec. */
module RequestParserClass {
  import opened Text
  import opened Http
  import opened ParserSpec

  /** The end of the first line, before its CRLF or LF; |buffer| when there is no newline. */
  function FindLineEnd(buffer: string): (end: nat)
    ensures end <= |buffer|
    ensures end == |buffer| <==> '\n' !in buffer
    ensures end < |buffer| ==> buffer[..end] == LineBefore(buffer, IndexOf(buffer, '\n'))
  {
    var newline := IndexOf(buffer, '\n');
    if newline == |buffer| then |buffer|
    else if newline > 0 && buffer[newline - 1] == '\r' then newline - 1
    else newline
  }

  function LineTerminatorLen(buffer: string, start: nat): nat {
    if start >= |buffer| then 0
    else if buffer[start] == '\r' && start + 1 < |buffer| && buffer[start + 1] == '\n' then 2
    else 1
  }

  /** The line end and the terminator length together skip exactly to the first newline. */
  lemma TerminatorEndsAtNewline(buffer: string)
    requires FindLineEnd(buffer) < |buffer|
    ensures FindLineEnd(buffer) + LineTerminatorLen(buffer, FindLineEnd(buffer)) == IndexOf(buffer, '\n') + 1
  {}

  /** std::string::find(c, from). */
  function FindFrom(s: string, c: char, from: nat): (i: nat)
    requires from <= |s|
    ensures from <= i <= |s|
  {
    from + IndexOf(s[from..], c)
  }

  /** The three searches for a space find the fields that Split yields. */
  lemma SplitByFind(line: string)
    ensures var s1 := IndexOf(line, ' ');
            if s1 == |line| then |Split(line, ' ')| == 1
            else
              var s2 := FindFrom(line, ' ', s1 + 1);
              if s2 == |line| then |Split(line, ' ')| == 2
              else if FindFrom(line, ' ', s2 + 1) == |line| then
                Split(line, ' ') == [line[..s1], line[s1 + 1..s2], line[s2 + 1..]]
              else |Split(line, ' ')| > 3
  {
    hide Split, IndexOf, FindFrom;
    var s1 := IndexOf(line, ' ');
    SplitOnce(line, ' ');
    if s1 < |line| {
      SplitTail(line, s1 + 1);
    }
  }

  lemma SplitTail(line: string, from: nat)
    requires from <= |line|
    ensures var s2 := FindFrom(line, ' ', from);
            if s2 == |line| then |Split(line[from..], ' ')| == 1
            else if FindFrom(line, ' ', s2 + 1) == |line| then
              Split(line[from..], ' ') == [line[from..s2], line[s2 + 1..]]
            else |Split(line[from..], ' ')| > 2
  {
    hide Split, IndexOf;
    var tail := line[from..];
    SplitOnce(tail, ' ');
    var k := IndexOf(tail, ' ');
    if k < |tail| {
      var rest := line[from + k + 1..];
      assert tail[k + 1..] == rest && tail[..k] == line[from..from + k];
      SplitOnce(rest, ' ');
    }
  }

  class RequestParser {
    var buffer: string
    var state: State
    var request: Request
    var error: ParseError
    var errorMessage: Message
    var bodyBytesRemaining: nat

    function View(): Parser
      reads this
    {
      Parser(buffer, state, request, error, errorMessage, bodyBytesRemaining)
    }

    constructor ()
      ensures View() == Fresh("")
    {
      buffer, state, request, error, errorMessage, bodyBytesRemaining :=
        "", RequestLine, EMPTY_REQUEST, Ok, NoMessage, 0;
    }

    predicate HasRequest() reads this { state.Done? }

    predicate HasError() reads this { state.Error? }

    method Fail(e: ParseError, m: Message)
      modifies this
      ensures View() == old(View()).Fail(e, m)
    {
      state, error, errorMessage := Error, e, m;
    }

    /** Takes one line from the buffer if a complete one is there. */
    method TakeLine() returns (found: bool, line: string)
      modifies this`buffer
      ensures found <==> '\n' in old(buffer)
      ensures !found ==> buffer == old(buffer)
      ensures found ==>
                var n := IndexOf(old(buffer), '\n');
                n < |old(buffer)| && buffer == old(buffer)[n + 1..] && line == LineBefore(old(buffer), n)
    {
      var end := FindLineEnd(buffer);
      if end == |buffer| {
        return false, "";
      }
      TerminatorEndsAtNewline(buffer);
      var termLen := LineTerminatorLen(buffer, end);
      line := buffer[..end];
      buffer := buffer[end + termLen..];
      found := true;
    }

    /** The part of process_request_line that reads "METHOD URI HTTP/1.x". */
    method ReadRequestLine(line: string) returns (progress: bool)
      requires state.RequestLine?
      modifies this
      ensures View() == OnRequestLine(old(View()), line)
      ensures progress == !View().state.Error?
    {
      hide Split, IndexOf, FindFrom, OnFields;
      SplitByFind(line);
      var s1 := IndexOf(line, ' ');
      if s1 == |line| {
        Fail(InvalidRequestLine, MissingSpace);
        return false;
      }
      var s2 := FindFrom(line, ' ', s1 + 1);
      if s2 == |line| {
        Fail(InvalidRequestLine, MissingVersion);
        return false;
      }
      if FindFrom(line, ' ', s2 + 1) != |line| {
        Fail(InvalidRequestLine, ExtraField);
        return false;
      }
      progress := TakeFields(line[..s1], line[s1 + 1..s2], line[s2 + 1..]);
    }

    /** The three fields of a request line that has exactly two spaces. */
    method TakeFields(methodStr: string, uri: string, versionStr: string) returns (progress: bool)
      requires state.RequestLine?
      modifies this
      ensures View() == OnFields(old(View()), methodStr, uri, versionStr)
      ensures progress == !View().state.Error?
    {
      hide Trim, MethodOf;
      request := request.(uri := uri);
      var version := Trim(versionStr, WHITESPACE);
      if version == "" || methodStr == "" || request.uri == "" {
        Fail(InvalidRequestLine, EmptyField);
        return false;
      }
      var m := MethodOf(methodStr);
      if m.None? {
        Fail(MethodNotAllowed, UnknownMethod);
        return false;
      }
      request := request.(verb := m.value);
      state := HeaderLines;
      return true;
    }

    method ProcessRequestLine() returns (progress: bool)
      requires state.RequestLine?
      modifies this
      ensures var p, n := old(View()), IndexOf(old(buffer), '\n');
              if n == |p.buffer| then !progress && View() == Cap(p)
              else
                && View() == OnRequestLine(p.(buffer := p.buffer[n + 1..]), LineBefore(p.buffer, n))
                && progress == !View().state.Error?
    {
      hide OnRequestLine, IndexOf;
      var found, line := TakeLine();
      if !found {
        if |buffer| > MAX_LINE {
          Fail(BadRequest, RequestLineTooLong);
        }
        return false;
      }
      progress := ReadRequestLine(line);
    }

    /** The blank line: the declared length decides whether a body follows. */
    method EndHeaders() returns (progress: bool)
      modifies this
      ensures View() == OnBlankLine(old(View())) && progress == !View().state.Error?
    {
      var cl := 0;
      if "content-length" in request.headers {
        var v := Stoll(request.headers["content-length"]);
        if v.None? || v.value < 0 {
          Fail(BadRequest, BadContentLength);
          return false;
        }
        cl := v.value;
      }
      if cl > MAX_BODY_SIZE {
        Fail(PayloadTooLarge, BodyTooLarge);
        return false;
      }
      request := request.(contentLength := if cl > UINT16_MAX then UINT16_MAX else cl);
      bodyBytesRemaining := cl;
      if request.verb == POST && bodyBytesRemaining > 0 {
        state := Body;
      } else {
        state := Done;
      }
      return true;
    }

    /** Any other line: one header. */
    method AddHeader(line: string) returns (progress: bool)
      requires line != "" && state.HeaderLines?
      modifies this
      ensures View() == OnHeaderLine(old(View()), line) && progress == !View().state.Error?
    {
      hide ParseHeaderLine;
      var (name, value) := ParseHeaderLine(line, true);
      if name == "" {
        Fail(InvalidHeader, BadHeaderLine);
        return false;
      }
      request := request.(headers := request.headers[name := value]);
      return true;
    }

    method ProcessHeaders() returns (progress: bool)
      requires state.HeaderLines?
      modifies this
      ensures var p, n := old(View()), IndexOf(old(buffer), '\n');
              if n == |p.buffer| then !progress && View() == Cap(p)
              else
                && View() == OnHeaderLine(p.(buffer := p.buffer[n + 1..]), LineBefore(p.buffer, n))
                && progress == !View().state.Error?
    {
      hide IndexOf, LineBefore, OnBlankLine, ParseHeaderLine;
      var found, line := TakeLine();
      if !found {
        if |buffer| > MAX_LINE {
          Fail(InvalidHeader, HeaderLineTooLong);
        }
        return false;
      }
      if line == "" {
        progress := EndHeaders();
      } else {
        progress := AddHeader(line);
      }
    }

    method ProcessBody() returns (progress: bool)
      requires state.Body?
      modifies this
      ensures View() == Scan(old(View()))
      ensures progress == View().state.Done?
      ensures !progress ==> View() == old(View())
    {
      if bodyBytesRemaining == 0 {
        state := Done;
        return true;
      }
      if |buffer| < bodyBytesRemaining {
        return false;
      }
      request := request.(body := buffer[..bodyBytesRemaining]);
      buffer := buffer[bodyBytesRemaining..];
      bodyBytesRemaining := 0;
      state := Done;
      return true;
    }

    /** One turn of the state machine. */
    method Turn() returns (progress: bool)
      requires View().Live()
      modifies this
      ensures progress ==>
                && Scan(View()) == Scan(old(View()))
                && |buffer| <= old(|buffer|) && (View().Live() ==> |buffer| < old(|buffer|))
      ensures !progress ==> View() == Cap(Scan(old(View())))
    {
      hide OnRequestLine, OnHeaderLine, IndexOf, LineBefore, Scan;
      ScanStep(View());
      if state.RequestLine? {
        progress := ProcessRequestLine();
      } else if state.HeaderLines? {
        progress := ProcessHeaders();
      } else {
        progress := ProcessBody();
      }
      ScanStep(View());
    }

    /** Runs the state machine until it needs more, is done or fails. */
    method Advance()
      modifies this
      ensures View() == Cap(Scan(old(View())))
    {
      ScanStep(View());
      hide Scan;
      while !state.Done? && !state.Error?
        invariant Scan(View()) == Scan(old(View()))
        decreases |buffer|, View().Live()
      {
        var progress := Turn();
        if !progress {
          return;
        }
      }
      ScanStep(View());
    }

    method Feed(data: string)
      modifies this
      ensures View() == ParserSpec.Feed(old(View()), data)
    {
      if state.Done? || state.Error? {
        return;
      }
      buffer := buffer + data;
      Advance();
    }

    method GetRequest() returns (r: Request)
      modifies this
      ensures r == old(request) && View() == Next(old(View()))
    {
      r := request;
      request, state, error, errorMessage, bodyBytesRemaining := EMPTY_REQUEST, RequestLine, Ok, NoMessage, 0;
      Advance();
    }

    method Reset()
      modifies this
      ensures View() == Fresh("")
    {
      buffer, state, request, error, errorMessage, bodyBytesRemaining :=
        "", RequestLine, EMPTY_REQUEST, Ok, NoMessage, 0;
    }
  }
}
