/** http/core/http_request.cpp: to_bytes, the printer opposite the parser. */
module HttpRequest {
  import opened Text
  import opened Http
  import opened ParserSpec
  import opened HttpResponse

  function RequestLineText(r: Request): string {
    MethodName(r.verb) + " " + r.uri + " " + "HTTP/1.1"
  }

  /** HttpRequest::to_bytes; it prints no blank line between the headers and the body. */
  function RequestToBytes(r: Request, order: seq<string>): string {
    RequestLineText(r) + CRLF + HeaderBlock(r.headers, order) + r.body
  }

  /** The same as the loop of the source. */
  method WriteRequest(r: Request, order: seq<string>) returns (out: string)
    ensures out == RequestToBytes(r, order)
  {
    out := RequestLineText(r) + CRLF;
    ghost var start := out;
    for i := 0 to |order|
      invariant out + HeaderBlock(r.headers, order[i..]) == start + HeaderBlock(r.headers, order)
    {
      assert order[i..][1..] == order[i + 1..];
      out := out + (HeaderLine(order[i], GetHeader(r.headers, order[i])) + CRLF);
    }
    out := out + r.body;
  }

  // ----- the parser on printed lines -----

  /** A parser in front of a line and its CRLF reads that line. */
  lemma ScanLine(p: Parser, line: string, tail: string)
    requires p.AtLine() && '\n' !in line && p.buffer == line + CRLF + tail
    ensures Scan(p) == Scan(OnLine(p.(buffer := tail), line))
  {
    var n := |line| + 1;
    IndexOfIs(p.buffer, '\n', n);
    assert p.buffer[n + 1..] == tail;
    assert p.buffer[..n - 1] == line;
  }

  function Collect(acc: Headers, headers: Headers, order: seq<string>): Headers
    requires forall name | name in order :: name in headers
    decreases |order|
  {
    if order == [] then acc else Collect(acc[order[0] := headers[order[0]]], headers, order[1..])
  }

  lemma CollectKeys(acc: Headers, headers: Headers, order: seq<string>)
    requires forall name | name in order :: name in headers
    ensures forall name :: name in Collect(acc, headers, order) <==> name in acc || name in order
    ensures forall name | name in Collect(acc, headers, order) ::
              Collect(acc, headers, order)[name] == if name in order then headers[name] else acc[name]
    decreases |order|
  {
    if order != [] {
      CollectKeys(acc[order[0] := headers[order[0]]], headers, order[1..]);
    }
  }

  lemma {:induction false} ScanHeaderBlock(p: Parser, headers: Headers, order: seq<string>, tail: string)
    requires p.state.HeaderLines? && GoodHeaders(headers)
    requires forall name | name in order :: name in headers
    requires p.buffer == HeaderBlock(headers, order) + tail
    ensures var got := Collect(p.request.headers, headers, order);
            Scan(p) == Scan(p.(buffer := tail, request := p.request.(headers := got)))
    decreases |order|
  {
    if order == [] {
      assert p.buffer == tail;
    } else {
      var name, value := order[0], headers[order[0]];
      var line := HeaderLine(name, value);
      var rest := HeaderBlock(headers, order[1..]) + tail;
      assert p.buffer == line + CRLF + rest;
      assert '\n' !in line;
      ScanLine(p, line, rest);
      HeaderLineUndo(name, value, true);
      var q := p.(buffer := rest, request := p.request.(headers := p.request.headers[name := value]));
      assert OnLine(p.(buffer := rest), line) == q by { hide Scan, HeaderBlock; }
      hide Scan, GoodHeaders;
      ScanHeaderBlock(q, headers, order[1..], tail);
    }
  }

  lemma RequestLineUndo(p: Parser, r: Request)
    requires GoodUri(r.uri)
    ensures OnRequestLine(p, RequestLineText(r)) ==
            p.(request := p.request.(uri := r.uri, verb := r.verb), state := HeaderLines)
  {
    var line := RequestLineText(r);
    var name := MethodName(r.verb);
    assert name != "" && ' ' !in name;
    assert Split(line, ' ') == [name, r.uri, "HTTP/1.1"] by { SplitThree(name, r.uri, "HTTP/1.1"); }
    assert Trim("HTTP/1.1", WHITESPACE) == "HTTP/1.1" by {
      WhitespaceIs('H');
      WhitespaceIs('1');
      TrimOfTrimmed("HTTP/1.1", WHITESPACE);
    }
    assert MethodOf(name) == Some(r.verb);
  }

  lemma SplitSpace(field: string, rest: string)
    requires ' ' !in field
    ensures Split(field + " " + rest, ' ') == [field] + Split(rest, ' ')
    ensures Split(field, ' ') == [field]
  {
    var line := field + " " + rest;
    IndexOfIs(line, ' ', |field|);
    IndexOfIs(field, ' ', |field|);
    hide IndexOf, Split;
    assert line[..|field|] == field && line[|field| + 1..] == rest;
    SplitOnce(line, ' ');
    SplitOnce(field, ' ');
  }

  lemma SplitThree(a: string, b: string, c: string)
    requires ' ' !in a && ' ' !in b && ' ' !in c
    ensures Split(a + " " + b + " " + c, ' ') == [a, b, c]
  {
    hide Split;
    assert a + " " + b + " " + c == a + " " + (b + " " + c);
    SplitSpace(a, b + " " + c);
    SplitSpace(b, c);
    SplitSpace(c, "");
  }

  lemma ScanPrintedRequestLine(r: Request, tail: string)
    requires GoodUri(r.uri)
    ensures Scan(Fresh(RequestLineText(r) + CRLF + tail)) ==
            Scan(Fresh(tail).(request := EMPTY_REQUEST.(uri := r.uri, verb := r.verb), state := HeaderLines))
  {
    var line := RequestLineText(r);
    assert '\n' !in MethodName(r.verb) && '\n' !in line;
    hide OnRequestLine, RequestLineText, Scan;
    ScanLine(Fresh(line + CRLF + tail), line, tail);
    RequestLineUndo(Fresh(tail), r);
  }

  lemma ScanPrintedHeaders(p: Parser, headers: Headers, order: seq<string>, tail: string)
    requires p.state.HeaderLines? && p.request.headers == map[] && GoodHeaders(headers)
    requires Enumerates(order, headers) && p.buffer == HeaderBlock(headers, order) + tail
    ensures Scan(p) == Scan(p.(buffer := tail, request := p.request.(headers := headers)))
  {
    hide Scan, GoodHeaders;
    ScanHeaderBlock(p, headers, order, tail);
    CollectKeys(map[], headers, order);
    assert Collect(map[], headers, order) == headers;
  }

  /** Every good request, printed with its headers in any order, followed by the blank line,
      its body and anything else, is parsed back whole, and what follows stays in the buffer. */
  lemma PrintParse(r: Request, order: seq<string>, rest: string)
    requires GoodRequest(r) && Enumerates(order, r.headers)
    ensures Feed(Fresh(""), RequestToBytes(r.(body := ""), order) + CRLF + r.body + rest)
         == Fresh(rest).(request := r, state := Done,
                         remaining := if r.verb.POST? then 0 else DeclaredLength(r.headers).value)
  {
    hide Scan, HeaderBlock, GoodHeaders, DeclaredLength, CRLF;
    var block := HeaderBlock(r.headers, order);
    var text := RequestToBytes(r.(body := ""), order) + CRLF + r.body + rest;
    var afterHeaders := "" + CRLF + (r.body + rest);
    assert text == RequestLineText(r) + CRLF + (block + afterHeaders);
    assert Fresh("").Plus(text) == Fresh(text);
    ScanPrintedRequestLine(r, block + afterHeaders);
    var p1 := Fresh(block + afterHeaders).(request := EMPTY_REQUEST.(uri := r.uri, verb := r.verb), state := HeaderLines);
    ScanPrintedHeaders(p1, r.headers, order, afterHeaders);
    ScanEnd(p1.(buffer := afterHeaders, request := p1.request.(headers := r.headers)), r, rest);
  }

  lemma ScanEnd(p: Parser, r: Request, rest: string)
    requires GoodRequest(r)
    requires p == Parser("" + CRLF + (r.body + rest), HeaderLines, r.(contentLength := 0, body := ""), Ok, NoMessage, 0)
    ensures Scan(p) == Fresh(rest).(request := r, state := Done,
                                    remaining := if r.verb.POST? then 0 else DeclaredLength(r.headers).value)
  {
    ScanLine(p, "", r.body + rest);
    var q := OnLine(p.(buffer := r.body + rest), "");
    if q.state.Body? {
      assert q.buffer[..q.remaining] == r.body;
      assert q.buffer[q.remaining..] == rest;
    } else {
      assert r.body == "" && q.buffer == rest;
    }
  }

  ghost predicate Parsed(w: string, r: Request) {
    Feed(Fresh(""), w).state.Done? && Feed(Fresh(""), w).request == r
  }

  /** The requests the parser can produce are exactly the good ones. */
  lemma ParsedIffGood(r: Request)
    ensures (exists w :: Parsed(w, r)) <==> GoodRequest(r)
  {
    hide Feed, RequestToBytes, GoodHead, Enumerates;
    if w :| Parsed(w, r) {
      FeedReachable(Fresh(""), w);
    }
    if GoodRequest(r) {
      var order := SomeOrder(r.headers);
      PrintParse(r, order, "");
      assert Parsed(RequestToBytes(r.(body := ""), order) + CRLF + r.body + "", r);
    }
  }

  lemma SomeOrder(headers: Headers) returns (order: seq<string>)
    ensures Enumerates(order, headers)
  {
    order := [];
    var keys := headers.Keys;
    var left := keys;
    while left != {}
      invariant left <= keys
      invariant forall i, j | 0 <= i < j < |order| :: order[i] != order[j]
      invariant forall name :: name in order <==> name in keys - left
    {
      var name :| name in left;
      assert name !in order;
      order, left := order + [name], left - {name};
    }
  }
}
