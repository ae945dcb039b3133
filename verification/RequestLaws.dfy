/** What the parser makes of single lines and of a declared length, in terms of their texts: which
    request lines are good, what a header line says, and how many bytes of body a Content-Length
    takes. */
module RequestLaws {
  import opened Text
  import opened Http
  import opened ParserSpec
  import opened HttpResponse
  import opened HttpRequest
  import opened HttpClient
  import opened ConnectionSpec
  import opened Connection
  import opened ResponseReader

  // ----- numbers, as std::stoll and std::stoull read them -----

  predicate Blank(s: string) {
    forall i | 0 <= i < |s| :: IsSpace(s[i])
  }

  lemma {:induction false} SkipBlank(blanks: string, t: string)
    requires Blank(blanks) && (t == "" || !IsSpace(t[0]))
    ensures SkipSpaces(blanks + t) == t
    decreases |blanks|
  {
    if blanks == "" {
      assert blanks + t == t;
    } else {
      assert (blanks + t)[0] == blanks[0] && (blanks + t)[1..] == blanks[1..] + t;
      SkipBlank(blanks[1..], t);
    }
  }

  lemma {:induction false} DigitsThen(digits: string, rest: string)
    requires forall i | 0 <= i < |digits| :: IsDigit(digits[i])
    requires rest == "" || !IsDigit(rest[0])
    ensures DigitsPrefix(digits + rest) == |digits|
    decreases |digits|
  {
    if digits == "" {
      assert digits + rest == rest;
    } else {
      assert (digits + rest)[0] == digits[0] && (digits + rest)[1..] == digits[1..] + rest;
      DigitsThen(digits[1..], rest);
    }
  }

  predicate IsSign(s: string) {
    s == "" || s == "+" || s == "-"
  }

  /** Blanks, a sign or none, digits, and anything that is no further digit: the number is what the
      digits say, negative after a minus. */
  lemma NumeralRead(blanks: string, sign: string, digits: string, rest: string)
    requires Blank(blanks) && IsSign(sign) && IsNumber(digits) && (rest == "" || !IsDigit(rest[0]))
    ensures ReadNumeral(blanks + sign + digits + rest) == Some(Numeral(sign == "-", DecimalValue(digits)))
  {
    var u := digits + rest;
    Regroup(blanks, sign, digits, rest);
    DigitsInFront(digits, rest);
    SkipBlank(blanks, sign + u);
    hide SkipSpaces, DigitsPrefix, DecimalValue, ReadNumeral, Blank, IsNumber;
    NumeralInParts(blanks + (sign + u), sign, u, |digits|);
  }

  lemma DigitsInFront(digits: string, rest: string)
    requires IsNumber(digits) && (rest == "" || !IsDigit(rest[0]))
    ensures var u := digits + rest;
            u != "" && IsDigit(u[0]) && !IsSpace(u[0]) && DigitsPrefix(u) == |digits| && u[..|digits|] == digits
  {
    DigitsThen(digits, rest);
  }

  lemma NumeralInParts(s: string, sign: string, u: string, n: nat)
    requires IsSign(sign) && u != "" && IsDigit(u[0]) && SkipSpaces(s) == sign + u && DigitsPrefix(u) == n && n > 0
    ensures n <= |u| && forall i | 0 <= i < n :: IsDigit(u[..n][i])
    ensures ReadNumeral(s) == Some(Numeral(sign == "-", DecimalValue(u[..n])))
  {
    hide SkipSpaces, DigitsPrefix, DecimalValue;
    var t := sign + u;
    if sign == "" {
      assert t == u;
    } else {
      assert t[0] == sign[0] && t[1..] == u;
    }
  }

  /** Without a digit after blanks and sign there is no number. */
  lemma NumeralMissing(blanks: string, sign: string, rest: string)
    requires Blank(blanks) && IsSign(sign)
    requires rest == "" || (!IsDigit(rest[0]) && (sign == "" ==> !IsSpace(rest[0]) && rest[0] != '+' && rest[0] != '-'))
    ensures ReadNumeral(blanks + sign + rest) == None
  {
    var t := sign + rest;
    assert blanks + sign + rest == blanks + t;
    SkipBlank(blanks, t);
    assert sign != "" ==> t[1..] == rest;
    DigitsThen("", rest);
    assert "" + rest == rest;
    hide SkipSpaces, DigitsPrefix;
  }

  lemma {:induction false} SkipSplit(s: string) returns (blanks: string)
    ensures Blank(blanks) && s == blanks + SkipSpaces(s)
    ensures SkipSpaces(s) == "" || !IsSpace(SkipSpaces(s)[0])
  {
    if s != "" && IsSpace(s[0]) {
      blanks := SkipSplit(s[1..]);
      assert s == [s[0]] + s[1..];
      blanks := [s[0]] + blanks;
    } else {
      blanks := "";
    }
  }

  lemma DigitsSplit(u: string) returns (digits: string, rest: string)
    ensures u == digits + rest && (forall i | 0 <= i < |digits| :: IsDigit(digits[i])) && (rest == "" || !IsDigit(rest[0]))
  {
    var n := DigitsPrefix(u);
    digits, rest := u[..n], u[n..];
  }

  lemma SignSplit(t: string) returns (sign: string, u: string)
    ensures t == sign + u && IsSign(sign)
    ensures sign == "" ==> t == u && (u == "" || (u[0] != '+' && u[0] != '-'))
  {
    sign := if t != "" && (t[0] == '-' || t[0] == '+') then [t[0]] else "";
    u := t[|sign|..];
  }

  /** Every text is one or the other. */
  lemma NumeralForms(s: string) returns (blanks: string, sign: string, digits: string, rest: string)
    ensures s == blanks + sign + digits + rest && Blank(blanks) && IsSign(sign)
    ensures forall i | 0 <= i < |digits| :: IsDigit(digits[i])
    ensures rest == "" || !IsDigit(rest[0])
    ensures digits == "" && rest != "" && sign == "" ==> !IsSpace(rest[0]) && rest[0] != '+' && rest[0] != '-'
  {
    blanks := SkipSplit(s);
    var t := SkipSpaces(s);
    var u;
    sign, u := SignSplit(t);
    digits, rest := DigitsSplit(u);
    hide *;
    Regroup(blanks, sign, digits, rest);
    assert digits == "" ==> "" + rest == rest;
  }

  lemma Regroup(a: string, b: string, c: string, d: string)
    ensures a + (b + (c + d)) == a + b + c + d
  {}

  lemma StollRead(blanks: string, sign: string, digits: string, rest: string)
    requires Blank(blanks) && IsSign(sign) && IsNumber(digits) && (rest == "" || !IsDigit(rest[0]))
    ensures var n: int := DecimalValue(digits);
            var v := if sign == "-" then -n else n;
            Stoll(blanks + sign + digits + rest) ==
              if -0x8000_0000_0000_0000 <= v < 0x8000_0000_0000_0000 then Some(v) else None
  {
    hide ReadNumeral, DecimalValue;
    NumeralRead(blanks, sign, digits, rest);
  }

  /** A minus sign counts down from 2^64. */
  lemma StoullRead(blanks: string, sign: string, digits: string, rest: string)
    requires Blank(blanks) && IsSign(sign) && IsNumber(digits) && (rest == "" || !IsDigit(rest[0]))
    ensures var n: int := DecimalValue(digits);
            Stoull(blanks + sign + digits + rest) ==
              if n >= 0x1_0000_0000_0000_0000 then None
              else if sign == "-" && n > 0 then Some(0x1_0000_0000_0000_0000 - n)
              else Some(n)
  {
    hide ReadNumeral, DecimalValue;
    NumeralRead(blanks, sign, digits, rest);
  }

  /** Without a number both throw. */
  lemma NoNumber(blanks: string, sign: string, rest: string)
    requires Blank(blanks) && IsSign(sign)
    requires rest == "" || (!IsDigit(rest[0]) && (sign == "" ==> !IsSpace(rest[0]) && rest[0] != '+' && rest[0] != '-'))
    ensures Stoll(blanks + sign + rest) == None && Stoull(blanks + sign + rest) == None
  {
    hide ReadNumeral;
    NumeralMissing(blanks, sign, rest);
  }

  // ----- the declared length -----

  /** A request up to its body, as a client prints it. */
  function Head(verb: Method, uri: string, headers: Headers, order: seq<string>): string {
    RequestToBytes(Request(verb, uri, headers, 0, ""), order) + CRLF
  }

  /** The parser right behind the headers. */
  function AtBlankLine(verb: Method, uri: string, headers: Headers, tail: string): Parser {
    Parser(tail, HeaderLines, Request(verb, uri, headers, 0, ""), Ok, NoMessage, 0)
  }

  lemma FeedHead(verb: Method, uri: string, headers: Headers, order: seq<string>, tail: string)
    requires GoodUri(uri) && GoodHeaders(headers) && Enumerates(order, headers)
    ensures Feed(Fresh(""), Head(verb, uri, headers, order) + tail) == Cap(Scan(OnBlankLine(AtBlankLine(verb, uri, headers, tail))))
  {
    hide Scan, HeaderBlock, GoodHeaders, OnBlankLine, Enumerates, CRLF;
    var r := Request(verb, uri, headers, 0, "");
    var block := HeaderBlock(headers, order);
    var text := Head(verb, uri, headers, order) + tail;
    var afterHeaders := "" + CRLF + tail;
    assert text == RequestLineText(r) + CRLF + (block + afterHeaders);
    assert Fresh("").Plus(text) == Fresh(text);
    ScanPrintedRequestLine(r, block + afterHeaders);
    var p1 := Fresh(block + afterHeaders).(request := EMPTY_REQUEST.(uri := uri, verb := verb), state := HeaderLines);
    ScanPrintedHeaders(p1, headers, order, afterHeaders);
    var p2 := p1.(buffer := afterHeaders, request := p1.request.(headers := headers));
    ScanLine(p2, "", tail);
    assert p2.(buffer := tail) == AtBlankLine(verb, uri, headers, tail);
  }

  /** What the parser holds after a request whose body is to have n bytes: the body as soon as it is
      there, for POST, and nothing of what follows it. */
  ghost predicate TakesBody(q: Parser, verb: Method, uri: string, headers: Headers, tail: string, n: nat) {
    && q.request.verb == verb && q.request.uri == uri && q.request.headers == headers
    && q.request.contentLength == (if n < 65535 then n else 65535)
    && if !verb.POST? then q.state.Done? && q.request.body == "" && q.buffer == tail
       else if |tail| < n then q.state.Body? && q.request.body == "" && q.buffer == tail
       else q.state.Done? && q.request.body == tail[..n] && q.buffer == tail[n..]
  }

  lemma BodyTaken(verb: Method, uri: string, headers: Headers, tail: string, n: nat)
    requires DeclaredLength(headers) == Some(n) && n <= 10 * 1024 * 1024
    ensures TakesBody(Cap(Scan(OnBlankLine(AtBlankLine(verb, uri, headers, tail)))), verb, uri, headers, tail, n)
  {
    hide DeclaredLength;
    assert n == 0 ==> tail[..n] == "" && tail[n..] == tail;
  }

  /** It is refused instead. */
  predicate Refused(q: Parser, error: ParseError) {
    q.state.Error? && q.error == error
  }

  lemma BodyRefused(verb: Method, uri: string, headers: Headers, tail: string)
    ensures DeclaredLength(headers).None? ==> Refused(Cap(Scan(OnBlankLine(AtBlankLine(verb, uri, headers, tail)))), BadRequest)
    ensures DeclaredLength(headers).Some? && DeclaredLength(headers).value > 10 * 1024 * 1024 ==>
              Refused(Cap(Scan(OnBlankLine(AtBlankLine(verb, uri, headers, tail)))), PayloadTooLarge)
  {
    hide DeclaredLength;
  }

  /** A Content-Length that starts with a number, whatever stands behind it: a POST has a body of exactly
      so many bytes, up to 10 MB; more is PayloadTooLarge; and a negative number or one that no long
      long holds is BadRequest. */
  lemma LengthDeclared(verb: Method, uri: string, headers: Headers, order: seq<string>, tail: string,
                       blanks: string, sign: string, digits: string, rest: string)
    requires GoodUri(uri) && GoodHeaders(headers) && Enumerates(order, headers)
    requires Blank(blanks) && IsSign(sign) && IsNumber(digits) && (rest == "" || !IsDigit(rest[0]))
    requires "content-length" in headers && headers["content-length"] == blanks + sign + digits + rest
    ensures var n := DecimalValue(digits);
            var q := Feed(Fresh(""), Head(verb, uri, headers, order) + tail);
            if (sign == "-" && n > 0) || n >= 0x8000_0000_0000_0000 then Refused(q, BadRequest)
            else if n > 10 * 1024 * 1024 then Refused(q, PayloadTooLarge)
            else TakesBody(q, verb, uri, headers, tail, n)
  {
    hide Feed, Head, Scan, OnBlankLine, GoodHeaders, Enumerates, DecimalValue, Stoll, TakesBody, Refused, GoodUri;
    FeedHead(verb, uri, headers, order, tail);
    StollRead(blanks, sign, digits, rest);
    BodyRefused(verb, uri, headers, tail);
    var n := DecimalValue(digits);
    if !(sign == "-" && n > 0) && n <= 10 * 1024 * 1024 {
      BodyTaken(verb, uri, headers, tail, n);
    }
  }

  /** The length that a client prints. */
  lemma LengthPrinted(uri: string, headers: Headers, order: seq<string>, body: string, tail: string)
    requires GoodUri(uri) && GoodHeaders(headers) && Enumerates(order, headers)
    requires "content-length" in headers && headers["content-length"] == Decimal(|body|)
    requires |body| < 0x8000_0000_0000_0000 // as every std::string
    ensures var q := Feed(Fresh(""), Head(POST, uri, headers, order) + (body + tail));
            if |body| > 10 * 1024 * 1024 then Refused(q, PayloadTooLarge)
            else q.state.Done? && q.request.body == body && q.buffer == tail
  {
    var d := Decimal(|body|);
    PrintedNumber(|body|);
    hide *;
    LengthDeclared(POST, uri, headers, order, body + tail, "", "", d, "");
    var q := Feed(Fresh(""), Head(POST, uri, headers, order) + (body + tail));
    if |body| <= 10 * 1024 * 1024 {
      WholeBody(q, uri, headers, body, tail);
    }
  }

  lemma PrintedNumber(n: nat)
    ensures var d := Decimal(n);
            Blank("") && IsSign("") && IsNumber(d) && DecimalValue(d) == n && "" + "" + d + "" == d
  {
    hide Decimal, DecimalValue;
  }

  lemma WholeBody(q: Parser, uri: string, headers: Headers, body: string, tail: string)
    requires TakesBody(q, POST, uri, headers, body + tail, |body|)
    ensures q.state.Done? && q.request.body == body && q.buffer == tail
  {
    assert (body + tail)[..|body|] == body && (body + tail)[|body|..] == tail;
  }

  /** A Content-Length without a number is BadRequest, whatever the method. */
  lemma LengthMissing(verb: Method, uri: string, headers: Headers, order: seq<string>, tail: string,
                      blanks: string, sign: string, rest: string)
    requires GoodUri(uri) && GoodHeaders(headers) && Enumerates(order, headers)
    requires Blank(blanks) && IsSign(sign)
    requires rest == "" || (!IsDigit(rest[0]) && (sign == "" ==> !IsSpace(rest[0]) && rest[0] != '+' && rest[0] != '-'))
    requires "content-length" in headers && headers["content-length"] == blanks + sign + rest
    ensures Refused(Feed(Fresh(""), Head(verb, uri, headers, order) + tail), BadRequest)
  {
    hide Feed, Head, Scan, OnBlankLine, GoodHeaders, Enumerates, Stoll, Refused, GoodUri;
    FeedHead(verb, uri, headers, order, tail);
    NoNumber(blanks, sign, rest);
    BodyRefused(verb, uri, headers, tail);
  }

  /** Without a Content-Length there is no body. */
  lemma LengthAbsent(verb: Method, uri: string, headers: Headers, order: seq<string>, tail: string)
    requires GoodUri(uri) && GoodHeaders(headers) && Enumerates(order, headers) && "content-length" !in headers
    ensures TakesBody(Feed(Fresh(""), Head(verb, uri, headers, order) + tail), verb, uri, headers, tail, 0)
  {
    hide Feed, Head, Scan, OnBlankLine, GoodHeaders, Enumerates, TakesBody, GoodUri;
    FeedHead(verb, uri, headers, order, tail);
    BodyTaken(verb, uri, headers, tail, 0);
  }

  /** A client that is refused for its length reads 413 for one that is too large, and 400 for one that
      is none, and nothing else. */
  lemma RefusalToClient(data: string, error: ParseError)
    requires Refused(Feed(Fresh(""), data), error) && data != ""
    ensures var o := Drive(Fresh(""), [Bytes(data)]);
            && o.requests == [] && o.ending.Replied?
            && var code := if error == PayloadTooLarge then 413 else 400;
               ReadAll(EndingReply(o.ending), [GET]) == Some([Received(code, StatusText(code), [("connection", "close")], "")])
  {
    hide Feed, StatusText, ReadAll, ErrorReply;
    assert [Bytes(data)][1..] == [];
    var q := Feed(Fresh(""), data);
    assert Drive(q, []) == Outcome([], Replied(q.error, q.message));
    ReadEnding(Replied(q.error, q.message));
  }

  // ----- the request line -----

  function Spaces(line: string): nat {
    if line == "" then 0 else (if line[0] == ' ' then 1 else 0) + Spaces(line[1..])
  }

  lemma {:induction false} SpacesAfter(field: string, rest: string)
    requires ' ' !in field
    ensures Spaces(field) == 0 && Spaces(field + " " + rest) == 1 + Spaces(rest)
    decreases |field|
  {
    if field == "" {
      assert (field + " " + rest)[1..] == rest;
    } else {
      assert (field + " " + rest)[0] == field[0] && (field + " " + rest)[1..] == field[1..] + " " + rest;
      SpacesAfter(field[1..], rest);
    }
  }

  lemma {:induction false} FieldsBySpaces(line: string)
    ensures |Split(line, ' ')| == Spaces(line) + 1
    decreases |line|
  {
    SplitOnce(line, ' ');
    var i := IndexOf(line, ' ');
    hide Split, IndexOf;
    if i < |line| {
      assert line == line[..i] + " " + line[i + 1..];
      SpacesAfter(line[..i], line[i + 1..]);
      FieldsBySpaces(line[i + 1..]);
    } else {
      assert line[..i] == line;
      SpacesAfter(line, "");
    }
  }

  lemma FeedLine(line: string)
    requires '\n' !in line
    ensures Feed(Fresh(""), line + CRLF) == Cap(Scan(OnRequestLine(Fresh(""), line)))
  {
    hide Scan, OnRequestLine;
    assert Fresh("").Plus(line + CRLF) == Fresh(line + CRLF);
    assert line + CRLF + "" == line + CRLF;
    ScanLine(Fresh(line + CRLF), line, "");
  }

  /** A line that has not exactly two spaces is refused: too few fields, or a fourth. */
  lemma WrongSpaces(line: string)
    requires '\n' !in line && Spaces(line) != 2
    ensures Refused(Feed(Fresh(""), line + CRLF), InvalidRequestLine)
  {
    FeedLine(line);
    FieldsBySpaces(line);
    ScanStep(OnRequestLine(Fresh(""), line));
    hide Split, Feed, Spaces, Scan, OnFields;
  }

  lemma AllBlank(s: string)
    ensures Trim(s, WHITESPACE) == "" <==> forall i | 0 <= i < |s| :: s[i] in WHITESPACE
  {
    var l := TrimLeft(s, WHITESPACE);
    var r := TrimRight(l, WHITESPACE);
    assert l != "" ==> l[0] !in WHITESPACE && s[|s| - |l|] == l[0];
    assert r == "" ==> forall i | 0 <= i < |l| :: l[i] in WHITESPACE;
  }

  /** The method that a name stands for. */
  predicate Names(name: string, verb: Method) {
    match verb
    case GET => name == "GET"
    case POST => name == "POST"
    case HEAD => name == "HEAD"
    case OPTIONS => name == "OPTIONS"
  }

  /** A line of three fields, empty ones included, is refused if one is empty or the last only blank, and
      if the first is none of the four names, which must be in upper case; otherwise method and URI are
      taken, and headers follow. */
  lemma ThreeFields(name: string, uri: string, version: string)
    requires ' ' !in name && ' ' !in uri && ' ' !in version
    requires '\n' !in name && '\n' !in uri && '\n' !in version
    ensures var q := Feed(Fresh(""), name + " " + uri + " " + version + CRLF);
            if name == "" || uri == "" || forall i | 0 <= i < |version| :: version[i] in WHITESPACE then Refused(q, InvalidRequestLine)
            else if exists verb :: Names(name, verb) then
              && q.state.HeaderLines? && q.buffer == "" && Names(name, q.request.verb)
              && q.request == Request(q.request.verb, uri, map[], 0, "")
            else Refused(q, MethodNotAllowed)
  {
    var line := name + " " + uri + " " + version;
    assert '\n' !in line;
    SplitThree(name, uri, version);
    FeedLine(line);
    AllBlank(version);
    MethodNamed(name);
    FieldsScanned(name, uri, version);
    hide Split, Feed, Trim, MethodOf, Scan, OnFields, Names;
  }

  lemma MethodNamed(name: string)
    ensures MethodOf(name).Some? <==> exists verb :: Names(name, verb)
    ensures MethodOf(name).Some? ==> Names(name, MethodOf(name).value)
  {
    assert Names("GET", GET) && Names("POST", POST) && Names("HEAD", HEAD) && Names("OPTIONS", OPTIONS);
  }

  lemma FieldsScanned(name: string, uri: string, version: string)
    ensures var q := Cap(Scan(OnFields(Fresh(""), name, uri, version)));
            if name == "" || uri == "" || Trim(version, WHITESPACE) == "" then Refused(q, InvalidRequestLine)
            else if MethodOf(name).Some? then
              && q.state.HeaderLines? && q.buffer == "" && q.request == Request(MethodOf(name).value, uri, map[], 0, "")
            else Refused(q, MethodNotAllowed)
  {
    ScanStep(OnFields(Fresh(""), name, uri, version));
    hide Scan, Trim, MethodOf;
  }

  // ----- header lines -----

  predicate AllWhite(s: string) {
    forall i | 0 <= i < |s| :: s[i] in WHITESPACE
  }

  lemma {:induction false} TrimLeftWhite(white: string, s: string)
    requires AllWhite(white) && (s == "" || s[0] !in WHITESPACE)
    ensures TrimLeft(white + s, WHITESPACE) == s
    decreases |white|
  {
    if white == "" {
      assert white + s == s;
    } else {
      assert (white + s)[0] == white[0] && (white + s)[1..] == white[1..] + s;
      TrimLeftWhite(white[1..], s);
    }
  }

  lemma {:induction false} TrimRightWhite(s: string, white: string)
    requires AllWhite(white) && (s == "" || s[|s| - 1] !in WHITESPACE)
    ensures TrimRight(s + white, WHITESPACE) == s
    decreases |white|
  {
    var t := s + white;
    if white == "" {
      assert t == s;
    } else {
      assert t[|t| - 1] == white[|white| - 1] && t[..|t| - 1] == s + white[..|white| - 1];
      TrimRightWhite(s, white[..|white| - 1]);
    }
  }

  lemma TrimWhite(before: string, s: string, after: string)
    requires AllWhite(before) && AllWhite(after) && Trimmed(s, WHITESPACE) && s != ""
    ensures Trim(before + s + after, WHITESPACE) == s
  {
    assert before + s + after == before + (s + after);
    TrimLeftWhite(before, s + after);
    TrimRightWhite(s, after);
  }

  lemma TrimOnlyWhite(s: string)
    requires AllWhite(s)
    ensures Trim(s, WHITESPACE) == ""
  {
    AllBlank(s);
  }

  /** A line with a name, a colon and a value, with white space around both: the name in lower case (if
      that is asked for) and the value, neither with the white space. */
  lemma HeaderLineRead(b1: string, name: string, b2: string, b3: string, value: string, b4: string, lower: bool)
    requires AllWhite(b1) && AllWhite(b2) && AllWhite(b3) && AllWhite(b4)
    requires name != "" && ':' !in name && Trimmed(name, WHITESPACE) && Trimmed(value, WHITESPACE)
    ensures ParseHeaderLine(b1 + name + b2 + ":" + (b3 + value + b4), lower) == (if lower then ToLower(name) else name, value)
  {
    var before, after := b1 + name + b2, b3 + value + b4;
    NoColon(b1);
    NoColon(b2);
    ColonAt(before, after);
    TrimWhite(b1, name, b2);
    if value == "" {
      OnlyWhite(b3, b4);
    } else {
      TrimWhite(b3, value, b4);
    }
    hide IndexOf, Trim, ToLower, AllWhite, Trimmed;
    assert before != "";
  }

  lemma OnlyWhite(b3: string, b4: string)
    requires AllWhite(b3) && AllWhite(b4)
    ensures Trim(b3 + "" + b4, WHITESPACE) == ""
  {
    TrimOnlyWhite(b3 + "" + b4);
  }

  lemma ColonAt(before: string, after: string)
    requires ':' !in before
    ensures var line := before + ":" + after;
            IndexOf(line, ':') == |before| < |line| && line[..|before|] == before && line[|before| + 1..] == after
  {
    IndexOfIs(before + ":" + after, ':', |before|);
  }

  lemma NoColon(white: string)
    requires AllWhite(white)
    ensures ':' !in white
  {
    WhitespaceIs(':');
  }

  /** A line without a colon, or with nothing but white space before the first, is no header. */
  lemma HeaderLineBad(before: string, after: string, lower: bool)
    requires AllWhite(before)
    ensures ParseHeaderLine(before + ":" + after, lower) == ("", "")
    ensures forall line | ':' !in line :: ParseHeaderLine(line, lower) == ("", "")
  {
    var line := before + ":" + after;
    NoColon(before);
    IndexOfIs(line, ':', |before|);
    assert line[..|before|] == before;
    TrimOnlyWhite(before);
    hide Trim;
  }

  lemma FeedHeader(p: Parser, line: string)
    requires p.state.HeaderLines? && p.buffer == "" && '\n' !in line && line != ""
    ensures Feed(p, line + CRLF) == Cap(Scan(OnHeaderLine(p, line)))
  {
    hide Scan, OnHeaderLine;
    assert p.Plus(line + CRLF).buffer == line + CRLF;
    assert line + CRLF + "" == line + CRLF;
    ScanLine(p.Plus(line + CRLF), line, "");
    assert p.Plus(line + CRLF).(buffer := "") == p;
  }

  /** What the parser does with such lines: a header is added, or takes the place of one of the same
      name; a line that is no header is refused. */
  lemma HeaderTaken(p: Parser, line: string, name: string, value: string)
    requires p.state.HeaderLines? && p.buffer == "" && '\n' !in line && line != ""
    requires ParseHeaderLine(line, true) == (name, value)
    ensures var q := Feed(p, line + CRLF);
            if name == "" then Refused(q, InvalidHeader)
            else q == p.(request := p.request.(headers := p.request.headers[name := value]))
  {
    FeedHeader(p, line);
    ScanStep(OnHeaderLine(p, line));
    hide Scan, ParseHeaderLine, Feed;
  }

  /** A line whose end has not come may have 8192 bytes and no more; the error depends on where it is. */
  lemma LineLimit(p: Parser, data: string)
    requires p.AtLine() && '\n' !in p.buffer && '\n' !in data
    ensures var q := Feed(p, data);
            if |p.buffer| + |data| <= 8192 then q == p.Plus(data)
            else Refused(q, if p.state.RequestLine? then BadRequest else InvalidHeader) && q.request == p.request
  {
    NoNewlineScan(p, data);
    hide Scan;
  }
}
