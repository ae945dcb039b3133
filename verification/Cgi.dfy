/** parse_cgi_output of http/handlers/cgi_handler.cpp: the response made from what a CGI child
    printed, and what the client reads of it. */
module Cgi {
  import opened Text
  import opened Http
  import opened HttpResponse
  import opened Connection
  import opened HttpClient
  import opened ResponseReader

  // ----- parse_cgi_output -----

  /** std::string::find of a non-empty pattern. */
  function Find(s: string, pat: string): (i: nat)
    ensures i <= |s|
    ensures i < |s| ==> pat <= s[i..]
    ensures forall j | 0 <= j < i :: !(pat <= s[j..])
  {
    if s == "" || pat <= s then 0
    else
      var k := Find(s[1..], pat);
      assert forall j | 0 < j <= |s| :: s[j..] == s[1..][j - 1..];
      1 + k
  }

  const BLANK_LINE := "\r\n\r\n"
  const BARE_BLANK_LINE := "\n\n"

  /** The header block and the body: at the first CRLF CRLF, or else at the first LF LF. */
  function CutHead(output: string): Option<(string, string)> {
    var i := Find(output, BLANK_LINE);
    if i < |output| then Some((output[..i], output[i + |BLANK_LINE|..]))
    else
      var j := Find(output, BARE_BLANK_LINE);
      if j < |output| then Some((output[..j], output[j + |BARE_BLANK_LINE|..])) else None
  }

  const INT_MAX := 0x7FFF_FFFF
  const STATUS := "Status: "

  /** `stream >> code` and the rest of the line: no number reads as 0, one that does not fit as
      the nearest int, and both leave the message empty. (Where there are only blanks, the source
      goes on with an int that was never set.) */
  function StatusOf(s: string): (int, string) {
    var t := SkipSpaces(s);
    var signed := t != "" && (t[0] == '-' || t[0] == '+');
    var u := if signed then t[1..] else t;
    var n := DigitsPrefix(u);
    if n == 0 then (0, "")
    else
      var m := DecimalValue(u[..n]);
      var v: int := if signed && t[0] == '-' then -(m as int) else m;
      if v > INT_MAX then (INT_MAX, "")
      else if v < -INT_MAX - 1 then (-INT_MAX - 1, "")
      else (v, Trim(u[n..], " "))
  }

  /** Headers of the child that the server decides on itself. */
  predicate Dropped(name: string) {
    name == "Connection" || name == "Transfer-Encoding" || name == "Content-Length"
  }

  function Chomp(line: string): string {
    if line != "" && line[|line| - 1] == '\r' then line[..|line| - 1] else line
  }

  function OnCgiLine(r: Response, line: string): Response {
    if line == "" then r
    else if STATUS <= line then
      var s := StatusOf(line[|STATUS|..]);
      r.(code := s.0, message := s.1)
    else
      var pair := ParseHeaderLine(line, false);
      if pair.0 == "" || Dropped(pair.0) then r else r.(headers := r.headers[pair.0 := pair.1])
  }

  function OnCgiLines(r: Response, lines: seq<string>): Response
    decreases |lines|
  {
    if lines == [] then r else OnCgiLines(OnCgiLine(r, Chomp(lines[0])), lines[1..])
  }

  const CHUNKED := "chunked"

  function ParseCgiOutput(output: string): Response {
    match CutHead(output)
    case None => Plain(500)
    case Some((head, body)) => Finish(OnCgiLines(Plain(200), Split(head, '\n')), body)
  }

  function Finish(r: Response, body: string): Response {
    r.(body := body, headers := r.headers["Transfer-Encoding" := CHUNKED])
  }

  lemma SplitStep(s: string, c: char, pos: nat)
    requires pos <= |s|
    ensures var e := IndexOf(s[pos..], c);
            Split(s[pos..], c) == if pos + e < |s| then [s[pos..pos + e]] + Split(s[pos + e + 1..], c) else [s[pos..pos + e]]
  {
    hide IndexOf, Split;
    SplitOnce(s[pos..], c);
    var e := IndexOf(s[pos..], c);
    if pos + e < |s| {
      assert s[pos..][e + 1..] == s[pos + e + 1..];
      assert s[pos..][..e] == s[pos..pos + e];
    } else {
      assert s[pos..] == s[pos..pos + e];
    }
  }

  /** The loop of getline over the header block. */
  method ParseHead(head: string) returns (response: Response)
    ensures response == OnCgiLines(Plain(200), Split(head, '\n'))
  {
    response := Plain(200);
    hide StatusText, OnCgiLine, OnCgiLines, Split, Plain;
    var pos: nat := 0;
    assert head[0..] == head;
    while pos < |head|
      invariant pos <= |head|
      invariant OnCgiLines(response, Split(head[pos..], '\n')) == OnCgiLines(Plain(200), Split(head, '\n'))
    {
      var e := pos + IndexOf(head[pos..], '\n');
      LineStep(response, head, pos);
      response := OnCgiLine(response, Chomp(head[pos..e]));
      pos := if e < |head| then e + 1 else |head|;
    }
    assert head[pos..] == "";
    EmptyLine(response);
  }

  /** parse_cgi_output. */
  method ParseOutput(output: string) returns (response: Response)
    ensures response == ParseCgiOutput(output)
  {
    hide StatusText, OnCgiLines, CutHead, Split;
    var cut := CutHead(output);
    if cut.None? {
      return Plain(500);
    }
    response := ParseHead(cut.value.0);
    response := Finish(response, cut.value.1);
  }

  lemma LineStep(r: Response, head: string, pos: nat)
    requires pos < |head|
    ensures var e := pos + IndexOf(head[pos..], '\n');
            OnCgiLines(r, Split(head[pos..], '\n')) ==
            OnCgiLines(OnCgiLine(r, Chomp(head[pos..e])), Split(head[if e < |head| then e + 1 else |head|..], '\n'))
  {
    hide IndexOf, Split, OnCgiLine;
    var e := pos + IndexOf(head[pos..], '\n');
    SplitStep(head, '\n', pos);
    if e < |head| {
      var more := Split(head[e + 1..], '\n');
      assert ([head[pos..e]] + more)[1..] == more;
    } else {
      assert head[|head|..] == "" && [head[pos..e]][1..] == [];
      EmptyLine(OnCgiLine(r, Chomp(head[pos..e])));
    }
  }

  lemma EmptyLine(r: Response)
    ensures OnCgiLines(r, Split("", '\n')) == r && OnCgiLines(r, []) == r
  {
    SplitOnce("", '\n');
    assert [""][1..] == [];
  }

  // ----- the client reads what the child printed -----

  /** What holds of the response after any header lines, whatever they are. */
  ghost predicate Sendable(r: Response) {
    && '\n' !in r.message && LineFields(r.headers) && r.file.NoFile?
    && "Connection" !in r.headers && "Content-Length" !in r.headers
  }

  lemma HeaderPairShape(line: string)
    requires '\n' !in line
    ensures var pair := ParseHeaderLine(line, false); pair.0 == "" || LineField(pair.0, pair.1)
  {
    var colon := IndexOf(line, ':');
    if 0 < colon < |line| {
      TrimTrims(line[..colon], WHITESPACE);
      TrimTrims(line[colon + 1..], WHITESPACE);
    }
  }

  lemma SkipSpacesPart(s: string)
    ensures forall c | c in SkipSpaces(s) :: c in s
  {}

  lemma StatusMessage(s: string)
    requires '\n' !in s
    ensures '\n' !in StatusOf(s).1
  {
    SkipSpacesPart(s);
    var t := SkipSpaces(s);
    assert '\n' !in t;
    var u := if t != "" && (t[0] == '-' || t[0] == '+') then t[1..] else t;
    assert '\n' !in u[DigitsPrefix(u)..];
    TrimTrims(u[DigitsPrefix(u)..], " ");
  }

  lemma OnCgiLineSendable(r: Response, line: string)
    requires Sendable(r) && '\n' !in line
    ensures Sendable(OnCgiLine(r, line)) && OnCgiLine(r, line).body == r.body
  {
    hide StatusOf, ParseHeaderLine, LineField;
    HeaderPairShape(line);
    if STATUS <= line {
      StatusMessage(line[|STATUS|..]);
    }
  }

  lemma {:induction false} OnCgiLinesSendable(r: Response, lines: seq<string>)
    requires Sendable(r) && forall i | 0 <= i < |lines| :: '\n' !in lines[i]
    ensures Sendable(OnCgiLines(r, lines)) && OnCgiLines(r, lines).body == r.body
    decreases |lines|
  {
    hide Sendable, OnCgiLine;
    if lines != [] {
      assert '\n' !in lines[0];
      OnCgiLineSendable(r, Chomp(lines[0]));
      OnCgiLinesSendable(OnCgiLine(r, Chomp(lines[0])), lines[1..]);
    }
  }

  /** Whatever a child prints with a blank line in it makes a chunked response whose headers stay one
      line each. Connection and Content-Length are kept from it only in that spelling. */
  lemma ParsedShape(output: string)
    requires CutHead(output).Some?
    ensures var r := ParseCgiOutput(output);
            && '\n' !in r.message && LineFields(r.headers) && r.file.NoFile? && r.body == CutHead(output).value.1
            && IsChunked(r.headers) && "Connection" !in r.headers && "Content-Length" !in r.headers
  {
    hide CutHead, Split, OnCgiLines;
    var head := CutHead(output).value.0;
    SplitFields(head, '\n');
    OnCgiLinesSendable(Plain(200), Split(head, '\n'));
    WhitespaceIs('T');
    WhitespaceIs('g');
    WhitespaceIs('c');
    WhitespaceIs('d');
  }

  /** The header that a line of the child's contributes, if any. */
  function Contribution(line: string): Option<(string, string)> {
    if line == "" || STATUS <= line then None
    else
      var pair := ParseHeaderLine(line, false);
      if pair.0 == "" || Dropped(pair.0) then None else Some(pair)
  }

  /** The last value that the lines give a name. */
  function LastValue(lines: seq<string>, name: string): Option<string>
    decreases |lines|
  {
    if lines == [] then None
    else
      var later := LastValue(lines[1..], name);
      var c := Contribution(Chomp(lines[0]));
      if later.Some? then later else if c.Some? && c.value.0 == name then Some(c.value.1) else None
  }

  /** The code and the message of the last Status line. */
  function LastStatus(lines: seq<string>, otherwise: (int, string)): (int, string)
    decreases |lines|
  {
    if lines == [] then otherwise
    else
      var line := Chomp(lines[0]);
      LastStatus(lines[1..], if STATUS <= line then StatusOf(line[|STATUS|..]) else otherwise)
  }

  lemma {:induction false} LinesMean(r: Response, lines: seq<string>)
    ensures var after := OnCgiLines(r, lines);
            && (after.code, after.message) == LastStatus(lines, (r.code, r.message))
            && (forall name :: name in after.headers <==> name in r.headers || LastValue(lines, name).Some?)
            && (forall name | name in after.headers ::
                  after.headers[name] == if LastValue(lines, name).Some? then LastValue(lines, name).value else r.headers[name])
    decreases |lines|
  {
    hide StatusOf, ParseHeaderLine, Chomp, Dropped;
    if lines != [] {
      LineMeans(r, Chomp(lines[0]));
      hide OnCgiLine, Contribution;
      LinesMean(OnCgiLine(r, Chomp(lines[0])), lines[1..]);
    }
  }

  lemma LineMeans(r: Response, line: string)
    ensures var after := OnCgiLine(r, line);
            && (after.code, after.message) == (if STATUS <= line then StatusOf(line[|STATUS|..]) else (r.code, r.message))
            && after.headers == if Contribution(line).Some? then r.headers[Contribution(line).value.0 := Contribution(line).value.1]
                                else r.headers
  {
    hide StatusOf, ParseHeaderLine, Dropped;
    assert STATUS <= line ==> line != "";
  }

  /** What a client needs of the lines before the blank line, for the answer to a request by `verb`:
      the last Status is a code that HTTP knows for an answer with a body, with a message that is
      text; and whatever header gets through is one that HTTP allows, gives no length and adds no
      transfer coding, in any letter case. */
  ghost predicate GoodLines(lines: seq<string>, verb: Method) {
    var (code, message) := LastStatus(lines, (200, "OK"));
    && 200 <= code <= 999 && !NoBody(verb, code) && IsText(message)
    && forall name :: LastValue(lines, name).Some? ==> HarmlessHeader(name, LastValue(lines, name).value)
  }

  predicate HarmlessHeader(name: string, value: string) {
    && GoodField(name, value) && ToLower(name) != CONTENT_LENGTH
    && (ToLower(name) == TRANSFER_ENCODING ==> ListOf(value) == [])
  }

  /** A header of the child's asks to close. */
  ghost predicate LinesAskToClose(lines: seq<string>) {
    exists name :: LastValue(lines, name).Some? && ToLower(name) == CONNECTION && CLOSE in ListOf(LastValue(lines, name).value)
  }

  lemma {:induction false} NeverDropped(lines: seq<string>, name: string)
    requires Dropped(name)
    ensures LastValue(lines, name).None?
    decreases |lines|
  {
    hide ParseHeaderLine, Dropped;
    if lines != [] { NeverDropped(lines[1..], name); }
  }

  lemma ChunkedField()
    ensures GoodField("Transfer-Encoding", CHUNKED)
  {}

  lemma DifferentWords()
    ensures TRANSFER_ENCODING != CONNECTION && TRANSFER_ENCODING != CONTENT_LENGTH && CONNECTION != CONTENT_LENGTH
  {
    assert |CONNECTION| == 10 && |TRANSFER_ENCODING| == 17 && |CONTENT_LENGTH| == 14;
  }

  /** The headers of a chunked answer, process_request's included, are as HTTP wants them. */
  ghost predicate HarmlessHeaders(headers: Headers) {
    forall name | name in headers && name != "Transfer-Encoding" :: HarmlessHeader(name, headers[name])
  }

  lemma ChunkedHeadIff(req: Request, r: Response, order: seq<string>)
    requires IsChunked(r.headers) && "Connection" !in r.headers && Enumerates(order, Connected(req, r.headers))
    ensures GoodFields(Connected(req, r.headers), order) && FramingOf(FieldsOf(Connected(req, r.headers), order)).ByChunks?
       <==> HarmlessHeaders(r.headers)
  {
    hide ListOf, ToLower, IsToken, IsText, ElementsOf, WantsClose, Values, FieldsOf, Elements;
    var headers := Connected(req, r.headers);
    GoodFieldsIff(headers, order);
    ChunkedFraming(headers, order);
    ElementsMeans(headers, order, TRANSFER_ENCODING);
    NoneNamed(headers, order, CONTENT_LENGTH);
    ChunkedName();
    ChunkedField();
    DifferentWords();
    ConnectionWords();
    InOrder(headers, order);
    hide Enumerates, GoodFields;
    assert forall name | name in r.headers :: name in headers && headers[name] == r.headers[name];
    assert OthersEmpty(headers, order, TRANSFER_ENCODING, "Transfer-Encoding") <==>
      forall name | name in headers && ToLower(name) == TRANSFER_ENCODING && name != "Transfer-Encoding" :: ListOf(headers[name]) == [];
  }

  lemma InOrder(headers: Headers, order: seq<string>)
    requires Enumerates(order, headers)
    ensures forall i | 0 <= i < |order| :: order[i] in headers && GetHeader(headers, order[i]) == headers[order[i]]
    ensures forall name | name in headers :: exists i :: 0 <= i < |order| && order[i] == name
  {
    forall i | 0 <= i < |order| ensures order[i] in headers {
      assert order[i] in order;
    }
    forall name | name in headers ensures exists i :: 0 <= i < |order| && order[i] == name {
      assert name in order;
    }
  }

  /** A chunked answer made by parse_cgi_output, as the client sees it. */
  lemma ChunkedAnswerIff(req: Request, r: Response, order: seq<string>, tail: string)
    requires IsChunked(r.headers) && "Connection" !in r.headers && r.file.NoFile?
    requires '\n' !in r.message && LineFields(r.headers) && Enumerates(order, Connected(req, r.headers))
    ensures var a := Answer(r, order);
            var told := 200 <= r.code <= 999 && !NoBody(req.verb, r.code) && IsText(r.message) && HarmlessHeaders(r.headers);
            && Printable(req, a)
            && (ReadAnswer(req.verb, Render(ProcessRequest(req, a)) + tail) == Some((Expected(req, a), tail)) <==> told)
            && (forall last :: Readable(req, a, last) <==> told && (last || !Closes(SentFields(req, a))))
  {
    var a := Answer(r, order);
    assert Printable(req, a);
    ChunkedHeadIff(req, r, order);
    ChunkedOrUnclear(req, a);
    ChunkedNotEmpty(r.body);
    hide IsChunked, Printable, FieldsOf, FramingOf, GoodFields, HarmlessHeaders, Enumerates, LineFields, Closes, ReadAnswer, Render,
      ProcessRequest, Chunked, IsText, Expected, Connected;
    AnswerUndo(req, a, tail);
  }

  /** The answer's headers in terms of the child's lines. */
  lemma ParsedLines(output: string, verb: Method)
    requires CutHead(output).Some?
    ensures var r := ParseCgiOutput(output);
            var lines := Split(CutHead(output).value.0, '\n');
            && (200 <= r.code <= 999 && !NoBody(verb, r.code) && IsText(r.message) && HarmlessHeaders(r.headers) <==>
                  GoodLines(lines, verb))
            && (AskedToClose(r.headers) <==> LinesAskToClose(lines))
  {
    hide CutHead, Split, OnCgiLines, ListOf, ToLower, IsText, GoodField, LastStatus, LastValue, StatusText;
    var lines := Split(CutHead(output).value.0, '\n');
    var r := ParseCgiOutput(output);
    LinesMean(Plain(200), lines);
    NeverDropped(lines, "Transfer-Encoding");
    NeverDropped(lines, "Connection");
    NotConnection();
    assert forall name | name != "Transfer-Encoding" :: name in r.headers <==> LastValue(lines, name).Some?;
    assert forall name | name in r.headers && name != "Transfer-Encoding" :: r.headers[name] == LastValue(lines, name).value;
    PlainOk();
  }

  lemma PlainOk()
    ensures Plain(200).message == "OK" && Plain(200).code == 200 && Plain(200).headers == map[]
  {}

  lemma NotConnection()
    ensures ToLower("Transfer-Encoding") != CONNECTION && Dropped("Connection") && Dropped("Transfer-Encoding")
  {
    ChunkedName();
    DifferentWords();
  }

  /** A client reads the answer made from what a child printed, and the next one if there is to be
      one, exactly if the lines before the blank line are good for it. They need not be: the server
      passes on any code, and headers in other letter case than the three that it drops. */
  lemma ParsedReadableIff(output: string, req: Request, order: seq<string>, last: bool)
    requires CutHead(output).Some?
    requires Enumerates(order, Connected(req, ParseCgiOutput(output).headers))
    ensures var lines := Split(CutHead(output).value.0, '\n');
            Readable(req, Answer(ParseCgiOutput(output), order), last) <==>
              GoodLines(lines, req.verb) && (last || !(WantsClose(req) || LinesAskToClose(lines)))
  {
    hide CutHead, Split, ParseCgiOutput, Enumerates, LinesAskToClose, GoodLines, AskedToClose, HarmlessHeaders, Closes, WantsClose,
      Readable, LineFields, IsText, Connected, Printable;
    var a := Answer(ParseCgiOutput(output), order);
    ParsedShape(output);
    ParsedLines(output, req.verb);
    ChunkedAnswerIff(req, a.response, order, "");
    ClosesIff(req, a);
  }

  /** The client gets exactly the bytes after the blank line, and nothing of them is lost to or taken
      from what follows on the connection, if and only if the lines before it are good for that; and
      it takes the connection to close exactly if the request or one of the lines asks for it. */
  lemma CgiToClient(h: string, b: string, req: Request, order: seq<string>, tail: string)
    requires Find(h + BLANK_LINE + b, BLANK_LINE) == |h|
    requires Enumerates(order, Connected(req, ParseCgiOutput(h + BLANK_LINE + b).headers))
    ensures var r := ParseCgiOutput(h + BLANK_LINE + b);
            var fields := FieldsOf(Connected(req, r.headers), order);
            && ValidAnswer(Answer(r, order))
            && (GoodLines(Split(h, '\n'), req.verb) <==>
                  ReadAnswer(req.verb, Render(ProcessRequest(req, Answer(r, order))) + tail)
                  == Some((Received(r.code, r.message, fields, b), tail)))
            && (Closes(fields) <==> WantsClose(req) || LinesAskToClose(Split(h, '\n')))
  {
    var output := h + BLANK_LINE + b;
    CutAt(h, b);
    var a := Answer(ParseCgiOutput(output), order);
    hide CutHead, Split, ParseCgiOutput, Enumerates, LinesAskToClose, GoodLines, AskedToClose, HarmlessHeaders, Closes, WantsClose,
      LineFields, IsText, Connected, ReadAnswer, Render, ProcessRequest, FieldsOf, Find;
    ParsedShape(output);
    ParsedLines(output, req.verb);
    ChunkedAnswerIff(req, a.response, order, tail);
    ClosesIff(req, a);
    assert Expected(req, a) == Received(a.response.code, a.response.message, SentFields(req, a), b);
  }

  lemma CutAt(h: string, b: string)
    requires Find(h + BLANK_LINE + b, BLANK_LINE) == |h|
    ensures CutHead(h + BLANK_LINE + b) == Some((h, b))
  {
    hide Find;
    var output := h + BLANK_LINE + b;
    assert output[..|h|] == h && output[|h| + 4..] == b;
  }

  // ----- children whose answers cannot be read -----

  lemma OneLineBlock(line: string)
    requires '\n' !in line
    ensures Split(line, '\n') == [line] && [line][1..] == []
  {
    IndexOfIs(line, '\n', |line|);
    SplitOnce(line, '\n');
  }

  /** The lines of a child that prints one line before the blank line. */
  lemma OneLineValue(line: string, name: string)
    ensures LastValue([line], name) ==
            if Contribution(Chomp(line)).Some? && Contribution(Chomp(line)).value.0 == name
            then Some(Contribution(Chomp(line)).value.1) else None
    ensures LastStatus([line], (200, "OK")) ==
            if STATUS <= Chomp(line) then StatusOf(Chomp(line)[|STATUS|..]) else (200, "OK")
  {
    hide Contribution, Chomp, StatusOf;
    assert [line][1..] == [];
  }

  const FOREIGN := "transfer-encoding: gzip"
  const GZIP := "gzip"

  lemma ForeignField()
    ensures LineField(TRANSFER_ENCODING, GZIP)
  {
    WhitespaceIs('t');
    WhitespaceIs('g');
    WhitespaceIs('z');
    WhitespaceIs('p');
  }

  lemma ForeignText()
    ensures HeaderLine(TRANSFER_ENCODING, GZIP) == FOREIGN && FOREIGN[0] == 't' && '\n' !in FOREIGN
  {}

  lemma ForeignName()
    ensures !Dropped(TRANSFER_ENCODING)
  {
    assert TRANSFER_ENCODING[0] == 't';
  }

  lemma ForeignCodingLine()
    ensures Contribution(Chomp(FOREIGN)) == Some((TRANSFER_ENCODING, GZIP))
  {
    ForeignField();
    ForeignText();
    ForeignName();
    ChompLine(TRANSFER_ENCODING, GZIP);
    HeaderLineUndo(TRANSFER_ENCODING, GZIP, false);
    assert STATUS[0] == 'S' && !(STATUS <= FOREIGN);
    hide ParseHeaderLine, Chomp, LineField, Dropped, HeaderLine;
  }

  lemma GzipWord()
    ensures ',' !in GZIP && IsLower(GZIP) && Trimmed(GZIP, BLANKS) && GZIP != ""
  {
    BlanksIs('g');
    BlanksIs('p');
  }

  lemma CodingLower()
    ensures ToLower(TRANSFER_ENCODING) == TRANSFER_ENCODING
  {
    assert IsLower(TRANSFER_ENCODING);
    ToLowerIsLower(TRANSFER_ENCODING);
  }

  lemma GzipListed()
    ensures ListOf(GZIP) == [GZIP]
  {
    GzipWord();
    hide ListOf, IsLower, Trimmed;
    ListOfWord(GZIP);
  }

  /** A child that names a transfer coding in lower case: the server adds its own beside it, and the
      client cannot read the answer, whatever the body, the request and the order of the headers. */
  lemma ForeignCoding(b: string, req: Request, order: seq<string>, tail: string)
    requires Enumerates(order, Connected(req, ParseCgiOutput(FOREIGN + BLANK_LINE + b).headers))
    ensures var r := ParseCgiOutput(FOREIGN + BLANK_LINE + b);
            && r.headers == map[TRANSFER_ENCODING := GZIP, "Transfer-Encoding" := CHUNKED] && r.code == 200 && r.body == b
            && ValidAnswer(Answer(r, order)) && !Readable(req, Answer(r, order), true)
            && ReadAnswer(req.verb, Render(ProcessRequest(req, Answer(r, order))) + tail)
               != Some((Expected(req, Answer(r, order)), tail))
  {
    var h := FOREIGN;
    ForeignCodingLine();
    ForeignText();
    GzipListed();
    CodingLower();
    OneLineBlock(h);
    OneLineValue(h, TRANSFER_ENCODING);
    assert Find(h + BLANK_LINE + b, BLANK_LINE) == |h| by { BlankAt(h, b); }
    CutAt(h, b);
    ForeignHeaders(h, b);
    NotGood([h], req.verb);
    hide *;
    ParsedReadableIff(h + BLANK_LINE + b, req, order, true);
    CgiToClient(h, b, req, order, tail);
    ExpectedIs(req, ParseCgiOutput(h + BLANK_LINE + b), order, b);
  }

  lemma ExpectedIs(req: Request, r: Response, order: seq<string>, b: string)
    requires r.file.NoFile? && r.body == b
    ensures ValidAnswer(Answer(r, order))
         && Expected(req, Answer(r, order)) == Received(r.code, r.message, FieldsOf(Connected(req, r.headers), order), b)
  {}

  lemma BlankAt(h: string, b: string)
    requires '\n' !in h
    ensures Find(h + BLANK_LINE + b, BLANK_LINE) == |h|
  {
    BlankAfterLine(h, BLANK_LINE + b);
    assert h + BLANK_LINE + b == h + (BLANK_LINE + b);
  }

  lemma NotGood(lines: seq<string>, verb: Method)
    requires LastValue(lines, TRANSFER_ENCODING) == Some(GZIP) && ListOf(GZIP) != [] && ToLower(TRANSFER_ENCODING) == TRANSFER_ENCODING
    ensures !GoodLines(lines, verb)
  {
    hide LastValue, LastStatus, ListOf, ToLower, GoodField, IsText;
    assert !HarmlessHeader(TRANSFER_ENCODING, LastValue(lines, TRANSFER_ENCODING).value);
  }

  lemma ForeignHeaders(h: string, b: string)
    requires CutHead(h + BLANK_LINE + b) == Some((h, b)) && Split(h, '\n') == [h]
    requires Contribution(Chomp(h)) == Some((TRANSFER_ENCODING, GZIP))
    ensures var r := ParseCgiOutput(h + BLANK_LINE + b);
            r.headers == map[TRANSFER_ENCODING := GZIP, "Transfer-Encoding" := CHUNKED] && r.code == 200 && r.body == b && r.file.NoFile?
  {
    hide CutHead, Split, Contribution, StatusOf, ParseHeaderLine, Chomp;
    assert [h][1..] == [];
    LineMeans(Plain(200), Chomp(h));
    ContributionNoStatus(Chomp(h));
    LineKeepsRest(Plain(200), Chomp(h));
    hide OnCgiLine;
    assert OnCgiLines(Plain(200), [h]) == OnCgiLine(Plain(200), Chomp(h));
  }

  lemma ContributionNoStatus(line: string)
    requires Contribution(line).Some?
    ensures !(STATUS <= line)
  {}

  lemma LineKeepsRest(r: Response, line: string)
    ensures OnCgiLine(r, line).file == r.file && OnCgiLine(r, line).body == r.body
  {
    hide StatusOf, ParseHeaderLine;
  }

  /** A child whose Status is a text without a number: the code is 0, and there is no such line in
      HTTP. */
  lemma NoCode(text: string, b: string, req: Request, order: seq<string>, tail: string)
    requires text != "" && 'A' <= text[0] <= 'Z' && '\n' !in text
    requires Enumerates(order, Connected(req, ParseCgiOutput(STATUS + text + BLANK_LINE + b).headers))
    ensures var r := ParseCgiOutput(STATUS + text + BLANK_LINE + b);
            && r.code == 0 && ValidAnswer(Answer(r, order)) && !Readable(req, Answer(r, order), true)
            && ReadAnswer(req.verb, Render(ProcessRequest(req, Answer(r, order))) + tail)
               != Some((Expected(req, Answer(r, order)), tail))
  {
    var h := STATUS + text;
    assert '\n' !in h by { assert '\n' !in STATUS; }
    OneLineBlock(h);
    OneLineValue(h, TRANSFER_ENCODING);
    ChompStatus(text);
    assert Find(h + BLANK_LINE + b, BLANK_LINE) == |h| by { BlankAt(h, b); }
    CutAt(h, b);
    CodeZero([h], req.verb);
    ParsedShape(h + BLANK_LINE + b);
    ParsedCode(h, b);
    hide *;
    ParsedReadableIff(h + BLANK_LINE + b, req, order, true);
    CgiToClient(h, b, req, order, tail);
    ExpectedIs(req, ParseCgiOutput(h + BLANK_LINE + b), order, b);
  }

  lemma ChompStatus(text: string)
    requires text != "" && 'A' <= text[0] <= 'Z'
    ensures STATUS <= Chomp(STATUS + text) && StatusOf(Chomp(STATUS + text)[|STATUS|..]) == (0, "")
  {
    var h := STATUS + text;
    assert h[|h| - 1] == text[|text| - 1];
    var t := Chomp(h)[|STATUS|..];
    assert t == Chomp(text);
    assert t[0] == text[0];
    assert SkipSpaces(t) == t && DigitsPrefix(t) == 0;
  }

  lemma CodeZero(lines: seq<string>, verb: Method)
    requires LastStatus(lines, (200, "OK")).0 == 0
    ensures !GoodLines(lines, verb)
  {
    hide LastValue, LastStatus;
  }

  lemma ParsedCode(h: string, b: string)
    requires CutHead(h + BLANK_LINE + b) == Some((h, b)) && Split(h, '\n') == [h]
    requires LastStatus([h], (200, "OK")).0 == 0
    ensures ParseCgiOutput(h + BLANK_LINE + b).code == 0 && ParseCgiOutput(h + BLANK_LINE + b).body == b
  {
    PlainOk();
    LinesMean(Plain(200), [h]);
    hide CutHead, Split, OnCgiLines, LastStatus, LastValue, Plain;
  }

  // ----- a child that prints well-formed headers -----

  /** Header lines with CRLF between them but not after the last. */
  function Head(headers: Headers, order: seq<string>): string {
    if order == [] then ""
    else if |order| == 1 then HeaderLine(order[0], GetHeader(headers, order[0]))
    else HeaderLine(order[0], GetHeader(headers, order[0])) + CRLF + Head(headers, order[1..])
  }

  function Gather(acc: Headers, headers: Headers, order: seq<string>): Headers
    decreases |order|
  {
    if order == [] then acc
    else Gather(if Dropped(order[0]) then acc else acc[order[0] := GetHeader(headers, order[0])], headers, order[1..])
  }

  lemma ChompLine(name: string, value: string)
    requires LineField(name, value)
    ensures Chomp(HeaderLine(name, value)) == HeaderLine(name, value)
    ensures Chomp(HeaderLine(name, value) + "\r") == HeaderLine(name, value)
  {
    var line := HeaderLine(name, value);
    WhitespaceIs('\r');
    assert line[|line| - 1] == if value == "" then ' ' else value[|value| - 1];
    assert (line + "\r")[..|line|] == line;
  }

  lemma StatusName(name: string, value: string)
    requires ':' !in name
    ensures STATUS <= HeaderLine(name, value) ==> name == "Status"
  {
    var line := HeaderLine(name, value);
    if STATUS <= line {
      assert IndexOf(line, ':') == |name| by { HeaderLineCut(name, value); }
      assert IndexOf(line, ':') == 6 by { IndexOfIs(line, ':', 6); }
      assert name == line[..6];
    }
  }

  /** What one printed header contributes. */
  lemma OneLine(r: Response, name: string, value: string)
    requires LineField(name, value) && name != "Status"
    ensures OnCgiLine(r, HeaderLine(name, value)) == if Dropped(name) then r else r.(headers := r.headers[name := value])
  {
    StatusName(name, value);
    HeaderLineUndo(name, value, false);
    hide ParseHeaderLine, StatusOf;
  }

  lemma SplitFirst(first: string, rest: string)
    requires '\n' !in first
    ensures Split(first, '\n') == [first]
    ensures Split(first + "\n" + rest, '\n') == [first] + Split(rest, '\n')
  {
    hide Split, IndexOf;
    var text := first + "\n" + rest;
    IndexOfIs(first, '\n', |first|);
    SplitOnce(first, '\n');
    IndexOfIs(text, '\n', |first|);
    assert text[..|first|] == first && text[|first| + 1..] == rest;
    SplitOnce(text, '\n');
  }

  function FirstLine(headers: Headers, order: seq<string>): string
    requires order != []
  {
    HeaderLine(order[0], GetHeader(headers, order[0]))
  }

  lemma SplitHead(headers: Headers, order: seq<string>)
    requires order != [] && '\n' !in FirstLine(headers, order)
    ensures Split(Head(headers, order), '\n') ==
            if |order| == 1 then [FirstLine(headers, order)]
            else [FirstLine(headers, order) + "\r"] + Split(Head(headers, order[1..]), '\n')
  {
    hide Split, HeaderLine;
    var line := FirstLine(headers, order);
    if |order| == 1 {
      SplitFirst(line, "");
    } else {
      var rest := Head(headers, order[1..]);
      SplitFirst(line + "\r", rest);
      assert line + CRLF + rest == line + "\r" + "\n" + rest;
    }
  }

  lemma {:induction false} ManyLines(r: Response, headers: Headers, order: seq<string>)
    requires LineFields(headers) && "Status" !in headers && order != []
    requires forall name | name in order :: name in headers
    ensures OnCgiLines(r, Split(Head(headers, order), '\n')) == r.(headers := Gather(r.headers, headers, order))
    decreases |order|
  {
    var name, value := order[0], headers[order[0]];
    LineFieldOf(headers, name);
    assert '\n' !in HeaderLine(name, value);
    ChompLine(name, value);
    OneLine(r, name, value);
    SplitHead(headers, order);
    hide OnCgiLine, Chomp, LineFields, Split, HeaderLine, Head, Dropped;
    var line := HeaderLine(name, value);
    if |order| == 1 {
      assert [line][1..] == [] && order[1..] == [];
    } else {
      var more := Split(Head(headers, order[1..]), '\n');
      assert ([line + "\r"] + more)[1..] == more;
      ManyLines(OnCgiLine(r, line), headers, order[1..]);
    }
  }

  lemma FindIs(s: string, pat: string, i: nat)
    requires i < |s| && pat <= s[i..]
    requires forall j | 0 <= j < i :: !(pat <= s[j..])
    ensures Find(s, pat) == i
  {}

  lemma BlankAfterLine(line: string, tail: string)
    requires '\n' !in line && BLANK_LINE <= tail
    ensures Find(line + tail, BLANK_LINE) == |line|
  {
    hide Find;
    var s := line + tail;
    assert s[|line|..] == tail;
    forall j | 0 <= j < |line| ensures !(BLANK_LINE <= s[j..]) {
      assert s[j..][1] == s[j + 1];
      assert s[j + 1] != '\n' by {
        if j + 1 == |line| { assert s[j + 1] == tail[0] == '\r'; }
      }
    }
    FindIs(s, BLANK_LINE, |line|);
  }

  lemma NotBlankAt(line: string, rest: string, j: nat)
    requires '\n' !in line && j <= |line| + 1
    ensures BLANK_LINE <= (line + CRLF + rest)[j..] ==> CRLF <= rest
  {
    var s := line + CRLF + rest;
    if BLANK_LINE <= s[j..] {
      assert s[j] == s[j..][0] && s[j + 1] == s[j..][1] && s[j + 2] == s[j..][2] && s[j + 3] == s[j..][3];
      assert j == |line|;
      assert rest[0] == s[j + 2] && rest[1] == s[j + 3];
    }
  }

  lemma Suffix(a: string, b: string, j: nat)
    requires |a| <= j <= |a| + |b|
    ensures (a + b)[j..] == b[j - |a|..]
  {}

  lemma FindSkip(a: string, rest: string, pat: string)
    requires forall j | 0 <= j < |a| :: !(pat <= (a + rest)[j..])
    requires Find(rest, pat) < |rest|
    ensures Find(a + rest, pat) == |a| + Find(rest, pat)
  {
    var f := Find(rest, pat);
    hide Find;
    Suffix(a, rest, |a| + f);
    forall j | 0 <= j < |a| + f ensures !(pat <= (a + rest)[j..]) {
      if j >= |a| {
        Suffix(a, rest, j);
      }
    }
    FindIs(a + rest, pat, |a| + f);
  }

  lemma BlankAfterMore(line: string, rest: string)
    requires '\n' !in line && !(CRLF <= rest) && Find(rest, BLANK_LINE) < |rest|
    ensures Find(line + CRLF + rest, BLANK_LINE) == |line| + 2 + Find(rest, BLANK_LINE)
  {
    hide Find;
    var a := line + CRLF;
    forall j | 0 <= j < |a| ensures !(BLANK_LINE <= (a + rest)[j..]) {
      NotBlankAt(line, rest, j);
    }
    FindSkip(a, rest, BLANK_LINE);
  }

  lemma HeadStarts(headers: Headers, order: seq<string>, tail: string)
    requires LineFields(headers) && order != [] && order[0] in headers
    ensures !(CRLF <= Head(headers, order) + tail)
  {
    var line := HeaderLine(order[0], headers[order[0]]);
    LineFieldOf(headers, order[0]);
    assert |line| > 2 && '\n' !in line;
    assert (Head(headers, order) + tail)[1] == line[1];
  }

  lemma BlankAfterHead(line: string, more: string, tail: string)
    requires '\n' !in line && BLANK_LINE <= tail && !(CRLF <= more + tail)
    requires Find(more + tail, BLANK_LINE) == |more|
    ensures Find(line + CRLF + more + tail, BLANK_LINE) == |line + CRLF + more|
  {
    hide Find;
    BlankAfterMore(line, more + tail);
    assert line + CRLF + more + tail == line + CRLF + (more + tail);
  }

  /** The blank line after printed headers is the first one. */
  lemma {:induction false} FirstBlankLine(headers: Headers, order: seq<string>, tail: string)
    requires LineFields(headers) && order != [] && BLANK_LINE <= tail
    requires forall name | name in order :: name in headers
    ensures Find(Head(headers, order) + tail, BLANK_LINE) == |Head(headers, order)|
    decreases |order|
  {
    var line := FirstLine(headers, order);
    LineFieldOf(headers, order[0]);
    assert '\n' !in line;
    hide HeaderLine, LineFields, Find, FirstLine;
    if |order| == 1 {
      BlankAfterLine(line, tail);
    } else {
      HeadStarts(headers, order[1..], tail);
      FirstBlankLine(headers, order[1..], tail);
      BlankAfterHead(line, Head(headers, order[1..]), tail);
    }
  }

  lemma {:induction false} HeaderBlockIs(headers: Headers, order: seq<string>)
    requires order != []
    ensures HeaderBlock(headers, order) == Head(headers, order) + CRLF
    decreases |order|
  {
    hide HeaderLine;
    if |order| > 1 {
      HeaderBlockIs(headers, order[1..]);
    } else {
      assert order[1..] == [];
    }
  }

  lemma {:induction false} GatherIs(acc: Headers, headers: Headers, order: seq<string>)
    requires forall name | name in order :: name in headers
    ensures forall name :: name in Gather(acc, headers, order) <==> name in acc || (name in order && !Dropped(name))
    ensures forall name | name in Gather(acc, headers, order) ::
              Gather(acc, headers, order)[name] == if name in order && !Dropped(name) then headers[name] else acc[name]
    decreases |order|
  {
    hide Dropped;
    if order != [] {
      GatherIs(if Dropped(order[0]) then acc else acc[order[0] := headers[order[0]]], headers, order[1..]);
    }
  }

  lemma CutPrinted(headers: Headers, order: seq<string>, body: string)
    requires LineFields(headers) && order != [] && forall name | name in order :: name in headers
    ensures CutHead(HeaderBlock(headers, order) + CRLF + body) == Some((Head(headers, order), body))
  {
    hide Find, Head, HeaderBlock, LineFields;
    var head := Head(headers, order);
    var output := head + BLANK_LINE + body;
    HeaderBlockIs(headers, order);
    assert HeaderBlock(headers, order) + CRLF + body == output;
    assert output == head + (BLANK_LINE + body);
    FirstBlankLine(headers, order, BLANK_LINE + body);
    assert output[..|head|] == head && output[|head| + 4..] == body;
  }

  /** The headers that get through. */
  function Kept(headers: Headers): Headers {
    map name | name in headers && !Dropped(name) :: headers[name]
  }

  /** A child that prints well-formed headers, at least one, in any order, a blank line and a
      body, gets exactly that answered: its headers but for those the server decides, and the
      body in chunked coding. */
  lemma PrintedHeaders(headers: Headers, order: seq<string>, body: string)
    requires LineFields(headers) && "Status" !in headers && Enumerates(order, headers) && order != []
    ensures ParseCgiOutput(HeaderBlock(headers, order) + CRLF + body)
         == Plain(200).(body := body, headers := Kept(headers)["Transfer-Encoding" := CHUNKED])
  {
    hide StatusText, Split, OnCgiLines, CutHead, Head, HeaderBlock, Gather, LineFields, Dropped;
    CutPrinted(headers, order, body);
    ManyLines(Plain(200), headers, order);
    GatherIs(map[], headers, order);
    assert Gather(map[], headers, order) == Kept(headers);
  }

  // ----- the Status line, and bare line feeds -----

  function StatusHeader(code: int, message: string): string {
    STATUS + DecimalInt(code) + " " + message
  }

  lemma DigitsOf(n: nat, rest: string)
    requires rest == "" || !IsDigit(rest[0])
    ensures DigitsPrefix(Decimal(n) + rest) == |Decimal(n)|
  {
    DigitsThen(Decimal(n), rest);
  }

  lemma {:induction false} DigitsThen(digits: string, rest: string)
    requires forall i | 0 <= i < |digits| :: IsDigit(digits[i])
    requires rest == "" || !IsDigit(rest[0])
    ensures DigitsPrefix(digits + rest) == |digits|
  {
    if digits == "" {
      assert digits + rest == rest;
    } else {
      assert (digits + rest)[1..] == digits[1..] + rest;
      DigitsThen(digits[1..], rest);
    }
  }

  /** The code and the rest, once the sign is known. */
  lemma StatusOfNumber(s: string, u: string, n: nat, negative: bool)
    requires u != "" && n <= |u| && n > 0 && DigitsPrefix(u) == n && IsDigit(u[0])
    requires s == if negative then "-" + u else u
    ensures var v: int := if negative then -(DecimalValue(u[..n]) as int) else DecimalValue(u[..n]);
            -INT_MAX - 1 <= v <= INT_MAX ==> StatusOf(s) == (v, Trim(u[n..], " "))
  {
    hide DecimalValue, DigitsPrefix, Trim;
    assert SkipSpaces(s) == s;
    if negative { assert s[1..] == u; }
  }

  lemma CodeText(code: int, message: string)
    ensures var u := Decimal(if code < 0 then -code else code) + (" " + message);
            DecimalInt(code) + " " + message == if code < 0 then "-" + u else u
  {
    hide Decimal;
  }

  /** A printed code that fits an int and its message are read back. */
  lemma StatusUndo(code: int, message: string)
    requires -INT_MAX - 1 <= code <= INT_MAX && Trimmed(message, " ")
    ensures StatusOf(DecimalInt(code) + " " + message) == (code, message)
  {
    hide DecimalValue, DigitsPrefix, Trim, Decimal, StatusOf, DecimalInt;
    var m: nat := if code < 0 then -code else code;
    var d, rest := Decimal(m), " " + message;
    DigitsOf(m, rest);
    SpaceBeforeMessage(message);
    CodeText(code, message);
    assert (d + rest)[..|d|] == d && (d + rest)[|d|..] == rest;
    StatusOfNumber(DecimalInt(code) + " " + message, d + rest, |d|, code < 0);
  }

  lemma SpaceBeforeMessage(message: string)
    requires Trimmed(message, " ")
    ensures Trim(" " + message, " ") == message
  {
    assert ' ' in " ";
    hide Trim, Trimmed;
    TrimSpaceBefore(message, " ");
  }

  lemma StatusParts(code: int, message: string)
    ensures var line := StatusHeader(code, message);
            && STATUS <= line && line[|STATUS|..] == DecimalInt(code) + " " + message
            && Chomp(line + "\r") == line
  {
    hide DecimalInt;
    var line := StatusHeader(code, message);
    assert line == STATUS + (DecimalInt(code) + " " + message);
    assert (line + "\r")[..|line|] == line;
  }

  lemma StatusLineStep(r: Response, code: int, message: string)
    requires -INT_MAX - 1 <= code <= INT_MAX && Trimmed(message, " ")
    ensures OnCgiLine(r, StatusHeader(code, message)) == r.(code := code, message := message)
  {
    StatusUndo(code, message);
    StatusParts(code, message);
    hide StatusOf, DecimalInt, StatusHeader, ParseHeaderLine, Chomp;
  }

  lemma StatusHasNoNewline(code: int, message: string)
    requires '\n' !in message
    ensures '\n' !in StatusHeader(code, message)
  {
    assert '\n' !in DecimalInt(code);
    hide DecimalInt;
    assert '\n' !in STATUS;
  }

  lemma CutWithStatus(status: string, headers: Headers, order: seq<string>, body: string)
    requires LineFields(headers) && order != [] && (forall name | name in order :: name in headers) && '\n' !in status
    ensures CutHead(status + CRLF + HeaderBlock(headers, order) + CRLF + body)
         == Some((status + CRLF + Head(headers, order), body))
  {
    hide Find, Head, HeaderBlock, LineFields;
    var more := Head(headers, order);
    var head := status + CRLF + more;
    HeaderBlockIs(headers, order);
    FirstBlankLine(headers, order, BLANK_LINE + body);
    HeadStarts(headers, order, BLANK_LINE + body);
    BlankAfterHead(status, more, BLANK_LINE + body);
    var output := head + (BLANK_LINE + body);
    assert status + CRLF + HeaderBlock(headers, order) + CRLF + body == output;
    assert output[..|head|] == head && output[|head| + 4..] == body;
  }

  /** A Status line before the headers sets the code and the message of the answer. */
  lemma PrintedStatus(code: int, message: string, headers: Headers, order: seq<string>, body: string)
    requires -INT_MAX - 1 <= code <= INT_MAX && Trimmed(message, " ") && '\n' !in message
    requires LineFields(headers) && "Status" !in headers && Enumerates(order, headers) && order != []
    ensures ParseCgiOutput(StatusHeader(code, message) + CRLF + HeaderBlock(headers, order) + CRLF + body)
         == Plain(200).(code := code, message := message, body := body,
                        headers := Kept(headers)["Transfer-Encoding" := CHUNKED])
  {
    hide StatusText, Split, CutHead, Head, HeaderBlock, Gather, LineFields, Dropped, StatusHeader, OnCgiLines;
    var status, more := StatusHeader(code, message), Head(headers, order);
    StatusHasNoNewline(code, message);
    CutWithStatus(status, headers, order, body);
    LinesWithStatus(code, message, more);
    ManyLines(Plain(200).(code := code, message := message), headers, order);
    GatherIs(map[], headers, order);
    assert Gather(map[], headers, order) == Kept(headers);
  }

  /** A Status line first, then the others. */
  lemma LinesWithStatus(code: int, message: string, more: string)
    requires -INT_MAX - 1 <= code <= INT_MAX && Trimmed(message, " ") && '\n' !in message
    ensures OnCgiLines(Plain(200), Split(StatusHeader(code, message) + CRLF + more, '\n'))
         == OnCgiLines(Plain(200).(code := code, message := message), Split(more, '\n'))
  {
    hide StatusText, Split, StatusHeader, OnCgiLine, Chomp;
    var status := StatusHeader(code, message);
    StatusHasNoNewline(code, message);
    StatusLineStep(Plain(200), code, message);
    StatusParts(code, message);
    SplitFirst(status + "\r", more);
    assert status + CRLF + more == status + "\r" + "\n" + more;
    var lines := Split(more, '\n');
    assert ([status + "\r"] + lines)[1..] == lines;
  }

  /** Without any CRLF CRLF the first LF LF ends the headers. */
  lemma BareBlankLine(h: string, b: string)
    requires Find(h + BARE_BLANK_LINE + b, BLANK_LINE) == |h + BARE_BLANK_LINE + b|
    requires Find(h + BARE_BLANK_LINE + b, BARE_BLANK_LINE) == |h|
    ensures CutHead(h + BARE_BLANK_LINE + b) == Some((h, b))
  {
    hide Find;
    var output := h + BARE_BLANK_LINE + b;
    assert output[..|h|] == h && output[|h| + 2..] == b;
  }
}
