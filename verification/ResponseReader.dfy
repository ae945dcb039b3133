/** What a client reads of the answers that http/connection/connection_manager.cpp:62-84 packages,
    and of a whole session of them. */
module ResponseReader {
  import opened Text
  import opened Http
  import opened HttpResponse
  import opened HttpClient
  import opened Connection
  import opened ConnectionSpec

  // ----- fields and the headers they come from -----

  /** No header but `key` contributes to the field. */
  ghost predicate OthersEmpty(headers: Headers, order: seq<string>, name: string, key: string) {
    forall i | 0 <= i < |order| && ToLower(order[i]) == name :: order[i] == key || ListOf(GetHeader(headers, order[i])) == []
  }

  function ElementsOf(headers: Headers, order: seq<string>, name: string): seq<string> {
    Elements(Values(FieldsOf(headers, order), name))
  }

  lemma ElementsStep(headers: Headers, order: seq<string>, name: string)
    requires order != []
    ensures ElementsOf(headers, order, name) ==
            (if ToLower(order[0]) == name then ListOf(GetHeader(headers, order[0])) else []) + ElementsOf(headers, order[1..], name)
  {
    hide ListOf;
    var f := (ToLower(order[0]), GetHeader(headers, order[0]));
    var more := FieldsOf(headers, order[1..]);
    assert FieldsOf(headers, order) == [f] + more && ([f] + more)[1..] == more;
    if f.0 == name {
      var values := Values(more, name);
      assert ([f.1] + values)[1..] == values;
    } else {
      assert [] + Values(more, name) == Values(more, name);
      assert [] + ElementsOf(headers, order[1..], name) == ElementsOf(headers, order[1..], name);
    }
  }

  lemma OthersEmptyStep(headers: Headers, order: seq<string>, name: string, key: string)
    requires order != []
    ensures OthersEmpty(headers, order, name, key) <==>
              (ToLower(order[0]) == name ==> order[0] == key || ListOf(GetHeader(headers, order[0])) == [])
              && OthersEmpty(headers, order[1..], name, key)
  {
    hide ListOf, ToLower;
    var more := order[1..];
    assert forall i | 0 <= i < |more| :: more[i] == order[i + 1];
    assert forall i | 1 <= i < |order| :: order[i] == more[i - 1];
  }

  /** What a field says when one header is its own and the others of that name are to be empty. */
  lemma {:induction false} ElementsIff(headers: Headers, order: seq<string>, name: string, key: string)
    requires ToLower(key) == name
    requires forall i, j | 0 <= i < j < |order| :: order[i] != order[j]
    ensures var own := if key in order then ListOf(GetHeader(headers, key)) else [];
            && |ElementsOf(headers, order, name)| >= |own|
            && (OthersEmpty(headers, order, name, key) <==> ElementsOf(headers, order, name) == own)
            && (OthersEmpty(headers, order, name, key) <==> |ElementsOf(headers, order, name)| == |own|)
    decreases |order|
  {
    hide ListOf, ToLower, ElementsOf, OthersEmpty;
    if order == [] {
      assert ElementsOf(headers, order, name) == [] && OthersEmpty(headers, order, name, key) by { NoElements(headers, name, key); }
    } else {
      ElementsStep(headers, order, name);
      OthersEmptyStep(headers, order, name, key);
      ElementsIff(headers, order[1..], name, key);
      assert order == [order[0]] + order[1..];
      var own := if key in order then ListOf(GetHeader(headers, key)) else [];
      assert own + [] == own && [] + own == own;
      assert order[0] == key ==> key !in order[1..];
    }
  }

  lemma NoElements(headers: Headers, name: string, key: string)
    ensures ElementsOf(headers, [], name) == [] && OthersEmpty(headers, [], name, key)
  {}

  lemma {:induction false} ElementIn(headers: Headers, order: seq<string>, name: string, e: string)
    ensures e in ElementsOf(headers, order, name) <==>
              exists i | 0 <= i < |order| :: ToLower(order[i]) == name && e in ListOf(GetHeader(headers, order[i]))
    decreases |order|
  {
    hide ListOf, ToLower, ElementsOf;
    if order == [] {
      assert ElementsOf(headers, order, name) == [] by { NoElements(headers, name, name); }
    } else {
      ElementsStep(headers, order, name);
      var more := order[1..];
      ElementIn(headers, more, name, e);
      assert forall i | 0 <= i < |more| :: more[i] == order[i + 1];
      assert forall i | 1 <= i < |order| :: order[i] == more[i - 1];
    }
  }

  /** A field that no header has. */
  lemma {:induction false} NoneNamed(headers: Headers, order: seq<string>, name: string)
    ensures Values(FieldsOf(headers, order), name) == [] <==> forall i | 0 <= i < |order| :: ToLower(order[i]) != name
    decreases |order|
  {
    hide ToLower;
    if order != [] {
      var more := order[1..];
      NoneNamed(headers, more, name);
      assert FieldsOf(headers, order)[1..] == FieldsOf(headers, more);
      assert forall i | 0 <= i < |more| :: more[i] == order[i + 1];
      assert forall i | 1 <= i < |order| :: order[i] == more[i - 1];
    }
  }

  /** A field that exactly one header has. */
  lemma {:induction false} OneNamed(headers: Headers, order: seq<string>, key: string)
    requires key in order && forall i, j | 0 <= i < j < |order| :: order[i] != order[j]
    requires forall i | 0 <= i < |order| :: ToLower(order[i]) == ToLower(key) ==> order[i] == key
    ensures Values(FieldsOf(headers, order), ToLower(key)) == [GetHeader(headers, key)]
    decreases |order|
  {
    hide ToLower;
    var more := order[1..];
    assert FieldsOf(headers, order)[1..] == FieldsOf(headers, more);
    assert order == [order[0]] + more;
    if order[0] == key {
      NoneNamed(headers, more, ToLower(key));
    } else {
      OneNamed(headers, more, key);
      assert ToLower(order[0]) != ToLower(key);
    }
  }

  lemma ChunkedName()
    ensures ToLower("Transfer-Encoding") == TRANSFER_ENCODING
  {}

  lemma ChunkedWord()
    ensures ',' !in CHUNKED_CODING && CHUNKED_CODING != "" && Trimmed(CHUNKED_CODING, BLANKS) && IsLower(CHUNKED_CODING)
  {
    BlanksIs('c');
    BlanksIs('d');
  }

  lemma ChunkedIsListed()
    ensures ListOf(CHUNKED_CODING) == [CHUNKED_CODING]
  {
    ChunkedWord();
    ListOfWord(CHUNKED_CODING);
  }

  /** Under the server's own chunked coding nothing but that coding can be read. */
  lemma ChunkedFraming(headers: Headers, order: seq<string>)
    requires IsChunked(headers) && Enumerates(order, headers)
    ensures ElementsOf(headers, order, TRANSFER_ENCODING) != []
    ensures ElementsOf(headers, order, TRANSFER_ENCODING) == [CHUNKED_CODING]
       <==> OthersEmpty(headers, order, TRANSFER_ENCODING, "Transfer-Encoding")
  {
    assert GetHeader(headers, "Transfer-Encoding") == CHUNKED_CODING && "Transfer-Encoding" in order;
    hide ListOf, ToLower, ElementsOf, OthersEmpty;
    ChunkedIsListed();
    ChunkedName();
    ElementsIff(headers, order, TRANSFER_ENCODING, "Transfer-Encoding");
  }

  // ----- one answer -----

  /** What an answer sends after its headers, before any transfer coding. */
  function SentBody(r: Response): string
    requires InsideFile(r.file, r.fileOffset, r.fileSize)
  {
    if r.file.OpenFile? then FileSlice(r.file, r.fileOffset, r.fileSize) else r.body
  }

  /** The bytes after the blank line. */
  function Coded(r: Response): string
    requires InsideFile(r.file, r.fileOffset, r.fileSize)
  {
    if r.file.NoFile? && IsChunked(r.headers) then Chunked(r.body) else SentBody(r)
  }

  function Connected(req: Request, headers: Headers): Headers {
    headers["Connection" := if WantsClose(req) then "close" else "keep-alive"]
  }

  /** The answer's headers stay one line each, and their order is one in which they can be walked. */
  ghost predicate Printable(req: Request, a: Answer) {
    && ValidAnswer(a) && '\n' !in a.response.message
    && LineFields(a.response.headers) && Enumerates(a.order, Connected(req, a.response.headers))
  }

  function SentFields(req: Request, a: Answer): seq<Field> {
    FieldsOf(Connected(req, a.response.headers), a.order)
  }

  /** HTTP allows every part of the head. */
  ghost predicate Spoken(req: Request, a: Answer) {
    SpeaksHttp(a.response.(headers := Connected(req, a.response.headers)), a.order)
  }

  /** The client can tell where the answer ends and takes from it what was put in; `last` says that
      nothing follows. */
  predicate Delimited(verb: Method, framing: Framing, r: Response, last: bool)
    requires InsideFile(r.file, r.fileOffset, r.fileSize)
  {
    && r.code >= 200
    && if NoBody(verb, r.code) then Coded(r) == ""
       else if framing.ByChunks? then r.file.NoFile? && IsChunked(r.headers)
       else if framing.ByLength? then Coded(r) == SentBody(r) && framing.n == |SentBody(r)|
       else framing.ToClose? && Coded(r) == SentBody(r) && last
  }

  /** The client reads the answer, and the next one if there is to be one. */
  ghost predicate Readable(req: Request, a: Answer, last: bool) {
    && Printable(req, a) && Spoken(req, a)
    && Delimited(req.verb, FramingOf(SentFields(req, a)), a.response, last)
    && (last || !Closes(SentFields(req, a)))
  }

  function Expected(req: Request, a: Answer): Received
    requires ValidAnswer(a)
  {
    Received(a.response.code, a.response.message, SentFields(req, a), SentBody(a.response))
  }

  lemma ConnectedLines(req: Request, headers: Headers)
    requires LineFields(headers)
    ensures LineFields(Connected(req, headers))
  {
    WhitespaceIs('C');
    WhitespaceIs('n');
    WhitespaceIs('c');
    WhitespaceIs('e');
    WhitespaceIs('k');
  }

  /** The client's view of an answer's head. */
  lemma AnswerHead(req: Request, a: Answer, tail: string)
    requires Printable(req, a)
    ensures ReadHead(Render(ProcessRequest(req, a)) + tail)
         == if Spoken(req, a) then Some((Expected(req, a).(body := ""), Coded(a.response) + tail)) else None
  {
    hide ReadHead, HeadersToBytes, Chunked, LineFields, WantsClose, SpeaksHttp, FieldsOf;
    var r := a.response;
    var resp := r.(headers := Connected(req, r.headers));
    assert IsChunked(resp.headers) == IsChunked(r.headers);
    assert Render(ProcessRequest(req, a)) + tail == HeadersToBytes(resp, a.order) + (Coded(r) + tail);
    ConnectedLines(req, r.headers);
    HeadUndo(resp, a.order, Coded(r) + tail);
  }

  /** Reading the body by a framing gives the body, leaving what follows, exactly as Delimited says. */
  lemma BodyUndo(framing: Framing, verb: Method, r: Response, tail: string)
    requires InsideFile(r.file, r.fileOffset, r.fileSize) && r.code >= 200 && !NoBody(verb, r.code)
    requires framing.ByChunks? ==> IsChunked(r.headers)
    requires IsChunked(r.headers) ==> r.file.NoFile? && (framing.ByChunks? || framing.Unclear?)
    ensures ReadBody(framing, Coded(r) + tail) == Some((SentBody(r), tail)) <==> Delimited(verb, framing, r, tail == "")
  {
    hide Dechunk, Chunked, FileSlice;
    var body := SentBody(r);
    if IsChunked(r.headers) {
      ChunkedUndo(body, tail);
    } else {
      assert (body + tail)[..|body|] == body && (body + tail)[|body|..] == tail;
      assert tail == "" ==> body + tail == body;
      assert |body + tail| == |body| + |tail|;
    }
  }

  /** The chunked coding is the server's own, and a file is never sent under it. */
  predicate OwnCoding(req: Request, a: Answer) {
    && (IsChunked(a.response.headers) ==> a.response.file.NoFile?)
    && (FramingOf(SentFields(req, a)).ByChunks? ==> IsChunked(a.response.headers))
  }

  lemma ChunkedOrUnclear(req: Request, a: Answer)
    requires Printable(req, a) && IsChunked(a.response.headers)
    ensures FramingOf(SentFields(req, a)).ByChunks? || FramingOf(SentFields(req, a)).Unclear?
  {
    hide ElementsOf, LineFields, WantsClose, Values, FieldsOf, Elements;
    var headers := Connected(req, a.response.headers);
    ChunkedFraming(headers, a.order);
    ElementsMeans(headers, a.order, TRANSFER_ENCODING);
  }

  lemma ElementsMeans(headers: Headers, order: seq<string>, name: string)
    ensures ElementsOf(headers, order, name) == Elements(Values(FieldsOf(headers, order), name))
  {}

  lemma GoodFieldsIff(headers: Headers, order: seq<string>)
    requires Enumerates(order, headers)
    ensures GoodFields(headers, order) <==> forall name | name in headers :: GoodField(name, headers[name])
  {
    hide GoodField;
    if GoodFields(headers, order) {
      forall name | name in headers ensures GoodField(name, headers[name]) {
        var i :| 0 <= i < |order| && order[i] == name;
      }
    }
    if forall name | name in headers :: GoodField(name, headers[name]) {
      forall i | 0 <= i < |order| ensures GoodField(order[i], GetHeader(headers, order[i])) {
        assert order[i] in order;
      }
    }
  }

  lemma ConnectionWords()
    ensures ToLower("Connection") == CONNECTION
    ensures ListOf("close") == [CLOSE] && ListOf("keep-alive") == ["keep-alive"]
    ensures GoodField("Connection", "close") && GoodField("Connection", "keep-alive")
  {
    ErrorField();
    CloseWord();
    KeepAliveWord();
    hide IsToken, ListOf, IsLower;
    ListOfWord("close");
    ListOfWord("keep-alive");
  }

  lemma CloseWord()
    ensures ',' !in "close" && Trimmed("close", BLANKS) && IsLower("close") && IsText("close")
  {
    BlanksIs('c');
    BlanksIs('e');
  }

  lemma KeepAliveWord()
    ensures ',' !in "keep-alive" && Trimmed("keep-alive", BLANKS) && IsLower("keep-alive") && IsText("keep-alive")
  {
    BlanksIs('k');
    BlanksIs('e');
  }

  /** The handler's own headers ask to close. */
  ghost predicate AskedToClose(headers: Headers) {
    exists name | name in headers :: name != "Connection" && ToLower(name) == CONNECTION && CLOSE in ListOf(headers[name])
  }

  /** The client takes the connection to close exactly if the request asked for that or a header of
      the handler's does. */
  lemma ClosesIff(req: Request, a: Answer)
    requires Printable(req, a)
    ensures Closes(SentFields(req, a)) <==> WantsClose(req) || AskedToClose(a.response.headers)
  {
    hide ListOf, ToLower, ElementsOf, LineFields, WantsClose, Values, FieldsOf, Elements;
    var headers := Connected(req, a.response.headers);
    ConnectionWords();
    ElementsMeans(headers, a.order, CONNECTION);
    ElementIn(headers, a.order, CONNECTION, CLOSE);
    assert "Connection" in headers;
    assert headers["Connection"] == if WantsClose(req) then "close" else "keep-alive";
    CloseIsNotKeepAlive();
    if WantsClose(req) {
      var i :| 0 <= i < |a.order| && a.order[i] == "Connection";
      assert CLOSE in ListOf(GetHeader(headers, a.order[i]));
    }
    if AskedToClose(a.response.headers) {
      var name :| name in a.response.headers && name != "Connection" && ToLower(name) == CONNECTION
                  && CLOSE in ListOf(a.response.headers[name]);
      assert name in headers && name in a.order;
      var i :| 0 <= i < |a.order| && a.order[i] == name;
      assert CLOSE in ListOf(GetHeader(headers, a.order[i]));
    }
    if CLOSE in ElementsOf(headers, a.order, CONNECTION) {
      var i :| 0 <= i < |a.order| && ToLower(a.order[i]) == CONNECTION && CLOSE in ListOf(GetHeader(headers, a.order[i]));
      assert a.order[i] in a.order && a.order[i] in headers;
    }
  }

  lemma CloseIsNotKeepAlive()
    ensures CLOSE !in ["keep-alive"]
  {
    assert |CLOSE| == 5 && |"keep-alive"| == 10;
  }

  /** Reading an answer whose head is read, and what it takes for it to give a certain body. */
  lemma ReadAfterHead(verb: Method, s: string, head: Received, rest: string)
    requires ReadHead(s) == Some((head, rest))
    ensures ReadAnswer(verb, s) ==
            if head.code < 200 then None
            else if NoBody(verb, head.code) then Some((head, rest))
            else WithBody(head, ReadBody(FramingOf(head.fields), rest))
  {
    hide ReadHead, ReadBody, FramingOf, WithBody;
  }

  lemma NoHead(verb: Method, s: string)
    requires ReadHead(s).None?
    ensures ReadAnswer(verb, s).None?
  {
    hide ReadHead;
  }

  lemma WithBodyIff(head: Received, b: Option<(string, string)>, body: string, tail: string)
    ensures WithBody(head, b) == Some((head.(body := body), tail)) <==> b == Some((body, tail))
  {}

  /** What process_request renders, the client reads back as code, message, fields and body, leaving
      what follows, if and only if HTTP allows the head and the client can tell where the answer
      ends. */
  lemma AnswerUndo(req: Request, a: Answer, tail: string)
    requires Printable(req, a) && OwnCoding(req, a)
    ensures ReadAnswer(req.verb, Render(ProcessRequest(req, a)) + tail) == Some((Expected(req, a), tail)) <==>
              Spoken(req, a) && Delimited(req.verb, FramingOf(SentFields(req, a)), a.response, tail == "")
  {
    assert ValidAnswer(a);
    if IsChunked(a.response.headers) { ChunkedOrUnclear(req, a); }
    AnswerHead(req, a, tail);
    var r, framing := a.response, FramingOf(SentFields(req, a));
    CodedIsBody(r, tail);
    hide ReadHead, ReadAnswer, ReadBody, WithBody, Coded, SentBody, ProcessRequest, Render, Printable, Spoken, FramingOf, IsChunked, SentFields,
      NoBody;
    var s := Render(ProcessRequest(req, a)) + tail;
    if Spoken(req, a) {
      ReadAfterHead(req.verb, s, Expected(req, a).(body := ""), Coded(r) + tail);
      if r.code >= 200 && !NoBody(req.verb, r.code) {
        hide Delimited;
        BodyUndo(framing, req.verb, r, tail);
        WithBodyIff(Expected(req, a).(body := ""), ReadBody(framing, Coded(r) + tail), SentBody(r), tail);
      }
    } else {
      NoHead(req.verb, s);
    }
  }

  /** An answer that does not tell where it ends takes everything that follows as its body. */
  lemma ReadsToEnd(verb: Method, s: string, head: Received, rest: string)
    requires ReadHead(s) == Some((head, rest)) && head.code >= 200
    requires !NoBody(verb, head.code) && FramingOf(head.fields).ToClose?
    ensures ReadAnswer(verb, s) == Some((head.(body := rest), ""))
  {
    hide ReadHead, FramingOf;
  }

  lemma CodedIsBody(r: Response, tail: string)
    requires InsideFile(r.file, r.fileOffset, r.fileSize)
    ensures Coded(r) + tail == tail <==> Coded(r) == ""
    ensures Coded(r) == "" ==> SentBody(r) == ""
  {
    assert |Coded(r) + tail| == |Coded(r)| + |tail|;
    assert "" + tail == tail;
  }

  lemma ReadableHere(req: Request, a: Answer, last: bool, tail: string)
    requires Readable(req, a, last) && (last ==> tail == "")
    ensures ValidAnswer(a) && ReadAnswer(req.verb, Render(ProcessRequest(req, a)) + tail) == Some((Expected(req, a), tail))
  {
    assert ValidAnswer(a);
    AnswerHead(req, a, tail);
    var r, framing := a.response, FramingOf(SentFields(req, a));
    CodedIsBody(r, tail);
    hide ReadHead, ReadAnswer, ReadBody, WithBody, Coded, SentBody, ProcessRequest, Render, Printable, Spoken, FramingOf, IsChunked, SentFields,
      NoBody, Closes;
    ReadAfterHead(req.verb, Render(ProcessRequest(req, a)) + tail, Expected(req, a).(body := ""), Coded(r) + tail);
    if !NoBody(req.verb, r.code) {
      ReadableBody(framing, req.verb, r, last, tail);
      WithBodyIff(Expected(req, a).(body := ""), ReadBody(framing, Coded(r) + tail), SentBody(r), tail);
    }
  }

  lemma ReadableBody(framing: Framing, verb: Method, r: Response, last: bool, tail: string)
    requires InsideFile(r.file, r.fileOffset, r.fileSize) && !NoBody(verb, r.code)
    requires Delimited(verb, framing, r, last) && (last ==> tail == "")
    ensures ReadBody(framing, Coded(r) + tail) == Some((SentBody(r), tail))
  {
    hide Dechunk, Chunked, FileSlice;
    var body := SentBody(r);
    if framing.ByChunks? {
      ChunkedUndo(body, tail);
    } else {
      assert (body + tail)[..|body|] == body && (body + tail)[|body|..] == tail;
      assert tail == "" ==> body + tail == body;
    }
  }

  // ----- answers that the server makes itself -----

  /** Headers that HTTP allows, of which none but Content-Length has to do with framing, and none with
      closing: a name that could be another spelling of such a field would have its length. */
  ghost predicate FineHeaders(headers: Headers) {
    forall name | name in headers :: FineHeader(name, headers[name])
  }

  predicate FineHeader(name: string, value: string) {
    && LineField(name, value) && GoodField(name, value)
    && |name| != |TRANSFER_ENCODING| && |name| != |CONNECTION| && (|name| == |CONTENT_LENGTH| ==> name == "Content-Length")
  }

  predicate GoodValue(value: string) {
    IsText(value) && Trimmed(value, WHITESPACE)
  }

  lemma TokenIsLine(name: string, value: string)
    requires IsToken(name) && GoodValue(value)
    ensures LineField(name, value)
  {
    WhitespaceIs(name[0]);
    WhitespaceIs(name[|name| - 1]);
  }

  lemma NoFields()
    ensures FineHeaders(map[])
  {}

  lemma Put(headers: Headers, name: string, value: string)
    requires FineHeaders(headers) && IsToken(name) && GoodValue(value)
    requires |name| != |TRANSFER_ENCODING| && |name| != |CONNECTION| && (|name| == |CONTENT_LENGTH| ==> name == "Content-Length")
    ensures FineHeaders(headers[name := value])
  {
    TokenIsLine(name, value);
    hide LineField, IsToken, IsText, Trimmed;
    var after := headers[name := value];
    forall other | other in after ensures FineHeader(other, after[other]) {
      if other != name { assert FineHeader(other, headers[other]); }
    }
  }

  lemma FineIsLines(headers: Headers)
    requires FineHeaders(headers)
    ensures LineFields(headers) && "Connection" !in headers && "Transfer-Encoding" !in headers && !IsChunked(headers)
    ensures !AskedToClose(headers)
  {
    hide LineField, GoodField, ListOf;
    assert |"Connection"| == |CONNECTION| && |"Transfer-Encoding"| == |TRANSFER_ENCODING|;
    forall name | name in headers
      ensures LineField(name, headers[name]) && ToLower(name) != CONNECTION
      ensures |name| != |"Connection"| && |name| != |"Transfer-Encoding"|
    {
      assert FineHeader(name, headers[name]);
    }
  }

  lemma FineNames(req: Request, headers: Headers, name: string)
    requires FineHeaders(headers) && name in Connected(req, headers)
    ensures ToLower(name) != TRANSFER_ENCODING && (ToLower(name) == CONTENT_LENGTH ==> name == "Content-Length")
    ensures GoodField(name, Connected(req, headers)[name])
  {
    hide LineField, GoodField, WantsClose;
    assert |"Connection"| == 10 && |CONNECTION| == 10 && |TRANSFER_ENCODING| == 17 && |CONTENT_LENGTH| == 14;
    ConnectionWords();
    if name != "Connection" { assert FineHeader(name, headers[name]); }
  }

  lemma LengthName()
    ensures ToLower("Content-Length") == CONTENT_LENGTH
  {}

  /** The framing of such an answer is what its Content-Length says, and else the end. */
  lemma FineFraming(req: Request, headers: Headers, order: seq<string>)
    requires FineHeaders(headers) && Enumerates(order, Connected(req, headers))
    requires "Content-Length" in headers ==> IsNumber(headers["Content-Length"])
    ensures GoodFields(Connected(req, headers), order)
    ensures FramingOf(FieldsOf(Connected(req, headers), order)) ==
            if "Content-Length" in headers then ByLength(DecimalValue(headers["Content-Length"])) else ToClose
  {
    hide ToLower, GoodField, WantsClose, FieldsOf, Values, DecimalValue, IsNumber, FineHeaders;
    var all := Connected(req, headers);
    forall name | name in all
      ensures ToLower(name) != TRANSFER_ENCODING && (ToLower(name) == CONTENT_LENGTH ==> name == "Content-Length")
      ensures GoodField(name, all[name])
    {
      FineNames(req, headers, name);
    }
    GoodFieldsIff(all, order);
    forall i | 0 <= i < |order| ensures order[i] in all { assert order[i] in order; }
    NoneNamed(all, order, TRANSFER_ENCODING);
    assert Elements([]) == [];
    LengthName();
    assert "Content-Length" != "Connection" by { assert |"Content-Length"| == 14 && |"Connection"| == 10; }
    if "Content-Length" in headers {
      OneNamed(all, order, "Content-Length");
    } else {
      NoneNamed(all, order, CONTENT_LENGTH);
    }
  }

  /** Such an answer can be read exactly if it tells where it ends: one that must not have a body
      has none, and another says its length, or nothing follows. */
  lemma FineAnswerIff(req: Request, a: Answer, tail: string)
    requires ValidAnswer(a) && 200 <= a.response.code <= 999 && IsText(a.response.message) && FineHeaders(a.response.headers)
    requires Enumerates(a.order, Connected(req, a.response.headers))
    requires NoBody(req.verb, a.response.code) ==> SentBody(a.response) == ""
    requires !NoBody(req.verb, a.response.code) && "Content-Length" in a.response.headers ==>
               a.response.headers["Content-Length"] == Decimal(|SentBody(a.response)|)
    requires "Content-Length" in a.response.headers ==> IsNumber(a.response.headers["Content-Length"])
    ensures var told := NoBody(req.verb, a.response.code) || "Content-Length" in a.response.headers;
            && (ReadAnswer(req.verb, Render(ProcessRequest(req, a)) + tail) == Some((Expected(req, a), tail)) <==> told || tail == "")
            && (forall last :: Readable(req, a, last) <==> if last then true else told && !WantsClose(req))
  {
    var r := a.response;
    FineIsLines(r.headers);
    assert '\n' !in r.message;
    assert Printable(req, a);
    FineFraming(req, r.headers, a.order);
    ClosesIff(req, a);
    hide IsText, FineHeaders, LineFields, Enumerates, GoodFields, FieldsOf, FramingOf, Closes, WantsClose, ReadAnswer, Render, ProcessRequest,
      Printable, DecimalValue, IsNumber, FileSlice, AskedToClose;
    AnswerUndo(req, a, tail);
  }

  // ----- a whole session -----

  function AllExpected(requests: seq<Request>, from: nat, handler: (nat, Request) -> Answer): (all: seq<Received>)
    requires forall i, r :: ValidAnswer(handler(i, r))
    ensures |all| == |requests|
    ensures forall k | 0 <= k < |requests| :: all[k] == Expected(requests[k], handler(from + k, requests[k]))
  {
    seq(|requests|, k requires 0 <= k < |requests| => Expected(requests[k], handler(from + k, requests[k])))
  }

  function Verbs(requests: seq<Request>): seq<Method> {
    seq(|requests|, k requires 0 <= k < |requests| => requests[k].verb)
  }

  function Then(first: seq<Received>, more: Option<seq<Received>>): Option<seq<Received>> {
    if more.None? then None else Some(first + more.value)
  }

  /** The k-th answer of a session of n; the connection ends with the last one if nothing follows. */
  ghost predicate AllReadable(requests: seq<Request>, from: nat, handler: (nat, Request) -> Answer, nothingFollows: bool) {
    forall k | 0 <= k < |requests| ::
      Readable(requests[k], handler(from + k, requests[k]), k == |requests| - 1 && nothingFollows)
  }

  lemma AllReadableStep(requests: seq<Request>, from: nat, handler: (nat, Request) -> Answer, nothingFollows: bool)
    requires requests != [] && AllReadable(requests, from, handler, nothingFollows)
    ensures Readable(requests[0], handler(from, requests[0]), |requests| == 1 && nothingFollows)
    ensures AllReadable(requests[1..], from + 1, handler, nothingFollows)
  {
    hide Readable;
    var tail := requests[1..];
    forall k | 0 <= k < |tail|
      ensures Readable(tail[k], handler(from + 1 + k, tail[k]), k == |tail| - 1 && nothingFollows)
    {
      assert Readable(requests[k + 1], handler(from + (k + 1), requests[k + 1]), k + 1 == |requests| - 1 && nothingFollows);
    }
    assert Readable(requests[0], handler(from + 0, requests[0]), 0 == |requests| - 1 && nothingFollows);
  }

  /** A client that can read on when something follows can also read to the end. */
  lemma ReadableAtEnd(requests: seq<Request>, from: nat, handler: (nat, Request) -> Answer, nothingFollows: bool)
    requires AllReadable(requests, from, handler, nothingFollows)
    ensures AllReadable(requests, from, handler, true)
  {
    hide Printable, Spoken, Delimited, Closes, SentFields, FramingOf;
    forall k | 0 <= k < |requests| ensures Readable(requests[k], handler(from + k, requests[k]), k == |requests| - 1) {
      assert Readable(requests[k], handler(from + k, requests[k]), k == |requests| - 1 && nothingFollows);
      ReadableLast(requests[k], handler(from + k, requests[k]), k == |requests| - 1 && nothingFollows);
    }
  }

  lemma ReadableLast(req: Request, a: Answer, last: bool)
    requires Readable(req, a, last)
    ensures Readable(req, a, true)
  {
    assert ValidAnswer(a);
    hide Printable, Spoken, Closes, SentFields, FramingOf, Coded;
  }

  lemma ExpectedStep(requests: seq<Request>, from: nat, handler: (nat, Request) -> Answer, verbs: seq<Method>)
    requires forall i, r :: ValidAnswer(handler(i, r))
    requires requests != []
    ensures AllExpected(requests, from, handler)
         == [Expected(requests[0], handler(from, requests[0]))] + AllExpected(requests[1..], from + 1, handler)
    ensures Verbs(requests) + verbs == [requests[0].verb] + (Verbs(requests[1..]) + verbs)
  {
    hide Expected;
  }

  /** The replies of a session, in front of anything, are read back one by one. */
  lemma {:induction false} ReadReplies(requests: seq<Request>, from: nat, handler: (nat, Request) -> Answer,
                                       tail: string, verbs: seq<Method>)
    requires forall i, r :: ValidAnswer(handler(i, r))
    requires AllReadable(requests, from, handler, tail == "" && verbs == [])
    ensures ReadAll(Replies(requests, from, handler) + tail, Verbs(requests) + verbs)
         == Then(AllExpected(requests, from, handler), ReadAll(tail, verbs))
    decreases |requests|
  {
    hide ReadAnswer, ProcessRequest, Render, Readable, Expected, AllReadable, AllExpected, Verbs;
    if requests == [] {
      assert Replies(requests, from, handler) + tail == tail && Verbs(requests) + verbs == verbs by { NoReplies(from, handler, tail, verbs); }
      ThenNothing(ReadAll(tail, verbs));
    } else {
      var a := handler(from, requests[0]);
      var rest := Replies(requests[1..], from + 1, handler) + tail;
      assert Replies(requests, from, handler) + tail == Render(ProcessRequest(requests[0], a)) + rest;
      AllReadableStep(requests, from, handler, tail == "" && verbs == []);
      ExpectedStep(requests, from, handler, verbs);
      var last := |requests| == 1 && tail == "" && verbs == [];
      if last { OnlyReply(from, handler, tail); }
      ReadableHere(requests[0], a, last, rest);
      assert last || !Closes(SentFields(requests[0], a)) by { ReadableGoesOn(requests[0], a, last); }
      ReadReplies(requests[1..], from + 1, handler, tail, verbs);
      ReadFirst(requests[0], a, rest, Verbs(requests[1..]) + verbs);
      ThenBefore(Expected(requests[0], a), AllExpected(requests[1..], from + 1, handler), ReadAll(tail, verbs));
    }
  }

  lemma OnlyReply(from: nat, handler: (nat, Request) -> Answer, tail: string)
    requires forall i, r :: ValidAnswer(handler(i, r))
    ensures Replies([], from + 1, handler) + tail == tail
  {
    assert "" + tail == tail;
  }

  lemma ReadableGoesOn(req: Request, a: Answer, last: bool)
    requires Readable(req, a, last)
    ensures last || !Closes(SentFields(req, a))
  {
    hide Printable, Spoken, Closes, SentFields, Delimited, FramingOf;
  }

  lemma ReadFirst(req: Request, a: Answer, rest: string, verbs: seq<Method>)
    requires ValidAnswer(a) && (verbs == [] || !Closes(SentFields(req, a)))
    requires ReadAnswer(req.verb, Render(ProcessRequest(req, a)) + rest) == Some((Expected(req, a), rest))
    ensures ReadAll(Render(ProcessRequest(req, a)) + rest, [req.verb] + verbs) == Before(Expected(req, a), ReadAll(rest, verbs))
  {
    hide ReadAnswer, Render, ProcessRequest, Closes, SentFields;
    assert ([req.verb] + verbs)[1..] == verbs;
  }

  lemma NoReplies(from: nat, handler: (nat, Request) -> Answer, tail: string, verbs: seq<Method>)
    requires forall i, r :: ValidAnswer(handler(i, r))
    ensures Replies([], from, handler) + tail == tail && Verbs([]) + verbs == verbs && AllExpected([], from, handler) == []
  {}

  lemma ThenNothing(more: Option<seq<Received>>)
    ensures Then([], more) == more
  {
    if more.Some? {
      assert [] + more.value == more.value;
    }
  }

  lemma ThenBefore(r: Received, first: seq<Received>, more: Option<seq<Received>>)
    ensures Before(r, Then(first, more)) == Then([r] + first, more)
  {
    if more.Some? {
      assert [r] + (first + more.value) == [r] + first + more.value;
    }
  }

  function EndingReceived(e: Ending): seq<Received> {
    if e.Replied? then
      var code := if e.error.PayloadTooLarge? then 413 else 400;
      [Received(code, StatusText(code), [(CONNECTION, CLOSE)], "")]
    else []
  }

  /** The error reply answers something that was no request; the client reads it as it would the
      answer to GET. */
  function EndingVerbs(e: Ending): seq<Method> {
    if e.Replied? then [GET] else []
  }

  lemma ReadEnding(e: Ending)
    ensures ReadAll(EndingReply(e), EndingVerbs(e)) == Some(EndingReceived(e))
    ensures EndingReply(e) == "" <==> !e.Replied?
    ensures EndingVerbs(e) == [] <==> !e.Replied?
  {
    if e.Replied? {
      hide ErrorReply, StatusText, Closes, ReadAnswer;
      ReadErrorReply(e.error);
      var received := EndingReceived(e)[0];
      assert [GET][1..] == [] && ReadAll("", []) == Some([]);
      assert [received] + [] == [received];
    }
  }

  lemma ReadErrorReply(error: ParseError)
    ensures var code := if error.PayloadTooLarge? then 413 else 400;
            ReadAnswer(GET, ErrorReply(error)) == Some((Received(code, StatusText(code), [(CONNECTION, CLOSE)], ""), ""))
    ensures ErrorReply(error) != ""
  {
    var code := if error.PayloadTooLarge? then 413 else 400;
    ErrorReplyIs(error);
    hide ReadAnswer, ReadHead, HeadersToBytes, ErrorReply, StatusText;
    ErrorReplyHead(code);
    ErrorFraming();
    hide FramingOf;
    ReadsToEnd(GET, ErrorReply(error), Received(code, StatusText(code), [(CONNECTION, CLOSE)], ""), "");
  }

  lemma ErrorReplyHead(code: int)
    requires code == 413 || code == 400
    ensures ReadHead(HeadersToBytes(Plain(code).(headers := map["Connection" := "close"]), ["Connection"]))
         == Some((Received(code, StatusText(code), [(CONNECTION, CLOSE)], ""), ""))
  {
    var r := Plain(code).(headers := map["Connection" := "close"]);
    ErrorHead(code);
    hide ReadHead, HeadersToBytes, StatusText, IsChunked, LineFields, SpeaksHttp, FieldsOf, FramingOf;
    HeadUndo(r, ["Connection"], "");
    assert HeadersToBytes(r, ["Connection"]) + "" == HeadersToBytes(r, ["Connection"]);
  }

  lemma ErrorReplyIs(error: ParseError)
    ensures var code := if error.PayloadTooLarge? then 413 else 400;
            ErrorReply(error) == HeadersToBytes(Plain(code).(headers := map["Connection" := "close"]), ["Connection"])
    ensures ErrorReply(error) != ""
  {
    var code := if error.PayloadTooLarge? then 413 else 400;
    var r := Plain(code).(headers := map["Connection" := "close"]);
    ErrorField();
    hide StatusText, HeaderBlock, IsChunked;
    assert ToBytes(r, ["Connection"]) == HeadersToBytes(r, ["Connection"]) + "";
    assert HeadersToBytes(r, ["Connection"]) + "" == HeadersToBytes(r, ["Connection"]);
  }

  lemma ErrorText(code: int)
    requires code == 413 || code == 400
    ensures IsText(StatusText(code)) && '\n' !in StatusText(code)
  {}

  lemma ErrorField()
    ensures LineField("Connection", "close") && GoodField("Connection", "close")
    ensures ToLower("Connection") == CONNECTION
    ensures !IsChunked(map["Connection" := "close"])
  {
    WhitespaceIs('C');
    WhitespaceIs('n');
    WhitespaceIs('c');
    WhitespaceIs('e');
  }

  lemma ErrorFields()
    ensures var headers := map["Connection" := "close"];
            && LineFields(headers) && GoodFields(headers, ["Connection"])
            && FieldsOf(headers, ["Connection"]) == [(CONNECTION, CLOSE)]
  {
    ErrorField();
    hide LineField, GoodField, ToLower;
    assert ["Connection"][1..] == [];
    assert FieldsOf(map["Connection" := "close"], []) == [];
  }

  lemma ErrorFraming()
    ensures FramingOf([(CONNECTION, CLOSE)]) == ToClose
  {
    var fields := [(CONNECTION, CLOSE)];
    assert fields[1..] == [];
    assert |CONNECTION| == 10 && |TRANSFER_ENCODING| == 17 && |CONTENT_LENGTH| == 14;
    assert Values(fields, TRANSFER_ENCODING) == [] && Values(fields, CONTENT_LENGTH) == [];
  }

  lemma ErrorHead(code: int)
    requires code == 413 || code == 400
    ensures var r := Plain(code).(headers := map["Connection" := "close"]);
            && '\n' !in r.message && LineFields(r.headers) && SpeaksHttp(r, ["Connection"]) && !IsChunked(r.headers)
            && FieldsOf(r.headers, ["Connection"]) == [(CONNECTION, CLOSE)]
            && FramingOf([(CONNECTION, CLOSE)]) == ToClose
  {
    ErrorText(code);
    ErrorField();
    ErrorFields();
    ErrorFraming();
    hide StatusText, LineFields, GoodFields, IsText, FieldsOf, FramingOf;
  }

  /** From the wire of a session on a socket that never fails, the client reads exactly one
      response for each request served, in order, each of them the one the handler gave, and
      after them the error reply if there is one, provided that it can tell where each answer
      given ends; the last one may end with the connection. */
  lemma SessionToClient(outcome: Outcome, handler: (nat, Request) -> Answer)
    requires forall i, r :: ValidAnswer(handler(i, r))
    requires AllReadable(outcome.requests, 0, handler, !outcome.ending.Replied?)
    ensures ReadAll(Replies(outcome.requests, 0, handler) + EndingReply(outcome.ending),
                    Verbs(outcome.requests) + EndingVerbs(outcome.ending))
         == Some(AllExpected(outcome.requests, 0, handler) + EndingReceived(outcome.ending))
  {
    hide ReadAll, Replies, EndingReply, EndingReceived, EndingVerbs, AllExpected, AllReadable, ValidAnswer;
    ReadEnding(outcome.ending);
    ReadReplies(outcome.requests, 0, handler, EndingReply(outcome.ending), EndingVerbs(outcome.ending));
  }
}
