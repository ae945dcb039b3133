/** The client's side of a response: a reader that follows RFC 9110 and RFC 9112 and takes nothing
    that they let a client refuse. It knows nothing of the server's code. */
module HttpClient {
  import opened Text
  import opened Http
  import opened HttpResponse

  /** A field line: the name in lower case, since names are compared that way, and the value. */
  type Field = (string, string)

  datatype Received = Received(code: int, message: string, fields: seq<Field>, body: string)

  // ----- section 5 of RFC 9112: lines -----

  /** A line that ends in CRLF, and what follows it. */
  function ReadLine(s: string): (r: Option<(string, string)>)
    ensures r.Some? ==> |r.value.1| < |s|
  {
    var e := IndexOf(s, '\n');
    if e == |s| || e == 0 || s[e - 1] != '\r' then None else Some((s[..e - 1], s[e + 1..]))
  }

  /** tchar of section 5.6.2 of RFC 9110. */
  predicate IsTokenChar(c: char) {
    || IsDigit(c) || 'A' <= c <= 'Z' || '^' <= c <= 'z'
    || c == '!' || '#' <= c <= '\'' || c == '*' || c == '+' || c == '-' || c == '.' || c == '|' || c == '~'
  }

  predicate IsToken(s: string) {
    s != "" && forall i | 0 <= i < |s| :: IsTokenChar(s[i])
  }

  /** A character of a field value or a reason phrase: tab, space, visible or above ASCII. */
  predicate IsTextChar(c: char) {
    c == '\t' || ' ' <= c <= '~' || 128 as char <= c < 256 as char
  }

  predicate IsText(s: string) {
    forall i | 0 <= i < |s| :: IsTextChar(s[i])
  }

  const HTTP_VERSION := "HTTP/1.1 "
  const BLANKS := " \t"

  /** Section 4 of RFC 9112: version, three digits, a reason phrase. */
  function ReadStatus(line: string): Option<(int, string)> {
    if !(HTTP_VERSION <= line) then None
    else
      var t := line[|HTTP_VERSION|..];
      if |t| >= 4 && IsDigit(t[0]) && IsDigit(t[1]) && IsDigit(t[2]) && t[3] == ' ' && IsText(t[4..]) then
        Some((DecimalValue(t[..3]), t[4..]))
      else None
  }

  /** Section 5 of RFC 9112: a token right before the colon, and text around which blanks do not count. */
  function ReadField(line: string): Option<Field> {
    var colon := IndexOf(line, ':');
    if colon == |line| then None
    else
      var value := Trim(line[colon + 1..], BLANKS);
      if IsToken(line[..colon]) && IsText(value) then Some((ToLower(line[..colon]), value)) else None
  }

  /** Field lines up to the blank line, and what follows it. */
  function ReadFields(s: string): Option<(seq<Field>, string)>
    decreases |s|
  {
    match ReadLine(s)
    case None => None
    case Some((line, rest)) => if line == "" then Some(([], rest)) else AfterField(ReadField(line), ReadFields(rest))
  }

  function AfterField(f: Option<Field>, more: Option<(seq<Field>, string)>): Option<(seq<Field>, string)> {
    if f.None? || more.None? then None else Some(([f.value] + more.value.0, more.value.1))
  }

  /** A status line and field lines, as a response without body yet, and what follows them. */
  function ReadHead(s: string): Option<(Received, string)> {
    match ReadLine(s)
    case None => None
    case Some((line, rest)) => AfterStatus(ReadStatus(line), ReadFields(rest))
  }

  function AfterStatus(status: Option<(int, string)>, more: Option<(seq<Field>, string)>): Option<(Received, string)> {
    if status.None? || more.None? then None
    else Some((Received(status.value.0, status.value.1, more.value.0, ""), more.value.1))
  }

  // ----- section 5.3 of RFC 9110: all lines of one name are one field -----

  function Values(fields: seq<Field>, name: string): seq<string> {
    if fields == [] then []
    else (if fields[0].0 == name then [fields[0].1] else []) + Values(fields[1..], name)
  }

  /** The elements of a comma-separated list, in lower case; section 5.6.1 of RFC 9110: empty ones
      do not count. */
  function ListOf(value: string): seq<string> {
    NotEmpty(Split(value, ','))
  }

  function NotEmpty(parts: seq<string>): seq<string> {
    if parts == [] then []
    else
      var part := Trim(parts[0], BLANKS);
      (if part == "" then [] else [ToLower(part)]) + NotEmpty(parts[1..])
  }

  function Elements(values: seq<string>): seq<string> {
    if values == [] then [] else ListOf(values[0]) + Elements(values[1..])
  }

  lemma ListOfWord(word: string)
    requires word != "" && ',' !in word && Trimmed(word, BLANKS) && IsLower(word)
    ensures ListOf(word) == [word]
  {
    IndexOfIs(word, ',', |word|);
    SplitOnce(word, ',');
    TrimOfTrimmed(word, BLANKS);
    ToLowerIsLower(word);
    hide Trim, ToLower;
    assert [word][1..] == [] && NotEmpty([]) == [];
  }

  const TRANSFER_ENCODING := "transfer-encoding"
  const CONTENT_LENGTH := "content-length"
  const CONNECTION := "connection"
  const CHUNKED_CODING := "chunked"
  const CLOSE := "close"

  /** The server will close the connection after this response. */
  predicate Closes(fields: seq<Field>) {
    CLOSE in Elements(Values(fields, CONNECTION))
  }

  // ----- section 6.3 of RFC 9112: where the body ends -----

  datatype Framing = ByChunks | ByLength(n: nat) | ToClose | Unclear

  /** Chunked is the one coding that is understood, and only by itself and without a length; of
      lengths there may be one. */
  function FramingOf(fields: seq<Field>): Framing {
    var codings := Elements(Values(fields, TRANSFER_ENCODING));
    var lengths := Values(fields, CONTENT_LENGTH);
    if codings == [CHUNKED_CODING] && lengths == [] then ByChunks
    else if codings != [] then Unclear
    else if lengths == [] then ToClose
    else if |lengths| == 1 && IsNumber(lengths[0]) then ByLength(DecimalValue(lengths[0]))
    else Unclear
  }

  function ReadBody(framing: Framing, s: string): Option<(string, string)> {
    match framing
    case ByChunks => Dechunk(s)
    case ByLength(n) => if |s| < n then None else Some((s[..n], s[n..]))
    case ToClose => Some((s, ""))
    case Unclear => None
  }

  /** The answers that end at the blank line whatever their fields say. */
  predicate NoBody(verb: Method, code: int) {
    verb.HEAD? || code == 204 || code == 304
  }

  function WithBody(head: Received, b: Option<(string, string)>): Option<(Received, string)> {
    if b.None? then None else Some((head.(body := b.value.0), b.value.1))
  }

  /** The response to a request of the client's, and what follows it. What the server sends under
      1xx (section 15.2 of RFC 9110) is no response yet, and there is none below. */
  function ReadAnswer(verb: Method, s: string): Option<(Received, string)> {
    var h := ReadHead(s);
    if h.None? || h.value.0.code < 200 then None
    else if NoBody(verb, h.value.0.code) then h
    else WithBody(h.value.0, ReadBody(FramingOf(h.value.0.fields), h.value.1))
  }

  /** Exactly one response for each request and nothing else; after one that closes, none is read. */
  function ReadAll(s: string, verbs: seq<Method>): Option<seq<Received>>
    decreases |verbs|
  {
    if verbs == [] then if s == "" then Some([]) else None
    else
      var first := ReadAnswer(verbs[0], s);
      if first.None? || (Closes(first.value.0.fields) && |verbs| > 1) then None
      else Before(first.value.0, ReadAll(first.value.1, verbs[1..]))
  }

  function Before(r: Received, more: Option<seq<Received>>): Option<seq<Received>> {
    if more.None? then None else Some([r] + more.value)
  }

  // ----- what it makes of printed heads -----

  /** A header that HTTP allows. */
  predicate GoodField(name: string, value: string) {
    IsToken(name) && IsText(value)
  }

  /** The fields as they are sent. */
  function FieldsOf(headers: Headers, order: seq<string>): seq<Field>
    decreases |order|
  {
    if order == [] then [] else [(ToLower(order[0]), GetHeader(headers, order[0]))] + FieldsOf(headers, order[1..])
  }

  ghost predicate GoodFields(headers: Headers, order: seq<string>) {
    forall i | 0 <= i < |order| :: GoodField(order[i], GetHeader(headers, order[i]))
  }

  lemma ReadLineUndo(line: string, tail: string)
    requires '\n' !in line
    ensures ReadLine(line + CRLF + tail) == Some((line, tail))
  {
    var s := line + CRLF + tail;
    IndexOfIs(s, '\n', |line| + 1);
    assert s[..|line|] == line && s[|line| + 2..] == tail;
  }

  lemma BlanksIs(c: char)
    ensures c in BLANKS <==> c == ' ' || c == '\t'
  {
    assert BLANKS[0] == ' ' && BLANKS[1] == '\t';
  }

  lemma TrimmedOfBlanks(value: string)
    requires Trimmed(value, WHITESPACE)
    ensures Trimmed(value, BLANKS)
  {
    if value != "" {
      WhitespaceIs(value[0]);
      WhitespaceIs(value[|value| - 1]);
      BlanksIs(value[0]);
      BlanksIs(value[|value| - 1]);
    }
  }

  lemma TrimBlank(value: string)
    requires Trimmed(value, WHITESPACE)
    ensures Trim(" " + value, BLANKS) == value
  {
    TrimmedOfBlanks(value);
    BlanksIs(' ');
    hide Trim, Trimmed;
    TrimSpaceBefore(value, BLANKS);
  }

  /** A printed header is read as the field if HTTP allows it, and refused otherwise. */
  lemma FieldUndo(name: string, value: string)
    requires LineField(name, value)
    ensures ReadField(HeaderLine(name, value)) == if GoodField(name, value) then Some((ToLower(name), value)) else None
  {
    hide Trim, IsToken, IsText, ToLower;
    HeaderLineCut(name, value);
    TrimBlank(value);
  }

  lemma {:induction false} FieldsUndo(headers: Headers, order: seq<string>, tail: string)
    requires LineFields(headers) && forall name | name in order :: name in headers
    ensures ReadFields(HeaderBlock(headers, order) + CRLF + tail)
         == if GoodFields(headers, order) then Some((FieldsOf(headers, order), tail)) else None
    decreases |order|
  {
    hide ReadField, GoodField, LineFields;
    var s := HeaderBlock(headers, order) + CRLF + tail;
    if order == [] {
      assert s == "" + CRLF + tail;
      ReadLineUndo("", tail);
    } else {
      var name, value := order[0], headers[order[0]];
      var line := HeaderLine(name, value);
      var rest := HeaderBlock(headers, order[1..]) + CRLF + tail;
      LineFieldOf(headers, name);
      assert s == line + CRLF + rest;
      assert '\n' !in line && line != "";
      hide HeaderLine;
      ReadLineUndo(line, rest);
      FieldUndo(name, value);
      FieldsUndo(headers, order[1..], tail);
      GoodFieldsStep(headers, order);
    }
  }

  lemma GoodFieldsStep(headers: Headers, order: seq<string>)
    requires order != []
    ensures GoodFields(headers, order) <==> GoodField(order[0], GetHeader(headers, order[0])) && GoodFields(headers, order[1..])
  {
    hide GoodField;
    var more := order[1..];
    if GoodFields(headers, order) {
      forall i | 0 <= i < |more| ensures GoodField(more[i], GetHeader(headers, more[i])) {
        assert more[i] == order[i + 1];
      }
    }
    if GoodField(order[0], GetHeader(headers, order[0])) && GoodFields(headers, more) {
      forall i | 0 <= i < |order| ensures GoodField(order[i], GetHeader(headers, order[i])) {
        if i > 0 { assert order[i] == more[i - 1]; }
      }
    }
  }

  /** A printed code is read back exactly if it has three digits and the message is text. */
  lemma StatusUndo(code: int, message: string)
    ensures ReadStatus(HTTP_VERSION + DecimalInt(code) + " " + message)
         == if 100 <= code <= 999 && IsText(message) then Some((code, message)) else None
  {
    var line := HTTP_VERSION + DecimalInt(code) + " " + message;
    var d := DecimalInt(code);
    var t := d + " " + message;
    DecimalLength(if code < 0 then 0 else code);
    hide IsText, Decimal;
    assert line == HTTP_VERSION + t;
    assert line[|HTTP_VERSION|..] == t;
    assert t[|d|] == ' ';
    if code >= 0 {
      assert forall i | 0 <= i < |d| :: t[i] == d[i];
      if |d| == 3 { assert t[..3] == d && t[4..] == message; }
    } else {
      assert t[0] == '-';
    }
  }

  /** The head is one that HTTP allows. */
  ghost predicate SpeaksHttp(r: Response, order: seq<string>) {
    100 <= r.code <= 999 && IsText(r.message) && GoodFields(r.headers, order)
  }

  lemma HeadText(r: Response, order: seq<string>, tail: string)
    ensures HeadersToBytes(r, order) + tail ==
            HTTP_VERSION + DecimalInt(r.code) + " " + r.message + CRLF + (HeaderBlock(r.headers, order) + CRLF + tail)
    ensures '\n' !in r.message ==> '\n' !in HTTP_VERSION + DecimalInt(r.code) + " " + r.message
  {
    hide HeaderBlock;
    assert '\n' !in DecimalInt(r.code);
    hide DecimalInt;
    assert StatusLine(r.code, r.message) == HTTP_VERSION + DecimalInt(r.code) + " " + r.message + CRLF;
  }

  /** In any order of the headers, the client reads code, message, all fields in that order, and the
      blank line, and goes on with what follows, exactly if HTTP allows the head. */
  lemma HeadUndo(r: Response, order: seq<string>, tail: string)
    requires '\n' !in r.message && LineFields(r.headers) && forall name | name in order :: name in r.headers
    ensures ReadHead(HeadersToBytes(r, order) + tail)
         == if SpeaksHttp(r, order) then Some((Received(r.code, r.message, FieldsOf(r.headers, order), ""), tail)) else None
  {
    hide DecimalInt, HeaderBlock, ReadFields, ReadLine, ReadStatus, GoodFields, IsText, LineFields, HeadersToBytes, FieldsOf;
    var line := HTTP_VERSION + DecimalInt(r.code) + " " + r.message;
    HeadText(r, order, tail);
    ReadLineUndo(line, HeaderBlock(r.headers, order) + CRLF + tail);
    StatusUndo(r.code, r.message);
    FieldsUndo(r.headers, order, tail);
  }
}
