/** The values that the parser, the connection drivers and the handlers exchange. */
module Http {
  import opened Text

  datatype Method = GET | POST | HEAD | OPTIONS

  /** to_string of http_request.hpp; the parser accepts exactly these names. */
  function MethodName(m: Method): string {
    match m
    case GET => "GET"
    case POST => "POST"
    case HEAD => "HEAD"
    case OPTIONS => "OPTIONS"
  }

  function MethodOf(name: string): (m: Option<Method>)
    ensures m.Some? ==> MethodName(m.value) == name
    ensures m.None? ==> forall k: Method :: MethodName(k) != name
  {
    if name == "GET" then Some(GET)
    else if name == "POST" then Some(POST)
    else if name == "HEAD" then Some(HEAD)
    else if name == "OPTIONS" then Some(OPTIONS)
    else None
  }

  type Headers = map<string, string>

  function GetHeader(headers: Headers, name: string): string {
    if name in headers then headers[name] else ""
  }

  /** HttpRequest; method_str is MethodName(verb). */
  datatype Request = Request(
    verb: Method, uri: string, headers: Headers, contentLength: nat, body: string)

  const EMPTY_REQUEST := Request(GET, "", map[], 0, "")

  datatype ParseError =
    Ok | Incomplete | BadRequest | MethodNotAllowed | InvalidRequestLine | InvalidHeader | PayloadTooLarge

  /** The parser's error messages, one constructor for each text. */
  datatype Message =
    | NoMessage | RequestLineTooLong | MissingSpace | MissingVersion | ExtraField | EmptyField | UnknownMethod
    | HeaderLineTooLong | BadContentLength | BodyTooLarge | BadHeaderLine

  /** parse_header_line: ("", "") stands for a malformed line. */
  function ParseHeaderLine(line: string, lowercaseName: bool): (string, string) {
    var colon := IndexOf(line, ':');
    if colon == |line| || colon == 0 then ("", "")
    else HeaderPair(line[..colon], line[colon + 1..], lowercaseName)
  }

  function HeaderPair(beforeColon: string, afterColon: string, lowercaseName: bool): (string, string) {
    var name := Trim(beforeColon, WHITESPACE);
    var value := Trim(afterColon, WHITESPACE);
    if name == "" then ("", "")
    else (if lowercaseName then ToLower(name) else name, value)
  }

  /** wants_close of connection_manager.cpp. */
  predicate WantsClose(r: Request) {
    var conn := GetHeader(r.headers, "connection");
    conn != "" && Contains(ToLower(conn), "close")
  }

  /** The client wants to close exactly if "close" occurs in its Connection header, in any
      letter case. */
  lemma WantsCloseMeans(r: Request)
    ensures WantsClose(r) <==>
              "connection" in r.headers &&
              exists i | 0 <= i <= |ToLower(r.headers["connection"])| :: "close" <= ToLower(r.headers["connection"])[i..]
  {
    ContainsMeans(ToLower(GetHeader(r.headers, "connection")), "close");
  }

  lemma LoweredName(s: string)
    requires ':' !in s
    ensures var name := ToLower(Trim(s, WHITESPACE));
            && Trimmed(name, WHITESPACE) && IsLower(name) && ':' !in name
            && ('\n' !in s ==> '\n' !in name)
  {
    TrimTrims(s, WHITESPACE);
    ToLowerIsLower(Trim(s, WHITESPACE));
    ToLowerTrimmed(Trim(s, WHITESPACE));
  }

  /** What one header line contributes, whatever the line is. */
  lemma HeaderLineShape(line: string)
    ensures Trimmed(ParseHeaderLine(line, true).0, WHITESPACE)
    ensures IsLower(ParseHeaderLine(line, true).0)
    ensures ':' !in ParseHeaderLine(line, true).0
    ensures Trimmed(ParseHeaderLine(line, true).1, WHITESPACE)
    ensures '\n' !in line ==> '\n' !in ParseHeaderLine(line, true).0 && '\n' !in ParseHeaderLine(line, true).1
  {
    var colon := IndexOf(line, ':');
    if 0 < colon < |line| {
      LoweredName(line[..colon]);
      TrimTrims(line[colon + 1..], WHITESPACE);
    }
  }

  lemma HeaderLineCut(name: string, value: string)
    requires ':' !in name
    ensures var line := name + ": " + value;
            && IndexOf(line, ':') == |name|
            && line[..|name|] == name && line[|name| + 1..] == " " + value
  {
    IndexOfIs(name + ": " + value, ':', |name|);
  }

  lemma HeaderPairUndo(name: string, value: string, lowercaseName: bool)
    requires name != "" && Trimmed(name, WHITESPACE) && Trimmed(value, WHITESPACE)
    requires lowercaseName ==> IsLower(name)
    ensures HeaderPair(name, " " + value, lowercaseName) == (name, value)
  {
    assert Trim(name, WHITESPACE) == name by { TrimOfTrimmed(name, WHITESPACE); }
    assert Trim(" " + value, WHITESPACE) == value by {
      WhitespaceIs(' ');
      TrimSpaceBefore(value, WHITESPACE);
    }
    assert lowercaseName ==> ToLower(name) == name by { ToLowerIsLower(name); }
  }

  /** A printed "name: value" line reads back as the pair. */
  lemma HeaderLineUndo(name: string, value: string, lowercaseName: bool)
    requires name != "" && ':' !in name
    requires Trimmed(name, WHITESPACE) && Trimmed(value, WHITESPACE)
    requires lowercaseName ==> IsLower(name)
    ensures ParseHeaderLine(name + ": " + value, lowercaseName) == (name, value)
  {
    HeaderLineCut(name, value);
    HeaderPairUndo(name, value, lowercaseName);
  }
}
