/** http/core/http_response.cpp: serialising a response, and the readers that undo it. */
module HttpResponse {
  import opened Text
  import opened Http

  /** A descriptor of an open file together with what the file holds. */
  datatype FileHandle = NoFile | OpenFile(fd: int, content: string)

  datatype Response = Response(
    code: int, message: string, headers: Headers, body: string,
    file: FileHandle, fileOffset: nat, fileSize: nat)

  /** HttpResponse(code): no headers and no body. */
  function Plain(code: int): Response {
    Response(code, StatusText(code), map[], "", NoFile, 0, 0)
  }

  /** to_string of http_response.hpp. */
  function StatusText(code: int): string {
    match code
    case 200 => "OK"
    case 204 => "No Content"
    case 206 => "Partial Content"
    case 304 => "Not Modified"
    case 400 => "Bad Request"
    case 401 => "Unauthorized"
    case 403 => "Forbidden"
    case 404 => "Not Found"
    case 405 => "Method Not Allowed"
    case 406 => "Not Acceptable"
    case 413 => "Payload Too Large"
    case 416 => "Range Not Satisfiable"
    case 500 => "Internal Server Error"
    case 502 => "Bad Gateway"
    case 503 => "Service Unavailable"
    case 504 => "Gateway Timeout"
    case _ => "Unknown Status Code"
  }

  const CRLF := "\r\n"

  /** std::to_string of an int. */
  function DecimalInt(n: int): string {
    if n < 0 then "-" + Decimal(-n) else Decimal(n)
  }

  function StatusLine(code: int, message: string): string {
    "HTTP/1.1 " + DecimalInt(code) + " " + message + CRLF
  }

  /** One order in which the unordered_map can be walked: every key once. */
  ghost predicate Enumerates(order: seq<string>, headers: Headers) {
    && (forall i, j | 0 <= i < j < |order| :: order[i] != order[j])
    && (forall name :: name in order <==> name in headers)
  }

  function HeaderLine(name: string, value: string): string {
    name + ": " + value
  }

  function HeaderBlock(headers: Headers, order: seq<string>): string {
    if order == [] then ""
    else HeaderLine(order[0], GetHeader(headers, order[0])) + CRLF + HeaderBlock(headers, order[1..])
  }

  /** A header that stays one header, the same, when it is printed on a line and parsed again. */
  predicate LineField(name: string, value: string) {
    && name != "" && ':' !in name && '\n' !in name && Trimmed(name, WHITESPACE)
    && '\n' !in value && Trimmed(value, WHITESPACE)
  }

  ghost predicate LineFields(headers: Headers) {
    forall name | name in headers :: LineField(name, headers[name])
  }

  lemma LineFieldOf(headers: Headers, name: string)
    requires LineFields(headers) && name in headers
    ensures LineField(name, headers[name])
  {}

  /** HttpResponse::headers_to_bytes. */
  function HeadersToBytes(r: Response, order: seq<string>): string {
    StatusLine(r.code, r.message) + HeaderBlock(r.headers, order) + CRLF
  }

  predicate IsChunked(headers: Headers) {
    "Transfer-Encoding" in headers && headers["Transfer-Encoding"] == "chunked"
  }

  function HexDigit(d: nat): char
    requires d < 16
  {
    if d < 10 then ('0' as int + d) as char else ('a' as int + d - 10) as char
  }

  /** snprintf "%zx". */
  function Hex(n: nat): string {
    if n < 16 then [HexDigit(n)] else Hex(n / 16) + [HexDigit(n % 16)]
  }

  /** The body as to_bytes sends it with chunked coding: at most one data chunk. */
  function Chunked(body: string): string {
    (if body == "" then "" else Hex(|body|) + CRLF + body + CRLF) + "0" + CRLF + CRLF
  }

  lemma ChunkedNotEmpty(body: string)
    ensures Chunked(body) != ""
  {
    var last := "0" + CRLF + CRLF;
    assert |last| == 5 && Chunked(body)[|Chunked(body)| - 5..] == last;
  }

  function ToBytes(r: Response, order: seq<string>): string {
    HeadersToBytes(r, order) + if IsChunked(r.headers) then Chunked(r.body) else r.body
  }

  /** headers_to_bytes, written as the loop of the source. */
  method WriteHeaders(r: Response, order: seq<string>) returns (out: string)
    ensures out == HeadersToBytes(r, order)
  {
    out := StatusLine(r.code, r.message);
    ghost var start := out;
    for i := 0 to |order|
      invariant out + HeaderBlock(r.headers, order[i..]) == start + HeaderBlock(r.headers, order)
    {
      assert order[i..][1..] == order[i + 1..];
      out := out + (HeaderLine(order[i], GetHeader(r.headers, order[i])) + CRLF);
    }
    out := out + CRLF;
  }

  // ----- section 7.1 of RFC 9112: a decoder for the chunked coding -----

  function HexDigitValue(c: char): Option<nat> {
    if '0' <= c <= '9' then Some(c as int - '0' as int)
    else if 'a' <= c <= 'f' then Some(c as int - 'a' as int + 10)
    else if 'A' <= c <= 'F' then Some(c as int - 'A' as int + 10)
    else None
  }

  /** The value of a non-empty string of hexadecimal digits. */
  function HexValue(s: string): Option<nat> {
    if s == "" then None
    else
      match (if |s| == 1 then Some(0) else HexValue(s[..|s| - 1]), HexDigitValue(s[|s| - 1]))
      case (Some(high), Some(low)) => Some(16 * high + low)
      case _ => None
  }

  /** Decodes chunks up to the last one; the result is the body and what follows the coding.
      Chunk extensions and trailer fields, which the server never sends, are malformed here. */
  function Dechunk(s: string): Option<(string, string)>
    decreases |s|
  {
    var cr := IndexOf(s, '\r');
    if cr + 1 >= |s| || s[cr + 1] != '\n' then None
    else
      match HexValue(s[..cr])
      case None => None
      case Some(size) =>
        var data := s[cr + 2..];
        if |data| < size + 2 || data[size] != '\r' || data[size + 1] != '\n' then None
        else if size == 0 then Some(("", data[2..]))
        else AfterChunk(data[..size], Dechunk(data[size + 2..]))
  }

  function AfterChunk(data: string, more: Option<(string, string)>): Option<(string, string)> {
    if more.None? then None else Some((data + more.value.0, more.value.1))
  }

  lemma {:induction false} HexUndo(n: nat)
    ensures HexValue(Hex(n)) == Some(n)
    ensures Hex(n) != "" && '\r' !in Hex(n) && '\n' !in Hex(n)
  {
    if n >= 16 {
      HexUndo(n / 16);
      assert Hex(n)[..|Hex(n)| - 1] == Hex(n / 16);
      assert Hex(n)[|Hex(n)| - 1] == HexDigit(n % 16);
    }
  }

  /** What the decoder finds in one chunk. */
  lemma ChunkParts(size: string, data: string, tail: string)
    requires '\r' !in size
    ensures var s := size + CRLF + data + CRLF + tail;
            && IndexOf(s, '\r') == |size| && |size| + 1 < |s| && s[|size| + 1] == '\n' && s[..|size|] == size
            && s[|size| + 2..] == data + CRLF + tail
    ensures var d := data + CRLF + tail;
            && |d| >= |data| + 2 && d[|data|] == '\r' && d[|data| + 1] == '\n'
            && d[..|data|] == data && d[|data| + 2..] == tail
  {
    var s := size + CRLF + data + CRLF + tail;
    IndexOfIs(s, '\r', |size|);
  }

  /** The decoder on one chunk with known size line and data. */
  lemma DechunkChunk(size: string, data: string, tail: string)
    requires '\r' !in size && HexValue(size) == Some(|data|)
    ensures Dechunk(size + CRLF + data + CRLF + tail) ==
            if data == "" then Some(("", tail)) else AfterChunk(data, Dechunk(tail))
  {
    ChunkParts(size, data, tail);
    hide IndexOf, HexValue, AfterChunk;
  }

  /** Decoding what Chunked wrote gives the body back and leaves exactly what followed. */
  lemma ChunkedUndo(body: string, tail: string)
    ensures Dechunk(Chunked(body) + tail) == Some((body, tail))
  {
    hide Dechunk;
    var last := "0" + CRLF + "" + CRLF + tail;
    assert Dechunk(last) == Some(("", tail)) by {
      HexUndo(0);
      DechunkChunk("0", "", tail);
    }
    if body == "" {
      assert Chunked(body) + tail == last;
    } else {
      HexUndo(|body|);
      DechunkChunk(Hex(|body|), body, last);
      assert Chunked(body) + tail == Hex(|body|) + CRLF + body + CRLF + last;
      assert body + "" == body;
    }
  }
}
