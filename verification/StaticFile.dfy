/** http/handlers/static_file_handler.cpp: byte ranges, the 200, 206 and 416 responses and the
    file descriptor behind them; and the part of phase_content in http/handlers/request_handler.cpp
    that takes the descriptor back for HEAD. */
module StaticFile {
  import opened Text
  import opened Http
  import opened HttpResponse
  import opened Connection
  import opened HttpClient
  import opened ResponseReader

  datatype RangeSpec = RangeSpec(valid: bool, start: nat, end: nat)

  const NO_RANGE := RangeSpec(false, 0, 0)
  const BYTES_UNIT := "bytes="

  /** The end of parse_range: an end past the file is not clamped. */
  function CheckRange(start: nat, end: nat, fileSize: nat): RangeSpec {
    if start > end || end >= fileSize then NO_RANGE else RangeSpec(true, start, end)
  }

  /** parse_range; None is an exception thrown by std::stoull. */
  function ParseRange(header: string, fileSize: nat): Option<RangeSpec> {
    if !(BYTES_UNIT <= header) then Some(NO_RANGE)
    else
      var spec := header[|BYTES_UNIT|..];
      var dash := IndexOf(spec, '-');
      if dash == |spec| then Some(NO_RANGE)
      else RangeOf(spec[..dash], spec[dash + 1..], fileSize)
  }

  function RangeOf(startStr: string, endStr: string, fileSize: nat): Option<RangeSpec> {
    var last := if fileSize > 0 then fileSize - 1 else 0;
    if startStr == "" && endStr == "" then Some(NO_RANGE)
    else if startStr == "" then
      match Stoull(endStr)
      case None => None
      case Some(suffix) => Some(CheckRange(if suffix >= fileSize then 0 else fileSize - suffix, last, fileSize))
    else
      match Stoull(startStr)
      case None => None
      case Some(start) =>
        if endStr == "" then Some(CheckRange(start, last, fileSize))
        else
          match Stoull(endStr)
          case None => None
          case Some(end) => Some(CheckRange(start, end, fileSize))
  }

  /** Whatever the header, a valid range lies inside the file. */
  lemma RangeInside(header: string, fileSize: nat)
    ensures ParseRange(header, fileSize).Some? && ParseRange(header, fileSize).value.valid ==>
              ParseRange(header, fileSize).value.start <= ParseRange(header, fileSize).value.end < fileSize
  {}

  /** A side of the dash is there and std::stoull rejects it: it starts with no number, or with one
      of 2^64 or more. */
  predicate Throws(header: string) {
    && BYTES_UNIT <= header
    && var spec := header[|BYTES_UNIT|..];
       var dash := IndexOf(spec, '-');
       && dash < |spec|
       && ((spec[..dash] != "" && Stoull(spec[..dash]).None?) || (spec[dash + 1..] != "" && Stoull(spec[dash + 1..]).None?))
  }

  /** parse_range throws for exactly these headers, whatever the file. */
  lemma RangeThrowsIff(header: string, fileSize: nat)
    ensures ParseRange(header, fileSize).None? <==> Throws(header)
  {
    hide Stoull, IndexOf;
  }

  lemma StoullOfNumber(s: string)
    requires IsNumber(s)
    ensures Stoull(s) == if DecimalValue(s) < TWO64 then Some(DecimalValue(s)) else None
  {
    assert IsDigit(s[0]);
    assert SkipSpaces(s) == s;
    assert DigitsPrefix(s) == |s|;
    assert s[..|s|] == s;
  }

  lemma CutAtDash(a: string, b: string)
    requires forall i | 0 <= i < |a| :: IsDigit(a[i])
    ensures forall fileSize :: ParseRange(BYTES_UNIT + a + "-" + b, fileSize) == RangeOf(a, b, fileSize)
  {
    var header := BYTES_UNIT + a + "-" + b;
    var spec := a + "-" + b;
    assert header == BYTES_UNIT + spec;
    assert header[|BYTES_UNIT|..] == spec;
    assert '-' !in a;
    IndexOfIs(spec, '-', |a|);
    assert spec[..|a|] == a && spec[|a| + 1..] == b;
  }

  /** "bytes=a-b" selects bytes a to b of a file that has them all, and nothing otherwise. */
  lemma RangeBoth(a: string, b: string, fileSize: nat)
    requires IsNumber(a) && IsNumber(b) && DecimalValue(a) < TWO64 && DecimalValue(b) < TWO64
    ensures ParseRange(BYTES_UNIT + a + "-" + b, fileSize) ==
            Some(if DecimalValue(a) <= DecimalValue(b) < fileSize then RangeSpec(true, DecimalValue(a), DecimalValue(b))
                 else NO_RANGE)
  {
    hide Stoull, ParseRange;
    CutAtDash(a, b);
    StoullOfNumber(a);
    StoullOfNumber(b);
  }

  /** "bytes=a-" selects everything from byte a of a file that has it. */
  lemma RangeFrom(a: string, fileSize: nat)
    requires IsNumber(a) && DecimalValue(a) < TWO64
    ensures ParseRange(BYTES_UNIT + a + "-" + "", fileSize) ==
            Some(if DecimalValue(a) < fileSize then RangeSpec(true, DecimalValue(a), fileSize - 1) else NO_RANGE)
  {
    hide Stoull, ParseRange;
    CutAtDash(a, "");
    StoullOfNumber(a);
  }

  /** "bytes=-n" selects the last min(n, size) bytes, if that is any. */
  lemma RangeSuffix(n: string, fileSize: nat)
    requires IsNumber(n) && DecimalValue(n) < TWO64
    ensures var k := if DecimalValue(n) < fileSize then DecimalValue(n) else fileSize;
            ParseRange(BYTES_UNIT + "" + "-" + n, fileSize) ==
            Some(if k > 0 then RangeSpec(true, fileSize - k, fileSize - 1) else NO_RANGE)
  {
    hide Stoull, ParseRange;
    CutAtDash("", n);
    StoullOfNumber(n);
  }

  // ----- the response -----

  /** What serve_static_file finds out before it opens the file. */
  datatype Resource = Resource(
    regular: bool,          // stat succeeded on a regular file
    content: string,        // what the file holds; st_size is its length
    etag: string,
    date: string,           // format_http_date of now
    contentType: string,
    lastModified: string,   // format_http_date of st_mtime
    notModifiedSince: bool, // If-Modified-Since is there, parses, is past and not before st_mtime
    acceptable: bool)       // check_accept

  /** The headers of every answer about a file that exists. */
  function Stamp(f: Resource): Headers {
    map["Date" := f.date, "Server" := "Server/1.0", "ETag" := f.etag]
  }

  /** The headers of an answer that carries the file. */
  function EntityHeaders(f: Resource): Headers {
    Stamp(f)["Content-Type" := f.contentType]["Last-Modified" := f.lastModified]["Cache-Control" := "max-age=3600"]
  }

  /** The response up to the point where the file is opened, if it ends there. */
  function BeforeOpen(f: Resource, headers: Headers): Option<Response> {
    var ifNoneMatch := GetHeader(headers, "if-none-match");
    if !f.regular then Some(Plain(404))
    else if (ifNoneMatch != "" && ifNoneMatch == f.etag) || f.notModifiedSince then
      Some(Plain(304).(headers := Stamp(f)))
    else if !f.acceptable then Some(Plain(406))
    else None
  }

  function ContentRange(start: nat, end: nat, size: nat): string {
    "bytes " + Decimal(start) + "-" + Decimal(end) + "/" + Decimal(size)
  }

  /** The response once the file is open as fd; None is an exception. */
  function OpenedResponse(f: Resource, headers: Headers, fd: int): Option<Response> {
    var range := GetHeader(headers, "range");
    var size := |f.content|;
    if range == "" then
      Some(Plain(200).(headers := EntityHeaders(f)["Content-Length" := Decimal(size)],
                       file := OpenFile(fd, f.content), fileOffset := 0, fileSize := size))
    else
      match ParseRange(range, size)
      case None => None
      case Some(r) =>
        if !r.valid then Some(Plain(416).(headers := map["Content-Range" := "bytes */" + Decimal(size)]))
        else
          var length := r.end - r.start + 1;
          Some(Plain(206).(headers := EntityHeaders(f)["Content-Range" := ContentRange(r.start, r.end, size)]["Content-Length" := Decimal(length)],
                           file := OpenFile(fd, f.content), fileOffset := r.start, fileSize := length))
  }

  /** The response of serve_static_file, if open gives fd. */
  function StaticResponse(f: Resource, headers: Headers, openFails: bool, fd: int): Option<Response> {
    if BeforeOpen(f, headers).Some? then BeforeOpen(f, headers)
    else if openFails then Some(Plain(500))
    else OpenedResponse(f, headers, fd)
  }

  /** The descriptors after serve_static_file. */
  function StaticTable(f: Resource, headers: Headers, openFails: bool, t: FdTable): FdTable {
    var fd := LowestFree(t.open, 0);
    var r := StaticResponse(f, headers, openFails, fd);
    if BeforeOpen(f, headers).Some? || openFails then t
    else if r.Some? && r.value.file.NoFile? then Closing(AfterOpen(t), [fd])
    else AfterOpen(t)
  }

  /** serve_static_file. */
  method ServeStaticFile(kernel: Kernel, f: Resource, headers: Headers, openFails: bool) returns (r: Option<Response>)
    modifies kernel
    ensures r == StaticResponse(f, headers, openFails, LowestFree(old(kernel.table.open), 0))
    ensures kernel.table == StaticTable(f, headers, openFails, old(kernel.table))
  {
    hide LowestFree, ParseRange, StatusText, Decimal, EntityHeaders, ContentRange, Stamp;
    if !f.regular {
      return Some(Plain(404));
    }
    var ifNoneMatch := GetHeader(headers, "if-none-match");
    if ifNoneMatch != "" && ifNoneMatch == f.etag {
      return Some(Plain(304).(headers := Stamp(f)));
    }
    if f.notModifiedSince {
      return Some(Plain(304).(headers := Stamp(f)));
    }
    if !f.acceptable {
      return Some(Plain(406));
    }
    if openFails {
      return Some(Plain(500));
    }
    var fd := kernel.Open();
    var rangeHeader := GetHeader(headers, "range");
    var size := |f.content|;
    if rangeHeader != "" {
      var range := ParseRange(rangeHeader, size);
      if range.None? {
        return None;
      }
      if !range.value.valid {
        kernel.Close(fd);
        return Some(Plain(416).(headers := map["Content-Range" := "bytes */" + Decimal(size)]));
      }
      RangeInside(rangeHeader, size);
      var start, length := range.value.start, range.value.end - range.value.start + 1;
      return Some(Plain(206).(
        headers := EntityHeaders(f)["Content-Range" := ContentRange(start, range.value.end, size)]["Content-Length" := Decimal(length)],
        file := OpenFile(fd, f.content), fileOffset := start, fileSize := length));
    }
    return Some(Plain(200).(headers := EntityHeaders(f)["Content-Length" := Decimal(size)],
                            file := OpenFile(fd, f.content), fileOffset := 0, fileSize := size));
  }

  // ----- who owns the file -----

  /** The descriptor that a response brings along. */
  function Held(r: Option<Response>): set<int> {
    if r.Some? && r.value.file.OpenFile? then {r.value.file.fd} else {}
  }

  /** The file is opened, and then the range makes std::stoull throw. */
  predicate Leaks(f: Resource, headers: Headers, openFails: bool) {
    BeforeOpen(f, headers).None? && !openFails && Throws(GetHeader(headers, "range"))
  }

  /** What is open afterwards is what was open and what the response holds, exactly unless the
      range throws; then there is no response, and the opened file stays open. */
  lemma LeakIff(f: Resource, headers: Headers, openFails: bool, t: FdTable)
    ensures var r := StaticResponse(f, headers, openFails, LowestFree(t.open, 0));
            var t' := StaticTable(f, headers, openFails, t);
            && (r.None? <==> Leaks(f, headers, openFails))
            && (t'.open != t.open + Held(r) <==> Leaks(f, headers, openFails))
            && (Leaks(f, headers, openFails) ==> t' == AfterOpen(t))
            && t'.clean == t.clean
  {
    hide ParseRange, Throws, StatusText, Decimal, EntityHeaders, ContentRange, Stamp, LowestFree;
    var fd := LowestFree(t.open, 0);
    RangeThrowsIff(GetHeader(headers, "range"), |f.content|);
    NoRangeThrows();
    ClosedAgain(t, fd);
  }

  lemma ClosedAgain(t: FdTable, fd: int)
    requires fd == LowestFree(t.open, 0)
    ensures fd !in t.open && AfterOpen(t).open == t.open + {fd} && AfterOpen(t).clean == t.clean
    ensures Closing(AfterOpen(t), [fd]).open == t.open && Closing(AfterOpen(t), [fd]).clean == t.clean
  {
    hide LowestFree;
    assert [fd][1..] == [];
  }

  lemma NoRangeThrows()
    ensures !Throws("")
  {}

  /** It happens: "Range: bytes=x-" on any file that is served without conditions. */
  lemma LeakHere(f: Resource, t: FdTable)
    requires f.regular && !f.notModifiedSince && f.acceptable
    ensures var headers := map["range" := "bytes=x-"];
            && StaticResponse(f, headers, false, LowestFree(t.open, 0)) == None
            && StaticTable(f, headers, false, t) == t.(open := t.open + {LowestFree(t.open, 0)})
            && LowestFree(t.open, 0) !in t.open
  {
    var headers := map["range" := "bytes=x-"];
    assert Throws("bytes=x-") by { ThrowsHere(); }
    hide ParseRange, Throws, LowestFree, StaticResponse, StaticTable;
    LeakIff(f, headers, false, t);
  }

  lemma ThrowsHere()
    ensures Throws("bytes=x-")
  {
    var header := "bytes=x-";
    assert BYTES_UNIT <= header;
    var spec := header[|BYTES_UNIT|..];
    assert spec == "x-";
    IndexOfIs(spec, '-', 1);
    assert spec[..1] == "x";
    assert Stoull("x") == None;
  }

  // ----- HEAD -----

  /** What a file response is to HEAD: the same headers and nothing after them. */
  function WithoutBody(r: Option<Response>): Option<Response> {
    if r.None? then None else Some(r.value.(file := NoFile, body := ""))
  }

  /** The response of the regular-file branch of phase_content. */
  function ContentResponse(f: Resource, verb: Method, headers: Headers, openFails: bool, fd: int): Option<Response> {
    var served := StaticResponse(f, headers, openFails, fd);
    if verb.HEAD? then WithoutBody(served) else served
  }

  /** The regular-file branch of phase_content: HEAD gives the file back. Unless the range throws,
      every descriptor opened here is closed again or is the response's. */
  method ServeContent(kernel: Kernel, f: Resource, verb: Method, headers: Headers, openFails: bool) returns (r: Option<Response>)
    modifies kernel
    ensures r == ContentResponse(f, verb, headers, openFails, LowestFree(old(kernel.table.open), 0))
    ensures r.None? <==> Leaks(f, headers, openFails)
    ensures kernel.table.open != old(kernel.table.open) + Held(r) <==> Leaks(f, headers, openFails)
    ensures kernel.table.clean == old(kernel.table.clean)
    ensures r.None? ==> kernel.table == AfterOpen(old(kernel.table))
    ensures r.Some? ==>
              && Held(r) !! old(kernel.table.open)
              && InsideFile(r.value.file, r.value.fileOffset, r.value.fileSize)
  {
    hide LowestFree, ParseRange, StatusText, Decimal, ContentRange, EntityHeaders, Stamp, Leaks, StaticTable;
    LeakIff(f, headers, openFails, kernel.table);
    r := ServeStaticFile(kernel, f, headers, openFails);
    if r.None? {
      return;
    }
    RangeInside(GetHeader(headers, "range"), |f.content|);
    if verb.HEAD? {
      var resp := r.value;
      if resp.file.OpenFile? {
        kernel.Close(resp.file.fd);
        resp := resp.(file := NoFile);
      }
      r := Some(resp.(body := ""));
    }
  }

  // ----- from the range to the wire -----

  /** A 206 response, packaged and rendered, ends with exactly the selected bytes, and both its
      headers say so: Content-Length is their number and Content-Range their place. */
  lemma RangeToWire(f: Resource, req: Request, fd: int, order: seq<string>)
    requires BeforeOpen(f, req.headers).None? && GetHeader(req.headers, "range") != "" && !req.verb.HEAD?
    requires ParseRange(GetHeader(req.headers, "range"), |f.content|).Some?
    requires ParseRange(GetHeader(req.headers, "range"), |f.content|).value.valid
    ensures var range := ParseRange(GetHeader(req.headers, "range"), |f.content|).value;
            var selected := f.content[range.start..range.end + 1];
            var resp := ContentResponse(f, req.verb, req.headers, false, fd);
            && resp.Some? && ValidAnswer(Answer(resp.value, order))
            && resp.value.code == 206
            && resp.value.headers["Content-Length"] == Decimal(|selected|)
            && resp.value.headers["Content-Range"] ==
               "bytes " + Decimal(range.start) + "-" + Decimal(range.start + |selected| - 1) + "/" + Decimal(|f.content|)
            && |selected| > 0
            && var pkg := ProcessRequest(req, Answer(resp.value, order));
               Render(pkg) == pkg.bytes + selected
  {
    hide ParseRange, StatusText, Decimal, HeadersToBytes, ToBytes, BeforeOpen;
    RangeInside(GetHeader(req.headers, "range"), |f.content|);
  }

  /** Without a Range header the whole file is sent. */
  lemma WholeToWire(f: Resource, req: Request, fd: int, order: seq<string>)
    requires BeforeOpen(f, req.headers).None? && GetHeader(req.headers, "range") == "" && !req.verb.HEAD?
    ensures var resp := ContentResponse(f, req.verb, req.headers, false, fd);
            && resp.Some? && ValidAnswer(Answer(resp.value, order))
            && resp.value.headers["Content-Length"] == Decimal(|f.content|)
            && var pkg := ProcessRequest(req, Answer(resp.value, order));
               Render(pkg) == pkg.bytes + f.content
  {
    hide StatusText, Decimal, HeadersToBytes, ToBytes, BeforeOpen;
    assert f.content[0..|f.content|] == f.content;
  }

  // ----- from the file to the client -----

  /** The texts that come from the clock, the inode and the MIME table fit on a header line. */
  predicate GoodResource(f: Resource) {
    GoodValue(f.date) && GoodValue(f.etag) && GoodValue(f.contentType) && GoodValue(f.lastModified)
  }

  lemma DecimalGood(n: nat)
    ensures GoodValue(Decimal(n))
  {
    var s := Decimal(n);
    WhitespaceIs(s[0]);
    WhitespaceIs(s[|s| - 1]);
  }

  lemma ContentRangeGood(start: nat, end: nat, size: nat)
    ensures GoodValue(ContentRange(start, end, size))
  {
    var s := ContentRange(start, end, size);
    var a, b, c := Decimal(start), Decimal(end), Decimal(size);
    hide Decimal;
    WhitespaceIs('b');
    WhitespaceIs(c[|c| - 1]);
    assert s[0] == 'b' && s[|s| - 1] == c[|c| - 1];
    assert IsText(a) && IsText(b) && IsText(c) && IsText("bytes ");
  }

  lemma StampGood(f: Resource)
    requires GoodResource(f)
    ensures FineHeaders(Stamp(f)) && "Content-Length" !in Stamp(f)
  {
    ServerValue();
    hide FineHeaders, GoodValue;
    assert FineHeaders(map[]) by { NoFields(); }
    Put(map[], "Date", f.date);
    Put(map["Date" := f.date], "Server", "Server/1.0");
    Put(map["Date" := f.date, "Server" := "Server/1.0"], "ETag", f.etag);
    assert Stamp(f) == map["Date" := f.date]["Server" := "Server/1.0"]["ETag" := f.etag];
    assert |"Content-Length"| == 14 && |"Date"| == 4 && |"Server"| == 6 && |"ETag"| == 4;
  }

  lemma ServerValue()
    ensures GoodValue("Server/1.0")
  {
    WhitespaceIs('S');
    WhitespaceIs('0');
  }

  lemma CacheValue()
    ensures GoodValue("max-age=3600")
  {
    WhitespaceIs('m');
    WhitespaceIs('0');
  }

  lemma EntityNames()
    ensures IsToken("Content-Type") && IsToken("Last-Modified") && IsToken("Cache-Control")
    ensures |"Content-Type"| == 12 && |"Last-Modified"| == 13 && |"Cache-Control"| == 13
  {}

  lemma EntityGood(f: Resource)
    requires GoodResource(f)
    ensures FineHeaders(EntityHeaders(f))
  {
    CacheValue();
    StampGood(f);
    EntityNames();
    assert |TRANSFER_ENCODING| == 17 && |CONNECTION| == 10 && |CONTENT_LENGTH| == 14;
    hide FineHeaders, GoodValue, Stamp, IsToken;
    Put(Stamp(f), "Content-Type", f.contentType);
    Put(Stamp(f)["Content-Type" := f.contentType], "Last-Modified", f.lastModified);
    Put(Stamp(f)["Content-Type" := f.contentType]["Last-Modified" := f.lastModified], "Cache-Control", "max-age=3600");
  }

  lemma RangeName()
    ensures IsToken("Content-Range") && |"Content-Range"| == 13
  {}

  lemma LengthToken()
    ensures IsToken("Content-Length") && |"Content-Length"| == 14
  {}

  lemma UnsatisfiableGood(size: nat)
    ensures FineHeaders(map["Content-Range" := "bytes */" + Decimal(size)])
    ensures "Content-Length" !in map["Content-Range" := "bytes */" + Decimal(size)]
  {
    var d := Decimal(size);
    var value := "bytes */" + d;
    DecimalGood(size);
    RangeName();
    LengthToken();
    WhitespaceIs('b');
    hide Decimal;
    assert GoodValue(value) by {
      assert value[|value| - 1] == d[|d| - 1];
      assert IsText("bytes */");
    }
    assert |TRANSFER_ENCODING| == 17 && |CONNECTION| == 10 && |CONTENT_LENGTH| == 14;
    hide FineHeaders, GoodValue, IsToken;
    assert FineHeaders(map[]) by { NoFields(); }
    Put(map[], "Content-Range", value);
  }

  lemma LowTextsGood(code: int)
    requires code in {200, 204, 206, 304, 401}
    ensures IsText(StatusText(code))
  {}

  lemma MiddleTextsGood(code: int)
    requires code in {403, 404, 405, 406}
    ensures IsText(StatusText(code))
  {}

  lemma RangeTextGood()
    ensures IsText(StatusText(416))
  {}

  lemma HighTextsGood(code: int)
    requires code in {500, 502}
    ensures IsText(StatusText(code))
  {}

  lemma LastTextsGood(code: int)
    requires code in {503, 504}
    ensures IsText(StatusText(code))
  {}

  lemma TextsGood(code: int)
    requires code in {200, 204, 206, 304, 401, 403, 404, 405, 406, 416, 500, 502, 503, 504}
    ensures IsText(StatusText(code))
  {
    hide StatusText, IsText;
    if code < 403 { LowTextsGood(code); }
    else if code < 416 { MiddleTextsGood(code); }
    else if code < 500 { RangeTextGood(); }
    else if code < 503 { HighTextsGood(code); }
    else { LastTextsGood(code); }
  }

  lemma PutLength(headers: Headers, n: nat)
    requires FineHeaders(headers)
    ensures FineHeaders(headers["Content-Length" := Decimal(n)])
  {
    DecimalGood(n);
    LengthToken();
    assert |TRANSFER_ENCODING| == 17 && |CONNECTION| == 10;
    hide FineHeaders, GoodValue, IsToken, Decimal;
    Put(headers, "Content-Length", Decimal(n));
  }

  lemma PutRange(headers: Headers, value: string)
    requires FineHeaders(headers) && GoodValue(value)
    ensures FineHeaders(headers["Content-Range" := value])
  {
    RangeName();
    assert |TRANSFER_ENCODING| == 17 && |CONNECTION| == 10 && |CONTENT_LENGTH| == 14;
    hide FineHeaders, GoodValue, IsToken;
    Put(headers, "Content-Range", value);
  }

  /** The headers of a 200 or 206 response, and its length. */
  lemma OpenedShape(f: Resource, headers: Headers, fd: int)
    requires GoodResource(f) && OpenedResponse(f, headers, fd).Some?
    ensures var r := OpenedResponse(f, headers, fd).value;
            && FineHeaders(r.headers) && r.body == ""
            && InsideFile(r.file, r.fileOffset, r.fileSize)
            && (if r.file.OpenFile? then
                  && r.code == (if GetHeader(headers, "range") == "" then 200 else 206)
                  && r.file == OpenFile(fd, f.content)
                  && "Content-Length" in r.headers && r.headers["Content-Length"] == Decimal(r.fileSize)
                else r.code == 416 && "Content-Length" !in r.headers)
            && r.message == StatusText(r.code)
  {
    hide ParseRange, FineHeaders, EntityHeaders, StatusText, Decimal, ContentRange, GoodResource, GoodValue;
    var range := GetHeader(headers, "range");
    var r := OpenedResponse(f, headers, fd).value;
    EntityGood(f);
    UnsatisfiableGood(|f.content|);
    if range != "" {
      RangeInside(range, |f.content|);
      var spec := ParseRange(range, |f.content|).value;
      ContentRangeGood(spec.start, spec.end, |f.content|);
      PutRange(EntityHeaders(f), ContentRange(spec.start, spec.end, |f.content|));
      PutLength(EntityHeaders(f)["Content-Range" := ContentRange(spec.start, spec.end, |f.content|)], r.fileSize);
    } else {
      PutLength(EntityHeaders(f), r.fileSize);
    }
  }

  /** Every response of serve_static_file has headers that HTTP allows; one that carries the file
      says its length, and no other says any. */
  lemma StaticShape(f: Resource, headers: Headers, openFails: bool, fd: int)
    requires GoodResource(f) && StaticResponse(f, headers, openFails, fd).Some?
    ensures var r := StaticResponse(f, headers, openFails, fd).value;
            && IsText(r.message) && FineHeaders(r.headers) && r.body == ""
            && InsideFile(r.file, r.fileOffset, r.fileSize)
            && (if r.file.OpenFile? then
                  && r.code == (if GetHeader(headers, "range") == "" then 200 else 206)
                  && r.file == OpenFile(fd, f.content)
                  && "Content-Length" in r.headers && r.headers["Content-Length"] == Decimal(r.fileSize)
                else r.code in {304, 404, 406, 416, 500} && "Content-Length" !in r.headers)
  {
    hide OpenedResponse, FineHeaders, Stamp, StatusText, Decimal, GoodResource, IsText;
    StampGood(f);
    assert FineHeaders(map[]) by { NoFields(); }
    if OpenedResponse(f, headers, fd).Some? { OpenedShape(f, headers, fd); }
    TextsGood(StaticResponse(f, headers, openFails, fd).value.code);
  }

  /** The client reads a 200 or 206 response whole, and what follows on the connection is left:
      for GET its body is exactly the bytes of the file that the response is about, and HEAD gets
      the same status and headers and nothing after them. */
  lemma FileToClient(f: Resource, req: Request, openFails: bool, fd: int, order: seq<string>, tail: string)
    requires GoodResource(f) && StaticResponse(f, req.headers, openFails, fd).Some?
    requires StaticResponse(f, req.headers, openFails, fd).value.file.OpenFile?
    requires Enumerates(order, Connected(req, StaticResponse(f, req.headers, openFails, fd).value.headers))
    ensures var g := StaticResponse(f, req.headers, openFails, fd).value;
            var a := Answer(ContentResponse(f, req.verb, req.headers, openFails, fd).value, order);
            && ValidAnswer(a) && g.fileOffset + g.fileSize <= |f.content|
            && g.code == (if GetHeader(req.headers, "range") == "" then 200 else 206)
            && ReadAnswer(req.verb, Render(ProcessRequest(req, a)) + tail)
               == Some((Received(g.code, g.message, FieldsOf(Connected(req, g.headers), order),
                                 if req.verb.HEAD? then "" else f.content[g.fileOffset..g.fileOffset + g.fileSize]), tail))
  {
    hide StaticResponse, ReadAnswer, Render, ProcessRequest, Enumerates, Connected, FineHeaders, Decimal, GoodResource, IsText, FieldsOf,
      DecimalValue;
    StaticShape(f, req.headers, openFails, fd);
    var a := Answer(ContentResponse(f, req.verb, req.headers, openFails, fd).value, order);
    FineAnswerIff(req, a, tail);
  }
}
