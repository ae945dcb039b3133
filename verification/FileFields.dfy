/** What a client reads of the answer about a file (http/handlers/static_file_handler.cpp:62-150 behind
    http/handlers/request_handler.cpp:150-162): code, every field, and body, from the file and the
    request. */
module FileFields {
  import opened Text
  import opened Http
  import opened HttpResponse
  import opened HttpClient
  import opened Connection
  import opened ResponseReader
  import opened StaticFile
  import SiteClient

  // ----- the names, and what sets them apart -----

  /** Length and first two letters. */
  predicate Starts(name: string, n: nat, first: char, second: char) {
    |name| == n && n >= 2 && name[0] == first && name[1] == second
  }

  lemma ShortNames()
    ensures Starts("Date", 4, 'D', 'a') && Starts("ETag", 4, 'E', 'T') && Starts("Server", 6, 'S', 'e')
    ensures Starts("Connection", 10, 'C', 'o') && Starts("Content-Type", 12, 'C', 'o')
  {}

  lemma LongNames()
    ensures Starts("Last-Modified", 13, 'L', 'a') && Starts("Cache-Control", 13, 'C', 'a') && Starts("Content-Range", 13, 'C', 'o')
    ensures Starts("Content-Length", 14, 'C', 'o')
  {}

  lemma ShortLower()
    ensures ToLower("Date") == "date" && ToLower("ETag") == "etag" && ToLower("Server") == "server"
    ensures ToLower("Connection") == "connection"
  {}

  lemma TypeLower()
    ensures ToLower("Content-Type") == "content-type" && ToLower("Last-Modified") == "last-modified"
  {}

  lemma LongLower()
    ensures ToLower("Cache-Control") == "cache-control" && ToLower("Content-Range") == "content-range"
  {}

  lemma LengthLower()
    ensures ToLower("Content-Length") == "content-length"
  {}

  /** Two names that are one in lower case have the same length and the same letters at the front. */
  lemma LowerStarts(a: string, b: string)
    requires |a| >= 2 && ToLower(a) == ToLower(b)
    ensures |a| == |b| && LowerChar(a[0]) == LowerChar(b[0]) && LowerChar(a[1]) == LowerChar(b[1])
  {
    assert ToLower(a)[0] == ToLower(b)[0] && ToLower(a)[1] == ToLower(b)[1];
  }

  /** The names that answers about files have. */
  predicate Known(name: string) {
    || name == "Date" || name == "ETag" || name == "Server" || name == "Connection" || name == "Content-Type"
    || name == "Last-Modified" || name == "Cache-Control" || name == "Content-Range" || name == "Content-Length"
  }

  lemma KnownApart(a: string, b: string)
    requires Known(a) && Known(b) && ToLower(a) == ToLower(b)
    ensures a == b
  {
    ShortNames();
    LongNames();
    LowerStarts(a, b);
    hide ToLower;
  }

  lemma FieldIs(headers: Headers, order: seq<string>, key: string)
    requires Enumerates(order, headers) && Known(key) && forall name | name in headers :: Known(name)
    ensures Values(FieldsOf(headers, order), ToLower(key)) == if key in headers then [headers[key]] else []
  {
    hide ToLower, Known, Values, FieldsOf;
    forall i | 0 <= i < |order| ensures ToLower(order[i]) == ToLower(key) ==> order[i] == key {
      assert order[i] in order;
      if ToLower(order[i]) == ToLower(key) { KnownApart(order[i], key); }
    }
    if key in headers {
      OneNamed(headers, order, key);
    } else {
      assert forall i | 0 <= i < |order| :: order[i] in order;
      NoneNamed(headers, order, ToLower(key));
    }
  }

  /** The value of a header, if it is there. */
  function Said(headers: Headers, key: string): seq<string> {
    if key in headers then [headers[key]] else []
  }

  /** The fields of an answer about a file, by name; there are no others. */
  datatype Sheet = Sheet(date: seq<string>, server: seq<string>, etag: seq<string>, contentType: seq<string>, lastModified: seq<string>,
                         cacheControl: seq<string>, contentRange: seq<string>, contentLength: seq<string>)

  predicate IsFieldName(name: string) {
    || name == "date" || name == "server" || name == "etag" || name == "connection" || name == "content-type"
    || name == "last-modified" || name == "cache-control" || name == "content-range" || name == "content-length"
  }

  predicate Reads(fields: seq<Field>, sheet: Sheet, connection: string) {
    && Values(fields, "date") == sheet.date && Values(fields, "server") == sheet.server && Values(fields, "etag") == sheet.etag
    && Values(fields, "content-type") == sheet.contentType && Values(fields, "last-modified") == sheet.lastModified
    && Values(fields, "cache-control") == sheet.cacheControl && Values(fields, "content-range") == sheet.contentRange
    && Values(fields, "content-length") == sheet.contentLength && Values(fields, "connection") == [connection]
    && forall i | 0 <= i < |fields| :: IsFieldName(fields[i].0)
  }

  function SheetOf(headers: Headers): Sheet {
    Sheet(Said(headers, "Date"), Said(headers, "Server"), Said(headers, "ETag"), Said(headers, "Content-Type"),
          Said(headers, "Last-Modified"), Said(headers, "Cache-Control"), Said(headers, "Content-Range"), Said(headers, "Content-Length"))
  }

  lemma {:induction false} NamesOf(headers: Headers, order: seq<string>)
    ensures |FieldsOf(headers, order)| == |order|
    ensures forall i | 0 <= i < |order| :: FieldsOf(headers, order)[i].0 == ToLower(order[i])
    decreases |order|
  {
    hide ToLower;
    if order != [] { NamesOf(headers, order[1..]); }
  }

  lemma KnownLower(name: string)
    requires Known(name)
    ensures IsFieldName(ToLower(name))
  {
    ShortLower();
    TypeLower();
    LongLower();
    LengthLower();
    hide ToLower;
  }

  /** One field, by the lower-case name that the client knows it under. */
  lemma FieldRead(headers: Headers, order: seq<string>, key: string, name: string)
    requires Enumerates(order, headers) && Known(key) && ToLower(key) == name && forall other | other in headers :: Known(other)
    ensures Values(FieldsOf(headers, order), name) == Said(headers, key)
  {
    hide ToLower, Known, Values, FieldsOf, Enumerates;
    FieldIs(headers, order, key);
  }

  lemma StampRead(all: Headers, order: seq<string>)
    requires Enumerates(order, all) && forall name | name in all :: Known(name)
    ensures var fields := FieldsOf(all, order);
            && Values(fields, "date") == Said(all, "Date") && Values(fields, "server") == Said(all, "Server")
            && Values(fields, "etag") == Said(all, "ETag") && Values(fields, "connection") == Said(all, "Connection")
  {
    ShortLower();
    assert Known("Date") && Known("Server") && Known("ETag") && Known("Connection");
    hide ToLower, Known, Values, FieldsOf, Enumerates, Said;
    FieldRead(all, order, "Date", "date");
    FieldRead(all, order, "Server", "server");
    FieldRead(all, order, "ETag", "etag");
    FieldRead(all, order, "Connection", "connection");
  }

  lemma EntityRead(all: Headers, order: seq<string>)
    requires Enumerates(order, all) && forall name | name in all :: Known(name)
    ensures var fields := FieldsOf(all, order);
            && Values(fields, "content-type") == Said(all, "Content-Type") && Values(fields, "last-modified") == Said(all, "Last-Modified")
            && Values(fields, "cache-control") == Said(all, "Cache-Control")
            && Values(fields, "content-range") == Said(all, "Content-Range")
            && Values(fields, "content-length") == Said(all, "Content-Length")
  {
    TypeLower();
    LongLower();
    LengthLower();
    EntityKnown();
    hide ToLower, Known, Values, FieldsOf, Enumerates, Said;
    FieldRead(all, order, "Content-Type", "content-type");
    FieldRead(all, order, "Last-Modified", "last-modified");
    FieldRead(all, order, "Cache-Control", "cache-control");
    FieldRead(all, order, "Content-Range", "content-range");
    FieldRead(all, order, "Content-Length", "content-length");
  }

  lemma EntityKnown()
    ensures Known("Content-Type") && Known("Last-Modified") && Known("Cache-Control") && Known("Content-Range") && Known("Content-Length")
  {}

  lemma OnlyKnown(all: Headers, order: seq<string>)
    requires Enumerates(order, all) && forall name | name in all :: Known(name)
    ensures forall i | 0 <= i < |FieldsOf(all, order)| :: IsFieldName(FieldsOf(all, order)[i].0)
  {
    hide ToLower, IsFieldName, FieldsOf, Known;
    NamesOf(all, order);
    forall i | 0 <= i < |order| ensures IsFieldName(ToLower(order[i])) {
      assert order[i] in order;
      KnownLower(order[i]);
    }
  }

  lemma SheetRead(req: Request, headers: Headers, order: seq<string>)
    requires (forall name | name in headers :: Known(name)) && "Connection" !in headers
    requires Enumerates(order, Connected(req, headers))
    ensures Reads(FieldsOf(Connected(req, headers), order), SheetOf(headers), if WantsClose(req) then "close" else "keep-alive")
  {
    var all := Connected(req, headers);
    assert forall name | name in all :: Known(name);
    SaidConnected(req, headers);
    hide IsFieldName, Values, FieldsOf, WantsClose, Known, Enumerates, Connected;
    StampRead(all, order);
    EntityRead(all, order);
    OnlyKnown(all, order);
  }

  lemma SaidConnected(req: Request, headers: Headers)
    requires "Connection" !in headers
    ensures SheetOf(Connected(req, headers)) == SheetOf(headers)
    ensures Connected(req, headers)["Connection"] == if WantsClose(req) then "close" else "keep-alive"
  {
    ShortNames();
    LongNames();
    hide WantsClose;
  }

  // ----- what the server puts there -----

  /** An ETag that the client knows, or a date since when the file is the same. */
  predicate Unchanged(f: Resource, headers: Headers) {
    ("if-none-match" in headers && headers["if-none-match"] != "" && headers["if-none-match"] == f.etag) || f.notModifiedSince
  }

  /** The range asked for; None is a header that is absent or empty. */
  function RangeAsked(headers: Headers): Option<string> {
    if "range" in headers && headers["range"] != "" then Some(headers["range"]) else None
  }

  datatype Outcome = Outcome(code: int, sheet: Sheet, body: string)

  /** The answer to GET, from the file and the request: nothing there, unchanged, not acceptable, not to
      be opened, whole, out of range, or a part. */
  function FileOutcome(f: Resource, headers: Headers, openFails: bool): Outcome
    requires RangeAsked(headers).Some? ==> ParseRange(RangeAsked(headers).value, |f.content|).Some?
  {
    var nothing := Sheet([], [], [], [], [], [], [], []);
    var stamped := Sheet([f.date], ["Server/1.0"], [f.etag], [], [], [], [], []);
    var size := |f.content|;
    if !f.regular then Outcome(404, nothing, "")
    else if Unchanged(f, headers) then Outcome(304, stamped, "")
    else if !f.acceptable then Outcome(406, nothing, "")
    else if openFails then Outcome(500, nothing, "")
    else
      var entity := stamped.(contentType := [f.contentType], lastModified := [f.lastModified], cacheControl := ["max-age=3600"]);
      if RangeAsked(headers).None? then Outcome(200, entity.(contentLength := [Decimal(size)]), f.content)
      else
        var range := ParseRange(RangeAsked(headers).value, size).value;
        RangeInside(RangeAsked(headers).value, size);
        if !range.valid then Outcome(416, nothing.(contentRange := ["bytes */" + Decimal(size)]), "")
        else
          var part := f.content[range.start..range.end + 1];
          Outcome(206, entity.(contentRange := ["bytes " + Decimal(range.start) + "-" + Decimal(range.end) + "/" + Decimal(size)],
                               contentLength := [Decimal(|part|)]), part)
  }

  /** The response of the server has that code, those headers and that body. */
  ghost predicate Carries(r: Response, o: Outcome) {
    && r.code == o.code && r.message == StatusText(o.code) && SheetOf(r.headers) == o.sheet
    && (forall name | name in r.headers :: Known(name)) && "Connection" !in r.headers
    && InsideFile(r.file, r.fileOffset, r.fileSize) && SentBody(r) == o.body
  }

  lemma StampCarried(f: Resource)
    ensures SheetOf(Stamp(f)) == Sheet([f.date], ["Server/1.0"], [f.etag], [], [], [], [], [])
    ensures forall name | name in Stamp(f) :: Known(name) && name != "Connection"
  {
    ShortNames();
    LongNames();
  }

  lemma EntityCarried(f: Resource)
    ensures SheetOf(EntityHeaders(f)) ==
            Sheet([f.date], ["Server/1.0"], [f.etag], [f.contentType], [f.lastModified], ["max-age=3600"], [], [])
    ensures forall name | name in EntityHeaders(f) :: Known(name) && name != "Connection"
  {
    StampCarried(f);
    ShortNames();
    LongNames();
    hide Stamp;
  }

  lemma LengthCarried(headers: Headers, value: string)
    requires forall name | name in headers :: Known(name) && name != "Connection"
    ensures SheetOf(headers["Content-Length" := value]) == SheetOf(headers).(contentLength := [value])
    ensures forall name | name in headers["Content-Length" := value] :: Known(name) && name != "Connection"
  {
    ShortNames();
    LongNames();
  }

  lemma RangeCarried(headers: Headers, value: string)
    requires forall name | name in headers :: Known(name) && name != "Connection"
    ensures SheetOf(headers["Content-Range" := value]) == SheetOf(headers).(contentRange := [value])
    ensures forall name | name in headers["Content-Range" := value] :: Known(name) && name != "Connection"
  {
    ShortNames();
    LongNames();
  }

  lemma NothingCarried()
    ensures SheetOf(map[]) == Sheet([], [], [], [], [], [], [], [])
  {}

  lemma OpenedCarries(f: Resource, headers: Headers, fd: int)
    requires f.regular && !Unchanged(f, headers) && f.acceptable && OpenedResponse(f, headers, fd).Some?
    requires RangeAsked(headers).Some? ==> ParseRange(RangeAsked(headers).value, |f.content|).Some?
    ensures Carries(OpenedResponse(f, headers, fd).value, FileOutcome(f, headers, false))
  {
    var size := |f.content|;
    EntityCarried(f);
    NothingCarried();
    hide ParseRange, StatusText, Decimal, EntityHeaders, Unchanged, SheetOf, Known;
    if RangeAsked(headers).None? {
      LengthCarried(EntityHeaders(f), Decimal(size));
      assert f.content[0..size] == f.content;
    } else {
      var range := ParseRange(RangeAsked(headers).value, size).value;
      RangeInside(RangeAsked(headers).value, size);
      if range.valid {
        var ranged := EntityHeaders(f)["Content-Range" := ContentRange(range.start, range.end, size)];
        RangeCarried(EntityHeaders(f), ContentRange(range.start, range.end, size));
        LengthCarried(ranged, Decimal(range.end - range.start + 1));
      } else {
        RangeCarried(map[], "bytes */" + Decimal(size));
        assert map["Content-Range" := "bytes */" + Decimal(size)] == map[]["Content-Range" := "bytes */" + Decimal(size)];
      }
    }
  }

  lemma StaticCarries(f: Resource, headers: Headers, openFails: bool, fd: int)
    requires RangeAsked(headers).Some? ==> ParseRange(RangeAsked(headers).value, |f.content|).Some?
    requires StaticResponse(f, headers, openFails, fd).Some?
    ensures Carries(StaticResponse(f, headers, openFails, fd).value, FileOutcome(f, headers, openFails))
  {
    StampCarried(f);
    NothingCarried();
    if BeforeOpen(f, headers).None? && !openFails { OpenedCarries(f, headers, fd); }
    hide OpenedResponse, ParseRange, StatusText, Decimal, Stamp, SheetOf, Known;
  }

  /** The client's view, for every file and every request whose range does not throw: where the answer
      tells its end, or nothing follows, it reads exactly the code, the fields and the body that the
      file and the request give, and HEAD the same without the body. */
  lemma FileRead(f: Resource, req: Request, openFails: bool, fd: int, order: seq<string>, tail: string)
    requires GoodResource(f) && ContentResponse(f, req.verb, req.headers, openFails, fd).Some?
    requires RangeAsked(req.headers).Some? ==> ParseRange(RangeAsked(req.headers).value, |f.content|).Some?
    requires Enumerates(order, Connected(req, ContentResponse(f, req.verb, req.headers, openFails, fd).value.headers))
    requires tail == "" || SiteClient.FileSays(f, req, openFails)
    ensures var a := Answer(ContentResponse(f, req.verb, req.headers, openFails, fd).value, order);
            var o := FileOutcome(f, req.headers, openFails);
            && ValidAnswer(a)
            && var got := ReadAnswer(req.verb, Render(ProcessRequest(req, a)) + tail);
               && got.Some? && got.value.1 == tail
               && got.value.0.code == o.code && got.value.0.message == StatusText(o.code)
               && Reads(got.value.0.fields, o.sheet, if WantsClose(req) then "close" else "keep-alive")
               && got.value.0.body == if req.verb.HEAD? then "" else o.body
  {
    var r := ContentResponse(f, req.verb, req.headers, openFails, fd).value;
    SiteClient.FileFine(f, req, openFails, fd);
    SiteClient.FineIff(req, r, order, tail);
    StaticCarries(f, req.headers, openFails, fd);
    SheetRead(req, r.headers, order);
    hide StaticResponse, FileOutcome, StatusText, SiteClient.FileSays, SiteClient.Fine, SiteClient.Says, ReadAnswer, ProcessRequest, Render,
      Reads, Connected, Enumerates, SheetOf, Known, WantsClose, FieldsOf, GoodResource;
  }
}
