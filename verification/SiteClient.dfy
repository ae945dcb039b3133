/** What a client can read of the answers that this server gives, and of a whole connection of them
    in either mode: the handler of http/handlers/request_handler.cpp:156-233 against the reader of HttpClient. */
module SiteClient {
  import opened Text
  import opened Http
  import opened HttpResponse
  import opened HttpClient
  import opened ConnectionSpec
  import opened Connection
  import opened ResponseReader
  import opened StaticFile
  import opened Cgi
  import opened CgiChild
  import opened RequestHandler
  import opened Server
  import Loop = EventLoopSpec
  import Modes

  /** The texts of the site fit on header lines. */
  ghost predicate GoodSite(site: Site) {
    && GoodValue(site.date)
    && forall path :: site.entry(path).Regular? ==> GoodResource(site.entry(path).file)
  }

  /** What the server's own answers have in common: HTTP allows their heads, what must not have a
      body has none, and an announced length is the true one. */
  ghost predicate Fine(verb: Method, r: Response) {
    && 200 <= r.code <= 999 && IsText(r.message) && FineHeaders(r.headers) && InsideFile(r.file, r.fileOffset, r.fileSize)
    && (NoBody(verb, r.code) ==> SentBody(r) == "")
    && ("Content-Length" in r.headers ==> IsNumber(r.headers["Content-Length"]))
    && (!NoBody(verb, r.code) && "Content-Length" in r.headers ==> r.headers["Content-Length"] == Decimal(|SentBody(r)|))
  }

  /** It says where it ends: at the blank line, or after an announced length. */
  predicate Says(verb: Method, r: Response) {
    NoBody(verb, r.code) || "Content-Length" in r.headers
  }

  lemma PlainFine(verb: Method, code: int)
    requires code in {200, 403, 404, 405, 500, 502, 503, 504}
    ensures Fine(verb, Plain(code)) && (Says(verb, Plain(code)) <==> verb.HEAD?)
  {
    TextsGood(code);
    NoFields();
    hide FineHeaders, StatusText, IsText;
  }

  lemma AllowValue()
    ensures GoodValue(ALLOWED) && |"Allow"| == 5 && |"Date"| == 4
  {
    WhitespaceIs('G');
    WhitespaceIs('S');
  }

  lemma OptionsFine(verb: Method, date: string)
    requires GoodValue(date)
    ensures var r := Plain(204).(headers := map["Allow" := ALLOWED, "Date" := date]);
            Fine(verb, r) && Says(verb, r)
  {
    TextsGood(204);
    NoFields();
    AllowValue();
    assert |TRANSFER_ENCODING| == 17 && |CONNECTION| == 10 && |CONTENT_LENGTH| == 14 && |"Content-Length"| == 14;
    assert IsToken("Allow") && IsToken("Date");
    hide FineHeaders, StatusText, GoodValue, IsText, IsToken;
    Put(map[], "Allow", ALLOWED);
    Put(map["Allow" := ALLOWED], "Date", date);
    assert map["Allow" := ALLOWED]["Date" := date] == map["Allow" := ALLOWED, "Date" := date];
  }

  const REALM := "Basic realm=\"Restricted Files\""

  lemma RealmValue()
    ensures GoodValue(REALM)
  {
    WhitespaceIs('B');
    WhitespaceIs('"');
  }

  lemma RealmName()
    ensures IsToken("WWW-Authenticate") && |"WWW-Authenticate"| == 16
  {}

  lemma ZeroValue()
    ensures GoodValue("0") && Decimal(0) == "0"
  {
    WhitespaceIs('0');
  }

  lemma UnauthorizedHeaders()
    ensures FineHeaders(UNAUTHORIZED)
  {
    NoFields();
    RealmValue();
    RealmName();
    ZeroValue();
    LengthToken();
    assert |TRANSFER_ENCODING| == 17 && |CONNECTION| == 10 && |CONTENT_LENGTH| == 14;
    hide FineHeaders, GoodValue, IsToken, Decimal;
    Put(map[], "WWW-Authenticate", REALM);
    Put(map["WWW-Authenticate" := REALM], "Content-Length", "0");
    assert map["WWW-Authenticate" := REALM]["Content-Length" := "0"] == UNAUTHORIZED;
  }

  lemma UnauthorizedFine(verb: Method)
    ensures var r := Plain(401).(headers := UNAUTHORIZED); Fine(verb, r) && Says(verb, r)
  {
    TextsGood(401);
    UnauthorizedHeaders();
    ZeroValue();
    assert "Content-Length" in UNAUTHORIZED && UNAUTHORIZED["Content-Length"] == "0";
    hide FineHeaders, StatusText, Decimal, IsText, UNAUTHORIZED;
  }

  lemma HtmlValue()
    ensures GoodValue(HTML)
  {
    WhitespaceIs('t');
    WhitespaceIs('8');
  }

  lemma ListingHeaders(n: nat)
    ensures FineHeaders(map["Content-Type" := HTML, "Content-Length" := Decimal(n)])
  {
    NoFields();
    HtmlValue();
    EntityNames();
    assert |TRANSFER_ENCODING| == 17 && |CONNECTION| == 10 && |CONTENT_LENGTH| == 14;
    hide FineHeaders, GoodValue, Decimal, IsToken;
    Put(map[], "Content-Type", HTML);
    PutLength(map["Content-Type" := HTML], n);
    assert map["Content-Type" := HTML]["Content-Length" := Decimal(n)] == map["Content-Type" := HTML, "Content-Length" := Decimal(n)];
  }

  lemma ListingFine(verb: Method, text: string)
    ensures Fine(verb, Listing(verb, text)) && (Says(verb, Listing(verb, text)) <==> verb.HEAD? || text != "")
  {
    if text == "" {
      PlainFine(verb, 403);
    } else {
      TextsGood(200);
      ListingHeaders(|text|);
      hide FineHeaders, StatusText, Decimal, IsText;
    }
  }

  // ----- which answers say where they end, from the site, the request and the world -----

  predicate WholeOrValid(range: string, size: nat) {
    range == "" || (ParseRange(range, size).Some? && ParseRange(range, size).value.valid)
  }

  /** A file: not modified, or acceptable and opened and without a range or with a valid one. */
  predicate FileSays(f: Resource, req: Request, openFails: bool) {
    var etag, range := GetHeader(req.headers, "if-none-match"), GetHeader(req.headers, "range");
    var same := (etag != "" && etag == f.etag) || f.notModifiedSince;
    req.verb.HEAD? ||
    (f.regular && (same || (f.acceptable && !openFails && WholeOrValid(range, |f.content|))))
  }

  /** What phase_content answers without a program. */
  predicate ContentSays(site: Site, req: Request, root: string, path: string) {
    var e := site.entry(path);
    if req.verb.OPTIONS? then true
    else if req.verb.POST? then false
    else if e.Regular? then FileSays(e.file, req, e.openFails)
    else if e.Directory? then
      var index := FirstRegular(site, Candidates(path, root, GetHeader(req.headers, "user-agent")));
      if index.Some? then FileSays(index.value.file, req, index.value.openFails) else req.verb.HEAD? || e.listing != ""
    else req.verb.HEAD?
  }

  /** What phase_access answers: only the demand for credentials says that it is empty. */
  predicate AccessSays(site: Site, req: Request, root: string, path: string) {
    var (resolved, under) := Paths.ResolvePath(root, path);
    req.verb.HEAD? || (!(req.verb.GET? && path == LOAD) && under && !site.entry(resolved).Missing?)
  }

  /** The program is run and what it prints has a blank line. */
  predicate CgiRan(w: World, req: Request) {
    && Forked(w) && !BodyLost(w, req.verb, req.body) && Collected(w.events).Some? && w.exit == ExitedWith(0)
    && CutHead(Collected(w.events).value).Some?
  }

  /** The header lines that it prints. */
  function CgiLines(w: World): seq<string>
    requires Collected(w.events).Some? && CutHead(Collected(w.events).value).Some?
  {
    Split(CutHead(Collected(w.events).value).value.0, '\n')
  }

  predicate RunsProgram(site: Site, req: Request, accepting: bool) {
    Decide(site, req, accepting).RunProgram?
  }

  /** On a connection that goes on, the client can tell where the answer ends. */
  ghost predicate TellsEnd(s: Setting, i: nat, req: Request) {
    var site := s.site;
    var v := ResolveVhost(site.hosts, HostName(req.headers));
    if RunsProgram(site, req, s.accepting(i)) then
      if CgiRan(s.world(i), req) then GoodLines(CgiLines(s.world(i)), req.verb) else req.verb.HEAD?
    else if v.None? then req.verb.HEAD?
    else if AccessAnswer(site, req, s.accepting(i), v.value.documentRoot, OriginPath(req.uri)).Some? then
      AccessSays(site, req, v.value.documentRoot, OriginPath(req.uri))
    else
      ContentSays(site, req, v.value.documentRoot, Paths.ResolvePath(v.value.documentRoot, OriginPath(req.uri)).0)
  }

  lemma AccessFine(site: Site, req: Request, accepting: bool, root: string, path: string)
    ensures var r := AccessAnswer(site, req, accepting, root, path);
            r.Some? ==> Fine(req.verb, r.value) && (Says(req.verb, r.value) <==> AccessSays(site, req, root, path))
  {
    hide Fine, Says, Paths.ResolvePath, DirOf, Auth.Check, Plain, UNAUTHORIZED;
    PlainFine(req.verb, 200);
    PlainFine(req.verb, 503);
    PlainFine(req.verb, 403);
    PlainFine(req.verb, 404);
    UnauthorizedFine(req.verb);
  }

  lemma ContentFine(site: Site, req: Request, root: string, path: string)
    requires GoodValue(site.date)
    ensures var a := ContentAction(site, req, root, path);
            a.Reply? ==> Fine(req.verb, a.response) && (Says(req.verb, a.response) <==> ContentSays(site, req, root, path))
  {
    hide Fine, Says, Listing, Plain, Candidates, FirstRegular, GoodValue, IsIndex, FileSays;
    OptionsFine(req.verb, site.date);
    PlainFine(req.verb, 405);
    PlainFine(req.verb, 404);
    var e := site.entry(path);
    if e.Directory? { ListingFine(req.verb, e.listing); }
  }

  /** What StaticShape says of a response makes it fine, for HEAD without its body. */
  lemma ShapeFine(verb: Method, g: Response)
    requires IsText(g.message) && FineHeaders(g.headers) && g.body == "" && InsideFile(g.file, g.fileOffset, g.fileSize)
    requires if g.file.OpenFile? then
               g.code in {200, 206} && "Content-Length" in g.headers && g.headers["Content-Length"] == Decimal(g.fileSize)
             else g.code in {304, 404, 406, 416, 500} && "Content-Length" !in g.headers
    ensures var r := if verb.HEAD? then g.(file := NoFile, body := "") else g;
            Fine(verb, r) && (Says(verb, r) <==> verb.HEAD? || g.code == 304 || g.file.OpenFile?)
  {
    hide FineHeaders, Decimal, IsText;
    assert g.file.OpenFile? ==> |SentBody(g)| == g.fileSize;
    assert g.file.OpenFile? ==> IsNumber(Decimal(g.fileSize));
  }

  lemma FileFine(f: Resource, req: Request, openFails: bool, fd: int)
    requires GoodResource(f)
    ensures var r := ContentResponse(f, req.verb, req.headers, openFails, fd);
            r.Some? ==> Fine(req.verb, r.value) && (Says(req.verb, r.value) <==> FileSays(f, req, openFails))
  {
    hide StaticResponse, FineHeaders, Decimal, GoodResource, IsText, ParseRange, Fine, Says;
    var g := StaticResponse(f, req.headers, openFails, fd);
    if g.Some? {
      StaticShape(f, req.headers, openFails, fd);
      ShapeFine(req.verb, g.value);
      StaticSays(f, req.headers, openFails, fd);
    }
  }

  lemma StaticSays(f: Resource, headers: Headers, openFails: bool, fd: int)
    ensures var r := StaticResponse(f, headers, openFails, fd);
            var etag, range := GetHeader(headers, "if-none-match"), GetHeader(headers, "range");
            r.Some? ==>
              && (r.value.code == 304 <==> f.regular && ((etag != "" && etag == f.etag) || f.notModifiedSince))
              && (r.value.file.OpenFile? <==>
                    && f.regular && !((etag != "" && etag == f.etag) || f.notModifiedSince) && f.acceptable && !openFails
                    && (range == "" || (ParseRange(range, |f.content|).Some? && ParseRange(range, |f.content|).value.valid)))
  {
    hide ParseRange, StatusText, Decimal, ContentRange, EntityHeaders, Stamp;
  }

  /** A program's answer is one of the server's own unless its output is parsed. */
  lemma CgiFine(w: World, req: Request)
    ensures !CgiRan(w, req) ==>
              var r := CgiResponse(w, req.verb, req.body);
              Fine(req.verb, r) && (Says(req.verb, r) <==> req.verb.HEAD?)
    ensures CgiRan(w, req) ==> CgiResponse(w, req.verb, req.body) == ParseCgiOutput(Collected(w.events).value)
  {
    hide Fine, Says, FedToChild, Collected, Plain, CutHead, OnCgiLines;
    PlainFine(req.verb, 500);
    PlainFine(req.verb, 502);
    PlainFine(req.verb, 504);
  }

  /** The file served is a file of the site. */
  lemma ServedFromSite(site: Site, req: Request, accepting: bool)
    requires GoodSite(site)
    ensures var a := Decide(site, req, accepting); a.ServeFile? ==> GoodResource(a.file)
  {
    hide GoodResource, Paths.ResolvePath, ResolveVhost, HostName, OriginPath, AccessAnswer, StatusText, GoodValue, Candidates;
  }

  lemma ServesWhat(site: Site, req: Request, root: string, path: string)
    ensures var a := ContentAction(site, req, root, path);
            a.ServeFile? ==> (ContentSays(site, req, root, path) <==> FileSays(a.file, req, a.openFails))
  {
    hide FileSays, Candidates, FirstRegular, StatusText, IsIndex;
    var e := site.entry(path);
    if e.Directory? { IndexIs(site, req, root, path, e.listing); }
  }

  /** Every answer but a program's is fine, and says where it ends exactly as TellsEnd has it. */
  lemma OwnAnswer(s: Setting, open: set<int>, i: nat, req: Request)
    requires GoodSite(s.site) && ResponseAt(s, open, i, req).Some?
    requires RunsProgram(s.site, req, s.accepting(i)) ==> !CgiRan(s.world(i), req)
    ensures var r := ResponseAt(s, open, i, req).value;
            Fine(req.verb, r) && (Says(req.verb, r) <==> TellsEnd(s, i, req))
  {
    ServedFromSite(s.site, req, s.accepting(i));
    CgiFine(s.world(i), req);
    var site, accepting := s.site, s.accepting(i);
    assert GoodValue(site.date);
    hide Fine, Says, AccessAnswer, ContentAction, AccessSays, ContentSays, FileSays, CgiRan, ContentResponse, CgiResponse, GoodResource,
      LowestFree, Paths.ResolvePath, ResolveVhost, HostName, OriginPath, Plain, GoodValue, GoodSite;
    PlainFine(req.verb, 503);
    var v := ResolveVhost(site.hosts, HostName(req.headers));
    if v.Some? {
      var root, path := v.value.documentRoot, OriginPath(req.uri);
      AccessFine(site, req, accepting, root, path);
      ContentFine(site, req, root, Paths.ResolvePath(root, path).0);
      ServesWhat(site, req, root, Paths.ResolvePath(root, path).0);
    }
    var action := ActionAt(s, i, req);
    if action.ServeFile? { FileFine(action.file, req, action.openFails, LowestFree(open, 0)); }
  }

  lemma FineIff(req: Request, r: Response, order: seq<string>, tail: string)
    requires Fine(req.verb, r) && Enumerates(order, Connected(req, r.headers))
    ensures var a := Answer(r, order);
            && ValidAnswer(a)
            && (ReadAnswer(req.verb, Render(ProcessRequest(req, a)) + tail) == Some((Expected(req, a), tail)) <==>
                  Says(req.verb, r) || tail == "")
            && (forall last :: Readable(req, a, last) <==> if last then true else Says(req.verb, r) && !WantsClose(req))
  {
    hide FineHeaders, Decimal, Enumerates, FileSlice, IsText, IsNumber, ReadAnswer, Render, ProcessRequest, Expected, Readable, WantsClose,
      Connected;
    FineAnswerIff(req, Answer(r, order), tail);
  }

  /** The answer, in front of anything, reaches the client as it was given, and the client goes on
      right after it, exactly if TellsEnd, which looks at the site, the request and the program. */
  lemma ToldIff(s: Setting, open: set<int>, i: nat, req: Request, tail: string)
    requires GoodSite(s.site) && ResponseAt(s, open, i, req).Some? && tail != ""
    requires Enumerates(s.order(i, req), Connected(req, ResponseAt(s, open, i, req).value.headers))
    ensures var a := Handler(s, open)(i, req);
            && ValidAnswer(a)
            && (TellsEnd(s, i, req) <==>
                  ReadAnswer(req.verb, Render(ProcessRequest(req, a)) + tail) == Some((Expected(req, a), tail)))
  {
    HandlerAt(s, open, i, req);
    var r := ResponseAt(s, open, i, req).value;
    if RunsProgram(s.site, req, s.accepting(i)) && CgiRan(s.world(i), req) {
      CgiFine(s.world(i), req);
      ProgramTold(Collected(s.world(i).events).value, req, s.order(i, req), tail);
    } else {
      OwnAnswer(s, open, i, req);
      hide Fine, Says, TellsEnd, ResponseAt, Handler, Enumerates, GoodSite, ReadAnswer, Render, ProcessRequest, Expected, CgiRan, Decide;
      FineIff(req, r, s.order(i, req), tail);
    }
  }

  lemma ProgramTold(output: string, req: Request, order: seq<string>, tail: string)
    requires CutHead(output).Some? && Enumerates(order, Connected(req, ParseCgiOutput(output).headers))
    ensures var a := Answer(ParseCgiOutput(output), order);
            var lines := Split(CutHead(output).value.0, '\n');
            && ValidAnswer(a)
            && (GoodLines(lines, req.verb) <==>
                  ReadAnswer(req.verb, Render(ProcessRequest(req, a)) + tail) == Some((Expected(req, a), tail)))
            && (forall last ::
                  Readable(req, a, last) <==> GoodLines(lines, req.verb) && (last || !(WantsClose(req) || LinesAskToClose(lines))))
  {
    hide CutHead, Split, ParseCgiOutput, Enumerates, LinesAskToClose, GoodLines, AskedToClose, HarmlessHeaders, WantsClose,
      LineFields, IsText, Connected, ReadAnswer, Render, ProcessRequest, Readable, Expected, Closes;
    var r := ParseCgiOutput(output);
    ParsedShape(output);
    ParsedLines(output, req.verb);
    ChunkedAnswerIff(req, r, order, tail);
    ParsedReadableIff(output, req, order, true);
    ParsedReadableIff(output, req, order, false);
  }

  /** The answer can be read in a session: what a program printed if its lines are good for it, and
      any other if it tells where it ends or nothing follows; and if something follows, nobody asks
      to close. */
  ghost predicate Told(s: Setting, i: nat, req: Request, last: bool) {
    if RunsProgram(s.site, req, s.accepting(i)) && CgiRan(s.world(i), req) then
      var lines := CgiLines(s.world(i));
      GoodLines(lines, req.verb) && (last || !(WantsClose(req) || LinesAskToClose(lines)))
    else if last then true
    else TellsEnd(s, i, req) && !WantsClose(req)
  }

  /** Of the answers that this server gives, a client can read exactly those. */
  lemma SiteReadableIff(s: Setting, open: set<int>, i: nat, req: Request, last: bool)
    requires GoodSite(s.site) && ResponseAt(s, open, i, req).Some?
    requires Enumerates(s.order(i, req), Connected(req, ResponseAt(s, open, i, req).value.headers))
    ensures Readable(req, Handler(s, open)(i, req), last) <==> Told(s, i, req, last)
  {
    HandlerAt(s, open, i, req);
    var r := ResponseAt(s, open, i, req).value;
    if RunsProgram(s.site, req, s.accepting(i)) && CgiRan(s.world(i), req) {
      CgiFine(s.world(i), req);
      ProgramTold(Collected(s.world(i).events).value, req, s.order(i, req), "");
    } else {
      OwnAnswer(s, open, i, req);
      hide Fine, Says, TellsEnd, ResponseAt, Handler, Enumerates, GoodSite, Readable, CgiRan, RunsProgram;
      FineIff(req, r, s.order(i, req), "");
    }
  }

  lemma AnsweredIff(s: Setting, open: set<int>, i: nat, req: Request)
    ensures ResponseAt(s, open, i, req).None? <==> Crashes(s, i, req)
  {
    hide Decide, CgiResponse, StaticResponse, StaticTable, LowestFree, Leaks;
    var action := ActionAt(s, i, req);
    if action.ServeFile? { LeakIff(action.file, req.headers, action.openFails, FdTable(open, [], true)); }
  }

  /** The k-th answer of the session can be read, and its headers are walked in some order. */
  ghost predicate ToldAt(s: Setting, open: set<int>, requests: seq<Request>, k: nat, nothingFollows: bool)
    requires k < |requests|
  {
    var r := ResponseAt(s, open, k, requests[k]);
    r.Some? ==>
      && Enumerates(s.order(k, requests[k]), Connected(requests[k], r.value.headers))
      && Told(s, k, requests[k], k == |requests| - 1 && nothingFollows)
  }

  ghost predicate AllTold(s: Setting, open: set<int>, requests: seq<Request>, nothingFollows: bool) {
    forall k | 0 <= k < |requests| :: ToldAt(s, open, requests, k, nothingFollows)
  }

  lemma ToldIsReadable(s: Setting, open: set<int>, requests: seq<Request>, nothingFollows: bool)
    requires GoodSite(s.site) && AllServed(s, requests) && AllTold(s, open, requests, nothingFollows)
    ensures AllReadable(requests, 0, Handler(s, open), nothingFollows)
  {
    hide GoodSite, Crashes, Handler, ResponseAt, Readable, Told, Enumerates;
    forall k | 0 <= k < |requests|
      ensures Readable(requests[k], Handler(s, open)(0 + k, requests[k]), k == |requests| - 1 && nothingFollows)
    {
      assert ToldAt(s, open, requests, k, nothingFollows);
      AnsweredIff(s, open, k, requests[k]);
      SiteReadableIff(s, open, k, requests[k], k == |requests| - 1 && nothingFollows);
    }
  }

  /** This server and its client: of a session in which the handler never throws and every answer
      can be told, the client reads from the wire that ServeConnection leaves exactly one response
      for each request, in order, each the one that the site gives, and then the error reply if
      there is one. */
  lemma ServerToClient(s: Setting, open: set<int>, o: Outcome)
    requires GoodSite(s.site) && AllServed(s, o.requests) && AllTold(s, open, o.requests, !o.ending.Replied?)
    ensures forall i, r :: ValidAnswer(Handler(s, open)(i, r))
    ensures ReadAll(Replies(o.requests, 0, Handler(s, open)) + EndingReply(o.ending), Verbs(o.requests) + EndingVerbs(o.ending))
         == Some(AllExpected(o.requests, 0, Handler(s, open)) + EndingReceived(o.ending))
  {
    hide GoodSite, AllServed, AllTold, Handler, AllReadable, ReadAll, AllExpected, EndingReceived, EndingVerbs, Verbs, Replies, EndingReply,
      ValidAnswer;
    HandlerValid(s, open);
    ToldIsReadable(s, open, o.requests, !o.ending.Replied?);
    SessionToClient(o, Handler(s, open));
  }

  /** The k-th answer of a connection of the event loop is the site's, with whatever descriptors
      were open then, and the client can read it. */
  ghost predicate SiteAnswerAt(s: Setting, opens: seq<set<int>>, t: Loop.History, k: nat)
    requires k < |t.requests| == |t.answers| == |opens|
  {
    && ResponseAt(s, opens[k], k, t.requests[k]).Some?
    && t.answers[k] == Handler(s, opens[k])(k, t.requests[k])
    && ToldAt(s, opens[k], t.requests, k, t.gone && !Loop.EndingNow(t).Replied?)
  }

  ghost predicate SiteAnswers(s: Setting, opens: seq<set<int>>, t: Loop.History) {
    |t.requests| == |t.answers| == |opens| && forall k | 0 <= k < |opens| :: SiteAnswerAt(s, opens, t, k)
  }

  lemma SiteAnswersReadable(s: Setting, opens: seq<set<int>>, t: Loop.History)
    requires GoodSite(s.site) && SiteAnswers(s, opens, t)
    ensures Modes.AllReadable(t)
  {
    hide GoodSite, Handler, ResponseAt, Readable, Told, Enumerates, Loop.EndingNow;
    forall k | 0 <= k < |t.requests|
      ensures Readable(t.requests[k], t.answers[k], k == |t.requests| - 1 && t.gone && !Loop.EndingNow(t).Replied?)
    {
      assert SiteAnswerAt(s, opens, t, k);
      SiteReadableIff(s, opens[k], k, t.requests[k], k == |t.requests| - 1 && t.gone && !Loop.EndingNow(t).Replied?);
    }
  }

  /** The same for the event loop: over every run of a connection that is answered by the site, the
      client reads, back in Reading or gone without a failed send, one response for each request
      handed on, in order, each the one that the site gives, and then the error reply if any. */
  lemma LoopSiteToClient(s: Setting, opens: seq<set<int>>, fd: int, now: int, events: seq<Loop.Event>)
    requires forall i | 0 <= i < |events| :: Loop.ValidEvent(events[i])
    requires GoodSite(s.site) && SiteAnswers(s, opens, Loop.Run(Loop.Opening(fd, now), events))
    ensures forall k: nat, i: nat, r: Request | k < |opens| :: ValidAnswer(Handler(s, opens[k])(i, r))
    ensures var t := Loop.Run(Loop.Opening(fd, now), events);
            var expected := seq(|opens|, k requires 0 <= k < |opens| =>
              Expected(t.requests[k], Handler(s, opens[k])(k, t.requests[k])));
            (if t.gone then Modes.Smooth(Loop.Opening(fd, now), events) else t.conn.phase.Reading?) ==>
              ReadAll(t.wire, Verbs(t.requests) + EndingVerbs(Loop.EndingNow(t))) == Some(expected + EndingReceived(Loop.EndingNow(t)))
  {
    hide GoodSite, Loop.Run, Loop.EndingNow, Modes.AllReadable, Modes.Smooth, Handler, ReadAll, Verbs, EndingReceived, EndingVerbs, Expected,
      ValidAnswer, SiteAnswerAt, ResponseAt;
    forall k: nat, i: nat, r: Request | k < |opens| ensures ValidAnswer(Handler(s, opens[k])(i, r)) {
      HandlerValid(s, opens[k]);
    }
    var t := Loop.Run(Loop.Opening(fd, now), events);
    SiteAnswersReadable(s, opens, t);
    Modes.LoopToClient(fd, now, events);
    ExpectedOfSite(s, opens, t);
  }

  lemma ExpectedOfSite(s: Setting, opens: seq<set<int>>, t: Loop.History)
    requires SiteAnswers(s, opens, t) && Loop.Answered(t)
    requires forall k: nat, i: nat, r: Request | k < |opens| :: ValidAnswer(Handler(s, opens[k])(i, r))
    ensures Modes.AllExpected(t) == seq(|opens|, k requires 0 <= k < |opens| =>
              Expected(t.requests[k], Handler(s, opens[k])(k, t.requests[k])))
  {
    hide Handler, Expected, ResponseAt, ToldAt;
    forall k | 0 <= k < |opens| ensures t.answers[k] == Handler(s, opens[k])(k, t.requests[k]) {
      assert SiteAnswerAt(s, opens, t, k);
    }
  }

  /** What happens otherwise: to the client, whatever follows the answer to the load probe is its
      body. */
  lemma LoadSwallows(s: Setting, open: set<int>, i: nat, req: Request, tail: string)
    requires ResolveVhost(s.site.hosts, HostName(req.headers)).Some?
    requires req.verb.GET? && OriginPath(req.uri) == LOAD
    requires Enumerates(s.order(i, req), Connected(req, map[]))
    ensures var a := Handler(s, open)(i, req);
            var code := if s.accepting(i) then 200 else 503;
            && ValidAnswer(a)
            && ReadAnswer(GET, Render(ProcessRequest(req, a)) + tail)
               == Some((Received(code, StatusText(code), FieldsOf(Connected(req, map[]), s.order(i, req)), tail), ""))
  {
    hide ActionAt, StatusText, ReadAnswer, Render, ProcessRequest, Enumerates, ResolveVhost, HostName, OriginPath, FieldsOf;
    LoadAction(s, i, req);
    HandlerAt(s, open, i, req);
    PlainSwallows(req, if s.accepting(i) then 200 else 503, s.order(i, req), tail);
  }

  lemma LoadAction(s: Setting, i: nat, req: Request)
    requires ResolveVhost(s.site.hosts, HostName(req.headers)).Some?
    requires req.verb.GET? && OriginPath(req.uri) == LOAD
    ensures ActionAt(s, i, req) == Reply(Plain(if s.accepting(i) then 200 else 503))
  {
    hide ResolveVhost, HostName, OriginPath, Paths.ResolvePath, StatusText;
  }

  lemma PlainSwallows(req: Request, code: int, order: seq<string>, tail: string)
    requires code in {200, 503} && req.verb.GET? && Enumerates(order, Connected(req, map[]))
    ensures ValidAnswer(Answer(Plain(code), order))
    ensures ReadAnswer(GET, Render(ProcessRequest(req, Answer(Plain(code), order))) + tail)
         == Some((Received(code, StatusText(code), FieldsOf(Connected(req, map[]), order), tail), ""))
  {
    PlainFacts(req, code, order);
    hide *;
    var a := Answer(Plain(code), order);
    var fields := FieldsOf(Connected(req, map[]), order);
    AnswerHead(req, a, tail);
    assert "" + tail == tail;
    HeadSwallows(Render(ProcessRequest(req, a)) + tail, Received(code, StatusText(code), fields, ""), tail);
  }

  lemma HeadSwallows(s: string, head: Received, tail: string)
    requires ReadHead(s) == Some((head, tail)) && head.code in {200, 503} && FramingOf(head.fields).ToClose?
    ensures ReadAnswer(GET, s) == Some((head.(body := tail), ""))
  {
    hide ReadHead, FramingOf;
    ReadsToEnd(GET, s, head, tail);
  }

  lemma PlainFacts(req: Request, code: int, order: seq<string>)
    requires code in {200, 503} && Enumerates(order, Connected(req, map[]))
    ensures var a := Answer(Plain(code), order);
            && ValidAnswer(a) && Printable(req, a) && Coded(a.response) == "" && Spoken(req, a)
            && Expected(req, a).(body := "") == Received(code, StatusText(code), FieldsOf(Connected(req, map[]), order), "")
            && FramingOf(FieldsOf(Connected(req, map[]), order)).ToClose?
  {
    TextsGood(code);
    NoFields();
    FineIsLines(map[]);
    FineFraming(req, map[], order);
    hide StatusText, Enumerates, LineFields, WantsClose, GoodFields, FineHeaders, FieldsOf, FramingOf, Connected;
    assert Plain(code).headers == map[];
    assert '\n' !in StatusText(code);
  }
}
