/** What the phases of http/handlers/request_handler.cpp decide, in terms of a site and a request:
    which .htaccess counts, which refusal has which code, which host is meant, and which index file
    is served. */
module AccessLaws {
  import opened Text
  import opened Http
  import opened HttpResponse
  import opened Paths
  import opened PathLaws
  import opened Auth
  import opened StaticFile
  import opened RequestHandler

  /** The request asks about the load and gets no further. */
  predicate IsProbe(request: Request, path: string) {
    request.verb.GET? && path == "/load"
  }

  /** The demand for credentials. */
  predicate AsksForCredentials(r: Response) {
    && r.code == 401 && r.body == "" && r.file.NoFile?
    && r.headers == map["WWW-Authenticate" := "Basic realm=\"Restricted Files\"", "Content-Length" := "0"]
  }

  // ----- which .htaccess counts -----

  /** Where the .htaccess of a resource is: in the directory itself, or else in the one that it is in. */
  ghost predicate IsDirectoryOf(dir: string, resolved: string, e: Entry) {
    if e.Directory? then dir == resolved
    else if '/' in resolved then exists name :: '/' !in name && resolved == dir + "/" + name
    else dir == ""
  }

  lemma DirOfIs(dir: string, resolved: string, e: Entry)
    requires IsDirectoryOf(dir, resolved, e)
    ensures DirOf(resolved, e) == dir
  {
    if !e.Directory? {
      if '/' in resolved {
        var name :| '/' !in name && resolved == dir + "/" + name;
        DirOfPath(dir, name, e);
      } else {
        assert LastIndexOf(resolved, '/') < 0;
      }
    }
  }

  /** There is such a directory for every resource. */
  lemma DirectoryExists(resolved: string, e: Entry)
    ensures IsDirectoryOf(DirOf(resolved, e), resolved, e)
  {
    if !e.Directory? && '/' in resolved {
      LastSlash(resolved);
      var i := LastIndexOf(resolved, '/');
      var name := resolved[i + 1..];
      assert resolved == resolved[..i] + "/" + name;
    }
  }

  lemma {:induction false} LastSlash(s: string)
    requires '/' in s
    ensures var i := LastIndexOf(s, '/'); i >= 0 && '/' !in s[i + 1..]
    decreases |s|
  {
    var n := |s| - 1;
    if s[n] != '/' {
      assert s == s[..n] + [s[n]];
      LastSlash(s[..n]);
      var i := LastIndexOf(s, '/');
      assert s[i + 1..] == s[..n][i + 1..] + [s[n]];
    } else {
      assert s[n + 1..] == "";
    }
  }

  /** A request for what is there under the document root goes on if and only if the directory of
      the resource, which is the resource itself if that is a directory, has no .htaccess or the
      request brings its credentials; otherwise it is asked for them. */
  lemma HtaccessDecides(site: Site, request: Request, accepting: bool, root: string, path: string, dir: string)
    requires !IsProbe(request, path) && ResolvePath(root, path).1
    requires var resolved := ResolvePath(root, path).0;
             !site.entry(resolved).Missing? && IsDirectoryOf(dir, resolved, site.entry(resolved))
    ensures var answer := AccessAnswer(site, request, accepting, root, path);
            if site.htaccess(dir) == None || CredentialsMatch(site.htaccess(dir).value, request.headers) then answer == None
            else answer.Some? && AsksForCredentials(answer.value)
  {
    hide ResolvePath, Check, StatusText, CredentialsMatch, DirOf, IsDirectoryOf;
    var resolved := ResolvePath(root, path).0;
    DirOfIs(dir, resolved, site.entry(resolved));
    CheckGrantedIff(site.htaccess(dir), request.headers);
  }

  /** A protected directory, named by the URI: its own .htaccess decides. */
  lemma ProtectedDirectory(site: Site, request: Request, accepting: bool, r: seq<string>, q: seq<string>, h: Htaccess)
    requires Clean(r) && Clean(q) && !IsProbe(request, "/" + Join(q))
    requires var dir := Paths.Render(true, r + q); site.entry(dir).Directory? && site.htaccess(dir) == Some(h)
    ensures var answer := AccessAnswer(site, request, accepting, Paths.Render(true, r), "/" + Join(q));
            if CredentialsMatch(h, request.headers) then answer == None else answer.Some? && AsksForCredentials(answer.value)
  {
    var dir := Paths.Render(true, r + q);
    ResolveDown(r, q);
    hide ResolvePath, AccessAnswer, CredentialsMatch, Paths.Render, Join, Clean, IsProbe, AsksForCredentials;
    HtaccessDecides(site, request, accepting, Paths.Render(true, r), "/" + Join(q), dir);
  }

  /** And it decides for every file right in it. */
  lemma ProtectedFile(site: Site, request: Request, accepting: bool, r: seq<string>, q: seq<string>, name: string, h: Htaccess)
    requires Clean(r) && Clean(q) && IsName(name) && r + q != [] && !IsProbe(request, "/" + Join(q + [name]))
    requires var dir := Paths.Render(true, r + q);
             && site.htaccess(dir) == Some(h)
             && (site.entry(dir + "/" + name).Regular? || site.entry(dir + "/" + name).Special?)
    ensures var answer := AccessAnswer(site, request, accepting, Paths.Render(true, r), "/" + Join(q + [name]));
            if CredentialsMatch(h, request.headers) then answer == None else answer.Some? && AsksForCredentials(answer.value)
  {
    var dir := Paths.Render(true, r + q);
    ResolveName(r, q, name);
    IsInDirectory(dir, name, site.entry(dir + "/" + name));
    hide *;
    HtaccessDecides(site, request, accepting, Paths.Render(true, r), "/" + Join(q + [name]), dir);
  }

  lemma ResolveName(r: seq<string>, q: seq<string>, name: string)
    requires Clean(r) && Clean(q) && IsName(name) && r + q != []
    ensures ResolvePath(Paths.Render(true, r), "/" + Join(q + [name])) == (Paths.Render(true, r + q) + "/" + name, true)
  {
    ResolveDown(r, q + [name]);
    RenderPush(r + q, name);
    hide ResolvePath, Paths.Render, Join, Clean;
    assert r + (q + [name]) == r + q + [name];
  }

  lemma RenderPush(s: seq<string>, name: string)
    requires s != []
    ensures Paths.Render(true, s + [name]) == Paths.Render(true, s) + "/" + name
  {
    JoinPush(s, name);
    hide Join;
    assert "/" + (Join(s) + ("/" + name)) == "/" + Join(s) + "/" + name;
  }

  lemma IsInDirectory(dir: string, name: string, e: Entry)
    requires '/' !in name && (e.Regular? || e.Special?)
    ensures IsDirectoryOf(dir, dir + "/" + name, e)
  {
    assert (dir + "/" + name)[|dir|] == '/';
  }

  // ----- which refusal has which code -----

  /** An answer with nothing but its code. */
  predicate Bare(r: Response, code: int) {
    r.code == code && r.body == "" && r.headers == map[] && r.file.NoFile?
  }

  /** Before the content: the probe is answered 200 or 503, what is not under the root 403, what is
      not there 404; only then credentials are asked for, and nothing else is ever answered. */
  lemma AccessCodes(site: Site, request: Request, accepting: bool, root: string, path: string)
    ensures var (resolved, under) := ResolvePath(root, path);
            var answer := AccessAnswer(site, request, accepting, root, path);
            && (IsProbe(request, path) ==> answer.Some? && Bare(answer.value, if accepting then 200 else 503))
            && (answer.Some? && answer.value.code == 403 <==> !IsProbe(request, path) && !under)
            && (answer.Some? && answer.value.code == 404 <==> !IsProbe(request, path) && under && site.entry(resolved).Missing?)
            && (answer.Some? && answer.value.code in {403, 404} ==> Bare(answer.value, answer.value.code))
            && (answer.Some? && !IsProbe(request, path) && answer.value.code !in {403, 404} ==> AsksForCredentials(answer.value))
  {
    hide ResolvePath, Check, StatusText, DirOf;
  }

  /** What is answered without a file, a program or a directory: 204 to OPTIONS whatever is there,
      405 to POST of anything but a program, and 404 to the rest. A program is run for every other
      method, and a file is served to GET and HEAD alone. */
  lemma ContentCodes(site: Site, request: Request, root: string, resolved: string)
    ensures var e := site.entry(resolved);
            var program := e.Regular? && e.executable;
            var action := ContentAction(site, request, root, resolved);
            && (action.RunProgram? <==> program && (request.verb.GET? || request.verb.HEAD? || request.verb.POST?))
            && (request.verb.OPTIONS? ==>
                  && action.Reply? && action.response.code == 204 && action.response.body == "" && action.response.file.NoFile?
                  && action.response.headers == map["Allow" := "GET, HEAD, POST, OPTIONS", "Date" := site.date])
            && (action.Reply? && action.response.code == 405 <==> request.verb.POST? && !program)
            && (request.verb.POST? && !program ==> Bare(action.response, 405))
            && (e.Regular? && !program && (request.verb.GET? || request.verb.HEAD?) ==> action == ServeFile(e.file, e.openFails))
            && ((e.Missing? || e.Special?) && (request.verb.GET? || request.verb.HEAD?) ==>
                  action.Reply? && Bare(action.response, 404))
  {
    hide StatusText, Candidates, FirstRegular, Decimal;
  }

  // ----- the index of a directory -----

  /** "iPhone" occurs in the User-Agent. */
  predicate IsPhone(request: Request) {
    "user-agent" in request.headers &&
    exists i | 0 <= i <= |request.headers["user-agent"]| :: "iPhone" <= request.headers["user-agent"][i..]
  }

  function Below(s: seq<string>, name: string): string {
    Paths.Render(true, s + [name])
  }

  lemma CandidatesAre(r: seq<string>, s: seq<string>, userAgent: string)
    requires Clean(r) && Clean(s)
    ensures Candidates(Paths.Render(true, s), Paths.Render(true, r), userAgent) ==
            if s == r && Contains(userAgent, "iPhone") then [Below(s, "index_m.html"), Below(s, "index.html")]
            else [Below(s, "index.html")]
  {
    var dir, root := Paths.Render(true, s), Paths.Render(true, r);
    TrimmedRendered(s);
    TrimmedRendered(r);
    BaseOf(s, "index_m.html");
    BaseOf(s, "index.html");
    SameRendered(r, s);
    hide Normalize, TrimTrailingSlash, Contains, Paths.Render;
  }

  lemma TrimmedRendered(s: seq<string>)
    requires Clean(s)
    ensures Normalize(TrimTrailingSlash(Paths.Render(true, s))) == Paths.Render(true, s)
  {
    NormalizeRendered(true, s);
    if s == [] {
      FollowNothing([]);
    } else {
      JoinEnd(s);
      hide Follow, Join;
    }
  }

  lemma BaseOf(s: seq<string>, name: string)
    requires Clean(s)
    ensures var dir := Paths.Render(true, s);
            (if dir == "" || dir[|dir| - 1] != '/' then dir + "/" else dir) + name == Below(s, name)
  {
    JoinPush(s, name);
    if s != [] {
      JoinEnd(s);
      hide Join;
      assert "/" + (Join(s) + ("/" + name)) == "/" + Join(s) + "/" + name;
    }
  }

  lemma SameRendered(r: seq<string>, s: seq<string>)
    requires Clean(r) && Clean(s)
    ensures Paths.Render(true, r) == Paths.Render(true, s) <==> r == s
  {
    hide Follow, Paths.Render;
    NormalizeRendered(true, r);
    NormalizeRendered(true, s);
  }

  /** GET and HEAD of a directory: on a telephone, at the document root, its index_m.html; else, or
      if that is no file, index.html; and without either the listing, or 403 if it cannot be read. */
  lemma IndexServed(site: Site, request: Request, r: seq<string>, s: seq<string>)
    requires Clean(r) && Clean(s) && site.entry(Paths.Render(true, s)).Directory?
    requires request.verb.GET? || request.verb.HEAD?
    ensures var action := ContentAction(site, request, Paths.Render(true, r), Paths.Render(true, s));
            var phone, page := site.entry(Below(s, "index_m.html")), site.entry(Below(s, "index.html"));
            var listing := site.entry(Paths.Render(true, s)).listing;
            if s == r && IsPhone(request) && phone.Regular? then action == ServeFile(phone.file, phone.openFails)
            else if page.Regular? then action == ServeFile(page.file, page.openFails)
            else if listing == "" then action.Reply? && Bare(action.response, 403)
            else
              && action.Reply? && action.response.code == 200 && action.response.file.NoFile?
              && action.response.body == (if request.verb.HEAD? then "" else listing)
              && action.response.headers ==
                 map["Content-Type" := "text/html; charset=utf-8", "Content-Length" := Decimal(|listing|)]
  {
    var agent := GetHeader(request.headers, "user-agent");
    CandidatesAre(r, s, agent);
    PhoneIff(request);
    IndexIs(site, request, Paths.Render(true, r), Paths.Render(true, s), site.entry(Paths.Render(true, s)).listing);
    hide Candidates, Contains, Paths.Render, StatusText, Decimal, IndexAction, IsPhone, Below;
    FirstOfTwo(site, Below(s, "index_m.html"), Below(s, "index.html"));
  }

  lemma FirstOfTwo(site: Site, a: string, b: string)
    ensures FirstRegular(site, [a, b]) ==
            if site.entry(a).Regular? then Some(site.entry(a)) else if site.entry(b).Regular? then Some(site.entry(b)) else None
    ensures FirstRegular(site, [b]) == if site.entry(b).Regular? then Some(site.entry(b)) else None
  {
    assert [a, b][1..] == [b] && [b][1..] == [];
  }

  lemma PhoneIff(request: Request)
    ensures Contains(GetHeader(request.headers, "user-agent"), "iPhone") <==> IsPhone(request)
  {
    if "user-agent" in request.headers {
      ContainsMeans(request.headers["user-agent"], "iPhone");
    }
  }

  // ----- the path and the host of a request -----

  /** The query is no part of the path, and a path without a slash at the front gets one. */
  lemma OriginPathOf(path: string, query: string)
    requires '?' !in path
    ensures var origin := if path == "" || path[0] == '/' then path else "/" + path;
            OriginPath(path) == origin && OriginPath(path + "?" + query) == origin
  {
    var uri := path + "?" + query;
    IndexOfIs(path, '?', |path|);
    IndexOfIs(uri, '?', |path|);
    assert path[..|path|] == path && uri[..|path|] == path;
  }

  /** The same letter, perhaps one in upper and one in lower case. */
  predicate SameLetter(a: char, b: char) {
    || a == b
    || ('A' <= a <= 'Z' && b as int == a as int + 32)
    || ('A' <= b <= 'Z' && a as int == b as int + 32)
  }

  /** A host serves a name if it is its own, in any letter case; no host serves the empty name. */
  lemma ServesIff(host: VirtualHost, name: string)
    ensures Serves(host, name) <==>
              && name != "" && |name| == |host.serverName|
              && forall i | 0 <= i < |name| :: SameLetter(host.serverName[i], name[i])
  {
    if Serves(host, name) {
      forall i | 0 <= i < |name| ensures SameLetter(host.serverName[i], name[i]) {
        assert ToLower(host.serverName)[i] == ToLower(name)[i];
      }
    }
  }

  /** Without any virtual host, and only then, the first phase answers, with 503. */
  lemma NoHost(site: Site, request: Request, accepting: bool)
    ensures site.hosts == [] ==> Decide(site, request, accepting).Reply? && Bare(Decide(site, request, accepting).response, 503)
    ensures site.hosts != [] ==>
              var v := ResolveVhost(site.hosts, HostName(request.headers));
              v.Some? && v.value in site.hosts
  {
    hide AccessAnswer, ContentAction, StatusText, HostName, OriginPath, ResolvePath, Serves;
    if site.hosts != [] { VhostIn(site.hosts, HostName(request.headers), Some(site.hosts[0])); }
  }

  lemma {:induction false} VhostIn(hosts: seq<VirtualHost>, name: string, otherwise: Option<VirtualHost>)
    ensures var v := VhostFrom(hosts, name, otherwise); v == otherwise || (v.Some? && v.value in hosts)
    decreases |hosts|
  {
    hide Serves;
    if hosts != [] { VhostIn(hosts[1..], name, otherwise); }
  }
}
