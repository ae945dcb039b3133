/** http/handlers/request_handler.cpp: the phases of a request, which decide whether a file is
    opened or a program is run; with resolve_vhost and the choice of an index file. */
module RequestHandler {
  import opened Text
  import opened Http
  import opened HttpResponse
  import opened Connection
  import opened Paths
  import opened Auth
  import opened StaticFile
  import opened CgiChild

  datatype VirtualHost = VirtualHost(serverName: string, documentRoot: string)

  /** What stat and access tell about a path. A directory without an index file shows its
      listing, empty if it cannot be read. */
  datatype Entry =
    | Missing
    | Regular(file: Resource, executable: bool, openFails: bool)
    | Directory(listing: string)
    | Special

  /** The configuration and the file system of one moment. */
  datatype Site = Site(hosts: seq<VirtualHost>, entry: string -> Entry, htaccess: string -> Option<Htaccess>, date: string)

  // ----- resolve_vhost -----

  function HostName(headers: Headers): string {
    var host := GetHeader(headers, "host");
    host[..IndexOf(host, ':')]
  }

  predicate Serves(host: VirtualHost, name: string) {
    name != "" && ToLower(host.serverName) == ToLower(name)
  }

  /** The host asked for: the first that serves the name, or else the first, if there is one. */
  ghost predicate IsVhost(hosts: seq<VirtualHost>, name: string, v: Option<VirtualHost>) {
    if hosts == [] then v == None
    else
      v.Some? && if exists i | 0 <= i < |hosts| :: Serves(hosts[i], name) then
        exists i | 0 <= i < |hosts| ::
          v.value == hosts[i] && Serves(hosts[i], name) && forall j | 0 <= j < i :: !Serves(hosts[j], name)
      else v.value == hosts[0]
  }

  function ResolveVhost(hosts: seq<VirtualHost>, name: string): Option<VirtualHost> {
    VhostFrom(hosts, name, if hosts == [] then None else Some(hosts[0]))
  }

  function VhostFrom(hosts: seq<VirtualHost>, name: string, otherwise: Option<VirtualHost>): Option<VirtualHost> {
    if hosts == [] then otherwise
    else if Serves(hosts[0], name) then Some(hosts[0])
    else VhostFrom(hosts[1..], name, otherwise)
  }

  method FindVhost(hosts: seq<VirtualHost>, headers: Headers) returns (v: Option<VirtualHost>)
    ensures v == ResolveVhost(hosts, HostName(headers))
    ensures IsVhost(hosts, HostName(headers), v)
  {
    hide Serves;
    var host := HostName(headers);
    assert hosts[0..] == hosts;
    for i := 0 to |hosts|
      invariant forall j | 0 <= j < i :: !Serves(hosts[j], host)
      invariant hosts != [] ==> ResolveVhost(hosts, host) == VhostFrom(hosts[i..], host, Some(hosts[0]))
    {
      assert hosts[i..][1..] == hosts[i + 1..];
      if Serves(hosts[i], host) {
        return Some(hosts[i]);
      }
    }
    v := if hosts == [] then None else Some(hosts[0]);
  }

  /** A port after the host name is not part of it. */
  lemma HostNameOf(headers: Headers, name: string, port: string)
    requires ':' !in name && "host" in headers
    ensures headers["host"] == name || headers["host"] == name + ":" + port ==> HostName(headers) == name
  {
    var host := headers["host"];
    if host == name {
      IndexOfIs(host, ':', |name|);
    } else if host == name + ":" + port {
      IndexOfIs(host, ':', |name|);
    }
  }

  // ----- the decisions -----

  /** The path part of the URI, in origin form. */
  function OriginPath(uri: string): string {
    var path := uri[..IndexOf(uri, '?')];
    if path != "" && path[0] != '/' then "/" + path else path
  }

  function LastIndexOf(s: string, c: char): (i: int)
    ensures -1 <= i < |s| && (i >= 0 ==> s[i] == c)
  {
    if s == "" then -1 else if s[|s| - 1] == c then |s| - 1 else LastIndexOf(s[..|s| - 1], c)
  }

  /** dir_of_resource. */
  function DirOf(path: string, e: Entry): string {
    if e.Directory? then path
    else
      var slash := LastIndexOf(path, '/');
      if slash < 0 then "" else path[..slash]
  }

  /** The directory of a path that is none itself. */
  lemma DirOfPath(dir: string, name: string, e: Entry)
    requires '/' !in name && !e.Directory?
    ensures DirOf(dir + "/" + name, e) == dir
  {
    LastIndexIs(dir, name);
    assert (dir + "/" + name)[..|dir|] == dir;
  }

  lemma {:induction false} LastIndexIs(dir: string, name: string)
    requires '/' !in name
    ensures LastIndexOf(dir + "/" + name, '/') == |dir|
    decreases |name|
  {
    var path := dir + "/" + name;
    if name == "" {
      assert path[|path| - 1] == '/';
    } else {
      assert path[..|path| - 1] == dir + "/" + name[..|name| - 1];
      LastIndexIs(dir, name[..|name| - 1]);
    }
  }

  const UNAUTHORIZED: Headers := map["WWW-Authenticate" := "Basic realm=\"Restricted Files\"", "Content-Length" := "0"]
  const LOAD := "/load"

  /** phase_access: the answer if it refuses, None if the request goes on to its content. */
  function AccessAnswer(site: Site, request: Request, accepting: bool, root: string, path: string): Option<Response> {
    if request.verb.GET? && path == LOAD then Some(Plain(if accepting then 200 else 503))
    else
      var (resolved, under) := ResolvePath(root, path);
      if !under then Some(Plain(403))
      else if site.entry(resolved).Missing? then Some(Plain(404))
      else if !Check(site.htaccess(DirOf(resolved, site.entry(resolved))), request.headers).Granted? then
        Some(Plain(401).(headers := UNAUTHORIZED))
      else None
  }

  datatype Action = Reply(response: Response) | RunProgram | ServeFile(file: Resource, openFails: bool)

  /** The index files that are tried, in order. */
  function Candidates(dir: string, root: string, userAgent: string): seq<string> {
    var base := if dir == "" || dir[|dir| - 1] != '/' then dir + "/" else dir;
    if Normalize(TrimTrailingSlash(dir)) == Normalize(TrimTrailingSlash(root)) && Contains(userAgent, "iPhone") then
      [base + "index_m.html", base + "index.html"]
    else [base + "index.html"]
  }

  function FirstRegular(site: Site, candidates: seq<string>): (e: Option<Entry>)
    ensures e.Some? ==> e.value.Regular? && exists c | c in candidates :: site.entry(c) == e.value
    ensures e.None? ==> forall c | c in candidates :: !site.entry(c).Regular?
  {
    if candidates == [] then None
    else if site.entry(candidates[0]).Regular? then Some(site.entry(candidates[0]))
    else FirstRegular(site, candidates[1..])
  }

  const ALLOWED := "GET, HEAD, POST, OPTIONS"
  const HTML := "text/html; charset=utf-8"

  function Listing(verb: Method, text: string): Response {
    if text == "" then Plain(403)
    else Plain(200).(headers := map["Content-Type" := HTML, "Content-Length" := Decimal(|text|)],
                     body := if verb.HEAD? then "" else text)
  }

  function IndexAction(site: Site, request: Request, root: string, dir: string, listing: string): (a: Action)
    ensures !a.RunProgram? && (a.ServeFile? ==> IsIndex(site, request, root, dir, a.file))
  {
    hide Candidates, Listing;
    match FirstRegular(site, Candidates(dir, root, GetHeader(request.headers, "user-agent")))
    case Some(e) => ServeFile(e.file, e.openFails)
    case None => Reply(Listing(request.verb, listing))
  }

  /** The file is one of the directory's index files. */
  ghost predicate IsIndex(site: Site, request: Request, root: string, dir: string, file: Resource) {
    exists c | c in Candidates(dir, root, GetHeader(request.headers, "user-agent")) ::
      site.entry(c).Regular? && site.entry(c).file == file
  }

  /** phase_content. */
  function ContentAction(site: Site, request: Request, root: string, resolved: string): Action {
    var e := site.entry(resolved);
    if request.verb.OPTIONS? then
      Reply(Plain(204).(headers := map["Allow" := ALLOWED, "Date" := site.date]))
    else if e.Regular? && e.executable then RunProgram
    else if request.verb.POST? then Reply(Plain(405))
    else if e.Regular? then ServeFile(e.file, e.openFails)
    else if e.Directory? then IndexAction(site, request, root, resolved, e.listing)
    else Reply(Plain(404))
  }

  /** All phases before the log. */
  function Decide(site: Site, request: Request, accepting: bool): Action {
    match ResolveVhost(site.hosts, HostName(request.headers))
    case None => Reply(Plain(503))
    case Some(v) =>
      var path := OriginPath(request.uri);
      match AccessAnswer(site, request, accepting, v.documentRoot, path)
      case Some(r) => Reply(r)
      case None => ContentAction(site, request, v.documentRoot, ResolvePath(v.documentRoot, path).0)
  }

  // ----- the phases -----

  class PhaseContext {
    const site: Site
    const request: Request
    const accepting: bool
    var vhost: Option<VirtualHost>
    var path: string
    var resolvedPath: string
    var response: Response
    var ready: bool

    constructor (site: Site, request: Request, accepting: bool)
      ensures this.site == site && this.request == request && this.accepting == accepting && !ready
    {
      this.site, this.request, this.accepting := site, request, accepting;
      vhost, path, resolvedPath, response, ready := None, "", "", Plain(200), false;
    }

    method Answer(r: Response)
      modifies this`response, this`ready
      ensures ready && response == r
    {
      response, ready := r, true;
    }

    method FindConfig()
      modifies this
      ensures vhost == ResolveVhost(site.hosts, HostName(request.headers))
      ensures IsVhost(site.hosts, HostName(request.headers), vhost)
      ensures vhost.None? ==> ready && response == Plain(503)
      ensures vhost.Some? ==> ready == old(ready) && path == OriginPath(request.uri)
    {
      hide ResolveVhost, IsVhost, HostName, StatusText;
      vhost := FindVhost(site.hosts, request.headers);
      if vhost.None? {
        Answer(Plain(503));
        return;
      }
      path := request.uri[..IndexOf(request.uri, '?')];
      if path != "" && path[0] != '/' {
        path := "/" + path;
      }
    }

    method Access()
      requires vhost.Some? && !ready
      modifies this`resolvedPath, this`response, this`ready
      ensures var answer := AccessAnswer(site, request, accepting, vhost.value.documentRoot, path);
              && ready == answer.Some? && (ready ==> response == answer.value)
              && (!ready ==> resolvedPath == ResolvePath(vhost.value.documentRoot, path).0)
    {
      hide ResolvePath, Check, DirOf, StatusText;
      if request.verb.GET? && path == LOAD {
        Answer(Plain(if accepting then 200 else 503));
        return;
      }
      var resolved, under := ResolvePath(vhost.value.documentRoot, path).0, ResolvePath(vhost.value.documentRoot, path).1;
      resolvedPath := resolved;
      if !under {
        Answer(Plain(403));
        return;
      }
      var entry := site.entry(resolvedPath);
      if entry.Missing? {
        Answer(Plain(404));
        return;
      }
      var auth := Check(site.htaccess(DirOf(resolvedPath, entry)), request.headers);
      if auth.InvalidAuth? || auth.MissingAuth? {
        Answer(Plain(401).(headers := UNAUTHORIZED));
      }
    }

    /** phase_content; `threw` is the exception of a range that is no number. */
    method Content(kernel: Kernel, children: Children, world: World) returns (threw: bool)
      requires vhost.Some? && !ready && world.pid != 0
      modifies this`response, this`ready, kernel, children
      ensures Carried(ContentAction(site, request, vhost.value.documentRoot, resolvedPath), request, world,
                      old(kernel.table), kernel.table, old(children.calls), children.calls,
                      if threw then None else Some(response))
      ensures threw <==> !ready
    {
      hide IndexAction, Carried, Balanced, CgiResponse, StaticResponse, LowestFree, FedToChild, Collected, StatusText;
      ghost var before, calls := kernel.table, children.calls;
      ghost var action := ContentAction(site, request, vhost.value.documentRoot, resolvedPath);
      var entry := site.entry(resolvedPath);
      if request.verb.OPTIONS? {
        Answer(Plain(204).(headers := map["Allow" := ALLOWED, "Date" := site.date]));
        CarriedReply(action, request, world, before, calls);
        return false;
      }
      if entry.Regular? && entry.executable {
        var r, given := RunCgi(kernel, children, world, request.verb, request.body);
        Answer(r);
        CarriedRun(action, request, world, before, kernel.table, calls, children.calls, r);
        return false;
      }
      if request.verb.POST? {
        Answer(Plain(405));
        CarriedReply(action, request, world, before, calls);
        return false;
      }
      if entry.Regular? {
        threw := Serve(kernel, children, world, entry);
        return;
      }
      if entry.Directory? {
        var index := FindIndex(site, Candidates(resolvedPath, vhost.value.documentRoot, GetHeader(request.headers, "user-agent")));
        IndexIs(site, request, vhost.value.documentRoot, resolvedPath, entry.listing);
        if index.Some? {
          threw := Serve(kernel, children, world, index.value);
          return;
        }
        Answer(Listing(request.verb, entry.listing));
        CarriedReply(action, request, world, before, calls);
        return false;
      }
      Answer(Plain(404));
      CarriedReply(action, request, world, before, calls);
      threw := false;
    }

    /** A regular file becomes the answer. */
    method Serve(kernel: Kernel, children: Children, world: World, entry: Entry) returns (threw: bool)
      requires !ready && entry.Regular?
      modifies this`response, this`ready, kernel
      ensures Carried(ServeFile(entry.file, entry.openFails), request, world, old(kernel.table), kernel.table,
                      children.calls, children.calls, if threw then None else Some(response))
      ensures threw <==> !ready
    {
      hide Carried, ContentResponse, Leaks, LowestFree;
      var r := ServeContent(kernel, entry.file, request.verb, request.headers, entry.openFails);
      CarriedFile(ServeFile(entry.file, entry.openFails), request, world, old(kernel.table), kernel.table, children.calls, r);
      if r.None? {
        return true;
      }
      Answer(r.value);
      threw := false;
    }
  }

  /** The loop of serve_directory_index over the candidates. */
  method FindIndex(site: Site, candidates: seq<string>) returns (e: Option<Entry>)
    ensures e == FirstRegular(site, candidates)
  {
    assert candidates[0..] == candidates;
    for i := 0 to |candidates|
      invariant FirstRegular(site, candidates) == FirstRegular(site, candidates[i..])
    {
      assert candidates[i..][1..] == candidates[i + 1..];
      if site.entry(candidates[i]).Regular? {
        return Some(site.entry(candidates[i]));
      }
    }
    e := None;
  }

  lemma IndexIs(site: Site, request: Request, root: string, dir: string, listing: string)
    ensures var e := FirstRegular(site, Candidates(dir, root, GetHeader(request.headers, "user-agent")));
            IndexAction(site, request, root, dir, listing) ==
              if e.Some? then ServeFile(e.value.file, e.value.openFails) else Reply(Listing(request.verb, listing))
  {
    hide Candidates, Listing;
  }

  /** What came of an action: the response (None is an exception), and what became of descriptors
      and children. Only RunProgram has to do with children, only ServeFile keeps a file open,
      and then it is the response's and the request is not HEAD. */
  ghost predicate Carried(action: Action, request: Request, world: World, before: FdTable, after: FdTable,
                          calls: seq<ChildCall>, calls': seq<ChildCall>, r: Option<Response>) {
    match action
    case Reply(response) => r == Some(response) && after == before && calls' == calls
    case RunProgram =>
      && r == Some(CgiResponse(world, request.verb, request.body)) && r.value.file.NoFile?
      && Balanced(before, after, PipeEnds(world))
      && calls' == calls + ChildCalls(world, request.verb, request.body)
    case ServeFile(f, openFails) =>
      && calls' == calls && after.clean == before.clean
      && r == ContentResponse(f, request.verb, request.headers, openFails, LowestFree(before.open, 0))
      && (r.None? <==> Leaks(f, request.headers, openFails))
      && (r.None? ==> after == AfterOpen(before))
      && (r.Some? ==>
            && after.open == before.open + Held(r) && Held(r) !! before.open
            && InsideFile(r.value.file, r.value.fileOffset, r.value.fileSize)
            && (request.verb.HEAD? ==> r.value.file.NoFile?))
  }

  lemma CarriedReply(action: Action, request: Request, world: World, before: FdTable, calls: seq<ChildCall>)
    requires action.Reply?
    ensures Carried(action, request, world, before, before, calls, calls, Some(action.response))
  {}

  lemma CarriedRun(action: Action, request: Request, world: World, before: FdTable, after: FdTable,
                   calls: seq<ChildCall>, calls': seq<ChildCall>, r: Response)
    requires action.RunProgram? && r == CgiResponse(world, request.verb, request.body)
    requires Balanced(before, after, PipeEnds(world)) && calls' == calls + ChildCalls(world, request.verb, request.body)
    ensures Carried(action, request, world, before, after, calls, calls', Some(r))
  {
    CgiNoFile(world, request.verb, request.body);
  }

  lemma CarriedFile(action: Action, request: Request, world: World, before: FdTable, after: FdTable,
                    calls: seq<ChildCall>, r: Option<Response>)
    requires action.ServeFile? && after.clean == before.clean
    requires r == ContentResponse(action.file, request.verb, request.headers, action.openFails, LowestFree(before.open, 0))
    requires r.None? <==> Leaks(action.file, request.headers, action.openFails)
    requires r.None? ==> after == AfterOpen(before)
    requires r.Some? ==>
               && after.open == before.open + Held(r) && Held(r) !! before.open
               && InsideFile(r.value.file, r.value.fileOffset, r.value.fileSize)
    ensures Carried(action, request, world, before, after, calls, calls, r)
  {
    hide StaticResponse, Leaks, LowestFree;
  }

  /** handle: run_phases from a new context, without the log. */
  method Handle(kernel: Kernel, children: Children, site: Site, request: Request, accepting: bool, world: World)
    returns (r: Option<Response>)
    requires world.pid != 0
    modifies kernel, children
    ensures Carried(Decide(site, request, accepting), request, world, old(kernel.table), kernel.table,
                    old(children.calls), children.calls, r)
  {
    hide Carried, AccessAnswer, ContentAction, ResolvePath, ResolveVhost, IsVhost, HostName, OriginPath, StatusText;
    ghost var before, calls := kernel.table, children.calls;
    var ctx := new PhaseContext(site, request, accepting);
    ctx.FindConfig();
    if !ctx.ready {
      ctx.Access();
    }
    if ctx.ready {
      CarriedReply(Reply(ctx.response), request, world, before, calls);
      return Some(ctx.response);
    }
    var threw := ctx.Content(kernel, children, world);
    r := if threw then None else Some(ctx.response);
  }

  // ----- what the phases guarantee -----

  /** The request reaches phase_content. */
  predicate Passes(site: Site, request: Request, accepting: bool) {
    var v := ResolveVhost(site.hosts, HostName(request.headers));
    v.Some? && AccessAnswer(site, request, accepting, v.value.documentRoot, OriginPath(request.uri)).None?
  }

  /** The header carries the stored pair around a colon; a stored user with a colon in it is
      never matched. */
  predicate CredentialsMatch(stored: Htaccess, headers: Headers) {
    var header := GetHeader(headers, "authorization");
    && |header| >= 6 && StartsWith(header, "basic ")
    && Base64.Decode(header[6..]) == Base64.Decode(stored.userB64) + ":" + Base64.Decode(stored.passwordB64)
    && ':' !in Base64.Decode(stored.userB64)
  }

  lemma CheckGrantedIff(htaccess: Option<Htaccess>, headers: Headers)
    ensures Check(htaccess, headers).Granted? <==> htaccess.None? || CredentialsMatch(htaccess.value, headers)
  {
    hide Base64.Decode, CheckCredentials, StartsWith;
    var header := GetHeader(headers, "authorization");
    if htaccess.Some? && header != "" && StartsWith(header, "basic ") {
      StartsWithLength(header, "basic ");
      GrantedIff(htaccess.value, Base64.Decode(header[6..]));
    }
  }

  /** phase_access lets a request through exactly if it is not the load probe, its path as a
      directory stack extends the stack of the document root, something is there, and its
      directory asks for no credentials or gets the stored ones. (A relative root that cancels
      out to nothing holds only itself.) */
  lemma AccessIff(site: Site, request: Request, accepting: bool, root: string, path: string)
    ensures var r := Follow([], root);
            var p := Follow(r, path);
            var resolved := Paths.Render(Anchored(root), p);
            var htaccess := site.htaccess(DirOf(resolved, site.entry(resolved)));
            AccessAnswer(site, request, accepting, root, path).None? <==>
              && !(request.verb.GET? && path == LOAD)
              && r <= p && (Anchored(root) || r != [] || p == [])
              && !site.entry(resolved).Missing?
              && (htaccess.None? || CredentialsMatch(htaccess.value, request.headers))
  {
    hide Follow, Paths.Render, ResolvePath, DirOf, Check, StatusText, CredentialsMatch;
    ResolveMeaning(root, path);
    var resolved := Paths.Render(Anchored(root), Follow(Follow([], root), path));
    CheckGrantedIff(site.htaccess(DirOf(resolved, site.entry(resolved))), request.headers);
  }

  /** A request that does not pass is answered with nothing of the site: an empty body and one of
      five codes. One that passes, and only such a one, can open a file, run a program or see a
      listing; and the file it opens is the one at its path, or an index file of the directory
      there. */
  lemma PhasesGate(site: Site, request: Request, accepting: bool)
    ensures var action := Decide(site, request, accepting);
            if !Passes(site, request, accepting) then
              && action.Reply? && action.response.body == "" && action.response.file.NoFile?
              && action.response.code in {200, 401, 403, 404, 503}
            else
              var root := ResolveVhost(site.hosts, HostName(request.headers)).value.documentRoot;
              var path := Paths.Render(Anchored(root), Follow(Follow([], root), OriginPath(request.uri)));
              var entry := site.entry(path);
              && (action.RunProgram? <==> !request.verb.OPTIONS? && entry.Regular? && entry.executable)
              && (action.ServeFile? ==>
                    && (request.verb.GET? || request.verb.HEAD?)
                    && if entry.Regular? then !entry.executable && action.file == entry.file
                       else entry.Directory? && IsIndex(site, request, root, path, action.file))
              && (action.Reply? && action.response.body != "" ==>
                    request.verb.GET? && entry.Directory? && action.response.body == entry.listing)
  {
    hide Follow, Paths.Render, ResolvePath, ResolveVhost, HostName, OriginPath, DirOf, Check, StatusText, IsIndex, FirstRegular, Candidates;
    var v := ResolveVhost(site.hosts, HostName(request.headers));
    if v.Some? {
      ResolveMeaning(v.value.documentRoot, OriginPath(request.uri));
    }
  }
}
