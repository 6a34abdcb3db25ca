/** What every processed request has in common: a reply ready to go, and nothing outside the root touched. */
module ProcessProofs {
  import opened Bytes
  import opened Conn
  import opened Process
  import opened UrlCodec
  import Range
  import Request
  import UrlPath

  /** a is c with a complete reply prepared, and nothing else of c touched. */
  ghost predicate Prepared(c: Conn, a: Conn) {
    && a.out.header != [] && OutOk(a.out) && a.out.headerSent == 0 && a.out.replySent == 0
    && a.socket == c.socket && a.lastActive == c.lastActive
    && a.requestLength == c.requestLength && a.totalSent == c.totalSent
    && a.wire == c.wire && a.served == c.served && a.received == c.received && a.met == c.met && a.incident == c.incident && a.handed == c.handed
  }

  /** At most one descriptor was opened, and the connection holds it. */
  ghost predicate Holds(c: Conn, k: Kernel, a: Conn, k': Kernel) {
    if a.replyFd == c.replyFd then k'.open == k.open
    else a.replyFd >= 0 && a.replyFd !in k.open && k'.open == k.open + {a.replyFd}
  }

  /** No reply has been begun. */
  ghost predicate Blank(o: Out) {
    o == NOTHING.(replyType := o.replyType, file := o.file)
  }

  lemma RefusePrepared(c: Conn, code: nat, env: Env)
    requires Blank(c.out)
    ensures Prepared(c, Refuse(c, code, env)) && Refuse(c, code, env).replyFd == c.replyFd
    ensures Prepared(c, Redirect(c, env)) && Redirect(c, env).replyFd == c.replyFd
    ensures Prepared(c, PutTexts(c, code, env.header, env.body))
  {
  }

  lemma ServeFilePrepared(c: Conn, request: bytes, range: Option<bytes>, env: Env, content: FileBytes, lastModified: bytes)
    requires Blank(c.out)
    ensures var a := ServeFile(c, request, range, env, content, lastModified);
            Prepared(c, a) && a.replyFd == c.replyFd
  {
    hide Refuse, Request.FieldValue, Asked, Range.Select, Str;
    RefusePrepared(c.(out := c.out.(replyType := FromFile, file := content)), 416, env);
  }

  lemma AfterOpenPrepared(cfg: Config, c: Conn, request: bytes, range: Option<bytes>, env: Env, result: OpenResult)
    requires Blank(c.out)
    ensures var a := AfterOpen(cfg, c, request, range, env, result);
            Prepared(c, a) && a.replyFd == c.replyFd
  {
    match result
    case OpenFails(e) => RefusePrepared(c, ErrnoCode(e), env);
    case StatFails => RefusePrepared(c, 500, env);
    case Directory => RefusePrepared(c, 403, env);
    case Special => RefusePrepared(c, 403, env);
    case Regular(content, lastModified) => ServeFilePrepared(c, request, range, env, content, lastModified);
  }

  lemma OpenTargetPrepared(cfg: Config, c: Conn, request: bytes, range: Option<bytes>, target: bytes, env: Env, k: Kernel)
    requires Blank(c.out) && c.replyFd == -1
    ensures var (a, k') := OpenTarget(cfg, c, request, range, target, env, k);
            Prepared(c, a) && Holds(c, k, a, k') && k'.touched == k.touched
  {
    var result := env.openResult(target);
    var fd := if result.OpenFails? then -1 else LowestFree(k.open, 0);
    AfterOpenPrepared(cfg, c.(replyFd := fd), request, range, env, result);
  }

  // ---------------------------------------------------------------- confinement

  /** A path that resolving a request can lead to: below the root, hidden segments included only if allowed. */
  ghost predicate Below(cfg: Config, path: bytes) {
    UrlPath.Canonical(path) && NUL !in path && (cfg.hideDotfiles ==> !HasDotFile(path))
  }

  /** A file system name the server may ask about. */
  ghost predicate Confined(cfg: Config, name: bytes) {
    if cfg.singleFile then name == cfg.wwwroot
    else exists path :: Below(cfg, path) && Names(cfg, path, name)
  }

  ghost predicate Names(cfg: Config, path: bytes, name: bytes) {
    name == cfg.wwwroot + path || (UrlPath.EndsInSlash(path) && name == cfg.wwwroot + path + cfg.indexName)
  }

  ghost predicate AllConfined(cfg: Config, names: seq<bytes>) {
    forall n :: n in names ==> Confined(cfg, n)
  }

  lemma RouteConfined(cfg: Config, path: bytes, indexExists: bool)
    requires Below(cfg, path)
    ensures var (asked, destination) := Route(cfg, path, indexExists);
            && AllConfined(cfg, asked)
            && (destination.Open? ==> Confined(cfg, destination.target))
            && (destination.List? ==> destination.dir == cfg.wwwroot + path && UrlPath.EndsInSlash(path) && !cfg.singleFile)
  {
    var (asked, destination) := Route(cfg, path, indexExists);
    if !cfg.singleFile {
      assert destination.Open? ==> Names(cfg, path, destination.target);
      if UrlPath.EndsInSlash(path) {
        assert Names(cfg, path, IndexOf(cfg, path));
      }
    }
  }

  /** The entries of a directory that can be reached can be reached themselves. */
  lemma {:induction false} EntriesConfined(cfg: Config, path: bytes, names: seq<EntryName>)
    requires Below(cfg, path) && UrlPath.EndsInSlash(path) && !cfg.singleFile
    ensures AllConfined(cfg, EntryNames(cfg, cfg.wwwroot + path, names))
    decreases |names|
  {
    hide UrlPath.Canonical, HasDotFile;
    if names != [] {
      var n := |names| - 1;
      EntriesConfined(cfg, path, names[..n]);
      if Shown(cfg, names[n]) {
        EntryConfined(cfg, path, names[n]);
      }
    }
  }

  lemma EntryConfined(cfg: Config, path: bytes, name: EntryName)
    requires Below(cfg, path) && UrlPath.EndsInSlash(path) && !cfg.singleFile && Shown(cfg, name)
    ensures Confined(cfg, cfg.wwwroot + path + name)
  {
    hide UrlPath.Canonical, HasDotFile;
    CanonicalChild(path, name);
    ChildShown(path, name);
    Associate(cfg.wwwroot, path, name);
    assert Below(cfg, path + name) && Names(cfg, path + name, cfg.wwwroot + path + name);
  }

  lemma ListingConfined(cfg: Config, path: bytes, listing: Listing)
    requires Below(cfg, path) && UrlPath.EndsInSlash(path) && !cfg.singleFile
    ensures AllConfined(cfg, ListingNames(cfg, cfg.wwwroot + path, listing))
  {
    assert Names(cfg, path, cfg.wwwroot + path);
    if listing.Entries? {
      EntriesConfined(cfg, path, listing.names);
    }
  }

  ghost predicate Asks(cfg: Config, k: Kernel, k': Kernel) {
    k.touched <= k'.touched && AllConfined(cfg, k'.touched[|k.touched|..])
  }

  lemma ServePathPrepared(cfg: Config, c: Conn, request: bytes, range: Option<bytes>, path: bytes, env: Env, k: Kernel)
    requires Blank(c.out) && c.replyFd == -1 && Below(cfg, path)
    ensures var (a, k') := ServePath(cfg, c, request, range, path, env, k);
            Prepared(c, a) && Holds(c, k, a, k') && Asks(cfg, k, k')
  {
    RouteConfined(cfg, path, env.indexExists(IndexOf(cfg, path)));
    var (asked, destination) := Route(cfg, path, env.indexExists(IndexOf(cfg, path)));
    match destination
    case Missing =>
      RefusePrepared(c, 404, env);
      AsksMore(cfg, k, asked, []);
    case List(dir) =>
      var listing := env.listing(dir);
      RefusePrepared(c, if listing.Unreadable? then ErrnoCode(listing.errno) else 200, env);
      ListingConfined(cfg, path, listing);
      AsksMore(cfg, k, asked, ListingNames(cfg, dir, listing));
    case Open(target) =>
      AsksMore(cfg, k, asked, [target]);
      OpenTargetPrepared(cfg, c, request, range, target, env, k.(touched := k.touched + asked + [target]));
  }

  lemma AsksMore(cfg: Config, k: Kernel, asked: seq<bytes>, more: seq<bytes>)
    requires AllConfined(cfg, asked) && AllConfined(cfg, more)
    ensures Asks(cfg, k, k.(touched := k.touched + asked + more))
    ensures Asks(cfg, k, k.(touched := k.touched + asked)) && Asks(cfg, k, k)
  {
    assert (k.touched + asked + more)[|k.touched|..] == asked + more;
    assert (k.touched + asked)[|k.touched|..] == asked;
  }

  /** What process_get does to a blank connection. */
  lemma ProcessGetPrepared(cfg: Config, c: Conn, request: bytes, parsed: Request.Parsed, env: Env, k: Kernel)
    requires Blank(c.out) && c.replyFd == -1
    ensures var (a, k') := ProcessGet(cfg, c, request, parsed, env, k);
            Prepared(c, a) && Holds(c, k, a, k') && Asks(cfg, k, k')
  {
    RefusePrepared(c, 400, env);
    RefusePrepared(c, 404, env);
    if Locate(Str(parsed.url)).Some? {
      var path := Locate(Str(parsed.url)).value;
      LocateConfined(Str(parsed.url));
      if ForwardTarget(cfg, request).None? && !(cfg.hideDotfiles && HasDotFile(path)) {
        ServePathPrepared(cfg, c, request, parsed.range, path, env, k);
      }
    }
  }

  lemma DispatchPrepared(cfg: Config, c: Conn, request: bytes, parsed: Request.Parsed, env: Env, k: Kernel)
    requires Blank(c.out) && c.replyFd == -1
    ensures var (a, k') := Dispatch(cfg, c, request, parsed, env, k);
            Prepared(c, a) && Holds(c, k, a, k') && Asks(cfg, k, k')
  {
    RefusePrepared(c, 501, env);
    ProcessGetPrepared(cfg, c, request, parsed, env, k);
  }

  lemma AnswerPrepared(cfg: Config, c: Conn, request: bytes, env: Env, k: Kernel)
    requires Blank(c.out) && c.replyFd == -1
    ensures var (a, k') := Answer(cfg, c, request, env, k);
            Prepared(c, a) && Holds(c, k, a, k') && Asks(cfg, k, k')
  {
    hide Request.Parse, NeedsHttps, Dispatch, OutOk;
    match Request.Parse(request, cfg.request)
    case None => RefusePrepared(c.(connClose := true), 400, env);
    case Some(parsed) =>
      var c := c.(connClose := parsed.connClose);
      if NeedsHttps(cfg, request) {
        RefusePrepared(c, 400, env);
      } else if cfg.authKey.Some? && AsCString(parsed.authorization) != cfg.authKey {
        RefusePrepared(c, 401, env);
      } else {
        DispatchPrepared(cfg, c, request, parsed, env, k);
      }
  }

  /** process_request on an idle connection leaves a response to send from its first byte. */
  lemma ProcessRequestReady(cfg: Config, c: Conn, env: Env, k: Kernel)
    requires c.out == NOTHING && c.replyFd == -1
    ensures var (a, k') := ProcessRequest(cfg, c, env, k);
            && a.state == SendHeader && Prepared(c.(handed := c.handed + [c.request]), a)
            && Holds(c, k, a, k') && Asks(cfg, k, k')
  {
    AnswerPrepared(cfg, c.(handed := c.handed + [c.request]), c.request, env, k);
  }
}
