/** process_request and process_get: from a complete request to a reply ready to send. */
module Process {
  import opened Bytes
  import opened Conn
  import opened UrlCodec
  import Range
  import Request

  datatype Forward = Forward(host: bytes, target: bytes)

  /** The settings that steer a request. */
  datatype Config = Config(
    request: Request.Config,
    authKey: Option<bytes>,
    forwardToHttps: bool,
    forwardMap: seq<Forward>,
    forwardAll: Option<bytes>,
    hideDotfiles: bool,
    singleFile: bool,
    noListing: bool,
    wwwroot: bytes,
    indexName: bytes,
    timeoutSecs: int)

  const HOST: Request.Field := Request.Named("Host: ")
  const FORWARDED_PROTO: Request.Field := Request.Named("X-Forwarded-Proto: ")
  const IF_MODIFIED_SINCE: Request.Field := Request.Named("If-Modified-Since: ")
  const HTTPS_WORD := Ascii("https")
  const GET := Ascii("GET")
  const HEAD := Ascii("HEAD")

  // ------------------------------------------------------------ kinds of reply

  function PutTexts(c: Conn, code: nat, header: HeaderText, body: bytes): Conn {
    c.(out := c.out.(header := header, headerLength := |header|,
                     replyType := Generated, reply := body, replyLength := |body|),
       httpCode := code)
  }

  /** default_reply */
  function DefaultReply(c: Conn, code: nat, header: HeaderText, body: bytes): Conn {
    var c := PutTexts(c, code, header, body);
    c.(out := c.out.(replyStart := 0))
  }

  function Refuse(c: Conn, code: nat, env: Env): Conn {
    DefaultReply(c, code, env.header, env.body)
  }

  /** redirect, which leaves reply_start alone */
  function Redirect(c: Conn, env: Env): Conn {
    PutTexts(c, 301, env.header, env.body)
  }

  function ErrnoCode(e: Errno): nat {
    match e case Eacces => 403 case Enoent => 404 case OtherErrno => 500
  }

  // ------------------------------------------------------------------ routing

  function ForwardHost(map_: seq<Forward>, host: bytes): Option<bytes> {
    if map_ == [] then None
    else if Lower(map_[0].host) == Lower(host) then Some(map_[0].target)
    else ForwardHost(map_[1..], host)
  }

  /** Where the web forward options send this request. */
  function ForwardTarget(cfg: Config, request: bytes): Option<bytes> {
    var byHost := if cfg.forwardMap == [] then None
                  else match Request.FieldValue(request, HOST)
                       case None => None
                       case Some(host) => ForwardHost(cfg.forwardMap, Str(host));
    if byHost.Some? then byHost else cfg.forwardAll
  }

  predicate NeedsHttps(cfg: Config, request: bytes) {
    cfg.forwardToHttps &&
    match Request.FieldValue(request, FORWARDED_PROTO)
    case None => false
    case Some(proto) => !Request.SameText(proto, HTTPS_WORD)
  }

  /** What a resolved path leads to: a file to open, or a directory to list. */
  datatype Destination = Open(target: bytes) | List(dir: bytes) | Missing

  function IndexOf(cfg: Config, path: bytes): bytes {
    cfg.wwwroot + path + cfg.indexName
  }

  /** The file system names asked about on the way, in order, and where it ends. */
  function Route(cfg: Config, path: bytes, indexExists: bool): (seq<bytes>, Destination)
    requires path != []
  {
    if cfg.singleFile then ([], Open(cfg.wwwroot))
    else if path[|path| - 1] == SLASH then
      var index := IndexOf(cfg, path);
      if indexExists then ([index], Open(index))
      else if cfg.noListing then ([index], Missing)
      else ([index], List(cfg.wwwroot + path))
    else ([], Open(cfg.wwwroot + path))
  }

  /** Whether make_sorted_dirlist looks at an entry. */
  predicate Shown(cfg: Config, name: EntryName) {
    && name != [DOT] && name != [DOT, DOT]
    && !(cfg.hideDotfiles && name[0] == DOT)
    && |name| <= MAXNAMLEN
  }

  /** The names it passes to stat. */
  function EntryNames(cfg: Config, dir: bytes, names: seq<EntryName>): seq<bytes> {
    if names == [] then []
    else
      var n := |names| - 1;
      EntryNames(cfg, dir, names[..n]) + if Shown(cfg, names[n]) then [dir + names[n]] else []
  }

  /** The directory, and the entries that are looked at if it can be read. */
  function ListingNames(cfg: Config, dir: bytes, listing: Listing): seq<bytes> {
    [dir] + if listing.Entries? then EntryNames(cfg, dir, listing.names) else []
  }

  // ------------------------------------------------------------- serving a file

  /** The range a request asks for, if the parser saw one. */
  function Asked(range: Option<bytes>): Option<Range.Spec> {
    match range
    case None => None
    case Some(v) =>
      match Range.Given(Str(v))
      case (Some(first), Some(last)) => Some(Range.FirstLast(first, last))
      case (Some(first), None) => Some(Range.From(first))
      case (None, Some(n)) => Some(Range.Suffix(n))
      case (None, None) => None
  }

  /** The end of process_get, with a regular file open. */
  function ServeFile(c: Conn, request: bytes, range: Option<bytes>, env: Env, content: FileBytes, lastModified: bytes): Conn {
    var since := Request.FieldValue(request, IF_MODIFIED_SINCE);
    var c := c.(out := c.out.(replyType := FromFile, file := content));
    if since.Some? && Str(since.value) == lastModified then
      c.(httpCode := 304,
         out := c.out.(header := env.header, headerLength := |env.header|,
                       replyLength := 0, replyType := Generated, headerOnly := true))
    else match Asked(range)
      case None =>
        c.(httpCode := 200,
           out := c.out.(header := env.header, headerLength := |env.header|, replyLength := |content|))
      case Some(spec) =>
        match Range.Select(spec, |content|)
        case None => Refuse(c, 416, env)
        case Some(slice) =>
          c.(httpCode := 206,
             out := c.out.(header := env.header, headerLength := |env.header|,
                           replyStart := slice.from, replyLength := slice.to - slice.from + 1))
  }

  /** process_get once open() has answered; reply_fd is set if it succeeded. */
  function AfterOpen(cfg: Config, c: Conn, request: bytes, range: Option<bytes>, env: Env, result: OpenResult): Conn {
    match result
    case OpenFails(e) => Refuse(c, ErrnoCode(e), env)
    case StatFails => Refuse(c, 500, env)
    case Directory => if cfg.singleFile then Refuse(c, 403, env) else Redirect(c, env)
    case Special => Refuse(c, 403, env)
    case Regular(content, lastModified) => ServeFile(c, request, range, env, content, lastModified)
  }

  /** process_get from open() on. */
  function OpenTarget(cfg: Config, c: Conn, request: bytes, range: Option<bytes>, target: bytes, env: Env, k: Kernel):
    (Conn, Kernel)
  {
    var result := env.openResult(target);
    if result.OpenFails? then (AfterOpen(cfg, c, request, range, env, result), k)
    else
      var fd := LowestFree(k.open, 0);
      (AfterOpen(cfg, c.(replyFd := fd), request, range, env, result), k.(open := k.open + {fd}))
  }

  /** process_get from the resolved path on. */
  function ServePath(cfg: Config, c: Conn, request: bytes, range: Option<bytes>, path: bytes, env: Env, k: Kernel): (Conn, Kernel)
    requires path != []
  {
    var (asked, destination) := Route(cfg, path, env.indexExists(IndexOf(cfg, path)));
    var k := k.(touched := k.touched + asked);
    match destination
    case Missing => (Refuse(c, 404, env), k)
    case List(dir) =>
      (match env.listing(dir)
       case Unreadable(e) => Refuse(c, ErrnoCode(e), env)
       case Entries(_) => PutTexts(c, 200, env.header, env.body),
       k.(touched := k.touched + ListingNames(cfg, dir, env.listing(dir))))
    case Open(target) =>
      OpenTarget(cfg, c, request, range, target, env, k.(touched := k.touched + [target]))
  }

  /** process_get */
  function ProcessGet(cfg: Config, c: Conn, request: bytes, parsed: Request.Parsed, env: Env, k: Kernel): (Conn, Kernel) {
    match Locate(Str(parsed.url))
    case None => (Refuse(c, 400, env), k)
    case Some(path) =>
      if ForwardTarget(cfg, request).Some? then (Redirect(c, env), k)
      else if cfg.hideDotfiles && HasDotFile(path) then (Refuse(c, 404, env), k)
      else ServePath(cfg, c, request, parsed.range, path, env, k)
  }

  function RedirectHttps(c: Conn, request: bytes, url: bytes, env: Env): Conn {
    if LocateWhole(Str(url)).None? then Refuse(c, 400, env)
    else if Request.FieldValue(request, HOST).None? then Refuse(c, 400, env)
    else Redirect(c, env)
  }

  function AsCString(v: Option<bytes>): Option<bytes> {
    match v case None => None case Some(b) => Some(Str(b))
  }

  /** The method test of process_request. */
  function Dispatch(cfg: Config, c: Conn, request: bytes, parsed: Request.Parsed, env: Env, k: Kernel): (Conn, Kernel) {
    if Str(parsed.method_) == GET then ProcessGet(cfg, c, request, parsed, env, k)
    else if Str(parsed.method_) == HEAD then
      var (c, k) := ProcessGet(cfg, c, request, parsed, env, k);
      (c.(out := c.out.(headerOnly := true)), k)
    else (Refuse(c, 501, env), k)
  }

  /** process_request up to the state change. */
  function Answer(cfg: Config, c: Conn, request: bytes, env: Env, k: Kernel): (Conn, Kernel) {
    match Request.Parse(request, cfg.request)
    case None => (Refuse(c.(connClose := true), 400, env), k)
    case Some(parsed) =>
      var c := c.(connClose := parsed.connClose);
      if NeedsHttps(cfg, request) then (RedirectHttps(c, request, parsed.url, env), k)
      else if cfg.authKey.Some? && AsCString(parsed.authorization) != cfg.authKey then (Refuse(c, 401, env), k)
      else Dispatch(cfg, c, request, parsed, env, k)
  }

  /** process_request: the request is recorded, answered and freed. */
  function ProcessRequest(cfg: Config, c: Conn, env: Env, k: Kernel): (Conn, Kernel) {
    var (a, k) := Answer(cfg, c.(handed := c.handed + [c.request]), c.request, env, k);
    (a.(state := SendHeader, request := []), k)
  }
}
