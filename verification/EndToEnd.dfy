/** From a client's message to what the server does about it. */
module EndToEnd {
  import opened Bytes
  import opened Conn
  import opened Process
  import opened UrlCodec
  import opened EventLoop
  import Answered
  import Auth
  import Range
  import Request
  import RequestPrint
  import UrlPath

  /** The message is well formed, in a version the server speaks. */
  ghost predicate Spoken(m: RequestPrint.Message) {
    RequestPrint.Printable(m) && RequestPrint.ByVersion(m).Some?
  }

  /** process_request sees the message that was printed. */
  lemma AnswerPrinted(cfg: Config, c: Conn, m: RequestPrint.Message, eol: RequestPrint.Eol, env: Env, k: Kernel)
    requires Spoken(m) && !NeedsHttps(cfg, RequestPrint.Print(m, eol))
    ensures var parsed := RequestPrint.Understood(m, cfg.request).value;
            Answer(cfg, c, RequestPrint.Print(m, eol), env, k) ==
              (if cfg.authKey.Some? && AsCString(RequestPrint.Header(m, Request.AUTHORIZATION)) != cfg.authKey
               then (Refuse(c.(connClose := parsed.connClose), 401, env), k)
               else Dispatch(cfg, c.(connClose := parsed.connClose), RequestPrint.Print(m, eol), parsed, env, k))
  {
    hide Dispatch, Refuse, Request.Parse;
    RequestPrint.ParsePrinted(m, eol, cfg.request);
  }

  /**
   With --auth, a client presenting u is let through to its method exactly when u is
   the configured user:pass, and is answered 401 otherwise.
   */
  lemma CredentialsGate(cfg: Config, c: Conn, m: RequestPrint.Message, eol: RequestPrint.Eol, env: Env, k: Kernel,
                        u: bytes, userpass: bytes)
    requires Spoken(m) && !NeedsHttps(cfg, RequestPrint.Print(m, eol))
    requires NUL !in u && NUL !in userpass && cfg.authKey == Some(Ascii("Basic ") + Auth.Base64(userpass))
    requires RequestPrint.Header(m, Request.AUTHORIZATION) == Some(Ascii("Basic ") + Auth.Base64(u))
    ensures var parsed := RequestPrint.Understood(m, cfg.request).value;
            var c1 := c.(connClose := parsed.connClose);
            Answer(cfg, c, RequestPrint.Print(m, eol), env, k) ==
              if u == userpass then Dispatch(cfg, c1, RequestPrint.Print(m, eol), parsed, env, k)
              else (Refuse(c1, 401, env), k)
  {
    hide Dispatch, Refuse, Answer;
    AnswerPrinted(cfg, c, m, eol, env, k);
    Auth.CredentialsDecide(u, userpass);
    StrWhole(Auth.AuthKey(u));
  }

  // ------------------------------------------------------- what a path leads to

  /** The message asks for the path. */
  ghost predicate Gets(m: RequestPrint.Message, path: bytes) {
    Spoken(m) && Upper(m.method_) == GET && Locate(Str(m.url)) == Some(path)
  }

  /**
   The settings let the message through to the path: they neither redirect nor hide
   it, and the client has the credentials they ask for.
   */
  ghost predicate Admitted(cfg: Config, m: RequestPrint.Message, eol: RequestPrint.Eol, path: bytes)
    requires path != []
  {
    && !NeedsHttps(cfg, RequestPrint.Print(m, eol)) && ForwardTarget(cfg, RequestPrint.Print(m, eol)).None?
    && (cfg.authKey.Some? ==> AsCString(RequestPrint.Header(m, Request.AUTHORIZATION)) == cfg.authKey)
    && (cfg.hideDotfiles ==> !HasDotFile(path))
  }

  /** The connection once the message was understood. */
  function Asking(c: Conn, m: RequestPrint.Message, cfg: Config): Conn
    requires RequestPrint.ByVersion(m).Some?
  {
    c.(connClose := RequestPrint.Understood(m, cfg.request).value.connClose)
  }

  /** An admitted GET leads to the path it names. */
  lemma GetServes(cfg: Config, c: Conn, m: RequestPrint.Message, eol: RequestPrint.Eol, env: Env, k: Kernel, path: bytes)
    requires Gets(m, path) && path != [] && Admitted(cfg, m, eol, path)
    ensures Answer(cfg, c, RequestPrint.Print(m, eol), env, k) ==
            ServePath(cfg, Asking(c, m, cfg), RequestPrint.Print(m, eol), RequestPrint.Header(m, Request.RANGE), path, env, k)
  {
    hide Answer, ServePath, Request.Parse, Locate, NeedsHttps, ForwardTarget, HasDotFile;
    AnswerPrinted(cfg, c, m, eol, env, k);
    assert Str(GET) == GET by {
      StrWhole(GET);
    }
  }

  /** The body sent for what open and fstat made of a name. */
  function FileBody(env: Env, result: OpenResult, since: Option<bytes>, range: Option<bytes>): bytes {
    match result
    case Regular(content, lastModified) =>
      if since.Some? && Str(since.value) == lastModified then []
      else (match Asked(range)
            case None => content
            case Some(spec) =>
              match Range.Select(spec, |content|)
              case None => env.body
              case Some(slice) => content[slice.from..slice.to + 1])
    case _ => env.body
  }

  /** The status for a name that cannot be opened. */
  function Failing(e: Errno): nat {
    match e case Eacces => 403 case Enoent => 404 case OtherErrno => 500
  }

  /** And the status. */
  function FileCode(cfg: Config, result: OpenResult, since: Option<bytes>, range: Option<bytes>): nat {
    match result
    case OpenFails(e) => Failing(e)
    case StatFails => 500
    case Directory => if cfg.singleFile then 403 else 301
    case Special => 403
    case Regular(content, lastModified) =>
      if since.Some? && Str(since.value) == lastModified then 304
      else match Asked(range)
           case None => 200
           case Some(spec) => if Range.Select(spec, |content|).Some? then 206 else 416
  }

  /** What a path leads to: a file, or a page of its own. */
  datatype Goal = File(name: bytes) | Page(code: nat)

  /**
   The root itself if it is a single file; otherwise the file of that path below the root,
   or for a directory its index if there is one, and its listing if that is not denied.
   */
  function Leads(cfg: Config, env: Env, path: bytes): Goal
    requires path != []
  {
    var name := cfg.wwwroot + path;
    if cfg.singleFile then File(cfg.wwwroot)
    else if path[|path| - 1] != SLASH then File(name)
    else if env.indexExists(name + cfg.indexName) then File(name + cfg.indexName)
    else if cfg.noListing then Page(404)
    else match env.listing(name) case Entries(_) => Page(200) case Unreadable(e) => Page(Failing(e))
  }

  /** The body sent for a path. */
  function PathBody(cfg: Config, env: Env, path: bytes, since: Option<bytes>, range: Option<bytes>): bytes
    requires path != []
  {
    match Leads(cfg, env, path)
    case File(name) => FileBody(env, env.openResult(name), since, range)
    case Page(_) => env.body
  }

  function PathCode(cfg: Config, env: Env, path: bytes, since: Option<bytes>, range: Option<bytes>): nat
    requires path != []
  {
    match Leads(cfg, env, path)
    case File(name) => FileCode(cfg, env.openResult(name), since, range)
    case Page(code) => code
  }

  /** The names asked about on the way. */
  function PathNames(cfg: Config, env: Env, path: bytes): seq<bytes>
    requires path != []
  {
    var name := cfg.wwwroot + path;
    (if !cfg.singleFile && path[|path| - 1] == SLASH then [name + cfg.indexName] else []) +
    match Leads(cfg, env, path)
    case File(target) => [target]
    case Page(_) => if cfg.noListing then [] else ListingNames(cfg, name, env.listing(name))
  }

  lemma TextResponse(c: Conn, code: nat, env: Env)
    requires c.out == NOTHING.(replyType := c.out.replyType, file := c.out.file)
    ensures Response(Refuse(c, code, env).out) == env.header + env.body
    ensures Response(Redirect(c, env).out) == env.header + env.body
    ensures Response(PutTexts(c, code, env.header, env.body).out) == env.header + env.body
  {
    assert env.body[0..|env.body|] == env.body;
  }

  lemma FileResponse(c: Conn, r: bytes, range: Option<bytes>, env: Env, content: FileBytes, lastModified: bytes)
    requires c.out == NOTHING
    ensures var a := ServeFile(c, r, range, env, content, lastModified);
            var since := Request.FieldValue(r, IF_MODIFIED_SINCE);
            Response(a.out) == env.header + FileBody(env, Regular(content, lastModified), since, range)
  {
    hide Refuse, Asked, Range.Select, Request.FieldValue, Str, Response;
    var o := c.out.(replyType := FromFile, file := content);
    TextResponse(c.(out := o), 416, env);
    HeaderResponse(o.(header := env.header, headerLength := |env.header|, replyLength := 0, replyType := Generated, headerOnly := true));
    if Asked(range).Some? && Range.Select(Asked(range).value, |content|).Some? {
      var slice := Range.Select(Asked(range).value, |content|).value;
      SliceResponse(o, env.header, content, slice.from, slice.to - slice.from + 1);
    } else {
      SliceResponse(o, env.header, content, 0, |content|);
    }
  }

  lemma HeaderResponse(o: Out)
    requires o.headerOnly
    ensures Response(o) == o.header + []
  {
  }

  lemma SliceResponse(o: Out, header: HeaderText, content: bytes, start: nat, length: nat)
    requires start + length <= |content| && o.replyType == FromFile && o.file == content && !o.headerOnly
    ensures Response(o.(header := header, headerLength := |header|, replyStart := start, replyLength := length)) ==
            header + content[start..start + length]
    ensures content[0..|content|] == content
  {
  }

  lemma OpenResponse(cfg: Config, c: Conn, r: bytes, range: Option<bytes>, env: Env, result: OpenResult)
    requires c.out == NOTHING
    ensures var a := AfterOpen(cfg, c, r, range, env, result);
            var since := Request.FieldValue(r, IF_MODIFIED_SINCE);
            && Response(a.out) == env.header + FileBody(env, result, since, range)
            && a.httpCode == FileCode(cfg, result, since, range)
  {
    hide Response, FileBody;
    FailingIs();
    match result
    case OpenFails(e) => TextResponse(c, ErrnoCode(e), env); NoFile(env, result, r, range);
    case StatFails => TextResponse(c, 500, env); NoFile(env, result, r, range);
    case Directory => TextResponse(c, 403, env); NoFile(env, result, r, range);
    case Special => TextResponse(c, 403, env); NoFile(env, result, r, range);
    case Regular(content, lastModified) => FileResponse(c, r, range, env, content, lastModified);
  }

  lemma NoFile(env: Env, result: OpenResult, r: bytes, range: Option<bytes>)
    requires !result.Regular?
    ensures FileBody(env, result, Request.FieldValue(r, IF_MODIFIED_SINCE), range) == env.body
  {
  }

  lemma FailingIs()
    ensures forall e :: ErrnoCode(e) == Failing(e)
  {
  }

  /** Whatever a path leads to, its response is the header and the body that belongs to it. */
  lemma PathResponse(cfg: Config, c: Conn, r: bytes, range: Option<bytes>, path: bytes, env: Env, k: Kernel)
    requires c.out == NOTHING && path != []
    ensures var (a, k') := ServePath(cfg, c, r, range, path, env, k);
            var since := Request.FieldValue(r, IF_MODIFIED_SINCE);
            && Response(a.out) == env.header + PathBody(cfg, env, path, since, range)
            && a.httpCode == PathCode(cfg, env, path, since, range)
            && k'.touched == k.touched + PathNames(cfg, env, path)
  {
    hide Refuse, PutTexts, AfterOpen, Response, FileBody, FileCode, Request.FieldValue, ListingNames, ErrnoCode, Failing;
    FailingIs();
    RouteLeads(cfg, env, path);
    var (asked, destination) := Route(cfg, path, env.indexExists(IndexOf(cfg, path)));
    Grouped(k.touched, asked);
    match destination
    case Missing => TextPage(c, 404, env);
    case List(dir) =>
      var listing := env.listing(dir);
      TextPage(c, if listing.Unreadable? then ErrnoCode(listing.errno) else 200, env);
    case Open(target) =>
      var result := env.openResult(target);
      OpenResponse(cfg, c, r, range, env, result);
      OpenResponse(cfg, c.(replyFd := LowestFree(k.open, 0)), r, range, env, result);
  }

  lemma Grouped(x: seq<bytes>, y: seq<bytes>)
    ensures x + (y + []) == x + y && forall z: seq<bytes> :: x + (y + z) == x + y + z
  {
  }

  lemma TextPage(c: Conn, code: nat, env: Env)
    requires c.out == NOTHING
    ensures Response(Refuse(c, code, env).out) == env.header + env.body && Refuse(c, code, env).httpCode == code
    ensures Response(PutTexts(c, code, env.header, env.body).out) == env.header + env.body
    ensures PutTexts(c, code, env.header, env.body).httpCode == code
  {
    hide Response;
    TextResponse(c, code, env);
  }

  /** Route and Leads agree. */
  lemma RouteLeads(cfg: Config, env: Env, path: bytes)
    requires path != []
    ensures var (asked, destination) := Route(cfg, path, env.indexExists(IndexOf(cfg, path)));
            var name := cfg.wwwroot + path;
            && IndexOf(cfg, path) == name + cfg.indexName
            && asked == (if !cfg.singleFile && path[|path| - 1] == SLASH then [name + cfg.indexName] else [])
            && match destination
               case Open(target) => Leads(cfg, env, path) == File(target)
               case Missing => Leads(cfg, env, path) == Page(404) && cfg.noListing
               case List(dir) =>
                 && dir == name && !cfg.noListing
                 && Leads(cfg, env, path) == Page(if env.listing(dir).Entries? then 200 else Failing(env.listing(dir).errno))
  {
  }

  /** So the response to an admitted GET, whatever its path, headers and settings. */
  lemma GetResponse(cfg: Config, c: Conn, m: RequestPrint.Message, eol: RequestPrint.Eol, env: Env, k: Kernel, path: bytes)
    requires Gets(m, path) && path != [] && Admitted(cfg, m, eol, path) && c.out == NOTHING
    ensures var (a, k') := Answer(cfg, c, RequestPrint.Print(m, eol), env, k);
            var since, range := RequestPrint.Header(m, IF_MODIFIED_SINCE), RequestPrint.Header(m, Request.RANGE);
            && Response(a.out) == env.header + PathBody(cfg, env, path, since, range)
            && a.httpCode == PathCode(cfg, env, path, since, range)
            && k'.touched == k.touched + PathNames(cfg, env, path)
  {
    hide Answer, ServePath, Response, PathBody, PathCode, PathNames, Gets, Admitted, Request.FieldValue;
    ByVersionOf(m, path);
    GetServes(cfg, c, m, eol, env, k, path);
    RequestPrint.FieldOfPrinted(m, eol, IF_MODIFIED_SINCE);
    PathResponse(cfg, Asking(c, m, cfg), RequestPrint.Print(m, eol), RequestPrint.Header(m, Request.RANGE), path, env, k);
  }

  /**
   A directory's URL: the index if it exists, and nothing else is opened; otherwise 404
   where listings are denied, with only the index asked about; otherwise the listing.
   */
  lemma DirectoryAnswer(cfg: Config, c: Conn, m: RequestPrint.Message, eol: RequestPrint.Eol, env: Env, k: Kernel, path: bytes)
    requires Gets(m, path) && path != [] && Admitted(cfg, m, eol, path) && c.out == NOTHING
    requires path[|path| - 1] == SLASH && !cfg.singleFile
    ensures var (a, k') := Answer(cfg, c, RequestPrint.Print(m, eol), env, k);
            var since, range := RequestPrint.Header(m, IF_MODIFIED_SINCE), RequestPrint.Header(m, Request.RANGE);
            var name := cfg.wwwroot + path;
            var index := name + cfg.indexName;
            if env.indexExists(index) then
              && Response(a.out) == env.header + FileBody(env, env.openResult(index), since, range)
              && a.httpCode == FileCode(cfg, env.openResult(index), since, range)
              && k'.touched == k.touched + [index, index]
            else
              && Response(a.out) == env.header + env.body
              && (cfg.noListing ==> a.httpCode == 404 && k'.touched == k.touched + [index])
              && (!cfg.noListing ==>
                    && k'.touched == k.touched + [index] + ListingNames(cfg, name, env.listing(name))
                    && a.httpCode == match env.listing(name)
                                     case Entries(_) => 200
                                     case Unreadable(Eacces) => 403
                                     case Unreadable(Enoent) => 404
                                     case Unreadable(OtherErrno) => 500)
  {
    hide Answer, Response, FileBody, FileCode, Gets, Admitted, ListingNames;
    GetResponse(cfg, c, m, eol, env, k, path);
    Grouped(k.touched, [cfg.wwwroot + path + cfg.indexName]);
  }

  lemma ByVersionOf(m: RequestPrint.Message, path: bytes)
    requires Gets(m, path)
    ensures RequestPrint.Printable(m) && RequestPrint.ByVersion(m).Some?
  {
  }

  // ------------------------------------------------------------ listing links

  /** The message follows the listing link of the entry name of directory d. */
  ghost predicate AsksFor(m: RequestPrint.Message, d: bytes, name: UrlPath.Segment) {
    && UrlPath.Canonical(d) && UrlPath.EndsInSlash(d) && NUL !in d
    && UrlPath.Ordinary(name) && SLASH !in name && NUL !in name
    && Spoken(m) && Upper(m.method_) == GET && m.url == Encode(d) + Encode(name)
  }

  function EntryName(cfg: Config, d: bytes, name: UrlPath.Segment): bytes {
    cfg.wwwroot + (d + name)
  }

  lemma LinkGets(cfg: Config, m: RequestPrint.Message, d: bytes, name: UrlPath.Segment)
    requires AsksFor(m, d, name)
    ensures Gets(m, d + name)
    ensures !cfg.singleFile ==> forall exists_ :: Route(cfg, d + name, exists_) == ([], Open(EntryName(cfg, d, name)))
  {
    hide Locate;
    LinkResolvesToEntry(d, name);
    EncodeFits(d);
    EncodeFits(name);
    StrWhole(m.url);
    var path := d + name;
    assert path[|path| - 1] == name[|name| - 1] && name[|name| - 1] in name;
  }

  /** Following a listing link opens exactly that entry: the root with the directory and the name behind it. */
  lemma EntryOpened(cfg: Config, c: Conn, m: RequestPrint.Message, eol: RequestPrint.Eol, env: Env, k: Kernel,
                    d: bytes, name: UrlPath.Segment)
    requires AsksFor(m, d, name) && Admitted(cfg, m, eol, d + name) && !cfg.singleFile
    ensures Answer(cfg, c, RequestPrint.Print(m, eol), env, k) ==
            OpenTarget(cfg, Asking(c, m, cfg), RequestPrint.Print(m, eol), RequestPrint.Header(m, Request.RANGE),
                       EntryName(cfg, d, name), env, k.(touched := k.touched + [EntryName(cfg, d, name)]))
  {
    hide Answer, OpenTarget, Route, Admitted, Gets;
    LinkGets(cfg, m, d, name);
    GetServes(cfg, c, m, eol, env, k, d + name);
    assert k.touched + [] == k.touched;
  }

  /** And its answer is the one for what the name turns out to be. */
  lemma EntryAnswer(cfg: Config, c: Conn, m: RequestPrint.Message, eol: RequestPrint.Eol, env: Env, k: Kernel,
                    d: bytes, name: UrlPath.Segment)
    requires AsksFor(m, d, name) && Admitted(cfg, m, eol, d + name) && !cfg.singleFile && c.out == NOTHING
    ensures var (a, k') := Answer(cfg, c, RequestPrint.Print(m, eol), env, k);
            var result := env.openResult(EntryName(cfg, d, name));
            var since, range := RequestPrint.Header(m, IF_MODIFIED_SINCE), RequestPrint.Header(m, Request.RANGE);
            && Response(a.out) == env.header + FileBody(env, result, since, range)
            && a.httpCode == FileCode(cfg, result, since, range)
            && k'.touched == k.touched + [EntryName(cfg, d, name)]
  {
    hide Answer, AfterOpen, Response, Admitted, FileBody, FileCode, Request.FieldValue;
    EntryOpened(cfg, c, m, eol, env, k, d, name);
    RequestPrint.FieldOfPrinted(m, eol, IF_MODIFIED_SINCE);
    var r, range := RequestPrint.Print(m, eol), RequestPrint.Header(m, Request.RANGE);
    var c1, result := Asking(c, m, cfg), env.openResult(EntryName(cfg, d, name));
    OpenResponse(cfg, c1, r, range, env, result);
    OpenResponse(cfg, c1.(replyFd := LowestFree(k.open, 0)), r, range, env, result);
  }

  /** Without conditions the response is the header and the whole file, or the page that says why not. */
  lemma LinkServesEntry(cfg: Config, c: Conn, m: RequestPrint.Message, eol: RequestPrint.Eol, env: Env, k: Kernel,
                        d: bytes, name: UrlPath.Segment)
    requires AsksFor(m, d, name) && Admitted(cfg, m, eol, d + name) && !cfg.singleFile && c.out == NOTHING
    requires RequestPrint.Header(m, IF_MODIFIED_SINCE).None? && RequestPrint.Header(m, Request.RANGE).None?
    ensures var (a, k') := Answer(cfg, c, RequestPrint.Print(m, eol), env, k);
            Response(a.out) == env.header + match env.openResult(EntryName(cfg, d, name))
                                            case Regular(content, _) => content
                                            case _ => env.body
    ensures var (a, k') := Answer(cfg, c, RequestPrint.Print(m, eol), env, k);
            && k'.touched == k.touched + [EntryName(cfg, d, name)]
            && (env.openResult(EntryName(cfg, d, name)).Regular? ==> a.httpCode == 200)
  {
    hide Answer, Response, Admitted;
    EntryAnswer(cfg, c, m, eol, env, k, d, name);
  }

  /** What a readable range of a file comes to, in the terms of section 14.1.2 of RFC 9110. */
  function RangeBody(env: Env, content: FileBytes, v: bytes): bytes
    requires Range.WellFormed(Range.FirstElement(v))
  {
    match Range.Select(Range.Meaning(Range.FirstElement(v)), |content|)
    case Some(slice) => content[slice.from..slice.to + 1]
    case None => env.body
  }

  /** With a readable range it is the header and exactly the bytes the range means, or the 416 reply. */
  lemma RangeServesSlice(cfg: Config, c: Conn, m: RequestPrint.Message, eol: RequestPrint.Eol, env: Env, k: Kernel,
                         d: bytes, name: UrlPath.Segment, v: bytes)
    requires AsksFor(m, d, name) && Admitted(cfg, m, eol, d + name) && !cfg.singleFile && c.out == NOTHING
    requires RequestPrint.Header(m, IF_MODIFIED_SINCE).None? && RequestPrint.Header(m, Request.RANGE) == Some(v)
    requires NUL !in v && Range.WellFormed(Range.FirstElement(v)) && Range.Readable(v)
    ensures var (a, k') := Answer(cfg, c, RequestPrint.Print(m, eol), env, k);
            Response(a.out) == env.header + match env.openResult(EntryName(cfg, d, name))
                                            case Regular(content, _) => RangeBody(env, content, v)
                                            case _ => env.body
    ensures var (a, k') := Answer(cfg, c, RequestPrint.Print(m, eol), env, k);
            match env.openResult(EntryName(cfg, d, name))
            case Regular(content, _) =>
              a.httpCode == if Range.Select(Range.Meaning(Range.FirstElement(v)), |content|).Some? then 206 else 416
            case _ => true
  {
    hide Answer, Response, Admitted, Asked, Range.Select, Range.Meaning, Range.FirstElement, Range.WellFormed;
    EntryAnswer(cfg, c, m, eol, env, k, d, name);
    RangeMeans(v);
  }

  lemma RangeMeans(v: bytes)
    requires NUL !in v && Range.WellFormed(Range.FirstElement(v))
    ensures Asked(Some(v)) == Range.AsRead(v)
    ensures Range.Readable(v) ==> Range.AsRead(v) == Some(Range.Meaning(Range.FirstElement(v)))
  {
    hide Range.Given, Range.Meaning, Range.WellFormed, Range.FirstElement, Range.Readable;
    StrWhole(v);
    Range.GivenMeans(v);
  }

  // ------------------------------------------------------------ on the wire

  /** A request of a run, live or over, whose client has sent exactly the message. */
  ghost predicate Exchanged(cfg: Config, base: set<int>, now: int, evs: seq<PollEvent>, c: Conn,
                            m: RequestPrint.Message, eol: RequestPrint.Eol)
  {
    var s := Run(cfg, Start(base, now), evs);
    && c in s.conns + s.retired && RequestPrint.Printable(m)
    && c.received == RequestPrint.Print(m, eol) && |c.received| <= MAX_REQUEST_LENGTH
  }

  /**
   In every run, however the message arrived, it was handed over once, and what goes
   out for it is the answer to it in the world it met.
   */
  lemma PrintedOnTheWire(cfg: Config, base: set<int>, now: int, evs: seq<PollEvent>, c: Conn,
                         m: RequestPrint.Message, eol: RequestPrint.Eol)
    requires Exchanged(cfg, base, now, evs, c, m, eol)
    ensures c.handed == [RequestPrint.Print(m, eol)] && c.met.Some?
    ensures Answered.Sends(c, Response(Answer(cfg, Answered.BLANK, RequestPrint.Print(m, eol), c.met.value, Answered.NO_KERNEL).0.out))
  {
    hide Run, Answer, Response, Answered.Sends;
    RequestPrint.PrintedCompleteOnce(m, eol);
    Answered.RunExplained(cfg, base, now, evs);
    Answered.WireAnswers(cfg, base, now, evs, c);
  }

  /** In every run, what goes out for an admitted GET is the header and the body that belongs to its path. */
  lemma GetOnTheWire(cfg: Config, base: set<int>, now: int, evs: seq<PollEvent>, c: Conn,
                     m: RequestPrint.Message, eol: RequestPrint.Eol, path: bytes)
    requires Exchanged(cfg, base, now, evs, c, m, eol)
    requires Gets(m, path) && path != [] && Admitted(cfg, m, eol, path)
    ensures c.met.Some?
    ensures var env := c.met.value;
            Answered.Sends(c, env.header +
              PathBody(cfg, env, path, RequestPrint.Header(m, IF_MODIFIED_SINCE), RequestPrint.Header(m, Request.RANGE)))
  {
    hide Exchanged, Answer, Response, Gets, Admitted, PathBody, Answered.Sends;
    PrintedOnTheWire(cfg, base, now, evs, c, m, eol);
    GetResponse(cfg, Answered.BLANK, m, eol, c.met.value, Answered.NO_KERNEL, path);
  }

  /** And for a directory: its index exactly if there is one, and otherwise a page. */
  lemma DirectoryOnTheWire(cfg: Config, base: set<int>, now: int, evs: seq<PollEvent>, c: Conn,
                           m: RequestPrint.Message, eol: RequestPrint.Eol, path: bytes)
    requires Exchanged(cfg, base, now, evs, c, m, eol)
    requires Gets(m, path) && path != [] && Admitted(cfg, m, eol, path)
    requires path[|path| - 1] == SLASH && !cfg.singleFile
    ensures c.met.Some?
    ensures var env := c.met.value;
            var since, range := RequestPrint.Header(m, IF_MODIFIED_SINCE), RequestPrint.Header(m, Request.RANGE);
            var index := cfg.wwwroot + path + cfg.indexName;
            Answered.Sends(c, env.header + if env.indexExists(index) then FileBody(env, env.openResult(index), since, range)
                                           else env.body)
  {
    hide Exchanged, Answer, Response, Gets, Admitted, FileBody, Answered.Sends;
    PrintedOnTheWire(cfg, base, now, evs, c, m, eol);
    DirectoryAnswer(cfg, Answered.BLANK, m, eol, c.met.value, Answered.NO_KERNEL, path);
  }

  /**
   In every run, what goes out to a client that followed a listing link is the header and
   the whole file of that name in the world the request met, or the page that says why not.
   */
  lemma LinkOnTheWire(cfg: Config, base: set<int>, now: int, evs: seq<PollEvent>, c: Conn,
                      m: RequestPrint.Message, eol: RequestPrint.Eol, d: bytes, name: UrlPath.Segment)
    requires Exchanged(cfg, base, now, evs, c, m, eol)
    requires AsksFor(m, d, name) && Admitted(cfg, m, eol, d + name) && !cfg.singleFile
    requires RequestPrint.Header(m, IF_MODIFIED_SINCE).None? && RequestPrint.Header(m, Request.RANGE).None?
    ensures c.met.Some?
    ensures var env := c.met.value;
            Answered.Sends(c, env.header + match env.openResult(EntryName(cfg, d, name))
                                           case Regular(content, _) => content
                                           case _ => env.body)
  {
    hide Exchanged, Answer, Response, AsksFor, Admitted, Answered.Sends;
    PrintedOnTheWire(cfg, base, now, evs, c, m, eol);
    LinkServesEntry(cfg, Answered.BLANK, m, eol, c.met.value, Answered.NO_KERNEL, d, name);
  }

  /** And to one that asked for a readable range of it, exactly that range, or the 416 reply. */
  lemma RangeOnTheWire(cfg: Config, base: set<int>, now: int, evs: seq<PollEvent>, c: Conn,
                       m: RequestPrint.Message, eol: RequestPrint.Eol, d: bytes, name: UrlPath.Segment, v: bytes)
    requires Exchanged(cfg, base, now, evs, c, m, eol)
    requires AsksFor(m, d, name) && Admitted(cfg, m, eol, d + name) && !cfg.singleFile
    requires RequestPrint.Header(m, IF_MODIFIED_SINCE).None? && RequestPrint.Header(m, Request.RANGE) == Some(v)
    requires NUL !in v && Range.WellFormed(Range.FirstElement(v)) && Range.Readable(v)
    ensures c.met.Some?
    ensures var env := c.met.value;
            Answered.Sends(c, env.header + match env.openResult(EntryName(cfg, d, name))
                                           case Regular(content, _) => RangeBody(env, content, v)
                                           case _ => env.body)
  {
    hide Exchanged, Answer, Response, AsksFor, Admitted, Answered.Sends, RangeBody;
    PrintedOnTheWire(cfg, base, now, evs, c, m, eol);
    RangeServesSlice(cfg, Answered.BLANK, m, eol, c.met.value, Answered.NO_KERNEL, d, name, v);
  }

  // ------------------------------------------------------------ printed ranges

  /** The bytes of a file that a range names, or a page where there are none. */
  function Ranged(content: bytes, spec: Range.Spec, page: bytes): bytes {
    var size := |content|;
    match spec
    case FirstLast(first, last) =>
      if first > last || first >= size then page else content[first..if last < size then last + 1 else size]
    case From(first) => if first >= size then page else content[first..]
    case Suffix(n) =>
      if n == 0 || size == 0 then page else if n >= size then content else content[size - n..]
  }

  lemma SelectRanged(content: FileBytes, spec: Range.Spec, page: bytes)
    ensures Ranged(content, spec, page) ==
            match Range.Select(spec, |content|) case None => page case Some(slice) => content[slice.from..slice.to + 1]
  {
    assert content[0..|content|] == content;
  }

  /**
   In every run, a client that follows a listing link and writes a range first in its
   Range field, in decimal and with leading zeros if it likes, is sent those bytes.
   */
  lemma PrintedRangeOnTheWire(cfg: Config, base: set<int>, now: int, evs: seq<PollEvent>, c: Conn,
                              m: RequestPrint.Message, eol: RequestPrint.Eol, d: bytes, name: UrlPath.Segment,
                              spec: Range.Spec, zeros: nat, more: nat, tail: bytes)
    requires Exchanged(cfg, base, now, evs, c, m, eol)
    requires AsksFor(m, d, name) && Admitted(cfg, m, eol, d + name) && !cfg.singleFile
    requires RequestPrint.Header(m, IF_MODIFIED_SINCE).None?
    requires RequestPrint.Header(m, Request.RANGE) == Some(Range.Print(spec, zeros, more) + tail)
    requires tail == [] || tail[0] == COMMA
    ensures c.met.Some?
    ensures var env := c.met.value;
            Answered.Sends(c, env.header + match env.openResult(EntryName(cfg, d, name))
                                           case Regular(content, _) => Ranged(content, spec, env.body)
                                           case _ => env.body)
  {
    hide Exchanged, Answer, Response, AsksFor, Admitted, Answered.Sends, Range.Select, Range.Print, Ranged,
      Range.FirstElement, Range.WellFormed, Range.Readable, Range.AsRead, RequestPrint.Header;
    var v := Range.Print(spec, zeros, more) + tail;
    Range.PrintedMeans(spec, zeros, more);
    Range.PrintedIsRead(spec, zeros, more, tail);
    SpokenValue(m, d, name);
    RangeOnTheWire(cfg, base, now, evs, c, m, eol, d, name, v);
    var result := c.met.value.openResult(EntryName(cfg, d, name));
    if result.Regular? {
      SelectRanged(result.content, spec, c.met.value.body);
    }
  }

  lemma SpokenValue(m: RequestPrint.Message, d: bytes, name: UrlPath.Segment)
    requires AsksFor(m, d, name)
    ensures var v := RequestPrint.Header(m, Request.RANGE); v.Some? ==> NUL !in v.value
  {
    hide RequestPrint.FirstHeader;
    RequestPrint.ValuePlain(m, Request.RANGE[1..]);
  }
}
