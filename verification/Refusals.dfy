/** Which requests are refused or redirected, and with what; and what HEAD is answered. */
module Refusals {
  import opened Bytes
  import opened Conn
  import opened Process
  import opened UrlCodec
  import opened EventLoop
  import Answered
  import EndToEnd
  import Progress
  import Request
  import RequestPrint

  // ------------------------------------------------------------ what decides

  lemma NamesAre()
    ensures HOST[1..] == Ascii("Host: ") && FORWARDED_PROTO[1..] == Ascii("X-Forwarded-Proto: ")
    ensures IF_MODIFIED_SINCE[1..] == Ascii("If-Modified-Since: ")
    ensures GET == Ascii("GET") && HEAD == Ascii("HEAD") && Str(GET) == GET && Str(HEAD) == HEAD && GET != HEAD
  {
    RequestPrint.NamedIs("Host: ");
    RequestPrint.NamedIs("X-Forwarded-Proto: ");
    RequestPrint.NamedIs("If-Modified-Since: ");
    assert NUL !in GET && NUL !in HEAD && |GET| != |HEAD|;
    StrWhole(GET);
    StrWhole(HEAD);
  }

  /** The https option concerns whoever says it came another way. */
  lemma HttpsMeans(cfg: Config, m: RequestPrint.Message, eol: RequestPrint.Eol)
    requires RequestPrint.Lined(m)
    ensures NeedsHttps(cfg, RequestPrint.Print(m, eol)) <==>
            cfg.forwardToHttps &&
            var proto := RequestPrint.FirstHeader(m.headers, Ascii("X-Forwarded-Proto: "));
            proto.Some? && !RequestPrint.Is(proto.value, "https")
  {
    hide RequestPrint.Print, RequestPrint.FirstHeader, Request.FieldValue, Lower;
    NamesAre();
    RequestPrint.FieldOfPrinted(m, eol, FORWARDED_PROTO);
    RequestPrint.ValuePlain(m, Ascii("X-Forwarded-Proto: "));
  }

  lemma {:induction false} FirstForward(forwards: seq<Forward>, host: bytes) returns (i: nat)
    ensures i <= |forwards| && forall j :: 0 <= j < i ==> Lower(forwards[j].host) != Lower(host)
    ensures i < |forwards| ==> Lower(forwards[i].host) == Lower(host)
    ensures ForwardHost(forwards, host) == if i < |forwards| then Some(forwards[i].target) else None
  {
    if forwards == [] || Lower(forwards[0].host) == Lower(host) {
      i := 0;
    } else {
      i := FirstForward(forwards[1..], host);
      i := i + 1;
    }
  }

  /** The first forward for the Host field's host, in any case; otherwise the one for all, if any. */
  lemma ForwardMeans(cfg: Config, m: RequestPrint.Message, eol: RequestPrint.Eol) returns (i: nat)
    requires RequestPrint.Lined(m)
    ensures var host := RequestPrint.FirstHeader(m.headers, Ascii("Host: "));
            var target := ForwardTarget(cfg, RequestPrint.Print(m, eol));
            && i <= |cfg.forwardMap|
            && (host.Some? ==> forall j :: 0 <= j < i ==> Lower(cfg.forwardMap[j].host) != Lower(host.value))
            && (if i < |cfg.forwardMap|
                then host.Some? && Lower(cfg.forwardMap[i].host) == Lower(host.value) && target == Some(cfg.forwardMap[i].target)
                else target == cfg.forwardAll)
  {
    hide RequestPrint.Print, RequestPrint.FirstHeader, Request.FieldValue, Lower;
    NamesAre();
    RequestPrint.FieldOfPrinted(m, eol, HOST);
    RequestPrint.ValuePlain(m, Ascii("Host: "));
    var host := RequestPrint.FirstHeader(m.headers, Ascii("Host: "));
    if host.Some? {
      i := FirstForward(cfg.forwardMap, host.value);
    } else {
      i := |cfg.forwardMap|;
    }
  }

  // ------------------------------------------------------------ refusals

  /** The answer is the page with this status, and nothing was opened or asked about. */
  ghost predicate Pages(answer: (Conn, Kernel), env: Env, k: Kernel, code: nat) {
    && Response(answer.0.out) == env.header + env.body
    && answer.0.httpCode == code && answer.1 == k
  }

  /** The credentials asked for are there, if any are. */
  ghost predicate Trusted(cfg: Config, m: RequestPrint.Message) {
    cfg.authKey.Some? ==> RequestPrint.FirstHeader(m.headers, Ascii("Authorization: ")) == cfg.authKey
  }

  lemma PageIs(c: Conn, code: nat, env: Env, k: Kernel)
    requires c.out == NOTHING
    ensures Pages((Refuse(c, code, env), k), env, k, code) && Pages((Redirect(c, env), k), env, k, 301)
  {
    hide Response;
    EndToEnd.TextResponse(c, code, env);
  }

  /** A request that is not understood: 400. */
  lemma NotUnderstood(cfg: Config, c: Conn, m: RequestPrint.Message, eol: RequestPrint.Eol, env: Env, k: Kernel)
    requires RequestPrint.Printable(m) && c.out == NOTHING
    requires m.version.Some? &&
             !RequestPrint.Is(m.version.value, "HTTP/1.1") && !RequestPrint.Is(m.version.value, "HTTP/1.0")
    ensures Pages(Answer(cfg, c, RequestPrint.Print(m, eol), env, k), env, k, 400)
  {
    hide Request.Parse, Pages, Refuse, Lower;
    RequestPrint.ParsedMeans(m, eol, cfg.request);
    PageIs(c.(connClose := true), 400, env, k);
  }

  /** To be sent to https: 301, unless the URL is invalid or no host is named. */
  lemma SentToHttps(cfg: Config, c: Conn, m: RequestPrint.Message, eol: RequestPrint.Eol, env: Env, k: Kernel)
    requires EndToEnd.Spoken(m) && NeedsHttps(cfg, RequestPrint.Print(m, eol)) && c.out == NOTHING
    ensures Pages(Answer(cfg, c, RequestPrint.Print(m, eol), env, k), env, k,
                  if LocateWhole(m.url).None? || RequestPrint.FirstHeader(m.headers, Ascii("Host: ")).None? then 400 else 301)
  {
    hide Request.Parse, Pages, Refuse, Redirect, LocateWhole, NeedsHttps, RequestPrint.FirstHeader, Request.FieldValue;
    RequestPrint.ParsePrinted(m, eol, cfg.request);
    NamesAre();
    RequestPrint.FieldOfPrinted(m, eol, HOST);
    StrWhole(m.url);
    PageIs(c.(connClose := Request.Parse(RequestPrint.Print(m, eol), cfg.request).value.connClose), 400, env, k);
  }

  /** Beyond those, what is answered before any file is looked for. */
  lemma Refused(cfg: Config, c: Conn, m: RequestPrint.Message, eol: RequestPrint.Eol, env: Env, k: Kernel)
    requires EndToEnd.Spoken(m) && !NeedsHttps(cfg, RequestPrint.Print(m, eol)) && c.out == NOTHING
    ensures var answer := Answer(cfg, c, RequestPrint.Print(m, eol), env, k);
            var verb := Upper(m.method_);
            var path := Locate(m.url);
            && (!Trusted(cfg, m) ==> Pages(answer, env, k, 401))
            && (Trusted(cfg, m) && verb != Ascii("GET") && verb != Ascii("HEAD") ==> Pages(answer, env, k, 501))
            && (Trusted(cfg, m) && verb == Ascii("GET") ==>
                  var forward := ForwardTarget(cfg, RequestPrint.Print(m, eol)).Some?;
                  && (path.None? ==> Pages(answer, env, k, 400))
                  && (path.Some? && forward ==> Pages(answer, env, k, 301))
                  && (path.Some? && !forward && cfg.hideDotfiles && HasDotFile(path.value) ==> Pages(answer, env, k, 404)))
  {
    hide Request.Parse, Pages, Refuse, Redirect, Locate, NeedsHttps, RequestPrint.FirstHeader, Request.FieldValue,
      Answer, ServePath, ForwardTarget, HasDotFile, Upper;
    EndToEnd.AnswerPrinted(cfg, c, m, eol, env, k);
    NamesAre();
    RequestPrint.NamesAre();
    RequestPrint.ValuePlain(m, Ascii("Authorization: "));
    StrWhole(m.url);
    UpperPlain(m.method_);
    var c1 := c.(connClose := RequestPrint.Understood(m, cfg.request).value.connClose);
    PageIs(c1, 400, env, k);
    PageIs(c1, 401, env, k);
    PageIs(c1, 404, env, k);
    PageIs(c1, 501, env, k);
  }

  lemma UpperPlain(s: bytes)
    requires NUL !in s
    ensures Str(Upper(s)) == Upper(s)
  {
    assert forall k :: 0 <= k < |s| ==> s[k] in s;
    StrWhole(Upper(s));
  }

  // ------------------------------------------------------------ HEAD

  /** Requests that agree on the field that conditions a file get the same of any path. */
  lemma PathByFields(cfg: Config, c: Conn, r: bytes, q: bytes, range: Option<bytes>, path: bytes, env: Env, k: Kernel)
    requires Request.FieldValue(r, IF_MODIFIED_SINCE) == Request.FieldValue(q, IF_MODIFIED_SINCE) && path != []
    ensures ServePath(cfg, c, r, range, path, env, k) == ServePath(cfg, c, q, range, path, env, k)
  {
    hide Request.FieldValue, Refuse, Redirect, PutTexts, Route, ListingNames, Asked, Str;
  }

  lemma GetByFields(cfg: Config, c: Conn, r: bytes, q: bytes, p: Request.Parsed, o: Request.Parsed, env: Env, k: Kernel)
    requires Request.FieldValue(r, IF_MODIFIED_SINCE) == Request.FieldValue(q, IF_MODIFIED_SINCE)
    requires Request.FieldValue(r, HOST) == Request.FieldValue(q, HOST)
    requires p.url == o.url && p.range == o.range
    ensures ProcessGet(cfg, c, r, p, env, k) == ProcessGet(cfg, c, q, o, env, k)
  {
    hide Request.FieldValue, Refuse, Redirect, ServePath, Locate, HasDotFile, Str, ForwardHost;
    var path := Locate(Str(p.url));
    if path.Some? {
      PathByFields(cfg, c, r, q, p.range, path.value, env, k);
    }
  }

  function AsGet(m: RequestPrint.Message): RequestPrint.Message {
    m.(method_ := Ascii("GET"))
  }

  /** HEAD is GET without the body: the same header, status and file, and the header alone as response. */
  lemma HeadIsGet(cfg: Config, c: Conn, m: RequestPrint.Message, eol: RequestPrint.Eol, env: Env, k: Kernel)
    requires EndToEnd.Spoken(m) && !NeedsHttps(cfg, RequestPrint.Print(m, eol)) && Trusted(cfg, m)
    requires Upper(m.method_) == Ascii("HEAD")
    ensures var (h, k') := Answer(cfg, c, RequestPrint.Print(m, eol), env, k);
            var (g, l) := Answer(cfg, c, RequestPrint.Print(AsGet(m), eol), env, k);
            h == g.(out := g.out.(headerOnly := true)) && k' == l && Response(h.out) == g.out.header
  {
    hide Request.Parse, NeedsHttps, RequestPrint.FirstHeader, Request.FieldValue, Answer, ProcessGet, RequestPrint.Print, Upper;
    var n := AsGet(m);
    NamesAre();
    RequestPrint.NamesAre();
    GetSpoken(m);
    SameHttps(cfg, m, eol);
    EndToEnd.AnswerPrinted(cfg, c, m, eol, env, k);
    EndToEnd.AnswerPrinted(cfg, c, n, eol, env, k);
    RequestPrint.ValuePlain(m, Ascii("Authorization: "));
    RequestPrint.FieldOfPrinted(m, eol, IF_MODIFIED_SINCE);
    RequestPrint.FieldOfPrinted(n, eol, IF_MODIFIED_SINCE);
    RequestPrint.FieldOfPrinted(m, eol, HOST);
    RequestPrint.FieldOfPrinted(n, eol, HOST);
    var p, o := RequestPrint.Understood(m, cfg.request).value, RequestPrint.Understood(n, cfg.request).value;
    GetByFields(cfg, c.(connClose := p.connClose), RequestPrint.Print(m, eol), RequestPrint.Print(n, eol), p, o, env, k);
    var g := Answer(cfg, c, RequestPrint.Print(n, eol), env, k).0;
    assert g.out.header + [] == g.out.header;
  }

  lemma GetSpoken(m: RequestPrint.Message)
    requires EndToEnd.Spoken(m)
    ensures EndToEnd.Spoken(AsGet(m)) && Upper(AsGet(m).method_) == Ascii("GET")
  {
    var get := Ascii("GET");
    assert get[0] == 71 && get[1] == 69 && get[2] == 84;
    assert Upper(get) == get;
  }

  lemma SameHttps(cfg: Config, m: RequestPrint.Message, eol: RequestPrint.Eol)
    requires EndToEnd.Spoken(m)
    ensures NeedsHttps(cfg, RequestPrint.Print(m, eol)) == NeedsHttps(cfg, RequestPrint.Print(AsGet(m), eol))
  {
    hide RequestPrint.FirstHeader, RequestPrint.Is, NeedsHttps, RequestPrint.Print;
    GetSpoken(m);
    HttpsMeans(cfg, m, eol);
    HttpsMeans(cfg, AsGet(m), eol);
  }

  // ------------------------------------------------------------ too long

  /** The reply to more than 4000 bytes: 413, without its body if a HEAD was answered before. */
  lemma Oversize(cfg: Config, r: bytes, env: Env)
    requires |r| > 4000
    ensures var a := if Request.Complete(r) then Answer(cfg, Answered.BLANK, r, env, Answered.NO_KERNEL).0 else Answered.BLANK;
            && Response(Answered.ReplyTo(cfg, r, env)) == env.tooLongHeader + (if a.out.headerOnly then [] else env.tooLongBody)
            && TooLong(a, env).httpCode == 413
  {
    hide Answer, Request.Complete;
    assert env.tooLongBody[0..|env.tooLongBody|] == env.tooLongBody;
  }

  // ------------------------------------------------------------ listings

  /** A listing looks at every entry but itself, its parent, overlong names and, on request, hidden ones. */
  lemma {:induction false} EntriesAre(cfg: Config, dir: bytes, names: seq<EntryName>, x: bytes)
    ensures x in EntryNames(cfg, dir, names) <==>
            exists i :: 0 <= i < |names| && x == dir + names[i] && names[i] != Ascii(".") && names[i] != Ascii("..") &&
                        |names[i]| <= 255 && !(cfg.hideDotfiles && names[i][0] == DOT)
    decreases |names|
  {
    Dots();
    if names != [] {
      var n := |names| - 1;
      EntriesAre(cfg, dir, names[..n], x);
      assert forall i :: 0 <= i < n ==> names[..n][i] == names[i];
    }
  }

  lemma ListingIs(cfg: Config, dir: bytes, listing: Listing, x: bytes)
    ensures x in ListingNames(cfg, dir, listing) <==>
            x == dir || (listing.Entries? && x in EntryNames(cfg, dir, listing.names))
  {
  }

  lemma Dots()
    ensures Ascii(".") == [DOT] && Ascii("..") == [DOT, DOT]
  {
  }

  // ------------------------------------------------------------ closing

  /** Without trouble, the connection of a printed request closes exactly by its version, its Connection field and the flag. */
  lemma ClosesAsAsked(cfg: Config, base: set<int>, now: int, evs: seq<PollEvent>, c: Conn,
                      m: RequestPrint.Message, eol: RequestPrint.Eol)
    requires c in Run(cfg, Start(base, now), evs).retired && c.incident.None?
    requires EndToEnd.Spoken(m) && c.received == RequestPrint.Print(m, eol)
    ensures Whole(c.out) && c.connClose == RequestPrint.Closes(m, cfg.request)
  {
    hide Run, Whole, RequestPrint.Print, RequestPrint.Closes, Request.Parse, Request.Complete;
    Progress.CutShort(cfg, base, now, evs, c);
    RequestPrint.PrintedCompleteOnce(m, eol);
    RequestPrint.ParsePrinted(m, eol, cfg.request);
    RequestPrint.ParsedMeans(m, eol, cfg.request);
  }
}
