/** What every reply of a run answers: the bytes received for it, and nothing else. */
module Answered {
  import opened Bytes
  import opened Conn
  import opened Process
  import opened ProcessProofs
  import opened EventLoop
  import opened Safety
  import Range
  import Request
  import UrlCodec

  // ------------------------------------------------------------ the claim

  /** A reply before its first byte goes out. */
  function Unsent(o: Out): Out {
    o.(headerSent := 0, replySent := 0)
  }

  /** Not answered yet. */
  predicate Pending(r: bytes) {
    !Request.Complete(r) && |r| <= MAX_REQUEST_LENGTH
  }

  /** A connection nothing has happened to. */
  const BLANK := Fresh(0, 0)
  const NO_KERNEL := Kernel({}, [])

  /**
   The reply to the bytes r in the world env, as a function of nothing else: the
   answer to a complete request, replaced if there is too much of it.
   */
  function ReplyTo(cfg: Config, r: bytes, env: Env): Out {
    var a := if Request.Complete(r) then Answer(cfg, BLANK, r, env, NO_KERNEL).0 else BLANK;
    if |r| > MAX_REQUEST_LENGTH then TooLong(a, env).out else a.out
  }

  /**
   Exactly what was received is handed over as soon as it is complete, exactly once,
   and the reply is the reply to it in the world it met.
   */
  ghost predicate Explained(cfg: Config, c: Conn) {
    && c.handed == (if Request.Complete(c.received) then [c.received] else [])
    && (c.state == RecvRequest ==> Pending(c.received) && c.request == c.received)
    && (c.received != [] ==> c.met.Some?)
    && (if Pending(c.received) then c.out == NOTHING
        else c.met.Some? && Unsent(c.out) == ReplyTo(cfg, c.received, c.met.value))
  }

  ghost predicate AllExplained(cfg: Config, cs: seq<Conn>) {
    forall c :: c in cs ==> Explained(cfg, c)
  }

  // ------------------------------------------------------------ one connection

  /** c' has the reply and the request of c, and is not waiting for one. */
  ghost predicate SameReply(c: Conn, c': Conn) {
    && Unsent(c'.out) == Unsent(c.out) && c'.received == c.received && c'.met == c.met && c'.handed == c.handed
    && c'.state != RecvRequest && (c.out == NOTHING ==> c'.out == NOTHING)
  }

  lemma SameReplyExplained(cfg: Config, c: Conn, c': Conn)
    requires Explained(cfg, c) && SameReply(c, c')
    ensures Explained(cfg, c')
  {
    hide Unsent, ReplyTo, Pending, Request.Complete;
  }

  lemma ReplySendsSame(c: Conn, now: int, o: SendOutcome)
    requires Sound(c) && c.state == SendReply
    ensures SameReply(c, ReplyStep(c, now, o))
  {
    hide Sound;
    ReplyStepSound(c, now, o);
    HasReply(c);
  }

  lemma HeaderSendsSame(c: Conn, now: int, io: Io)
    requires Sound(c) && c.state == SendHeader
    ensures SameReply(c, HeaderStep(c, now, io))
  {
    hide Sound;
    HeaderStepSound(c, now, io);
    HasReply(c);
  }

  lemma HasReply(c: Conn)
    requires Sound(c) && (c.state == SendHeader || c.state == SendReply)
    ensures c.out != NOTHING
  {
  }

  lemma FailsSameReply(c: Conn, why: Incident)
    ensures SameReply(c, Fail(c, why))
  {
  }

  /** The two ways a chunk leads to a reply. */
  lemma DigestExplained(cfg: Config, c: Conn, now: int, io: Io, k: Kernel)
    requires Sound(c) && c.state == RecvRequest && Explained(cfg, c)
    ensures Explained(cfg, Digest(cfg, c, now, io, k).0)
  {
    hide Answer, Sound, Prepared, Asks, Request.Complete;
    var c1 := Append(c, now, Chunk(io.recv), io.env);
    var r := c1.received;
    var c' := Digest(cfg, c, now, io, k).0;
    AppendSound(c, now, Chunk(io.recv), io.env);
    Waits(c);
    if Request.Complete(r) {
      var c2 := c1.(handed := c1.handed + [r]);
      ProcessRequestReady(cfg, c1, io.env, k);
      HandedBy(c2, ProcessRequest(cfg, c1, io.env, k).0);
      SameAnswer(cfg, c2, BLANK, r, io.env, k, NO_KERNEL);
    }
  }

  // ------------------------------------------ what an answer does not depend on

  lemma SameTexts(c: Conn, d: Conn, code: nat, env: Env)
    requires c.out == d.out
    ensures Refuse(c, code, env).out == Refuse(d, code, env).out
    ensures Redirect(c, env).out == Redirect(d, env).out
    ensures PutTexts(c, code, env.header, env.body).out == PutTexts(d, code, env.header, env.body).out
  {
  }

  lemma SameFile(c: Conn, d: Conn, r: bytes, range: Option<bytes>, env: Env, content: FileBytes, lastModified: bytes)
    requires c.out == d.out
    ensures ServeFile(c, r, range, env, content, lastModified).out == ServeFile(d, r, range, env, content, lastModified).out
  {
    hide Refuse, Asked, Range.Select, Request.FieldValue, Str;
    var o := c.out.(replyType := FromFile, file := content);
    SameTexts(c.(out := o), d.(out := o), 416, env);
  }

  lemma SameOpen(cfg: Config, c: Conn, d: Conn, r: bytes, range: Option<bytes>, env: Env, result: OpenResult)
    requires c.out == d.out
    ensures AfterOpen(cfg, c, r, range, env, result).out == AfterOpen(cfg, d, r, range, env, result).out
  {
    hide Refuse, Redirect, ServeFile;
    match result
    case OpenFails(e) => SameTexts(c, d, ErrnoCode(e), env);
    case StatFails => SameTexts(c, d, 500, env);
    case Directory => SameTexts(c, d, 403, env);
    case Special => SameTexts(c, d, 403, env);
    case Regular(content, lastModified) => SameFile(c, d, r, range, env, content, lastModified);
  }

  lemma SamePath(cfg: Config, c: Conn, d: Conn, r: bytes, range: Option<bytes>, path: bytes, env: Env, k: Kernel, l: Kernel)
    requires c.out == d.out && path != []
    ensures ServePath(cfg, c, r, range, path, env, k).0.out == ServePath(cfg, d, r, range, path, env, l).0.out
  {
    hide Refuse, PutTexts, AfterOpen, Route;
    match Route(cfg, path, env.indexExists(IndexOf(cfg, path))).1
    case Missing => SameTexts(c, d, 404, env);
    case List(dir) =>
      var listing := env.listing(dir);
      SameTexts(c, d, if listing.Unreadable? then ErrnoCode(listing.errno) else 200, env);
    case Open(target) =>
      var result := env.openResult(target);
      SameOpen(cfg, c, d, r, range, env, result);
      SameOpen(cfg, c.(replyFd := LowestFree(k.open, 0)), d.(replyFd := LowestFree(l.open, 0)), r, range, env, result);
  }

  lemma SameGet(cfg: Config, c: Conn, d: Conn, r: bytes, parsed: Request.Parsed, env: Env, k: Kernel, l: Kernel)
    requires c.out == d.out
    ensures ProcessGet(cfg, c, r, parsed, env, k).0.out == ProcessGet(cfg, d, r, parsed, env, l).0.out
  {
    hide Refuse, Redirect, ServePath, UrlCodec.Locate, ForwardTarget, UrlCodec.HasDotFile, Str;
    SameTexts(c, d, 400, env);
    SameTexts(c, d, 404, env);
    var path := UrlCodec.Locate(Str(parsed.url));
    if path.Some? {
      SamePath(cfg, c, d, r, parsed.range, path.value, env, k, l);
    }
  }

  /** Only the response so far decides what an answer is, and none of the descriptors do. */
  lemma SameAnswer(cfg: Config, c: Conn, d: Conn, r: bytes, env: Env, k: Kernel, l: Kernel)
    requires c.out == d.out
    ensures Answer(cfg, c, r, env, k).0.out == Answer(cfg, d, r, env, l).0.out
  {
    hide Request.Parse, NeedsHttps, Refuse, Redirect, ProcessGet, UrlCodec.LocateWhole, Request.FieldValue, Str, AsCString;
    match Request.Parse(r, cfg.request)
    case None => SameTexts(c.(connClose := true), d.(connClose := true), 400, env);
    case Some(parsed) =>
      var c1, d1 := c.(connClose := parsed.connClose), d.(connClose := parsed.connClose);
      SameTexts(c1, d1, 400, env);
      SameTexts(c1, d1, 401, env);
      SameTexts(c1, d1, 501, env);
      SameGet(cfg, c1, d1, r, parsed, env, k, l);
  }

  lemma Waits(c: Conn)
    requires Sound(c) && c.state == RecvRequest
    ensures c.requestLength == |c.request| && c.handed == [] && c.out == NOTHING && c.replyFd == -1
  {
  }

  lemma HandedBy(c: Conn, a: Conn)
    requires Prepared(c, a)
    ensures a.handed == c.handed && a.received == c.received && a.requestLength == c.requestLength
    ensures Unsent(a.out) == a.out
  {
  }

  lemma TurnExplained(cfg: Config, c: Conn, now: int, w: Waiting, io: map<int, Io>, k: Kernel)
    requires Sound(c) && Explained(cfg, c)
    ensures Explained(cfg, Turn(cfg, c, now, w, io, k).0)
  {
    hide Explained, RecvStep, HeaderStep, ReplyStep, Sound, SameReply;
    var c1 := CheckTimeout(cfg, c, now);
    if c1 != c {
      FailsSameReply(c, TimedOut(now - c.lastActive));
      SameReplyExplained(cfg, c, c1);
    } else if c.socket in io {
      match c.state
      case RecvRequest => RecvExplained(cfg, c, now, io[c.socket], k);
      case SendHeader =>
        HeaderSendsSame(c, now, io[c.socket]);
        SameReplyExplained(cfg, c, HeaderStep(c, now, io[c.socket]));
      case SendReply =>
        ReplySendsSame(c, now, io[c.socket].reply);
        SameReplyExplained(cfg, c, ReplyStep(c, now, io[c.socket].reply));
      case Done =>
    }
  }

  lemma RecvExplained(cfg: Config, c: Conn, now: int, io: Io, k: Kernel)
    requires Sound(c) && c.state == RecvRequest && Explained(cfg, c)
    ensures Explained(cfg, RecvStep(cfg, c, now, io, k).0)
  {
    hide Explained, Digest, HeaderStep, Sound, SameReply;
    if Chunk(io.recv) == [] {
      FailsSameReply(c, RecvFailed(io.recv));
      SameReplyExplained(cfg, c, Fail(c, RecvFailed(io.recv)));
    } else {
      DigestSound(cfg, c, now, io, k);
      DigestExplained(cfg, c, now, io, k);
      var c1 := Digest(cfg, c, now, io, k).0;
      if c1.state == SendHeader {
        HeaderSendsSame(c1, now, io);
        SameReplyExplained(cfg, c1, HeaderStep(c1, now, io));
      }
    }
  }

  lemma RecycledExplained(cfg: Config, c: Conn)
    ensures Explained(cfg, Recycled(c))
  {
  }

  // ------------------------------------------------------------ the loop

  lemma VisitExplained(cfg: Config, base: set<int>, s: Sys, pending: seq<Conn>, w: Waiting, io: map<int, Io>)
    requires MidInv(cfg, base, s, pending) && pending != []
    requires AllExplained(cfg, s.conns + s.retired) && Explained(cfg, pending[0])
    ensures var t := Visit(cfg, s, pending[0], w, io); AllExplained(cfg, t.conns + t.retired)
  {
    hide Explained, Turn, Sound, Recycled, CloseFd;
    var c := pending[0];
    assert c in pending;
    TurnExplained(cfg, c, s.now, w, io, s.kernel);
    var c' := Turn(cfg, c, s.now, w, io, s.kernel).0;
    RecycledExplained(cfg, c');
  }

  lemma {:induction false} SweepExplained(cfg: Config, base: set<int>, s: Sys, pending: seq<Conn>,
                                          w: Waiting, io: map<int, Io>)
    requires MidInv(cfg, base, s, pending)
    requires AllExplained(cfg, s.conns + s.retired) && AllExplained(cfg, pending)
    ensures var t := Sweep(cfg, s, pending, w, io); AllExplained(cfg, t.conns + t.retired)
    decreases |pending|
  {
    hide Explained, Visit, MidInv;
    if pending != [] {
      assert pending[0] in pending;
      assert forall c :: c in pending[1..] ==> c in pending;
      VisitMidInv(cfg, base, s, pending, w, io);
      VisitExplained(cfg, base, s, pending, w, io);
      SweepExplained(cfg, base, Visit(cfg, s, pending[0], w, io), pending[1..], w, io);
    }
  }

  lemma AcceptExplained(cfg: Config, s: Sys, a: AcceptOutcome)
    requires AllExplained(cfg, s.conns + s.retired)
    ensures var t := AcceptStep(cfg, s, a); AllExplained(cfg, t.conns + t.retired)
  {
    hide RecvStep, Sound;
    if a.Accepts? {
      var fd := LowestFree(s.kernel.open, 0);
      var c := Fresh(fd, s.now);
      FreshSound(fd, s.now);
      assert Explained(cfg, c);
      hide Explained;
      RecvExplained(cfg, c, s.now, a.io, s.kernel.(open := s.kernel.open + {fd}));
    }
  }

  lemma PollExplained(cfg: Config, base: set<int>, s: Sys, ev: PollEvent)
    requires Inv(cfg, base, s) && AllExplained(cfg, s.conns + s.retired)
    ensures var t := Poll(cfg, s, ev); AllExplained(cfg, t.conns + t.retired)
  {
    hide Inv, MidInv, AcceptStep, Sweep, Await, Explained;
    match ev
    case Interrupted =>
    case Ready(now, accept, io) =>
      var s1 := s.(now := now);
      var w := Await(cfg, s.conns, s.accepting);
      var s2 := if w.listener && accept.Some? then AcceptStep(cfg, s1, accept.value) else s1;
      MidStart(cfg, base, s, now);
      assert s1.(conns := []) == s.(now := now, conns := []);
      if w.listener && accept.Some? {
        AcceptMidInv(cfg, base, s1, accept.value);
        AcceptExplained(cfg, s1, accept.value);
      }
      assert AllExplained(cfg, s2.conns) && AllExplained(cfg, [] + s2.retired);
      SweepExplained(cfg, base, s2.(conns := []), s2.conns, w, io);
  }

  /**
   After every run, for every request, live or over: what process_request got is
   exactly what was received, as soon as it was complete and once only; and what is
   sent is the answer to it, or the 413 reply if it was too long.
   */
  lemma {:induction false} RunExplained(cfg: Config, base: set<int>, now: int, evs: seq<PollEvent>)
    ensures var s := Run(cfg, Start(base, now), evs); AllExplained(cfg, s.conns + s.retired)
    decreases |evs|
  {
    hide Inv, Poll, Explained;
    if evs != [] {
      var n := |evs| - 1;
      assert evs[n] in evs;
      RunExplained(cfg, base, now, evs[..n]);
      RunInv(cfg, base, now, evs[..n]);
      PollExplained(cfg, base, Run(cfg, Start(base, now), evs[..n]), evs[n]);
    }
  }

  /**
   What c has put on its socket for its request is a prefix of the response, and all of
   it once nothing is missing, as is the case when it is recycled.
   */
  ghost predicate Sends(c: Conn, response: bytes) {
    && c.wire == Flatten(c.served) + SentPart(c.out)
    && SentPart(c.out) <= response
    && (Whole(c.out) ==> SentPart(c.out) == response)
    && (c.state == Done && !c.connClose ==> Whole(c.out))
  }

  /**
   So every request of a run that is past receiving, live or over, sends the one
   response to exactly the bytes received for it in the world it met.
   */
  lemma WireAnswers(cfg: Config, base: set<int>, now: int, evs: seq<PollEvent>, c: Conn)
    requires var s := Run(cfg, Start(base, now), evs); c in s.conns + s.retired
    requires !Pending(c.received)
    ensures c.met.Some? && Sends(c, Response(ReplyTo(cfg, c.received, c.met.value)))
  {
    hide Run, Pending, ReplyTo, SentPart, Whole;
    RunExplained(cfg, base, now, evs);
    RunInv(cfg, base, now, evs);
    SoundWire(c);
    SentIsPrefix(c.out);
    assert Response(Unsent(c.out)) == Response(c.out);
  }

  lemma SoundWire(c: Conn)
    requires Sound(c)
    ensures OutOk(c.out) && c.wire == Flatten(c.served) + SentPart(c.out)
    ensures c.state == Done && !c.connClose ==> Whole(c.out)
  {
  }
}
