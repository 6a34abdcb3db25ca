/** That sending goes on until the response is out, and what can stop it. */
module Progress {
  import opened Bytes
  import opened Conn
  import opened Process
  import opened ProcessProofs
  import opened EventLoop
  import opened Safety
  import opened Answered
  import Request
  import UrlCodec

  // ------------------------------------------------------------ one turn

  /** How many bytes a send accepts of those it is asked for. */
  function Taken(count: nat, want: nat): nat {
    if count > want then want else if count == 0 && want > 0 then 1 else count
  }

  /** How much of a body is asked for at a time. */
  function BodyWant(o: Out): nat {
    if o.replyLength <= o.replySent then 0
    else if o.replyType == FromFile && o.replyLength - o.replySent > 1048576 then 1048576
    else o.replyLength - o.replySent
  }

  /** select reports the socket, and it is the connection's turn in time. */
  ghost predicate Writable(cfg: Config, c: Conn, now: int, w: Waiting, io: map<int, Io>) {
    && c.socket in w.send && c.socket in io
    && (cfg.timeoutSecs > 0 ==> now - c.lastActive < cfg.timeoutSecs)
  }

  /**
   A turn of sending the body: a would-block changes nothing but the time, bytes that
   are accepted are counted and leave the connection sending until none is left, and
   anything else ends it.
   */
  lemma BodyTurn(cfg: Config, c: Conn, now: int, w: Waiting, io: map<int, Io>, k: Kernel)
    requires Sound(c) && c.state == SendReply && Writable(cfg, c, now, w, io)
    ensures var (c', k') := Turn(cfg, c, now, w, io, k);
            var o, left, want := io[c.socket].reply, c.out.replyLength - c.out.replySent, BodyWant(c.out);
            && k' == k
            && (o == SendAgain ==> c' == c.(lastActive := now))
            && (o.Sent? && want > 0 ==>
                  var n := Taken(o.count, want);
                  && c'.out == c.out.(replySent := c.out.replySent + n) && c'.totalSent == c.totalSent + n
                  && c'.state == (if n == left then Done else SendReply)
                  && c'.connClose == c.connClose && c'.incident == c.incident && c'.lastActive == now
                  && c'.socket == c.socket)
            && (o == SendError || o == SendClosed || (o.Sent? && want == 0) ==>
                  c'.state == Done && c'.connClose && c'.out == c.out && c'.incident == Some(SendFailed(o, want)))
  {
    hide Slice, SentPart;
    ReplyBytesCount(c, BodyWant(c.out), io[c.socket].reply);
  }

  lemma ReplyBytesCount(c: Conn, want: nat, o: SendOutcome)
    requires Sound(c) && c.state == SendReply && want == BodyWant(c.out)
    ensures want == ReplyWant(c.out) && |ReplyBytes(c.out, Accepted(o, want))| == Accepted(o, want)
  {
  }

  /** The same for the header, from which a turn goes straight on to the body, if there is one. */
  lemma HeaderTurn(cfg: Config, c: Conn, now: int, w: Waiting, io: map<int, Io>, k: Kernel)
    requires Sound(c) && c.state == SendHeader && Writable(cfg, c, now, w, io)
    ensures var (c', k') := Turn(cfg, c, now, w, io, k);
            var o, left := io[c.socket].header, c.out.headerLength - c.out.headerSent;
            && k' == k && left > 0
            && (o == SendAgain ==> c' == c.(lastActive := now))
            && (o.Sent? ==>
                  var n := Taken(o.count, left);
                  var out := c.out.(headerSent := c.out.headerSent + n);
                  && (n < left ==>
                        c'.state == SendHeader && c'.out == out && c'.connClose == c.connClose && c'.incident == c.incident)
                  && (n == left && c.out.headerOnly ==>
                        c'.state == Done && c'.out == out && c'.connClose == c.connClose && c'.incident == c.incident)
                  && (n == left && !c.out.headerOnly ==>
                        exists c1 :: Sound(c1) && c1.state == SendReply && c1.out == out && c1.socket == c.socket &&
                                     c1.connClose == c.connClose && c1.incident == c.incident &&
                                     c1.lastActive == now && c' == Turn(cfg, c1, now, w, io, k).0))
            && (o == SendError || o == SendClosed ==>
                  c'.state == Done && c'.connClose && c'.out == c.out && c'.incident == Some(SendFailed(o, left)))
  {
    hide Slice, SentPart, ReplyStep;
    var o := io[c.socket];
    var n := Accepted(o.header, HeaderWant(c.out));
    HeaderSendable_(c, now, o);
    if o.header.Sent? && n == HeaderWant(c.out) && !c.out.headerOnly {
      var c1 := Count(c.(lastActive := now), PutHeader(c.out, n), HeaderBytes(c.out, n)).(state := SendReply);
      assert Turn(cfg, c1, now, w, io, k).0 == ReplyStep(c1, now, o.reply);
      assert Sound(c1) && c1.state == SendReply;
    }
  }

  lemma HeaderSendable_(c: Conn, now: int, io: Io)
    requires Sound(c) && c.state == SendHeader
    ensures HeaderWant(c.out) == c.out.headerLength - c.out.headerSent > 0
    ensures var n := Accepted(io.header, HeaderWant(c.out));
            && |HeaderBytes(c.out, n)| == n
            && (n == HeaderWant(c.out) && !c.out.headerOnly ==>
                  Sound(Count(c.(lastActive := now), PutHeader(c.out, n), HeaderBytes(c.out, n)).(state := SendReply)))
  {
    var n := Accepted(io.header, HeaderWant(c.out));
    if n > 0 {
      PutHeaderOk(c.out, n);
      CountSound(c.(lastActive := now, state := Done, connClose := true), PutHeader(c.out, n), HeaderBytes(c.out, n));
    }
  }

  /**
   A turn of receiving: a would-block changes nothing, an error or a closure ends the
   connection, and a chunk is noted, byte for byte, together with the world it met.
   */
  lemma ReceivingTurn(cfg: Config, c: Conn, now: int, w: Waiting, io: map<int, Io>, k: Kernel)
    requires Sound(c) && c.state == RecvRequest && c.socket in w.recv && c.socket in io
    requires cfg.timeoutSecs > 0 ==> now - c.lastActive < cfg.timeoutSecs
    requires io[c.socket].recv.Received? ==> |io[c.socket].recv.chunk| <= 32768
    ensures var (c', k') := Turn(cfg, c, now, w, io, k);
            match io[c.socket].recv
            case RecvAgain => c' == c && k' == k
            case RecvError => k' == k && c'.state == Done && c'.connClose && c'.incident == Some(RecvFailed(RecvError))
            case Received(chunk) =>
              if chunk == [] then
                k' == k && c'.state == Done && c'.connClose && c'.incident == Some(RecvFailed(Received([])))
              else
                && c'.received == c.received + chunk && c'.requestLength == c.requestLength + |chunk|
                && c'.met == Some(io[c.socket].env) && c'.lastActive == now && c'.served == c.served
  {
    var o := io[c.socket];
    if o.recv.Received? && o.recv.chunk != [] {
      hide Digest, HeaderStep, ReplyStep, Sound;
      DigestSound(cfg, c, now, o, k);
      DigestNotes(cfg, c, now, o, k);
      var c1 := Digest(cfg, c, now, o, k).0;
      if c1.state == SendHeader {
        HeaderStepSound(c1, now, o);
      }
    }
  }

  lemma DigestNotes(cfg: Config, c: Conn, now: int, io: Io, k: Kernel)
    requires Sound(c) && c.state == RecvRequest
    ensures var c' := Digest(cfg, c, now, io, k).0; var chunk := Chunk(io.recv);
            && c'.received == c.received + chunk && c'.requestLength == c.requestLength + |chunk|
            && c'.met == Some(io.env) && c'.lastActive == now && c'.served == c.served
  {
    hide Answer, Sound, Asks, Request.Complete, OutOk;
    var c1 := Append(c, now, Chunk(io.recv), io.env);
    AppendSound(c, now, Chunk(io.recv), io.env);
    if Request.Complete(c1.request) {
      ProcessRequestReady(cfg, c1, io.env, k);
    }
  }

  /** A turn without anything ready cuts the connection if it was idle too long, and otherwise leaves it alone. */
  lemma IdleTurn(cfg: Config, c: Conn, now: int, w: Waiting, io: map<int, Io>, k: Kernel)
    requires c.socket !in io || (c.socket !in w.recv && c.socket !in w.send)
    ensures var (c', k') := Turn(cfg, c, now, w, io, k);
            && k' == k
            && if cfg.timeoutSecs > 0 && now - c.lastActive >= cfg.timeoutSecs
               then c'.state == Done && c'.connClose && c'.out == c.out && c'.incident == Some(TimedOut(now - c.lastActive))
               else c' == c
  {
  }

  // ------------------------------------------------------------ many turns

  datatype Moment = Moment(now: int, o: SendOutcome, env: Env)

  /** The turns of a connection whose socket is writable at these moments, until it is done. */
  function Sending(cfg: Config, c: Conn, moments: seq<Moment>, k: Kernel): Conn
    decreases |moments|
  {
    if moments == [] || c.state == Done then c
    else
      var m := moments[0];
      var c' := Turn(cfg, c, m.now, Waiting(false, {}, {c.socket}, true), map[c.socket := Io(RecvAgain, m.o, m.o, m.env)], k).0;
      Sending(cfg, c', moments[1..], k)
  }

  /** Each moment comes before the connection has been idle too long. */
  ghost predicate InTime(cfg: Config, last: int, moments: seq<Moment>)
    decreases |moments|
  {
    moments == [] ||
    ((cfg.timeoutSecs > 0 ==> moments[0].now - last < cfg.timeoutSecs) && InTime(cfg, moments[0].now, moments[1..]))
  }

  /** The socket blocks, or takes some of what it is given. */
  ghost predicate Takes(m: Moment) {
    m.o == SendAgain || (m.o.Sent? && 1 <= m.o.count <= 1048576)
  }

  function Total(moments: seq<Moment>): nat {
    if moments == [] then 0 else (if moments[0].o.Sent? then moments[0].o.count else 0) + Total(moments[1..])
  }

  /**
   A body that is taken piece by piece, in pieces of any size and with blocks between
   them, goes out whole, and the connection stays open or closes as it was to.
   */
  lemma {:induction false} BodyGoesOut(cfg: Config, c: Conn, moments: seq<Moment>, k: Kernel)
    requires Sound(c) && c.state == SendReply && c.out.replySent < c.out.replyLength
    requires InTime(cfg, c.lastActive, moments) && forall m :: m in moments ==> Takes(m)
    requires Total(moments) == c.out.replyLength - c.out.replySent
    ensures var c' := Sending(cfg, c, moments, k);
            && c'.state == Done && Whole(c'.out) && c'.out == c.out.(replySent := c.out.replyLength)
            && c'.connClose == c.connClose && c'.incident == c.incident
    decreases |moments|
  {
    hide Turn, Sound, Whole;
    var m := moments[0];
    var w, io := Waiting(false, {}, {c.socket}, true), map[c.socket := Io(RecvAgain, m.o, m.o, m.env)];
    assert m in moments && forall x :: x in moments[1..] ==> x in moments;
    BodyTurn(cfg, c, m.now, w, io, k);
    TurnSound(cfg, c, m.now, w, io, k);
    var c1 := Turn(cfg, c, m.now, w, io, k).0;
    if c1.state == Done {
      BodyWhole(c, c1);
    } else {
      BodyGoesOut(cfg, c1, moments[1..], k);
    }
  }

  lemma BodyWhole(c: Conn, c1: Conn)
    requires Sound(c) && c.state == SendReply && c1.out == c.out.(replySent := c.out.replyLength)
    ensures Whole(c1.out)
  {
  }

  // ------------------------------------------------------------ every run

  /** What counts as a reason to give a connection up. */
  predicate Trouble(cfg: Config, why: Incident) {
    match why
    case TimedOut(idle) => cfg.timeoutSecs > 0 && idle >= cfg.timeoutSecs
    case RecvFailed(recv) => recv == RecvError || (recv.Received? && recv.chunk == [])
    case SendFailed(send, want) => send == SendError || send == SendClosed || (send.Sent? && want == 0)
  }

  /** Whether the request asks for the connection to be closed, or is no request. */
  predicate Closing(cfg: Config, r: bytes) {
    !Request.Complete(r) || Request.Parse(r, cfg.request).None? || Request.Parse(r, cfg.request).value.connClose
  }

  /** Only trouble cuts a request short; without any it ends whole, and the connection closes as the request asks. */
  ghost predicate Ended(cfg: Config, c: Conn) {
    && (c.incident.Some? ==> c.state == Done && c.connClose && Trouble(cfg, c.incident.value))
    && (c.incident.None? ==> (c.state == Done ==> Whole(c.out)) && c.connClose == Closing(cfg, c.received))
  }

  ghost predicate AllEnded(cfg: Config, cs: seq<Conn>) {
    forall c :: c in cs ==> Ended(cfg, c)
  }

  /** c' differs from c by sending that met no trouble, or by trouble. */
  ghost predicate WentOn(cfg: Config, c: Conn, c': Conn) {
    && c'.received == c.received && c'.state != RecvRequest
    && (c'.incident.Some? ==> c'.state == Done && c'.connClose && Trouble(cfg, c'.incident.value))
    && (c'.incident.None? ==> c'.connClose == c.connClose && (c'.state == Done ==> Whole(c'.out)))
  }

  lemma ReplyWentOn(cfg: Config, c: Conn, now: int, o: SendOutcome)
    requires Sound(c) && c.state == SendReply && c.incident.None?
    ensures WentOn(cfg, c, ReplyStep(c, now, o))
  {
    hide Slice, SentPart;
  }

  lemma HeaderWentOn(cfg: Config, c: Conn, now: int, io: Io)
    requires Sound(c) && c.state == SendHeader && c.incident.None?
    ensures WentOn(cfg, c, HeaderStep(c, now, io))
  {
    hide Slice, SentPart, ReplyStep;
    HeaderSendable_(c, now, io);
    var n := Accepted(io.header, HeaderWant(c.out));
    if n == HeaderWant(c.out) && !c.out.headerOnly {
      ReplyWentOn(cfg, Count(c.(lastActive := now), PutHeader(c.out, n), HeaderBytes(c.out, n)).(state := SendReply), now, io.reply);
    }
  }

  lemma WentOnEnded(cfg: Config, c: Conn, c': Conn)
    requires Ended(cfg, c) && c.incident.None? && WentOn(cfg, c, c')
    ensures Ended(cfg, c')
  {
    hide Closing;
  }

  /** The answer settles whether the connection closes, by the request alone. */
  lemma AnswerCloses(cfg: Config, c: Conn, r: bytes, env: Env, k: Kernel)
    ensures var p := Request.Parse(r, cfg.request);
            Answer(cfg, c, r, env, k).0.connClose == (p.None? || p.value.connClose)
  {
    hide Request.Parse, NeedsHttps, ProcessGet;
    match Request.Parse(r, cfg.request)
    case None =>
    case Some(parsed) =>
      GetCloses(cfg, c.(connClose := parsed.connClose), r, parsed, env, k);
  }

  lemma GetCloses(cfg: Config, c: Conn, r: bytes, parsed: Request.Parsed, env: Env, k: Kernel)
    ensures ProcessGet(cfg, c, r, parsed, env, k).0.connClose == c.connClose
    ensures ProcessGet(cfg, c, r, parsed, env, k).0.incident == c.incident
  {
    hide UrlCodec.Locate, UrlCodec.HasDotFile, ForwardTarget, ServePath, Str;
    var path := UrlCodec.Locate(Str(parsed.url));
    if path.Some? {
      PathCloses(cfg, c, r, parsed.range, path.value, env, k);
    }
  }

  lemma PathCloses(cfg: Config, c: Conn, r: bytes, range: Option<bytes>, path: bytes, env: Env, k: Kernel)
    requires path != []
    ensures var a := ServePath(cfg, c, r, range, path, env, k).0; a.connClose == c.connClose && a.incident == c.incident
  {
    hide Route, Asked, Request.FieldValue, Str;
  }

  lemma DigestEnded(cfg: Config, c: Conn, now: int, io: Io, k: Kernel)
    requires Sound(c) && c.state == RecvRequest && Explained(cfg, c) && Ended(cfg, c)
    ensures var c' := Digest(cfg, c, now, io, k).0; Ended(cfg, c') && c'.incident.None? && c'.state != Done
  {
    hide Answer, Sound, Asks, Request.Complete, Request.Parse, OutOk;
    var c1 := Append(c, now, Chunk(io.recv), io.env);
    AppendSound(c, now, Chunk(io.recv), io.env);
    Waits(c);
    WaitsOpen(c);
    if Request.Complete(c1.request) {
      ProcessRequestReady(cfg, c1, io.env, k);
      AnswerCloses(cfg, c1.(handed := c1.handed + [c1.request]), c1.request, io.env, k);
    }
  }

  lemma WaitsOpen(c: Conn)
    requires Sound(c) && c.state == RecvRequest
    ensures c.connClose
  {
  }

  lemma RecvEnded(cfg: Config, c: Conn, now: int, io: Io, k: Kernel)
    requires Sound(c) && c.state == RecvRequest && Explained(cfg, c) && Ended(cfg, c)
    ensures Ended(cfg, RecvStep(cfg, c, now, io, k).0)
  {
    hide Digest, HeaderStep, Sound, Closing, Explained, WentOn;
    if Chunk(io.recv) != [] {
      DigestSound(cfg, c, now, io, k);
      DigestEnded(cfg, c, now, io, k);
      var c1 := Digest(cfg, c, now, io, k).0;
      if c1.state == SendHeader {
        HeaderWentOn(cfg, c1, now, io);
        WentOnEnded(cfg, c1, HeaderStep(c1, now, io));
      }
    }
  }

  lemma TurnEnded(cfg: Config, c: Conn, now: int, w: Waiting, io: map<int, Io>, k: Kernel)
    requires Sound(c) && Explained(cfg, c) && Ended(cfg, c)
    ensures Ended(cfg, Turn(cfg, c, now, w, io, k).0)
  {
    hide RecvStep, HeaderStep, ReplyStep, Sound, Closing, Explained, WentOn;
    var c1 := CheckTimeout(cfg, c, now);
    if c1 == c && c.socket in io {
      match c.state
      case RecvRequest => RecvEnded(cfg, c, now, io[c.socket], k);
      case SendHeader =>
        HeaderWentOn(cfg, c, now, io[c.socket]);
        WentOnEnded(cfg, c, HeaderStep(c, now, io[c.socket]));
      case SendReply =>
        ReplyWentOn(cfg, c, now, io[c.socket].reply);
        WentOnEnded(cfg, c, ReplyStep(c, now, io[c.socket].reply));
      case Done =>
    }
  }

  lemma RecycledEnded(cfg: Config, c: Conn)
    ensures Ended(cfg, Recycled(c))
  {
  }

  lemma VisitEnded(cfg: Config, base: set<int>, s: Sys, pending: seq<Conn>, w: Waiting, io: map<int, Io>)
    requires MidInv(cfg, base, s, pending) && pending != []
    requires AllEnded(cfg, s.conns + s.retired) && Ended(cfg, pending[0]) && Explained(cfg, pending[0])
    ensures var t := Visit(cfg, s, pending[0], w, io); AllEnded(cfg, t.conns + t.retired)
  {
    hide Ended, Explained, Turn, Sound, Recycled, CloseFd;
    var c := pending[0];
    assert c in pending;
    TurnEnded(cfg, c, s.now, w, io, s.kernel);
    RecycledEnded(cfg, Turn(cfg, c, s.now, w, io, s.kernel).0);
  }

  lemma {:induction false} SweepEnded(cfg: Config, base: set<int>, s: Sys, pending: seq<Conn>, w: Waiting, io: map<int, Io>)
    requires MidInv(cfg, base, s, pending)
    requires AllEnded(cfg, s.conns + s.retired) && AllEnded(cfg, pending) && AllExplained(cfg, pending)
    ensures var t := Sweep(cfg, s, pending, w, io); AllEnded(cfg, t.conns + t.retired)
    decreases |pending|
  {
    hide Ended, Explained, Visit, MidInv;
    if pending != [] {
      assert pending[0] in pending;
      assert forall c :: c in pending[1..] ==> c in pending;
      VisitMidInv(cfg, base, s, pending, w, io);
      VisitEnded(cfg, base, s, pending, w, io);
      SweepEnded(cfg, base, Visit(cfg, s, pending[0], w, io), pending[1..], w, io);
    }
  }

  lemma AcceptEnded(cfg: Config, s: Sys, a: AcceptOutcome)
    requires AllEnded(cfg, s.conns + s.retired)
    ensures var t := AcceptStep(cfg, s, a); AllEnded(cfg, t.conns + t.retired)
  {
    hide RecvStep, Sound;
    if a.Accepts? {
      var fd := LowestFree(s.kernel.open, 0);
      var c := Fresh(fd, s.now);
      FreshSound(fd, s.now);
      assert Explained(cfg, c) && Ended(cfg, c);
      hide Ended, Explained;
      RecvEnded(cfg, c, s.now, a.io, s.kernel.(open := s.kernel.open + {fd}));
    }
  }

  lemma PollEnded(cfg: Config, base: set<int>, s: Sys, ev: PollEvent)
    requires Inv(cfg, base, s) && AllEnded(cfg, s.conns + s.retired) && AllExplained(cfg, s.conns + s.retired)
    ensures var t := Poll(cfg, s, ev); AllEnded(cfg, t.conns + t.retired)
  {
    hide Inv, MidInv, AcceptStep, Sweep, Await, Ended, Explained;
    match ev
    case Interrupted =>
    case Ready(now, accept, io) =>
      var s1 := s.(now := now);
      var w := Await(cfg, s.conns, s.accepting);
      var s2 := if w.listener && accept.Some? then AcceptStep(cfg, s1, accept.value) else s1;
      MidStart(cfg, base, s, now);
      assert s1.(conns := []) == s.(now := now, conns := []);
      if w.listener && accept.Some? {
        AcceptMidInv(cfg, base, s1, accept.value);
        AcceptEnded(cfg, s1, accept.value);
        AcceptExplained(cfg, s1, accept.value);
      }
      assert AllEnded(cfg, s2.conns) && AllEnded(cfg, [] + s2.retired) && AllExplained(cfg, s2.conns);
      SweepEnded(cfg, base, s2.(conns := []), s2.conns, w, io);
  }

  /**
   After every run, for every request, live or over: only an error, a closure, an empty
   body or the timeout has cut it short; and without any of them it ends whole, and the
   connection closes exactly if the request asks for it.
   */
  lemma {:induction false} RunEnded(cfg: Config, base: set<int>, now: int, evs: seq<PollEvent>)
    ensures var s := Run(cfg, Start(base, now), evs); AllEnded(cfg, s.conns + s.retired)
    decreases |evs|
  {
    hide Inv, Poll, Ended, Explained;
    if evs != [] {
      var n := |evs| - 1;
      RunEnded(cfg, base, now, evs[..n]);
      RunExplained(cfg, base, now, evs[..n]);
      RunInv(cfg, base, now, evs[..n]);
      PollEnded(cfg, base, Run(cfg, Start(base, now), evs[..n]), evs[n]);
    }
  }

  /** In every run, a request that is over without having been answered whole met with trouble. */
  lemma CutShort(cfg: Config, base: set<int>, now: int, evs: seq<PollEvent>, c: Conn)
    requires c in Run(cfg, Start(base, now), evs).retired
    ensures !Whole(c.out) ==> c.incident.Some? && Trouble(cfg, c.incident.value) && c.connClose
    ensures c.incident.None? ==> Whole(c.out) && c.connClose == Closing(cfg, c.received)
  {
    hide Run, Whole, Closing;
    RunEnded(cfg, base, now, evs);
    RunInv(cfg, base, now, evs);
    var s := Run(cfg, Start(base, now), evs);
    assert c in s.conns + s.retired;
  }

  // ------------------------------------------------------------ the end of a turn

  /** The descriptor is that of the file being sent. */
  predicate Reads(c: Conn, fd: int) {
    c.replyFd != -1 && fd == c.replyFd
  }

  /**
   What becomes of a connection after its turn: unfinished it stays as it is; finished
   and closing it goes, with its descriptors; finished otherwise it waits for the next
   request as a new one would, with its socket and what was sent on it.
   */
  lemma SettleMeans(s: Sys, c: Conn)
    requires Sound(c)
    ensures var t := Settle(s, c);
            && (c.state != Done ==> t == s.(conns := s.conns + [c]))
            && (c.state == Done ==> t.retired == s.retired + [c] && t.accepting && t.kernel.touched == s.kernel.touched)
            && (c.state == Done && c.connClose ==>
                  t.conns == s.conns && t.kernel.open == set fd | fd in s.kernel.open && fd != c.socket && !Reads(c, fd))
            && (c.state == Done && !c.connClose ==>
                  && t.kernel.open == (set fd | fd in s.kernel.open && !Reads(c, fd))
                  && t.conns == s.conns + [Fresh(c.socket, c.lastActive).(wire := c.wire, served := c.served + [Response(c.out)])])
  {
    hide Response;
  }

  /** accept_connection puts one connection in front, on the lowest free descriptor, and touches no other. */
  lemma AcceptMeans(cfg: Config, s: Sys, a: AcceptOutcome)
    ensures var t := AcceptStep(cfg, s, a);
            match a
            case AcceptFails(exhausted) => t == s.(accepting := s.accepting && !exhausted)
            case Accepts(io) =>
              var fd := LowestFree(s.kernel.open, 0);
              var c := Fresh(fd, s.now);
              && |t.conns| == |s.conns| + 1 && t.conns[1..] == s.conns && t.conns[0].socket == fd
              && t.accepting == s.accepting && t.retired == s.retired
              && t.conns[0] == RecvStep(cfg, c, s.now, io, s.kernel.(open := s.kernel.open + {fd})).0
  {
    hide Digest, HeaderStep;
    if a.Accepts? {
      var fd := LowestFree(s.kernel.open, 0);
      FreshSound(fd, s.now);
      RecvStepSound(cfg, Fresh(fd, s.now), s.now, a.io, s.kernel.(open := s.kernel.open + {fd}));
    }
  }

  // ------------------------------------------------------------ one poll

  lemma SettleKeeps(s: Sys, c: Conn)
    ensures var t := Settle(s, c);
            && s.conns <= t.conns && s.retired <= t.retired && t.now == s.now
            && (c.state != Done ==> c in t.conns)
            && (c.state == Done ==> c in t.retired)
            && (c.state == Done && !c.connClose ==> Recycled(c) in t.conns)
  {
    hide Recycled;
  }

  lemma {:induction false} SweepKeeps(cfg: Config, s: Sys, pending: seq<Conn>, w: Waiting, io: map<int, Io>)
    ensures var t := Sweep(cfg, s, pending, w, io); s.conns <= t.conns && s.retired <= t.retired && t.now == s.now
    decreases |pending|
  {
    hide Turn, Settle;
    if pending != [] {
      var (c', k') := Turn(cfg, pending[0], s.now, w, io, s.kernel);
      SettleKeeps(Account(s, pending[0], c', k'), c');
      SweepKeeps(cfg, Visit(cfg, s, pending[0], w, io), pending[1..], w, io);
    }
  }

  /** What a turn leaves of a connection is listed, or retired, and then perhaps listed anew. */
  ghost predicate Placed(t: Sys, c: Conn) {
    if c.state != Done then c in t.conns
    else c in t.retired && (!c.connClose ==> Recycled(c) in t.conns)
  }

  lemma {:induction false} SweepTurn(cfg: Config, s: Sys, pending: seq<Conn>, w: Waiting, io: map<int, Io>, i: nat)
      returns (k: Kernel)
    requires i < |pending|
    ensures Placed(Sweep(cfg, s, pending, w, io), Turn(cfg, pending[i], s.now, w, io, k).0)
    decreases |pending|
  {
    hide Turn, Settle, Recycled;
    var (c', k') := Turn(cfg, pending[0], s.now, w, io, s.kernel);
    var s1 := Account(s, pending[0], c', k');
    SettleKeeps(s1, c');
    if i == 0 {
      k := s.kernel;
      SweepKeeps(cfg, Settle(s1, c'), pending[1..], w, io);
    } else {
      k := SweepTurn(cfg, Visit(cfg, s, pending[0], w, io), pending[1..], w, io, i - 1);
    }
  }

  /** In a poll the clock is set, and every listed connection has its turn, with what select waited for. */
  lemma PollTurn(cfg: Config, s: Sys, now: int, accept: Option<AcceptOutcome>, io: map<int, Io>, i: nat) returns (k: Kernel)
    requires i < |s.conns|
    ensures var t := Poll(cfg, s, Ready(now, accept, io));
            && t.now == now
            && Placed(t, Turn(cfg, s.conns[i], now, Await(cfg, s.conns, s.accepting), io, k).0)
  {
    hide Turn, AcceptStep, Await, Sweep, Placed;
    var s1 := s.(now := now);
    var w := Await(cfg, s.conns, s.accepting);
    if w.listener && accept.Some? {
      AcceptMeans(cfg, s1, accept.value);
      AcceptNow(cfg, s1, accept.value);
      var s2 := AcceptStep(cfg, s1, accept.value);
      var j := if accept.value.Accepts? then i + 1 else i;
      assert s2.conns[j] == s.conns[i];
      SweepKeeps(cfg, s2.(conns := []), s2.conns, w, io);
      k := SweepTurn(cfg, s2.(conns := []), s2.conns, w, io, j);
    } else {
      SweepKeeps(cfg, s1.(conns := []), s1.conns, w, io);
      k := SweepTurn(cfg, s1.(conns := []), s1.conns, w, io, i);
    }
  }

  lemma AcceptNow(cfg: Config, s: Sys, a: AcceptOutcome)
    ensures AcceptStep(cfg, s, a).now == s.now
  {
    hide RecvStep;
  }

  /** What is waited for: the listener while accepting, each connection by its state, and with a timeout only if one is set. */
  lemma AwaitMeans(cfg: Config, conns: seq<Conn>, accepting: bool, fd: int)
    ensures var w := Await(cfg, conns, accepting);
            && w.listener == accepting
            && (fd in w.recv <==> Wants(conns, {RecvRequest}, fd))
            && (fd in w.send <==> Wants(conns, {SendHeader, SendReply}, fd))
            && (w.bother <==> cfg.timeoutSecs != 0 && (w.recv != {} || w.send != {}))
  {
    hide Wants, WaitingFor;
    WaitingMeans(conns, accepting, fd);
  }
}
