/** What holds after every run of the event loop, whatever the outside world does. */
module Safety {
  import opened Bytes
  import opened Conn
  import opened Process
  import opened ProcessProofs
  import opened EventLoop
  import Request

  // ------------------------------------------------------------ one connection

  /** A turn leaves the connection sound and is the only one to move its descriptors. */
  ghost predicate TurnOk(cfg: Config, c: Conn, now: int, k: Kernel, c': Conn, k': Kernel) {
    && Sound(c') && Holds(c, k, c', k') && Asks(cfg, k, k')
    && c'.socket == c.socket && (c'.replyFd == c.replyFd || c.replyFd == -1)
    && (c'.lastActive == now || c'.lastActive == c.lastActive)
  }

  lemma AsksNothing(cfg: Config, k: Kernel)
    ensures Asks(cfg, k, k)
  {
    AsksMore(cfg, k, [], []);
  }

  lemma NothingSent()
    ensures SentPart(NOTHING) == [] && OutOk(NOTHING)
  {
  }

  /** A prepared reply has sent nothing yet. */
  lemma PreparedSound(c: Conn, a: Conn)
    requires Sound(c) && c.state == RecvRequest
    requires Prepared(c.(handed := c.handed + [c.request]), a)
    requires a.state == SendHeader && a.replyFd >= -1
    ensures Sound(a) && a.out.headerSent == 0 && a.out.replySent == 0
    ensures a.socket == c.socket && a.lastActive == c.lastActive
  {
    NothingSent();
    assert SentPart(a.out) == [];
  }

  lemma TooLongSound(a: Conn, env: Env)
    requires Sound(a) && a.out.headerSent == 0 && a.out.replySent == 0
    ensures var b := TooLong(a, env);
            Sound(b) && b.socket == a.socket && b.lastActive == a.lastActive && b.replyFd == a.replyFd
  {
    var b := TooLong(a, env);
    assert SentPart(b.out) == [] == SentPart(a.out);
  }

  lemma AppendSound(c: Conn, now: int, chunk: bytes, env: Env)
    requires Sound(c) && c.state == RecvRequest
    ensures var c1 := Append(c, now, chunk, env);
            Sound(c1) && c1.out == NOTHING && c1.replyFd == -1
    ensures c.replyFd == -1
  {
  }

  lemma DigestSound(cfg: Config, c: Conn, now: int, io: Io, k: Kernel)
    requires Sound(c) && c.state == RecvRequest
    ensures var (c', k') := Digest(cfg, c, now, io, k);
            && TurnOk(cfg, c, now, k, c', k')
            && (c'.state == RecvRequest || c'.state == SendHeader)
  {
    hide ProcessRequest, Sound, Prepared, Asks;
    AsksNothing(cfg, k);
    var chunk := Chunk(io.recv);
    var c1 := Append(c, now, chunk, io.env);
    AppendSound(c, now, chunk, io.env);
    if Request.Complete(c1.request) {
      ProcessRequestReady(cfg, c1, io.env, k);
      var (a, k') := ProcessRequest(cfg, c1, io.env, k);
      PreparedSound(c1, a);
      TooLongSound(a, io.env);
    } else {
      TooLongSound(c1, io.env);
    }
  }

  lemma RecvStepSound(cfg: Config, c: Conn, now: int, io: Io, k: Kernel)
    requires Sound(c) && c.state == RecvRequest
    ensures var (c', k') := RecvStep(cfg, c, now, io, k); TurnOk(cfg, c, now, k, c', k')
  {
    hide Digest, HeaderStep;
    AsksNothing(cfg, k);
    if Chunk(io.recv) != [] {
      DigestSound(cfg, c, now, io, k);
      var (c1, k1) := Digest(cfg, c, now, io, k);
      if c1.state == SendHeader {
        HeaderStepSound(c1, now, io);
      }
    }
  }

  lemma TurnSound(cfg: Config, c: Conn, now: int, w: Waiting, io: map<int, Io>, k: Kernel)
    requires Sound(c)
    ensures var (c', k') := Turn(cfg, c, now, w, io, k);
            && TurnOk(cfg, c, now, k, c', k')
            && (cfg.timeoutSecs > 0 && c'.state != Done ==> now - c'.lastActive < cfg.timeoutSecs)
            && (cfg.timeoutSecs > 0 && now - c.lastActive >= cfg.timeoutSecs ==> c'.state == Done && c'.connClose)
  {
    hide RecvStep, HeaderStep, ReplyStep;
    AsksNothing(cfg, k);
    var c1 := CheckTimeout(cfg, c, now);
    if c.socket in io {
      if c1.state == RecvRequest {
        RecvStepSound(cfg, c1, now, io[c.socket], k);
      } else if c1.state == SendHeader {
        HeaderStepSound(c1, now, io[c.socket]);
      } else if c1.state == SendReply {
        ReplyStepSound(c1, now, io[c.socket].reply);
      }
    }
  }

  // ------------------------------------------------------------ the books

  /** What a list of connections holds and has done. */
  datatype Tally = Tally(fds: multiset<int>, received: int, sent: int, handed: int)

  function Owned(c: Conn): multiset<int> {
    multiset{c.socket} + (if c.replyFd == -1 then multiset{} else multiset{c.replyFd})
  }

  function Plus(a: Tally, b: Tally): Tally {
    Tally(a.fds + b.fds, a.received + b.received, a.sent + b.sent, a.handed + b.handed)
  }

  function Entry(c: Conn): Tally {
    Tally(Owned(c), c.requestLength, c.totalSent, |c.handed|)
  }

  function Sum(cs: seq<Conn>): Tally {
    if cs == [] then Tally(multiset{}, 0, 0, 0) else Plus(Entry(cs[0]), Sum(cs[1..]))
  }

  lemma {:induction false} SumConcat(a: seq<Conn>, b: seq<Conn>)
    ensures Sum(a + b) == Plus(Sum(a), Sum(b))
  {
    if a == [] {
      assert a + b == b;
      assert multiset{} + Sum(b).fds == Sum(b).fds;
    } else {
      calc {
        Sum(a + b);
        { assert (a + b)[1..] == a[1..] + b; }
        Plus(Entry(a[0]), Sum(a[1..] + b));
        { SumConcat(a[1..], b); }
        Plus(Entry(a[0]), Plus(Sum(a[1..]), Sum(b)));
        { PlusAssociates(Entry(a[0]), Sum(a[1..]), Sum(b)); }
        Plus(Plus(Entry(a[0]), Sum(a[1..])), Sum(b));
        Plus(Sum(a), Sum(b));
      }
    }
  }

  lemma PlusAssociates(a: Tally, b: Tally, c: Tally)
    ensures Plus(Plus(a, b), c) == Plus(a, Plus(b, c))
    ensures Plus(a, b) == Plus(b, a)
  {
  }

  lemma SumOne(c: Conn)
    ensures Sum([c]) == Entry(c)
  {
    assert [c][1..] == [];
  }

  /**
   The descriptors are exactly base, one socket per connection and the open reply
   files, each once; the counters are the sums over finished and live requests.
   */
  ghost predicate Balanced(base: set<int>, s: Sys, live: Tally) {
    var old_ := Sum(s.retired);
    && multiset(s.kernel.open) == multiset(base) + live.fds
    && s.totalIn == old_.received + live.received
    && s.totalOut == old_.sent + live.sent
    && s.numRequests == old_.handed + live.handed
  }

  /** A request that is over: recycled only if its whole response is on the wire. */
  ghost predicate Over(c: Conn) {
    Sound(c) && c.state == Done
  }

  ghost predicate Timely(cfg: Config, c: Conn, now: int) {
    cfg.timeoutSecs > 0 ==> now - c.lastActive < cfg.timeoutSecs
  }

  ghost predicate Settled(cfg: Config, c: Conn, now: int) {
    Sound(c) && c.state != Done && Timely(cfg, c, now)
  }

  /** What holds between polls. */
  ghost predicate Inv(cfg: Config, base: set<int>, s: Sys) {
    && (forall c :: c in s.conns ==> Settled(cfg, c, s.now))
    && (forall c :: c in s.retired ==> Over(c))
    && AllConfined(cfg, s.kernel.touched)
    && Balanced(base, s, Sum(s.conns))
  }

  /** What holds in the middle of a sweep, with some connections still to visit. */
  ghost predicate MidInv(cfg: Config, base: set<int>, s: Sys, pending: seq<Conn>) {
    && (forall c :: c in s.conns ==> Settled(cfg, c, s.now))
    && (forall c :: c in pending ==> Sound(c))
    && (forall c :: c in s.retired ==> Over(c))
    && AllConfined(cfg, s.kernel.touched)
    && Balanced(base, s, Plus(Sum(s.conns), Sum(pending)))
  }

  lemma MultisetAdd(open: set<int>, fd: int)
    requires fd !in open
    ensures multiset(open + {fd}) == multiset(open) + multiset{fd}
  {
  }

  lemma MultisetRemove(open: set<int>, fd: int)
    requires fd in open
    ensures multiset(open - {fd}) == multiset(open) - multiset{fd}
  {
  }

  /** Account moves the books with the connection. */
  lemma AccountBalanced(cfg: Config, base: set<int>, s: Sys, rest: Tally, c: Conn, now: int, c': Conn, k': Kernel)
    requires TurnOk(cfg, c, now, s.kernel, c', k')
    requires Balanced(base, s, Plus(Entry(c), rest))
    ensures Balanced(base, Account(s, c, c', k'), Plus(Entry(c'), rest))
  {
    if c'.replyFd != c.replyFd {
      MultisetAdd(s.kernel.open, c'.replyFd);
    }
  }

  lemma RemoveOne(open: set<int>, fd: int, base: set<int>, rest: multiset<int>)
    requires multiset(open) == multiset(base) + (multiset{fd} + rest)
    ensures fd in open
    ensures multiset(open - {fd}) == multiset(base) + rest
  {
    assert fd in multiset(open);
    MultisetRemove(open, fd);
  }

  /** Closing what a connection owns takes exactly that out of the table, each descriptor once. */
  lemma CloseBalanced(open: set<int>, base: set<int>, rest: multiset<int>, c: Conn)
    requires c.socket >= 0 && c.replyFd >= -1
    requires multiset(open) == multiset(base) + (Owned(c) + rest)
    ensures c.socket in open && (c.replyFd != -1 ==> c.replyFd in CloseFd(open, c.socket))
    ensures multiset(CloseFd(CloseFd(open, c.socket), c.replyFd)) == multiset(base) + rest
    ensures c.replyFd != -1 ==> c.replyFd in open
    ensures multiset(CloseFd(open, c.replyFd)) == multiset(base) + (multiset{c.socket} + rest)
  {
    var own := if c.replyFd == -1 then multiset{} else multiset{c.replyFd};
    assert Owned(c) + rest == multiset{c.socket} + (own + rest);
    RemoveOne(open, c.socket, base, own + rest);
    if c.replyFd != -1 {
      RemoveOne(open - {c.socket}, c.replyFd, base, rest);
      assert Owned(c) + rest == multiset{c.replyFd} + (multiset{c.socket} + rest);
      RemoveOne(open, c.replyFd, base, multiset{c.socket} + rest);
    }
  }

  // ------------------------------------------------------------ one visit

  /** Recycling files the whole response away; the wire itself does not move. */
  lemma RecycledSound(c: Conn)
    requires Over(c) && !c.connClose
    ensures Sound(Recycled(c)) && Recycled(c).state == RecvRequest
    ensures Entry(Recycled(c)) == Tally(multiset{c.socket}, 0, 0, 0)
  {
    SentIsPrefix(c.out);
    NothingSent();
    assert (c.served + [Response(c.out)])[..|c.served|] == c.served;
  }

  /** Moving a finished request to the retired ones keeps every book. */
  lemma RetireBalanced(base: set<int>, s: Sys, c: Conn, open: set<int>, live: Tally, left: Tally)
    requires Balanced(base, s, Plus(Entry(c), live))
    requires left.received == left.sent == left.handed == 0
    requires multiset(open) == multiset(base) + (left.fds + live.fds)
    ensures Balanced(base, s.(kernel := s.kernel.(open := open), accepting := true, retired := s.retired + [c]),
                     Plus(left, live))
  {
    SumConcat(s.retired, [c]);
    SumOne(c);
  }

  lemma SettleBalanced(base: set<int>, s: Sys, c: Conn, rest: seq<Conn>)
    requires Sound(c) && Balanced(base, s, Plus(Entry(c), Plus(Sum(s.conns), Sum(rest))))
    ensures var t := Settle(s, c); Balanced(base, t, Plus(Sum(t.conns), Sum(rest)))
  {
    hide Sound, Balanced, Plus, Sum, Recycled;
    var live := Plus(Sum(s.conns), Sum(rest));
    SoundOwner(c);
    if c.state != Done {
      SumOne(c);
      SumConcat(s.conns, [c]);
      Shuffle(Entry(c), Sum(s.conns), Sum(rest));
      BalancedAny(base, s, Settle(s, c), Plus(Entry(c), live));
    } else if c.connClose {
      RemovedBalanced(base, s, c, live);
    } else {
      var again := Recycled(c);
      KeptBalanced(base, s, c, live);
      RecycledSound(c);
      SumOne(again);
      SumConcat(s.conns, [again]);
      Shuffle(Entry(again), Sum(s.conns), Sum(rest));
      BalancedAny(base, s.(kernel := s.kernel.(open := CloseFd(s.kernel.open, c.replyFd)), accepting := true,
                           retired := s.retired + [c]),
                  Settle(s, c), Plus(Entry(again), live));
    }
  }

  lemma RemovedBalanced(base: set<int>, s: Sys, c: Conn, live: Tally)
    requires c.socket >= 0 && c.replyFd >= -1 && c.state == Done && c.connClose
    requires Balanced(base, s, Plus(Entry(c), live))
    ensures Balanced(base, Settle(s, c), live)
  {
    var none := Sum([]);
    CloseBalanced(s.kernel.open, base, live.fds, c);
    SumNone(live);
    RetireBalanced(base, s, c, CloseFd(CloseFd(s.kernel.open, c.socket), c.replyFd), live, none);
  }

  lemma KeptBalanced(base: set<int>, s: Sys, c: Conn, live: Tally)
    requires Over(c) && !c.connClose
    requires Balanced(base, s, Plus(Entry(c), live))
    ensures Balanced(base, s.(kernel := s.kernel.(open := CloseFd(s.kernel.open, c.replyFd)), accepting := true,
                              retired := s.retired + [c]),
                     Plus(Entry(Recycled(c)), live))
  {
    SoundOwner(c);
    RecycledSound(c);
    CloseBalanced(s.kernel.open, base, live.fds, c);
    RetireBalanced(base, s, c, CloseFd(s.kernel.open, c.replyFd), live, Entry(Recycled(c)));
  }

  lemma SoundOwner(c: Conn)
    requires Sound(c)
    ensures c.socket >= 0 && c.replyFd >= -1
  {
  }

  lemma Shuffle(a: Tally, b: Tally, c: Tally)
    ensures Plus(a, Plus(b, c)) == Plus(Plus(b, a), c)
  {
    PlusAssociates(b, a, c);
    PlusAssociates(a, b, c);
  }

  /** What one visit adds to the kept and to the retired connections. */
  lemma SettleParts(cfg: Config, s: Sys, c: Conn)
    requires Sound(c) && (c.state != Done ==> Timely(cfg, c, s.now))
    requires forall x :: x in s.conns ==> Settled(cfg, x, s.now)
    requires forall x :: x in s.retired ==> Over(x)
    requires cfg.timeoutSecs > 0 && c.state == Done && !c.connClose ==> Timely(cfg, c, s.now)
    ensures var t := Settle(s, c);
            && t.now == s.now && t.kernel.touched == s.kernel.touched
            && (forall x :: x in t.conns ==> Settled(cfg, x, t.now))
            && (forall x :: x in t.retired ==> Over(x))
  {
    hide Sound;
    if c.state == Done && !c.connClose {
      RecycledSound(c);
    }
  }

  lemma TouchedGrows(cfg: Config, k: Kernel, k': Kernel)
    requires Asks(cfg, k, k') && AllConfined(cfg, k.touched)
    ensures AllConfined(cfg, k'.touched)
  {
    var n := |k.touched|;
    assert k'.touched == k'.touched[..n] + k'.touched[n..];
    assert k'.touched[..n] == k.touched;
  }

  /** The books in the middle of a visit, after the turn. */
  lemma TurnBalanced(cfg: Config, base: set<int>, s: Sys, pending: seq<Conn>, w: Waiting, io: map<int, Io>)
    requires MidInv(cfg, base, s, pending) && pending != []
    ensures Sound(pending[0])
    ensures var (c', k') := Turn(cfg, pending[0], s.now, w, io, s.kernel);
            && TurnOk(cfg, pending[0], s.now, s.kernel, c', k')
            && Balanced(base, Account(s, pending[0], c', k'), Plus(Entry(c'), Plus(Sum(s.conns), Sum(pending[1..]))))
  {
    hide Turn, Sound, Confined;
    var c, rest := pending[0], pending[1..];
    assert c in pending;
    TurnSound(cfg, c, s.now, w, io, s.kernel);
    var (c', k') := Turn(cfg, c, s.now, w, io, s.kernel);
    var others := Plus(Sum(s.conns), Sum(rest));
    PlusAssociates(Sum(s.conns), Entry(c), Sum(rest));
    PlusAssociates(Entry(c), Sum(s.conns), Sum(rest));
    assert Sum(pending) == Plus(Entry(c), Sum(rest));
    AccountBalanced(cfg, base, s, others, c, s.now, c', k');
  }

  lemma VisitMidInv(cfg: Config, base: set<int>, s: Sys, pending: seq<Conn>, w: Waiting, io: map<int, Io>)
    requires MidInv(cfg, base, s, pending) && pending != []
    ensures MidInv(cfg, base, Visit(cfg, s, pending[0], w, io), pending[1..])
    ensures Visit(cfg, s, pending[0], w, io).now == s.now
  {
    hide Turn, Sound, Settle, Confined, Balanced, Sum, Plus, Entry;
    var c, rest := pending[0], pending[1..];
    assert forall x :: x in rest ==> x in pending;
    TurnBalanced(cfg, base, s, pending, w, io);
    TurnSound(cfg, c, s.now, w, io, s.kernel);
    var (c', k') := Turn(cfg, c, s.now, w, io, s.kernel);
    var s1 := Account(s, c, c', k');
    SettleBalanced(base, s1, c', rest);
    TouchedGrows(cfg, s.kernel, k');
    SettleParts(cfg, s1, c');
  }

  lemma SumNone(t: Tally)
    ensures Plus(t, Sum([])) == t && Plus(Sum([]), t) == t
  {
    assert t.fds + multiset{} == t.fds && multiset{} + t.fds == t.fds;
  }

  lemma MidEnd(cfg: Config, base: set<int>, s: Sys)
    requires MidInv(cfg, base, s, [])
    ensures Inv(cfg, base, s)
  {
    hide Settled, Over, Confined, Balanced, Sum, Plus;
    SumNone(Sum(s.conns));
  }

  /** Before the sweep every connection is still pending. */
  lemma MidStart(cfg: Config, base: set<int>, s: Sys, now: int)
    requires Inv(cfg, base, s)
    ensures MidInv(cfg, base, s.(now := now, conns := []), s.conns)
  {
    hide Sound, Over, Confined, Balanced, Sum, Plus;
    SumNone(Sum(s.conns));
    BalancedAny(base, s, s.(now := now, conns := []), Sum(s.conns));
  }

  lemma {:induction false} SweepMidInv(cfg: Config, base: set<int>, s: Sys, pending: seq<Conn>, w: Waiting, io: map<int, Io>)
    requires MidInv(cfg, base, s, pending)
    ensures Inv(cfg, base, Sweep(cfg, s, pending, w, io))
    ensures Sweep(cfg, s, pending, w, io).now == s.now
    decreases |pending|
  {
    hide Visit, MidInv, Inv;
    if pending == [] {
      MidEnd(cfg, base, s);
    } else {
      VisitMidInv(cfg, base, s, pending, w, io);
      SweepMidInv(cfg, base, Visit(cfg, s, pending[0], w, io), pending[1..], w, io);
    }
  }

  // ------------------------------------------------------------ one poll

  lemma FreshSound(fd: int, now: int)
    requires fd >= 0
    ensures Sound(Fresh(fd, now)) && Fresh(fd, now).state == RecvRequest
    ensures Entry(Fresh(fd, now)) == Tally(multiset{fd}, 0, 0, 0)
  {
    NothingSent();
  }

  /** The books with a fresh descriptor opened for a new connection. */
  lemma OpenBalanced(base: set<int>, s: Sys, live: Tally, c: Conn)
    requires Balanced(base, s, live) && c.socket !in s.kernel.open
    requires Entry(c) == Tally(multiset{c.socket}, 0, 0, 0)
    ensures Balanced(base, s.(kernel := s.kernel.(open := s.kernel.open + {c.socket})), Plus(Entry(c), live))
  {
    MultisetAdd(s.kernel.open, c.socket);
  }

  lemma SumCons(c: Conn, cs: seq<Conn>)
    ensures Sum([c] + cs) == Plus(Entry(c), Sum(cs))
  {
    assert ([c] + cs)[1..] == cs;
  }

  /** Accepting: the new connection takes one fresh descriptor, and may already be done. */
  lemma AcceptMidInv(cfg: Config, base: set<int>, s: Sys, a: AcceptOutcome)
    requires MidInv(cfg, base, s.(conns := []), s.conns)
    ensures var t := AcceptStep(cfg, s, a);
            MidInv(cfg, base, t.(conns := []), t.conns) && t.now == s.now
  {
    hide RecvStep, Sound, Over, Confined, Balanced, Entry, Plus, Sum;
    match a
    case AcceptFails(exhausted) =>
      BalancedAny(base, s.(conns := []), AcceptStep(cfg, s, a).(conns := []), Plus(Sum([]), Sum(s.conns)));
    case Accepts(io) =>
      var fd := LowestFree(s.kernel.open, 0);
      var c := Fresh(fd, s.now);
      var k := s.kernel.(open := s.kernel.open + {fd});
      FreshSound(fd, s.now);
      RecvStepSound(cfg, c, s.now, io, k);
      var (c', k') := RecvStep(cfg, c, s.now, io, k);
      var live := Sum(s.conns);
      SumNone(live);
      BalancedAny(base, s.(conns := []), s, live);
      OpenBalanced(base, s, live, c);
      var s1 := s.(kernel := k);
      AccountBalanced(cfg, base, s1, live, c, s.now, c', k');
      TouchedGrows(cfg, k, k');
      SumCons(c', s.conns);
      SumNone(Sum([c'] + s.conns));
      var t := AcceptStep(cfg, s, a);
      BalancedAny(base, Account(s1, c, c', k'), t.(conns := []), Sum(t.conns));
  }

  /** The books do not depend on the list itself. */
  lemma BalancedAny(base: set<int>, s: Sys, t: Sys, live: Tally)
    requires t.kernel.open == s.kernel.open && t.retired == s.retired
    requires t.totalIn == s.totalIn && t.totalOut == s.totalOut && t.numRequests == s.numRequests
    ensures Balanced(base, s, live) == Balanced(base, t, live)
  {
  }

  lemma PollInv(cfg: Config, base: set<int>, s: Sys, ev: PollEvent)
    requires Inv(cfg, base, s)
    ensures Inv(cfg, base, Poll(cfg, s, ev))
  {
    hide AcceptStep, Sweep, MidInv, Inv;
    match ev
    case Interrupted =>
    case Ready(now, accept, io) =>
      var s1 := s.(now := now);
      MidStart(cfg, base, s, now);
      assert s1.(conns := []) == s.(now := now, conns := []);
      var w := Await(cfg, s.conns, s.accepting);
      if w.listener && accept.Some? {
        AcceptMidInv(cfg, base, s1, accept.value);
      }
      var s2 := if w.listener && accept.Some? then AcceptStep(cfg, s1, accept.value) else s1;
      SweepMidInv(cfg, base, s2.(conns := []), s2.conns, w, io);
  }

  // ------------------------------------------------------------ every run

  lemma StartInv(cfg: Config, base: set<int>, now: int)
    ensures Inv(cfg, base, Start(base, now))
  {
    assert multiset(base) + multiset{} == multiset(base);
  }

  /** Whatever the outside world does, for however long, the invariant holds after every poll. */
  lemma {:induction false} RunInv(cfg: Config, base: set<int>, now: int, evs: seq<PollEvent>)
    ensures Inv(cfg, base, Run(cfg, Start(base, now), evs))
    decreases |evs|
  {
    hide Poll, Inv;
    if evs == [] {
      StartInv(cfg, base, now);
    } else {
      var n := |evs| - 1;
      RunInv(cfg, base, now, evs[..n]);
      PollInv(cfg, base, Run(cfg, Start(base, now), evs[..n]), evs[n]);
    }
  }

  /**
   After every run, what each live connection has put on its socket is the whole
   responses of the requests recycled on it, then a prefix of the current response.
   */
  lemma WireIsWholeResponses(cfg: Config, base: set<int>, now: int, evs: seq<PollEvent>, c: Conn)
    requires c in Run(cfg, Start(base, now), evs).conns
    ensures c.wire == Flatten(c.served) + SentPart(c.out) && SentPart(c.out) <= Response(c.out)
    ensures c.state != Done && (c.state == RecvRequest ==> c.replyFd == -1 && SentPart(c.out) == [])
  {
    hide Run;
    RunInv(cfg, base, now, evs);
    SentIsPrefix(c.out);
    NothingSent();
  }

  /** And a request that ended without closing its connection had its whole response sent. */
  lemma RetiredWireIsWhole(cfg: Config, base: set<int>, now: int, evs: seq<PollEvent>, c: Conn)
    requires c in Run(cfg, Start(base, now), evs).retired
    ensures c.wire == Flatten(c.served) + SentPart(c.out) && SentPart(c.out) <= Response(c.out)
    ensures !c.connClose ==> c.wire == Flatten(c.served) + Response(c.out) && c.out.header != []
  {
    hide Run;
    RunInv(cfg, base, now, evs);
    SentIsPrefix(c.out);
  }

  /** After every run the byte and request counters are the sums over finished and live requests. */
  lemma BytesAccounted(cfg: Config, base: set<int>, now: int, evs: seq<PollEvent>)
    ensures var s := Run(cfg, Start(base, now), evs); var all := Sum(s.retired + s.conns);
            && s.totalIn == all.received && s.totalOut == all.sent && s.numRequests == all.handed
            && forall c :: c in s.retired + s.conns ==>
                 && c.totalSent == c.out.headerSent + c.out.replySent
                 && c.out.headerSent <= c.out.headerLength && c.out.replySent <= c.out.replyLength
                 && |c.handed| <= 1
  {
    hide Run, Sum;
    RunInv(cfg, base, now, evs);
    var s := Run(cfg, Start(base, now), evs);
    SumConcat(s.retired, s.conns);
  }

  /** After every run with a timeout, no surviving connection has been idle for that long. */
  lemma NobodyLingers(cfg: Config, base: set<int>, now: int, evs: seq<PollEvent>, c: Conn)
    requires cfg.timeoutSecs > 0
    requires c in Run(cfg, Start(base, now), evs).conns
    ensures Run(cfg, Start(base, now), evs).now - c.lastActive < cfg.timeoutSecs
  {
    hide Run;
    RunInv(cfg, base, now, evs);
  }

  /**
   After every run, each name the file system was ever asked about is the root with a
   canonical path behind it, and perhaps the index name; with --single-file it is the root.
   */
  lemma PathsConfined(cfg: Config, base: set<int>, now: int, evs: seq<PollEvent>, name: bytes)
    requires name in Run(cfg, Start(base, now), evs).kernel.touched
    ensures Confined(cfg, name)
  {
    hide Run;
    RunInv(cfg, base, now, evs);
  }

  /** The descriptor belongs to the connection. */
  predicate Owns(c: Conn, fd: int) {
    fd == c.socket || (fd == c.replyFd && fd != -1)
  }

  lemma {:induction false} SumOwns(cs: seq<Conn>, fd: int)
    requires forall c :: c in cs ==> c.socket >= 0 && c.replyFd >= -1
    ensures fd in Sum(cs).fds <==> exists i :: 0 <= i < |cs| && Owns(cs[i], fd)
  {
    if cs != [] {
      SumOwns(cs[1..], fd);
      assert fd in Entry(cs[0]).fds <==> Owns(cs[0], fd);
      if i :| 0 <= i < |cs| && Owns(cs[i], fd) {
        assert i > 0 ==> cs[1..][i - 1] == cs[i];
      }
      if i :| 0 <= i < |cs[1..]| && Owns(cs[1..][i], fd) {
        assert Owns(cs[i + 1], fd);
      }
    }
  }

  lemma SumSplit(cs: seq<Conn>, i: nat)
    requires i < |cs|
    ensures Sum(cs).fds == Sum(cs[..i]).fds + (Owned(cs[i]) + Sum(cs[i + 1..]).fds)
  {
    hide Sum;
    assert cs == cs[..i] + ([cs[i]] + cs[i + 1..]);
    SumConcat(cs[..i], [cs[i]] + cs[i + 1..]);
    SumCons(cs[i], cs[i + 1..]);
  }

  /**
   After every run the open descriptors are the ones the server started with and
   those some connection owns, and no descriptor has two owners.
   */
  lemma DescriptorsConserved(cfg: Config, base: set<int>, now: int, evs: seq<PollEvent>, fd: int)
    ensures var s := Run(cfg, Start(base, now), evs);
            && (fd in s.kernel.open <==> fd in base || exists i :: 0 <= i < |s.conns| && Owns(s.conns[i], fd))
            && (forall i :: 0 <= i < |s.conns| && Owns(s.conns[i], fd) ==>
                  fd !in base && (s.conns[i].replyFd != -1 ==> s.conns[i].socket != s.conns[i].replyFd))
            && (forall i, j :: 0 <= i < j < |s.conns| && Owns(s.conns[i], fd) ==> !Owns(s.conns[j], fd))
  {
    hide Run;
    RunInv(cfg, base, now, evs);
    var s := Run(cfg, Start(base, now), evs);
    var live := Sum(s.conns).fds;
    SumOwns(s.conns, fd);
    assert fd in multiset(s.kernel.open) <==> fd in base || fd in live;
    assert multiset(s.kernel.open)[fd] <= 1;
    forall i | 0 <= i < |s.conns| && Owns(s.conns[i], fd)
      ensures fd !in base && (s.conns[i].replyFd != -1 ==> s.conns[i].socket != s.conns[i].replyFd)
    {
      OwnedOnce(s, base, i, fd);
    }
    forall i, j | 0 <= i < j < |s.conns| && Owns(s.conns[i], fd)
      ensures !Owns(s.conns[j], fd)
    {
      OwnedByOne(s.conns, i, j, fd, multiset(base));
    }
  }

  lemma OwnedOnce(s: Sys, base: set<int>, i: nat, fd: int)
    requires i < |s.conns| && Owns(s.conns[i], fd)
    requires multiset(s.kernel.open) == multiset(base) + Sum(s.conns).fds
    ensures fd !in base && (s.conns[i].replyFd != -1 ==> s.conns[i].socket != s.conns[i].replyFd)
  {
    hide Sum;
    SumSplit(s.conns, i);
    var c := s.conns[i];
    assert multiset(s.kernel.open)[fd] <= 1 && multiset(s.kernel.open)[c.socket] <= 1;
    assert Owned(c)[fd] >= 1;
    assert c.socket == c.replyFd && c.replyFd != -1 ==> Owned(c)[c.socket] == 2;
  }

  lemma OwnedByOne(cs: seq<Conn>, i: nat, j: nat, fd: int, base: multiset<int>)
    requires i < j < |cs| && Owns(cs[i], fd)
    requires base[fd] + Sum(cs).fds[fd] <= 1
    ensures !Owns(cs[j], fd)
  {
    hide Sum;
    var rest := cs[i + 1..];
    assert rest[j - i - 1] == cs[j];
    SumSplit(cs, i);
    SumSplit(rest, j - i - 1);
    OwnsCounts(cs[i], fd);
    OwnsCounts(cs[j], fd);
  }

  lemma OwnsCounts(c: Conn, fd: int)
    ensures Owns(c, fd) <==> Owned(c)[fd] >= 1
  {
  }
}
