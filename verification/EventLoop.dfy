/** The event loop as a function of what the outside world does, and what holds over every run. */
module EventLoop {
  import opened Bytes
  import opened Conn
  import opened Process
  import Request

  // ------------------------------------------------------------------ receiving

  const MAX_REQUEST_LENGTH := 4000

  /** The 413 reply replaces one that has not begun to go out. */
  function TooLong(c: Conn, env: Env): Conn {
    DefaultReply(c, 413, env.tooLongHeader, env.tooLongBody).(state := SendHeader)
  }

  /** A chunk behind what is there. */
  function Append(c: Conn, now: int, chunk: bytes, env: Env): Conn {
    c.(lastActive := now, request := c.request + chunk, requestLength := c.requestLength + |chunk|,
       received := c.received + chunk, met := Some(env))
  }

  /** poll_recv_request between a successful recv and the first send. */
  function Digest(cfg: Config, c: Conn, now: int, io: Io, k: Kernel): (Conn, Kernel) {
    var c := Append(c, now, Chunk(io.recv), io.env);
    var (c, k) := if Request.Complete(c.request) then ProcessRequest(cfg, c, io.env, k) else (c, k);
    (if c.requestLength > MAX_REQUEST_LENGTH then TooLong(c, io.env) else c, k)
  }

  /** poll_recv_request */
  function RecvStep(cfg: Config, c: Conn, now: int, io: Io, k: Kernel): (Conn, Kernel) {
    if Chunk(io.recv) == [] then (if io.recv == RecvAgain then c else Fail(c, RecvFailed(io.recv)), k)
    else
      var (c, k) := Digest(cfg, c, now, io, k);
      (if c.state == SendHeader then HeaderStep(c, now, io) else c, k)
  }

  // ------------------------------------------------------------------ the loop

  /** The globals of the server; retired holds each request's last state, in order. */
  datatype Sys = Sys(
    conns: seq<Conn>,
    kernel: Kernel,
    now: int,
    accepting: bool,
    numRequests: int,
    totalIn: int,
    totalOut: int,
    retired: seq<Conn>)

  datatype AcceptOutcome = AcceptFails(exhausted: bool) | Accepts(io: Io)

  /** What one call of httpd_poll meets: a signal, or a time and the descriptors that are ready. */
  datatype PollEvent = Interrupted | Ready(now: int, accept: Option<AcceptOutcome>, io: map<int, Io>)

  /** poll_check_timeout */
  function CheckTimeout(cfg: Config, c: Conn, now: int): Conn {
    if cfg.timeoutSecs > 0 && now - c.lastActive >= cfg.timeoutSecs then Fail(c, TimedOut(now - c.lastActive)) else c
  }

  /** What select waits for: the listener, the two sets of sockets, and whether only for a time. */
  datatype Waiting = Waiting(listener: bool, recv: set<int>, send: set<int>, bother: bool)

  function AddWaiting(w: Waiting, c: Conn): Waiting {
    match c.state
    case Done => w
    case RecvRequest => w.(recv := w.recv + {c.socket}, bother := true)
    case SendHeader => w.(send := w.send + {c.socket}, bother := true)
    case SendReply => w.(send := w.send + {c.socket}, bother := true)
  }

  function WaitingFor(conns: seq<Conn>, accepting: bool): Waiting {
    if conns == [] then Waiting(accepting, {}, {}, false)
    else AddWaiting(WaitingFor(conns[..|conns| - 1], accepting), conns[|conns| - 1])
  }

  function Await(cfg: Config, conns: seq<Conn>, accepting: bool): Waiting {
    var w := WaitingFor(conns, accepting);
    if cfg.timeoutSecs == 0 then w.(bother := false) else w
  }

  /** Some connection in one of the states has the socket. */
  predicate Wants(conns: seq<Conn>, states: set<State>, fd: int) {
    exists i :: 0 <= i < |conns| && conns[i].state in states && conns[i].socket == fd
  }

  lemma WantsLast(conns: seq<Conn>, states: set<State>, fd: int)
    requires conns != []
    ensures var n := |conns| - 1;
            Wants(conns, states, fd) <==>
              Wants(conns[..n], states, fd) || (conns[n].state in states && conns[n].socket == fd)
  {
    var n := |conns| - 1;
    assert forall i :: 0 <= i < n ==> conns[..n][i] == conns[i];
    if Wants(conns[..n], states, fd) {
      var i :| 0 <= i < n && conns[..n][i].state in states && conns[..n][i].socket == fd;
      assert conns[i].state in states;
    }
  }

  /** What is waited for, socket by socket, and that it is for a time if there is anything to wait for. */
  lemma {:induction false} WaitingMeans(conns: seq<Conn>, accepting: bool, fd: int)
    ensures var w := WaitingFor(conns, accepting);
            && w.listener == accepting
            && (fd in w.recv <==> Wants(conns, {RecvRequest}, fd))
            && (fd in w.send <==> Wants(conns, {SendHeader, SendReply}, fd))
            && (w.bother <==> w.recv != {} || w.send != {})
    decreases |conns|
  {
    hide Wants;
    if conns == [] {
      assert !Wants([], {RecvRequest}, fd) && !Wants([], {SendHeader, SendReply}, fd) by {
        NobodyWants(fd);
      }
    } else {
      WaitingMeans(conns[..|conns| - 1], accepting, fd);
      WantsLast(conns, {RecvRequest}, fd);
      WantsLast(conns, {SendHeader, SendReply}, fd);
    }
  }

  lemma NobodyWants(fd: int)
    ensures forall states :: !Wants([], states, fd)
  {
  }

  /** One connection's turn: the timeout check, then whatever its state and select allow. */
  function Turn(cfg: Config, c: Conn, now: int, w: Waiting, io: map<int, Io>, k: Kernel): (Conn, Kernel) {
    var c := CheckTimeout(cfg, c, now);
    if c.state == RecvRequest && c.socket in w.recv && c.socket in io then RecvStep(cfg, c, now, io[c.socket], k)
    else if c.state == SendHeader && c.socket in w.send && c.socket in io then (HeaderStep(c, now, io[c.socket]), k)
    else if c.state == SendReply && c.socket in w.send && c.socket in io then (ReplyStep(c, now, io[c.socket].reply), k)
    else (c, k)
  }

  /** recycle_connection: only the socket, its client and its histories survive. */
  function Recycled(c: Conn): Conn {
    c.(state := RecvRequest, request := [], requestLength := 0, out := NOTHING, httpCode := 0,
       connClose := true, replyFd := -1, totalSent := 0,
       served := c.served + [Response(c.out)], received := [], met := None, incident := None, handed := [])
  }

  function CloseFd(open: set<int>, fd: int): set<int> {
    if fd == -1 then open else open - {fd}
  }

  /** The end of a turn: finished connections are removed or recycled, the others stay. */
  function Settle(s: Sys, c: Conn): Sys {
    if c.state != Done then s.(conns := s.conns + [c])
    else if c.connClose then
      s.(kernel := s.kernel.(open := CloseFd(CloseFd(s.kernel.open, c.socket), c.replyFd)),
         accepting := true, retired := s.retired + [c])
    else
      s.(kernel := s.kernel.(open := CloseFd(s.kernel.open, c.replyFd)),
         accepting := true, retired := s.retired + [c], conns := s.conns + [Recycled(c)])
  }

  /** The global counters move with the connection's own. */
  function Account(s: Sys, c: Conn, c': Conn, k': Kernel): Sys {
    s.(kernel := k',
       numRequests := s.numRequests + |c'.handed| - |c.handed|,
       totalIn := s.totalIn + c'.requestLength - c.requestLength,
       totalOut := s.totalOut + c'.totalSent - c.totalSent)
  }

  function Visit(cfg: Config, s: Sys, c: Conn, w: Waiting, io: map<int, Io>): Sys {
    var (c', k') := Turn(cfg, c, s.now, w, io, s.kernel);
    Settle(Account(s, c, c', k'), c')
  }

  function Sweep(cfg: Config, s: Sys, pending: seq<Conn>, w: Waiting, io: map<int, Io>): Sys
    decreases |pending|
  {
    if pending == [] then s
    else Sweep(cfg, Visit(cfg, s, pending[0], w, io), pending[1..], w, io)
  }

  /** accept_connection, which reads from the new socket straight away. */
  function AcceptStep(cfg: Config, s: Sys, a: AcceptOutcome): Sys {
    match a
    case AcceptFails(exhausted) => s.(accepting := s.accepting && !exhausted)
    case Accepts(io) =>
      var fd := LowestFree(s.kernel.open, 0);
      var c := Fresh(fd, s.now);
      var (c', k') := RecvStep(cfg, c, s.now, io, s.kernel.(open := s.kernel.open + {fd}));
      Account(s, c, c', k').(conns := [c'] + s.conns)
  }

  /** httpd_poll */
  function Poll(cfg: Config, s: Sys, ev: PollEvent): Sys {
    match ev
    case Interrupted => s
    case Ready(now, accept, io) =>
      var w := Await(cfg, s.conns, s.accepting);
      var s1 := s.(now := now);
      var s2 := if w.listener && accept.Some? then AcceptStep(cfg, s1, accept.value) else s1;
      Sweep(cfg, s2.(conns := []), s2.conns, w, io)
  }

  function Run(cfg: Config, s: Sys, evs: seq<PollEvent>): Sys {
    if evs == [] then s else Poll(cfg, Run(cfg, s, evs[..|evs| - 1]), evs[|evs| - 1])
  }

  /** The server before its first poll: base are the listener and what else is open. */
  function Start(base: set<int>, now: int): Sys {
    Sys([], Kernel(base, []), now, true, 0, 0, 0, [])
  }
}
