/** How a request arrives does not matter, and what it leads to. */
module Delivery {
  import opened Bytes
  import opened Conn
  import opened Process
  import opened ProcessProofs
  import opened EventLoop
  import opened Safety
  import Request
  import RequestPrint

  /** Something for the socket at a time: a chunk, or nothing yet. */
  datatype Arrival = Arrival(now: int, io: Io)

  /** Polls the connection for as long as it waits for its request. */
  function Deliver(cfg: Config, c: Conn, arrivals: seq<Arrival>, k: Kernel): (Conn, Kernel)
    decreases |arrivals|
  {
    if arrivals == [] || c.state != RecvRequest then (c, k)
    else
      var (c, k) := RecvStep(cfg, c, arrivals[0].now, arrivals[0].io, k);
      Deliver(cfg, c, arrivals[1..], k)
  }

  function Arrived(arrivals: seq<Arrival>): bytes {
    if arrivals == [] then [] else Chunk(arrivals[0].io.recv) + Arrived(arrivals[1..])
  }

  /** Chunks and would-blocks, a chunk at the end. */
  ghost predicate Flowing(arrivals: seq<Arrival>) {
    && (forall a :: a in arrivals ==> a.io.recv == RecvAgain || Chunk(a.io.recv) != [])
    && (arrivals != [] ==> Chunk(arrivals[|arrivals| - 1].io.recv) != [])
  }

  ghost predicate FirstComplete(r: bytes) {
    Request.Complete(r) && |r| <= MAX_REQUEST_LENGTH &&
    forall k :: 0 <= k < |r| ==> !Request.Complete(r[..k])
  }

  lemma {:induction false} ArrivedSome(arrivals: seq<Arrival>)
    requires Flowing(arrivals) && arrivals != []
    ensures Arrived(arrivals) != []
  {
    if |arrivals| > 1 {
      assert arrivals[1..][|arrivals| - 2] == arrivals[|arrivals| - 1];
      assert forall a :: a in arrivals[1..] ==> a in arrivals;
      ArrivedSome(arrivals[1..]);
    }
  }

  /** A chunk that does not complete the request is only remembered. */
  lemma PartialChunk(cfg: Config, c: Conn, now: int, io: Io, k: Kernel)
    requires Sound(c) && c.state == RecvRequest && Chunk(io.recv) != []
    requires !Request.Complete(c.request + Chunk(io.recv))
    requires |c.request + Chunk(io.recv)| <= MAX_REQUEST_LENGTH
    ensures RecvStep(cfg, c, now, io, k) ==
            (Append(c, now, Chunk(io.recv), io.env), k)
  {
    hide ProcessRequest, HeaderStep;
  }

  /** The chunk that completes it hands over the whole buffer and goes on to send. */
  lemma LastChunk(cfg: Config, c: Conn, now: int, io: Io, k: Kernel)
    requires Sound(c) && c.state == RecvRequest && Chunk(io.recv) != []
    requires Request.Complete(c.request + Chunk(io.recv))
    requires |c.request + Chunk(io.recv)| <= MAX_REQUEST_LENGTH
    ensures var (c', k') := RecvStep(cfg, c, now, io, k);
            c'.handed == [c.request + Chunk(io.recv)] && c'.state != RecvRequest
  {
    hide ProcessRequest, HeaderStep, Sound;
    var chunk := Chunk(io.recv);
    var c1 := Append(c, now, chunk, io.env);
    AppendSound(c, now, chunk, io.env);
    IdleHandedNothing(c);
    ProcessRequestReady(cfg, c1, io.env, k);
    var (a, k') := ProcessRequest(cfg, c1, io.env, k);
    PreparedSound(c1, a);
    HeaderStepSound(a, now, io);
  }

  lemma IdleHandedNothing(c: Conn)
    requires Sound(c) && c.state == RecvRequest
    ensures c.handed == [] && |c.request| == c.requestLength
  {
  }

  lemma FlowsOn(arrivals: seq<Arrival>)
    requires Flowing(arrivals) && arrivals != []
    ensures Flowing(arrivals[1..])
    ensures Chunk(arrivals[0].io.recv) == [] ==> arrivals[0].io.recv == RecvAgain && arrivals[1..] != []
  {
    var rest := arrivals[1..];
    assert forall x :: x in rest ==> x in arrivals;
    assert rest != [] ==> rest[|rest| - 1] == arrivals[|arrivals| - 1];
  }

  lemma DeliverStep(cfg: Config, c: Conn, arrivals: seq<Arrival>, k: Kernel)
    requires arrivals != [] && c.state == RecvRequest
    ensures var (c', k') := RecvStep(cfg, c, arrivals[0].now, arrivals[0].io, k);
            && Deliver(cfg, c, arrivals, k) == Deliver(cfg, c', arrivals[1..], k')
            && (c'.state != RecvRequest ==> Deliver(cfg, c', arrivals[1..], k') == (c', k'))
  {
    hide RecvStep;
  }

  lemma ArrivedStep(arrivals: seq<Arrival>)
    requires arrivals != []
    ensures Arrived(arrivals) == Chunk(arrivals[0].io.recv) + Arrived(arrivals[1..])
    ensures arrivals[1..] == [] ==> Arrived(arrivals[1..]) == []
  {
  }

  lemma AppendWaits(c: Conn, now: int, chunk: bytes, env: Env)
    requires Sound(c) && c.state == RecvRequest
    ensures var c1 := Append(c, now, chunk, env);
            Sound(c1) && c1.state == RecvRequest && c1.request == c.request + chunk
  {
    AppendSound(c, now, chunk, env);
  }

  lemma NotYet(r: bytes, had: bytes, more: bytes)
    requires FirstComplete(r) && had + more == r
    ensures |had| <= MAX_REQUEST_LENGTH && (more != [] ==> !Request.Complete(had))
  {
    assert r[..|had|] == had;
  }

  /**
   Delivery independence: if the bytes that arrive form a request none of whose
   proper prefixes is complete, every way of cutting them up hands process_request
   the same buffer, exactly once.
   */
  lemma {:induction false} DeliveryIndependent(cfg: Config, c: Conn, arrivals: seq<Arrival>, k: Kernel, r: bytes)
    requires Sound(c) && c.state == RecvRequest && Flowing(arrivals) && arrivals != []
    requires FirstComplete(r) && c.request + Arrived(arrivals) == r
    ensures Deliver(cfg, c, arrivals, k).0.handed == [r]
    ensures Deliver(cfg, c, arrivals, k).0.state != RecvRequest
    decreases |arrivals|
  {
    hide RecvStep, Sound, Flowing, FirstComplete, Request.Complete, Chunk, Deliver, Arrived, Append;
    var a, rest := arrivals[0], arrivals[1..];
    DeliverStep(cfg, c, arrivals, k);
    ArrivedStep(arrivals);
    var had := c.request + Chunk(a.io.recv);
    FlowsOn(arrivals);
    Associate(c.request, Chunk(a.io.recv), Arrived(rest));
    NotYet(r, had, Arrived(rest));
    if Chunk(a.io.recv) == [] {
      WouldBlock(cfg, c, a.now, a.io, k);
      assert c.request + [] == c.request;
      DeliveryIndependent(cfg, c, rest, k, r);
    } else if rest == [] {
      CompleteAtLast(r, had);
      LastChunk(cfg, c, a.now, a.io, k);
    } else {
      ArrivedSome(rest);
      PartialChunk(cfg, c, a.now, a.io, k);
      AppendWaits(c, a.now, Chunk(a.io.recv), a.io.env);
      DeliveryIndependent(cfg, Append(c, a.now, Chunk(a.io.recv), a.io.env), rest, k, r);
    }
  }

  lemma CompleteAtLast(r: bytes, had: bytes)
    requires FirstComplete(r) && had + [] == r
    ensures had == r && Request.Complete(had)
  {
    assert had + [] == had;
  }

  lemma WouldBlock(cfg: Config, c: Conn, now: int, io: Io, k: Kernel)
    requires io.recv == RecvAgain
    ensures RecvStep(cfg, c, now, io, k) == (c, k)
  {
  }

  /**
   A printed request, however it is cut up on the way, reaches process_request
   whole, and is understood as what was printed.
   */
  lemma PrintedIsDelivered(cfg: Config, socket: nat, arrivals: seq<Arrival>, k: Kernel, m: RequestPrint.Message, eol: RequestPrint.Eol, now: int)
    requires RequestPrint.Printable(m) && |RequestPrint.Print(m, eol)| <= MAX_REQUEST_LENGTH
    requires Flowing(arrivals) && Arrived(arrivals) == RequestPrint.Print(m, eol)
    ensures var c := Deliver(cfg, Fresh(socket, now), arrivals, k).0;
            c.handed == [RequestPrint.Print(m, eol)] &&
            Request.Parse(c.handed[0], cfg.request) == RequestPrint.Understood(m, cfg.request)
  {
    hide Deliver, RequestPrint.Print, RequestPrint.Printable, RequestPrint.Understood, Request.Parse, Request.Complete;
    hide Sound, Flowing;
    var r := RequestPrint.Print(m, eol);
    RequestPrint.PrintedCompleteOnce(m, eol);
    RequestPrint.ParsePrinted(m, eol, cfg.request);
    FreshSound(socket, now);
    assert [] + Arrived(arrivals) == r;
    Request.CompleteEndsLine(r);
    DeliveryIndependent(cfg, Fresh(socket, now), arrivals, k, r);
  }
}
