/**
 A connection as a value, the operating system's side of the server, and the
 outcomes the outside world may choose.
 */
module Conn {
  import opened Bytes
  import Range

  datatype State = RecvRequest | SendHeader | SendReply | Done
  datatype ReplyType = Generated | FromFile

  /** The text of a header, as printed with a C format: never empty, never with a NUL. */
  type HeaderText = h: bytes | h != [] && NUL !in h witness [SPACE]

  /** What a regular file holds; its size is an off_t. */
  type FileBytes = b: bytes | |b| <= Range.OFF_MAX witness []

  /** The outgoing half of struct connection; file is what reply_fd refers to. */
  datatype Out = Out(
    header: bytes,
    headerLength: nat,
    headerSent: nat,
    headerOnly: bool,
    replyType: ReplyType,
    reply: bytes,
    file: bytes,
    replyStart: nat,
    replyLength: nat,
    replySent: nat)

  const NOTHING := Out([], 0, 0, false, Generated, [], [], 0, 0, 0)

  /**
   struct connection.  The last six fields are histories: everything put on the
   socket, the whole responses of the requests recycled on it, what was received
   for this request, the world its last chunk met, what cut it short, and what of it
   was handed to process_request.
   */
  datatype Conn = Conn(
    socket: int,
    lastActive: int,
    state: State,
    request: bytes,
    requestLength: nat,
    out: Out,
    httpCode: nat,
    connClose: bool,
    replyFd: int,
    totalSent: nat,
    wire: bytes,
    served: seq<bytes>,
    received: bytes,
    met: Option<Env>,
    incident: Option<Incident>,
    handed: seq<bytes>)

  /** new_connection, with the socket filled in and ready to receive. */
  function Fresh(socket: int, now: int): Conn {
    Conn(socket, now, RecvRequest, [], 0, NOTHING, 0, true, -1, 0, [], [], [], None, None, [])
  }

  // ------------------------------------------------------------- the outside

  /** Open descriptors, and every path the server ever asked the file system about. */
  datatype Kernel = Kernel(open: set<int>, touched: seq<bytes>)

  /** POSIX hands out the lowest descriptor that is free. */
  function LowestFree(open: set<int>, from: nat): (fd: nat)
    ensures from <= fd && fd !in open
    ensures forall k :: from <= k < fd ==> k in open
    decreases open - set k | k in open && k < from
  {
    if from !in open then from
    else
      assert from in open - set k | k in open && k < from;
      LowestFree(open, from + 1)
  }

  datatype RecvOutcome = Received(chunk: bytes) | RecvAgain | RecvError
  datatype SendOutcome = Sent(count: nat) | SendAgain | SendError | SendClosed

  /** What makes the server give a connection up: it was idle too long, or a recv or a send of so much went wrong. */
  datatype Incident = TimedOut(idle: int) | RecvFailed(recv: RecvOutcome) | SendFailed(send: SendOutcome, want: nat)

  const RECV_SIZE := 32768
  const SENDFILE_SIZE := 1048576

  /** What recv delivers: at most a buffer full; nothing at all means closure. */
  function Chunk(o: RecvOutcome): bytes {
    if o.Received? then (if |o.chunk| > RECV_SIZE then o.chunk[..RECV_SIZE] else o.chunk) else []
  }

  /** How many of the wanted bytes a send accepts: at least one, unless none were wanted. */
  function Accepted(o: SendOutcome, want: nat): (n: nat)
    ensures n <= want
    ensures o.Sent? && want > 0 ==> n > 0
  {
    if !o.Sent? then 0
    else if o.count > want then want
    else if o.count == 0 && want > 0 then 1
    else o.count
  }

  /** Every possible result of a send is the result of some outcome. */
  lemma AcceptedIsAny(want: nat, n: nat)
    requires 1 <= n <= want
    ensures Accepted(Sent(n), want) == n
  {
  }

  datatype Errno = Eacces | Enoent | OtherErrno

  datatype OpenResult =
    | OpenFails(errno: Errno)
    | StatFails
    | Directory
    | Special
    | Regular(content: FileBytes, lastModified: bytes)

  const MAXNAMLEN := 255

  /** A name as readdir reports it. */
  type EntryName = n: bytes | n != [] && SLASH !in n && NUL !in n witness [DOT]

  /** What opendir and readdir say about a directory. */
  datatype Listing = Unreadable(errno: Errno) | Entries(names: seq<EntryName>)

  /**
   The texts met while processing one request, and what the file system answers then,
   name by name.
   */
  datatype Env = Env(
    header: HeaderText,
    body: bytes,
    indexExists: bytes -> bool,
    listing: bytes -> Listing,
    openResult: bytes -> OpenResult,
    tooLongHeader: HeaderText,
    tooLongBody: bytes)

  /** One turn of a connection: at most one recv, one header send and one body send. */
  datatype Io = Io(recv: RecvOutcome, header: SendOutcome, reply: SendOutcome, env: Env)

  // ------------------------------------------------------------- the response

  /** The bytes the body is cut from. */
  function Source(o: Out): bytes {
    if o.replyType == FromFile then o.file else o.reply
  }

  ghost predicate OutOk(o: Out) {
    && o.headerLength == |o.header| && NUL !in o.header && o.headerSent <= o.headerLength
    && o.replySent <= o.replyLength && o.replyStart + o.replyLength <= |Source(o)|
    && (o.replySent > 0 ==> o.headerSent == o.headerLength && !o.headerOnly)
  }

  /** n bytes of s from a on. */
  function Slice(s: bytes, a: nat, n: nat): bytes {
    if a + n <= |s| then s[a..a + n] else []
  }

  /** The body: exactly the announced slice, unless there is none. */
  function Body(o: Out): bytes {
    if o.headerOnly then [] else Slice(Source(o), o.replyStart, o.replyLength)
  }

  /** The whole response. */
  function Response(o: Out): bytes {
    o.header + Body(o)
  }

  /** How much of it has gone out. */
  function SentPart(o: Out): bytes {
    Slice(o.header, 0, o.headerSent) + Slice(Source(o), o.replyStart, o.replySent)
  }

  /** Nothing of the response is missing. */
  predicate Whole(o: Out) {
    o.header != [] && o.headerSent == o.headerLength && (o.headerOnly || o.replySent == o.replyLength)
  }

  /** What was sent is always a prefix of the response, and all of it once nothing is missing. */
  lemma SentIsPrefix(o: Out)
    requires OutOk(o)
    ensures SentPart(o) <= Response(o)
    ensures Whole(o) ==> SentPart(o) == Response(o)
    ensures |SentPart(o)| == o.headerSent + o.replySent
  {
    var s, a := Source(o), o.replyStart;
    var sent, body := Slice(s, a, o.replySent), Slice(s, a, o.replyLength);
    assert sent == body[..o.replySent];
    if o.headerSent == o.headerLength {
      assert Slice(o.header, 0, o.headerSent) == o.header;
    } else {
      assert sent == [];
      assert SentPart(o) == o.header[..o.headerSent];
    }
  }

  function Flatten(parts: seq<bytes>): bytes {
    if parts == [] then [] else Flatten(parts[..|parts| - 1]) + parts[|parts| - 1]
  }

  /** Waiting for the rest of a request: no reply exists yet. */
  ghost predicate Idle(c: Conn) {
    |c.request| == c.requestLength && c.out == NOTHING && c.connClose && c.replyFd == -1 && c.handed == []
  }

  ghost predicate StateOk(c: Conn) {
    match c.state
    case RecvRequest => Idle(c)
    case SendHeader => c.out.headerSent < c.out.headerLength
    case SendReply => c.out.headerSent == c.out.headerLength && c.out.header != [] && !c.out.headerOnly
    case Done => c.connClose || Whole(c.out)
  }

  /** What every connection satisfies between any two steps. */
  ghost predicate Sound(c: Conn) {
    && OutOk(c.out)
    && c.totalSent == c.out.headerSent + c.out.replySent
    && c.wire == Flatten(c.served) + SentPart(c.out)
    && c.socket >= 0 && c.replyFd >= -1 && |c.handed| <= 1
    && StateOk(c)
  }

  // ------------------------------------------------------------- sending

  function PutHeader(o: Out, n: nat): Out {
    o.(headerSent := o.headerSent + n)
  }

  function PutReply(o: Out, n: nat): Out {
    o.(replySent := o.replySent + n)
  }

  /** The bytes a successful header send takes from the buffer. */
  function HeaderBytes(o: Out, n: nat): bytes {
    Slice(o.header, o.headerSent, n)
  }

  function ReplyBytes(o: Out, n: nat): bytes {
    Slice(Source(o), o.replyStart + o.replySent, n)
  }

  lemma PutHeaderOk(o: Out, n: nat)
    requires OutOk(o) && o.headerSent + n <= o.headerLength && o.replySent == 0
    ensures OutOk(PutHeader(o, n))
    ensures SentPart(PutHeader(o, n)) == SentPart(o) + HeaderBytes(o, n)
  {
    SliceMore(o.header, 0, o.headerSent, n);
    assert Slice(Source(o), o.replyStart, 0) == [];
  }

  lemma PutReplyOk(o: Out, n: nat)
    requires OutOk(o) && o.replySent + n <= o.replyLength
    requires o.headerSent == o.headerLength && !o.headerOnly
    ensures OutOk(PutReply(o, n))
    ensures SentPart(PutReply(o, n)) == SentPart(o) + ReplyBytes(o, n)
  {
    hide Slice;
    SliceMore(Source(o), o.replyStart, o.replySent, n);
    Associate(Slice(o.header, 0, o.headerSent), Slice(Source(o), o.replyStart, o.replySent), ReplyBytes(o, n));
  }

  lemma SliceMore(s: bytes, a: nat, m: nat, n: nat)
    requires a + m + n <= |s|
    ensures Slice(s, a, m + n) == Slice(s, a, m) + Slice(s, a + m, n)
  {
  }

  /** The send failed for good, or the peer closed. */
  function Fail(c: Conn, incident: Incident): Conn {
    c.(connClose := true, state := Done, incident := Some(incident))
  }

  function Count(c: Conn, out: Out, bytes: bytes): Conn {
    c.(out := out, totalSent := c.totalSent + |bytes|, wire := c.wire + bytes)
  }

  /** How much poll_send_reply asks to send; sendfile is never asked for more than 1<<20 bytes. */
  function ReplyWant(o: Out): nat {
    if o.replyLength <= o.replySent then 0
    else if o.replyType == FromFile && o.replyLength - o.replySent > SENDFILE_SIZE then SENDFILE_SIZE
    else o.replyLength - o.replySent
  }

  function HeaderWant(o: Out): nat {
    if o.headerLength <= o.headerSent then 0 else o.headerLength - o.headerSent
  }

  /** poll_send_reply */
  function ReplyStep(c: Conn, now: int, o: SendOutcome): Conn {
    var n := Accepted(o, ReplyWant(c.out));
    var c := c.(lastActive := now);
    if n < 1 then
      if o == SendAgain then c else Fail(c, SendFailed(o, ReplyWant(c.out)))
    else
      var c := Count(c, PutReply(c.out, n), ReplyBytes(c.out, n));
      if c.out.replySent == c.out.replyLength then c.(state := Done) else c
  }

  /** poll_send_header, going straight on to the body. */
  function HeaderStep(c: Conn, now: int, io: Io): Conn {
    var n := Accepted(io.header, HeaderWant(c.out));
    var c := c.(lastActive := now);
    if n < 1 then
      if io.header == SendAgain then c else Fail(c, SendFailed(io.header, HeaderWant(c.out)))
    else
      var c := Count(c, PutHeader(c.out, n), HeaderBytes(c.out, n));
      if c.out.headerSent != c.out.headerLength then c
      else if c.out.headerOnly then c.(state := Done)
      else ReplyStep(c.(state := SendReply), now, io.reply)
  }

  /** Bytes still to go out. */
  function Remaining(o: Out): int {
    (o.headerLength - o.headerSent) + (if o.headerOnly then 0 else o.replyLength - o.replySent)
  }

  lemma CountSound(c: Conn, out: Out, bytes: bytes)
    requires Sound(c) && OutOk(out) && SentPart(out) == SentPart(c.out) + bytes
    requires StateOk(Count(c, out, bytes))
    requires out.headerSent + out.replySent == c.out.headerSent + c.out.replySent + |bytes|
    ensures Sound(Count(c, out, bytes))
  {
    Associate(Flatten(c.served), SentPart(c.out), bytes);
  }

  /** c' is c after nothing but sending. */
  ghost predicate OnlySends(c: Conn, c': Conn, now: int) {
    && c'.socket == c.socket && c'.replyFd == c.replyFd && c'.lastActive == now
    && c'.request == c.request && c'.requestLength == c.requestLength
    && c'.received == c.received && c'.met == c.met && c'.handed == c.handed && c'.served == c.served && Response(c'.out) == Response(c.out)
  }

  lemma ReplyStepSound(c: Conn, now: int, o: SendOutcome)
    requires Sound(c) && c.state == SendReply
    ensures Sound(ReplyStep(c, now, o)) && OnlySends(c, ReplyStep(c, now, o), now)
    ensures ReplyStep(c, now, o).state in {SendReply, Done}
  {
    var n := Accepted(o, ReplyWant(c.out));
    if n > 0 {
      PutReplyOk(c.out, n);
      CountSound(c.(lastActive := now), PutReply(c.out, n), ReplyBytes(c.out, n));
    }
  }

  lemma HeaderStepSound(c: Conn, now: int, io: Io)
    requires Sound(c) && c.state == SendHeader
    ensures Sound(HeaderStep(c, now, io)) && OnlySends(c, HeaderStep(c, now, io), now)
    ensures HeaderStep(c, now, io).state != RecvRequest
  {
    hide ReplyStep, SentPart, Slice;
    var n := Accepted(io.header, HeaderWant(c.out));
    if n > 0 {
      PutHeaderOk(c.out, n);
      HeaderByteCount(c.out, n);
      var c1 := c.(lastActive := now, state := Done, connClose := true);
      CountSound(c1, PutHeader(c.out, n), HeaderBytes(c.out, n));
      if c.out.headerSent + n == c.out.headerLength && !c.out.headerOnly {
        var c2 := Count(c.(lastActive := now), PutHeader(c.out, n), HeaderBytes(c.out, n));
        ReplyStepSound(c2.(state := SendReply), now, io.reply);
      }
    }
  }

  lemma HeaderByteCount(o: Out, n: nat)
    requires o.headerSent + n <= |o.header|
    ensures |HeaderBytes(o, n)| == n
  {
  }

  /** c' is c with k more bytes of its response gone, if any. */
  ghost predicate Closer(c: Conn, c': Conn) {
    c'.totalSent >= c.totalSent && Remaining(c'.out) == Remaining(c.out) - (c'.totalSent - c.totalSent)
  }

  lemma ReplyStepCloser(c: Conn, now: int, o: SendOutcome)
    requires Sound(c) && c.state == SendReply
    ensures Closer(c, ReplyStep(c, now, o))
    ensures o.Sent? && ReplyWant(c.out) > 0 ==> ReplyStep(c, now, o).totalSent > c.totalSent
  {
  }

  /** Every successful send brings the response strictly closer to its end. */
  lemma HeaderStepCloser(c: Conn, now: int, io: Io)
    requires Sound(c) && c.state == SendHeader
    ensures Closer(c, HeaderStep(c, now, io))
    ensures io.header.Sent? ==> HeaderStep(c, now, io).totalSent > c.totalSent
  {
    var n := Accepted(io.header, HeaderWant(c.out));
    if n > 0 && c.out.headerSent + n == c.out.headerLength && !c.out.headerOnly {
      PutHeaderOk(c.out, n);
      var c1 := c.(lastActive := now, state := Done, connClose := true);
      CountSound(c1, PutHeader(c.out, n), HeaderBytes(c.out, n));
      var c2 := Count(c.(lastActive := now), PutHeader(c.out, n), HeaderBytes(c.out, n)).(state := SendReply);
      ReplyStepCloser(c2, now, io.reply);
    }
  }
}
