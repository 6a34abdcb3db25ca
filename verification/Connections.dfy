/** struct connection on the heap, and the poll_* functions that update it in place. */
module Connections {
  import opened Bytes
  import opened Conn
  import opened Process
  import opened EventLoop
  import opened Safety
  import opened ProcessProofs
  import Auth
  import Range
  import Request
  import UrlCodec

  /** The globals every connection shares, and the descriptors the kernel has open. */
  class Globals {
    var now: int
    var accepting: bool
    var numRequests: int
    var totalIn: int
    var totalOut: int
    var open: set<int>
    ghost var touched: seq<bytes>

    constructor (base: set<int>, now: int)
      ensures this.now == now && accepting && numRequests == totalIn == totalOut == 0
      ensures open == base && touched == []
    {
      this.now, accepting, numRequests, totalIn, totalOut := now, true, 0, 0, 0;
      open, touched := base, [];
    }

    ghost function View(): Kernel
      reads this
    {
      Kernel(open, touched)
    }

    /** open or accept: the lowest free descriptor. */
    method NewFd() returns (fd: nat)
      modifies this`open
      ensures fd == LowestFree(old(open), 0) && open == old(open) + {fd}
    {
      fd := LowestFree(open, 0);
      open := open + {fd};
    }

    /** xclose, which dies on a descriptor that is not open: that must never happen. */
    method XClose(fd: int)
      requires fd in open
      modifies this`open
      ensures open == old(open) - {fd}
    {
      open := open - {fd};
    }

    /** The file system is asked about a name. */
    ghost method Touch(name: bytes)
      modifies this`touched
      ensures touched == old(touched) + [name]
    {
      touched := touched + [name];
    }

    /** The loop of make_sorted_dirlist. */
    method StatEntries(cfg: Config, dir: bytes, names: seq<EntryName>)
      modifies this`touched
      ensures touched == old(touched) + EntryNames(cfg, dir, names)
    {
      var i := 0;
      while i < |names|
        invariant 0 <= i <= |names|
        invariant touched == old(touched) + EntryNames(cfg, dir, names[..i])
      {
        assert names[..i + 1][..i] == names[..i];
        var name := names[i];
        i := i + 1;
        if name == [DOT] || name == [DOT, DOT] {
          continue;
        }
        if cfg.hideDotfiles && name[0] == DOT {
          continue;
        }
        if |name| > MAXNAMLEN {
          continue;
        }
        Touch(dir + name);
      }
      assert names[..i] == names;
    }
  }

  /** The address le_prev holds: the list head, or the le_next of another connection. */
  datatype Link = Head | NextOf(owner: Connection)

  class Connection {
    var leNext: Connection?
    var lePrev: Link

    var socket: int
    var lastActive: int
    var state: State
    var request: bytes
    var requestLength: nat
    var out: Out
    var httpCode: nat
    var connClose: bool
    var replyFd: int
    var totalSent: nat
    ghost var wire: bytes
    ghost var served: seq<bytes>
    ghost var received: bytes
    ghost var met: Option<Env>
    ghost var incident: Option<Incident>
    ghost var handed: seq<bytes>

    ghost function View(): Conn
      reads this
    {
      Conn(socket, lastActive, state, request, requestLength, out, httpCode, connClose, replyFd,
           totalSent, wire, served, received, met, incident, handed)
    }

    /** new_connection with its socket, ready to receive. */
    constructor (socket: int, now: int)
      ensures View() == Fresh(socket, now) && leNext == null
    {
      leNext, lePrev := null, Head;
      this.socket, lastActive, state := socket, now, RecvRequest;
      request, requestLength := [], 0;
      out, httpCode, connClose, replyFd, totalSent := NOTHING, 0, true, -1, 0;
      wire, served, received, met, incident, handed := [], [], [], None, None, [];
    }

    twostate predicate SameLinks()
      reads this
    {
      leNext == old(leNext) && lePrev == old(lePrev)
    }

    // ------------------------------------------------------------- replies

    method PutTexts(code: nat, header: HeaderText, body: bytes)
      modifies this
      ensures SameLinks() && View() == Process.PutTexts(old(View()), code, header, body)
    {
      out := out.(reply := body, replyLength := |body|);
      out := out.(header := header, headerLength := |header|);
      out := out.(replyType := Generated);
      httpCode := code;
    }

    method DefaultReply(code: nat, header: HeaderText, body: bytes)
      modifies this
      ensures SameLinks() && View() == Process.DefaultReply(old(View()), code, header, body)
    {
      PutTexts(code, header, body);
      out := out.(replyStart := 0);
    }

    method Refuse(code: nat, env: Env)
      modifies this
      ensures SameLinks() && View() == Process.Refuse(old(View()), code, env)
    {
      DefaultReply(code, env.header, env.body);
    }

    method Redirect(env: Env)
      modifies this
      ensures SameLinks() && View() == Process.Redirect(old(View()), env)
    {
      PutTexts(301, env.header, env.body);
    }

    /** The header of a reply whose body comes from the file. */
    method PutFileHeader(code: nat, header: HeaderText, start: nat, length: nat)
      modifies this
      ensures SameLinks()
      ensures View() == old(View()).(httpCode := code,
                                     out := old(out).(header := header, headerLength := |header|,
                                                      replyStart := start, replyLength := length))
    {
      out := out.(replyStart := start, replyLength := length);
      out := out.(header := header, headerLength := |header|);
      httpCode := code;
    }

    /** The 304 reply: a header and nothing else. */
    method PutNotModified(header: HeaderText)
      modifies this
      ensures SameLinks()
      ensures View() == old(View()).(httpCode := 304,
                                     out := old(out).(header := header, headerLength := |header|, replyLength := 0,
                                                      replyType := Generated, headerOnly := true))
    {
      httpCode := 304;
      out := out.(header := header, headerLength := |header|);
      out := out.(replyLength := 0, replyType := Generated, headerOnly := true);
    }

    // ------------------------------------------------------------- process_get

    /** The end of process_get, with a regular file open. */
    method ServeFile(request: bytes, range: Option<bytes>, env: Env, content: FileBytes, lastModified: bytes)
      modifies this
      ensures SameLinks()
      ensures View() == Process.ServeFile(old(View()), request, range, env, content, lastModified)
    {
      hide Process.Refuse, Range.Select, Asked, Str;
      out := out.(replyType := FromFile, file := content);
      var since := Request.ParseField(request, IF_MODIFIED_SINCE);
      if since.Some? && Str(since.value) == lastModified {
        PutNotModified(env.header);
        return;
      }
      var given, slice := DecideRange(range, content);
      if given {
        if slice.None? {
          Refuse(416, env);
          return;
        }
        PutFileHeader(206, env.header, slice.value.from, slice.value.to - slice.value.from + 1);
      } else {
        PutFileHeader(200, env.header, out.replyStart, |content|);
      }
    }

    method AfterOpen(cfg: Config, request: bytes, range: Option<bytes>, env: Env, result: OpenResult)
      modifies this
      ensures SameLinks() && View() == Process.AfterOpen(cfg, old(View()), request, range, env, result)
    {
      match result
      case OpenFails(e) => Refuse(ErrnoCode(e), env);
      case StatFails => Refuse(500, env);
      case Directory =>
        if !cfg.singleFile {
          Redirect(env);
        } else {
          Refuse(403, env);
        }
      case Special => Refuse(403, env);
      case Regular(content, lastModified) => ServeFile(request, range, env, content, lastModified);
    }

    method OpenTarget(cfg: Config, g: Globals, request: bytes, range: Option<bytes>, target: bytes, env: Env)
      requires replyFd == -1
      modifies this, g`open
      ensures SameLinks()
      ensures (View(), g.View()) == Process.OpenTarget(cfg, old(View()), request, range, target, env, old(g.View()))
    {
      hide Process.AfterOpen;
      var result := env.openResult(target);
      if !result.OpenFails? {
        replyFd := g.NewFd();
      }
      AfterOpen(cfg, request, range, env, result);
    }

    /** generate_dir_listing, which looks at every entry it shows. */
    method ListDirectory(cfg: Config, g: Globals, dir: bytes, env: Env)
      modifies this, g`touched
      ensures SameLinks()
      ensures View() == match env.listing(dir)
                        case Unreadable(e) => Process.Refuse(old(View()), ErrnoCode(e), env)
                        case Entries(_) => Process.PutTexts(old(View()), 200, env.header, env.body)
      ensures g.touched == old(g.touched) + ListingNames(cfg, dir, env.listing(dir))
    {
      hide Process.Refuse, Process.PutTexts;
      g.Touch(dir);
      match env.listing(dir) {
        case Unreadable(e) =>
          Refuse(ErrnoCode(e), env);
        case Entries(names) =>
          g.StatEntries(cfg, dir, names);
          PutTexts(200, env.header, env.body);
      }
    }

    /** process_get from the resolved path on. */
    method ServePath(cfg: Config, g: Globals, request: bytes, range: Option<bytes>, path: bytes, env: Env)
      requires path != [] && replyFd == -1
      modifies this, g`open, g`touched
      ensures SameLinks()
      ensures (View(), g.View()) == Process.ServePath(cfg, old(View()), request, range, path, env, old(g.View()))
    {
      hide Process.OpenTarget, Process.Refuse, Process.PutTexts;
      var target: bytes;
      if cfg.singleFile {
        target := cfg.wwwroot;
      } else if path[|path| - 1] == SLASH {
        target := cfg.wwwroot + path + cfg.indexName;
        g.Touch(target);
        if !env.indexExists(target) {
          if cfg.noListing {
            Refuse(404, env);
            return;
          }
          target := cfg.wwwroot + path;
          ListDirectory(cfg, g, target, env);
          return;
        }
      } else {
        target := cfg.wwwroot + path;
      }
      g.Touch(target);
      assert old(g.touched) + [] == old(g.touched);
      OpenTarget(cfg, g, request, range, target, env);
    }

    /** process_get */
    method ProcessGet(cfg: Config, g: Globals, request: bytes, parsed: Request.Parsed, env: Env)
      requires replyFd == -1
      modifies this, g`open, g`touched
      ensures SameLinks()
      ensures (View(), g.View()) == Process.ProcessGet(cfg, old(View()), request, parsed, env, old(g.View()))
    {
      hide Process.ServePath, Process.Refuse, Process.Redirect;
      var path := UrlCodec.ResolveRequest(Str(parsed.url));
      if path.None? {
        Refuse(400, env);
        return;
      }
      var forwardTo := FindForward(cfg, request);
      if forwardTo.Some? {
        Redirect(env);
        return;
      }
      if cfg.hideDotfiles {
        UrlCodec.LocateConfined(Str(parsed.url));
        var hidden := UrlCodec.HidesDotFile(path.value);
        if hidden {
          Refuse(404, env);
          return;
        }
      }
      ServePath(cfg, g, request, parsed.range, path.value, env);
    }

    // ------------------------------------------------------------- process_request

    method RedirectHttps(request: bytes, url: bytes, env: Env)
      modifies this
      ensures SameLinks() && View() == Process.RedirectHttps(old(View()), request, url, env)
    {
      hide Process.Refuse, Process.Redirect;
      var path := UrlCodec.ResolveWhole(Str(url));
      if path.None? {
        Refuse(400, env);
        return;
      }
      var host := Request.ParseField(request, HOST);
      if host.None? {
        Refuse(400, env);
        return;
      }
      Redirect(env);
    }

    method Dispatch(cfg: Config, g: Globals, request: bytes, parsed: Request.Parsed, env: Env)
      requires replyFd == -1
      modifies this, g`open, g`touched
      ensures SameLinks()
      ensures (View(), g.View()) == Process.Dispatch(cfg, old(View()), request, parsed, env, old(g.View()))
    {
      hide Process.ProcessGet, Process.Refuse;
      if Str(parsed.method_) == GET {
        ProcessGet(cfg, g, request, parsed, env);
      } else if Str(parsed.method_) == HEAD {
        ProcessGet(cfg, g, request, parsed, env);
        out := out.(headerOnly := true);
      } else {
        Refuse(501, env);
      }
    }

    /** The decisions of process_request. */
    method AnswerRequest(cfg: Config, g: Globals, env: Env)
      requires replyFd == -1 && Request.Complete(request)
      requires cfg.authKey.Some? ==> NUL !in cfg.authKey.value
      modifies this, g`open, g`touched
      ensures SameLinks()
      ensures (View(), g.View()) == Answer(cfg, old(View()), old(request), env, old(g.View()))
    {
      hide Process.Dispatch, Process.Refuse, Process.RedirectHttps, Request.Parse, NeedsHttps, Request.Complete;
      Request.CompleteEndsLine(request);
      var parsed := Request.ParseRequest(request, cfg.request);
      if parsed.None? {
        connClose := true;
        Refuse(400, env);
        return;
      }
      connClose := parsed.value.connClose;
      var https := RedirectsToHttps(cfg, request);
      if https {
        RedirectHttps(request, parsed.value.url, env);
        return;
      }
      var ok := Auth.Authorized(AsCString(parsed.value.authorization), cfg.authKey);
      if !ok {
        Refuse(401, env);
        return;
      }
      Dispatch(cfg, g, request, parsed.value, env);
    }

    /** process_request */
    method ProcessRequest(cfg: Config, g: Globals, env: Env)
      requires replyFd == -1 && Request.Complete(request)
      requires cfg.authKey.Some? ==> NUL !in cfg.authKey.value
      modifies this, g`open, g`touched, g`numRequests
      ensures SameLinks()
      ensures (View(), g.View()) == Process.ProcessRequest(cfg, old(View()), env, old(g.View()))
      ensures g.numRequests == old(g.numRequests) + 1
    {
      hide Answer, Request.Complete;
      g.numRequests := g.numRequests + 1;
      handed := handed + [request];
      AnswerRequest(cfg, g, env);
      state := SendHeader;
      request := [];
    }

    // ------------------------------------------------------------- sending

    /** An error or the peer's closure ends the connection. */
    method GiveUp(ghost why: Incident)
      modifies this
      ensures SameLinks() && View() == Fail(old(View()), why)
    {
      connClose := true;
      state := Done;
      incident := Some(why);
    }

    /** The books after a successful send. */
    method CountSent(g: Globals, next: Out, sent: nat, ghost bytes: bytes)
      requires |bytes| == sent
      modifies this, g`totalOut
      ensures SameLinks() && View() == Count(old(View()), next, bytes)
      ensures g.totalOut == old(g.totalOut) + sent
    {
      out := next;
      totalSent := totalSent + sent;
      g.totalOut := g.totalOut + sent;
      wire := wire + bytes;
    }

    /** poll_send_reply */
    method PollSendReply(g: Globals, o: SendOutcome)
      requires Sound(View()) && state == SendReply
      modifies this, g`totalOut
      ensures SameLinks() && View() == ReplyStep(old(View()), g.now, o)
      ensures g.totalOut == old(g.totalOut) + totalSent - old(totalSent)
    {
      hide Sound, ReplyBytes;
      ReplySendable(View(), Accepted(o, ReplyWant(out)));
      var sendLen := out.replyLength - out.replySent;
      assert state == SendReply;
      assert !out.headerOnly;
      assert out.replyLength >= out.replySent;
      if out.replyType == FromFile && sendLen > SENDFILE_SIZE {
        sendLen := SENDFILE_SIZE;
      }
      var sent := Accepted(o, sendLen);
      lastActive := g.now;
      if sent < 1 {
        if o == SendAgain {
          return;
        }
        GiveUp(SendFailed(o, sendLen));
        return;
      }
      CountSent(g, out.(replySent := out.replySent + sent), sent, ReplyBytes(out, sent));
      if out.replySent == out.replyLength {
        state := Done;
      }
    }

    /** poll_send_header */
    method PollSendHeader(g: Globals, io: Io)
      requires Sound(View()) && state == SendHeader
      modifies this, g`totalOut
      ensures SameLinks() && View() == HeaderStep(old(View()), g.now, io)
      ensures g.totalOut == old(g.totalOut) + totalSent - old(totalSent)
    {
      hide Sound, ReplyStep, HeaderBytes;
      HeaderSendable(View(), g.now, io);
      assert state == SendHeader;
      assert out.headerLength == |Str(out.header)|;
      var sent := Accepted(io.header, out.headerLength - out.headerSent);
      lastActive := g.now;
      if sent < 1 {
        if io.header == SendAgain {
          return;
        }
        GiveUp(SendFailed(io.header, out.headerLength - out.headerSent));
        return;
      }
      assert sent > 0;
      CountSent(g, out.(headerSent := out.headerSent + sent), sent, HeaderBytes(out, sent));
      if out.headerSent == out.headerLength {
        if out.headerOnly {
          state := Done;
        } else {
          state := SendReply;
          PollSendReply(g, io.reply);
        }
      }
    }

    // ------------------------------------------------------------- receiving

    /** Appends a chunk to what there is of the request. */
    method AppendChunk(g: Globals, chunk: bytes, ghost env: Env)
      modifies this, g`totalIn
      ensures SameLinks() && View() == Append(old(View()), g.now, chunk, env)
      ensures g.totalIn == old(g.totalIn) + |chunk|
    {
      lastActive := g.now;
      request := request + chunk;
      Note(chunk, env);
      requestLength := requestLength + |chunk|;
      g.totalIn := g.totalIn + |chunk|;
    }

    /** The histories of a chunk. */
    ghost method Note(chunk: bytes, env: Env)
      modifies this
      ensures SameLinks() && View() == old(View()).(received := old(received) + chunk, met := Some(env))
    {
      received, met := received + chunk, Some(env);
    }

    /** Answers the request if it is complete. */
    method ProcessIfComplete(cfg: Config, g: Globals, env: Env)
      requires replyFd == -1
      requires cfg.authKey.Some? ==> NUL !in cfg.authKey.value
      modifies this, g`open, g`touched, g`numRequests
      ensures SameLinks()
      ensures (View(), g.View()) ==
              if Request.Complete(old(request)) then Process.ProcessRequest(cfg, old(View()), env, old(g.View()))
              else old((View(), g.View()))
      ensures g.numRequests == old(g.numRequests) + if Request.Complete(old(request)) then 1 else 0
    {
      hide Process.ProcessRequest, Request.EndsWith;
      if Request.EndsWith(request, [LF, LF]) {
        ProcessRequest(cfg, g, env);
      } else if Request.EndsWith(request, [CR, LF, CR, LF]) {
        ProcessRequest(cfg, g, env);
      }
    }

    /** The 413 reply, whatever was prepared before. */
    method RefuseTooLong(env: Env)
      modifies this
      ensures SameLinks() && View() == TooLong(old(View()), env)
    {
      hide Process.DefaultReply;
      DefaultReply(413, env.tooLongHeader, env.tooLongBody);
      state := SendHeader;
    }

    /** Appends a chunk, and answers the request if that completes it or makes it too long. */
    method Receive(cfg: Config, g: Globals, io: Io)
      requires Sound(View()) && state == RecvRequest && Chunk(io.recv) != []
      requires cfg.authKey.Some? ==> NUL !in cfg.authKey.value
      modifies this, g`open, g`touched, g`numRequests, g`totalIn
      ensures SameLinks()
      ensures (View(), g.View()) == Digest(cfg, old(View()), g.now, io, old(g.View()))
      ensures g.numRequests == old(g.numRequests) + if Request.Complete(old(request) + Chunk(io.recv)) then 1 else 0
      ensures g.totalIn == old(g.totalIn) + |Chunk(io.recv)|
    {
      hide Sound, Process.ProcessRequest, TooLong, Request.Complete;
      var chunk := Chunk(io.recv);
      AppendSound(View(), g.now, chunk, io.env);
      assert |chunk| > 0;
      AppendChunk(g, chunk, io.env);
      ProcessIfComplete(cfg, g, io.env);
      if requestLength > MAX_REQUEST_LENGTH {
        RefuseTooLong(io.env);
      }
    }

    /** poll_recv_request */
    method PollRecvRequest(cfg: Config, g: Globals, io: Io)
      requires Sound(View()) && state == RecvRequest
      requires cfg.authKey.Some? ==> NUL !in cfg.authKey.value
      modifies this, g`open, g`touched, g`numRequests, g`totalIn, g`totalOut
      ensures SameLinks()
      ensures (View(), g.View()) == RecvStep(cfg, old(View()), g.now, io, old(g.View()))
      ensures g.numRequests == old(g.numRequests) + |handed| - old(|handed|)
      ensures g.totalIn == old(g.totalIn) + requestLength - old(requestLength)
      ensures g.totalOut == old(g.totalOut) + totalSent - old(totalSent)
    {
      hide Sound, Digest, HeaderStep;
      assert state == RecvRequest;
      if |Chunk(io.recv)| < 1 {
        if io.recv == RecvAgain {
          return;
        }
        GiveUp(RecvFailed(io.recv));
        return;
      }
      DigestCounts(cfg, View(), g.now, io, g.View());
      DigestSound(cfg, View(), g.now, io, g.View());
      Receive(cfg, g, io);
      if state == SendHeader {
        HeaderStepSound(View(), g.now, io);
        PollSendHeader(g, io);
      }
    }

    /** poll_check_timeout */
    method PollCheckTimeout(cfg: Config, now: int)
      modifies this
      ensures SameLinks() && View() == CheckTimeout(cfg, old(View()), now)
    {
      if cfg.timeoutSecs > 0 {
        if now - lastActive >= cfg.timeoutSecs {
          GiveUp(TimedOut(now - lastActive));
        }
      }
    }

    // ------------------------------------------------------------- a turn

    /** MAX_FD_SET, for the set this connection's state asks for. */
    method AddTo(before: Waiting) returns (w: Waiting)
      ensures w == AddWaiting(before, View())
    {
      w := before;
      match state {
        case Done =>
        case RecvRequest => w := w.(recv := w.recv + {socket}, bother := true);
        case SendHeader => w := w.(send := w.send + {socket}, bother := true);
        case SendReply => w := w.(send := w.send + {socket}, bother := true);
      }
    }

    /** What the sweep of httpd_poll does with this connection before it looks for DONE. */
    method TakeTurn(cfg: Config, g: Globals, w: Waiting, io: map<int, Io>)
      requires Sound(View())
      requires cfg.authKey.Some? ==> NUL !in cfg.authKey.value
      modifies this, g`open, g`touched, g`numRequests, g`totalIn, g`totalOut
      ensures SameLinks()
      ensures (View(), g.View()) == Turn(cfg, old(View()), g.now, w, io, old(g.View()))
      ensures g.numRequests == old(g.numRequests) + |handed| - old(|handed|)
      ensures g.totalIn == old(g.totalIn) + requestLength - old(requestLength)
      ensures g.totalOut == old(g.totalOut) + totalSent - old(totalSent)
    {
      hide Sound, RecvStep, HeaderStep, ReplyStep;
      TimeoutSound(cfg, View(), g.now);
      PollCheckTimeout(cfg, g.now);
      match state {
        case RecvRequest =>
          if socket in w.recv && socket in io {
            PollRecvRequest(cfg, g, io[socket]);
          }
        case SendHeader =>
          if socket in w.send && socket in io {
            HeaderStepSound(View(), g.now, io[socket]);
            PollSendHeader(g, io[socket]);
          }
        case SendReply =>
          if socket in w.send && socket in io {
            ReplyStepSound(View(), g.now, io[socket].reply);
            PollSendReply(g, io[socket].reply);
          }
        case Done =>
      }
    }

    /** free_connection */
    method FreeConnection(g: Globals)
      requires replyFd >= -1
      requires socket != -1 ==> socket in g.open
      requires replyFd != -1 ==> replyFd in CloseFd(g.open, socket)
      modifies g`open, g`accepting
      ensures g.open == CloseFd(CloseFd(old(g.open), socket), replyFd) && g.accepting
    {
      if socket != -1 {
        g.XClose(socket);
      }
      if replyFd != -1 {
        g.XClose(replyFd);
      }
      g.accepting := true;
    }

    /** recycle_connection */
    method RecycleConnection(g: Globals)
      requires replyFd >= -1 && (replyFd != -1 ==> replyFd in g.open)
      modifies this, g`open, g`accepting
      ensures SameLinks() && View() == Recycled(old(View()))
      ensures g.open == CloseFd(old(g.open), old(replyFd)) && g.accepting
    {
      hide CloseFd;
      ghost var open0 := g.open;
      CloseNothing(open0);
      var socketTmp := socket;
      socket := -1;
      FreeConnection(g);
      socket := socketTmp;
      Reset();
    }

    /** Forgets the response. */
    method ForgetReply()
      modifies this
      ensures SameLinks()
      ensures View() == old(View()).(out := NOTHING, httpCode := 0, connClose := true, replyFd := -1, totalSent := 0)
    {
      out, httpCode := NOTHING, 0;
      ForgetState();
    }

    method ForgetState()
      modifies this
      ensures SameLinks() && View() == old(View()).(connClose := true, replyFd := -1, totalSent := 0)
    {
      connClose, replyFd, totalSent := true, -1, 0;
    }

    /** Forgets the request. */
    method ForgetRequest()
      modifies this
      ensures SameLinks()
      ensures View() == old(View()).(request := [], requestLength := 0, received := [], met := None, incident := None, handed := [])
    {
      request, requestLength := [], 0;
      ForgetHistory();
    }

    ghost method ForgetHistory()
      modifies this
      ensures SameLinks()
      ensures View() == old(View()).(received := [], met := None, incident := None, handed := [])
    {
      received, met := [], None;
      incident, handed := None, [];
    }

    /** Everything but the socket and the client starts afresh. */
    method Reset()
      modifies this
      ensures SameLinks() && View() == Recycled(old(View()))
    {
      hide Response;
      served := served + [Response(out)];
      ForgetReply();
      ForgetRequest();
      state := RecvRequest;
    }
  }

  lemma CloseNothing(open: set<int>)
    ensures CloseFd(open, -1) == open
  {
  }

  lemma TimeoutSound(cfg: Config, c: Conn, now: int)
    requires Sound(c)
    ensures Sound(CheckTimeout(cfg, c, now))
  {
  }

  /** What receiving does to the counters. */
  lemma DigestCounts(cfg: Config, c: Conn, now: int, io: Io, k: Kernel)
    requires Sound(c) && c.state == RecvRequest
    ensures var c' := Digest(cfg, c, now, io, k).0;
            && c'.requestLength == c.requestLength + |Chunk(io.recv)|
            && c'.totalSent == c.totalSent
            && |c'.handed| == |c.handed| + (if Request.Complete(c.request + Chunk(io.recv)) then 1 else 0)
  {
    hide Process.ProcessRequest, Sound;
    var chunk := Chunk(io.recv);
    var c1 := Append(c, now, chunk, io.env);
    AppendSound(c, now, chunk, io.env);
    ProcessRequestReady(cfg, c1, io.env, k);
  }

  /** The Range field of a request, decided in 64-bit arithmetic. */
  method DecideRange(range: Option<bytes>, content: FileBytes) returns (given: bool, slice: Option<Range.Slice>)
    ensures given == Asked(range).Some?
    ensures given ==> slice == Range.Select(Asked(range).value, |content|)
  {
    given, slice := false, None;
    if range.Some? {
      var f := Range.ParseRangeField(Str(range.value));
      given := f.beginGiven || f.endGiven;
      if given {
        Range.SaturationIsExact(Asked(range).value, |content|);
        var start, length;
        slice, start, length := Range.SelectRange(f, |content| as Range.off_t);
      }
    }
  }

  /** The web forward options, first by host. */
  method FindForward(cfg: Config, request: bytes) returns (target: Option<bytes>)
    ensures target == ForwardTarget(cfg, request)
  {
    target := None;
    if cfg.forwardMap != [] {
      var host := Request.ParseField(request, HOST);
      if host.Some? {
        var i := 0;
        assert cfg.forwardMap[0..] == cfg.forwardMap;
        while i < |cfg.forwardMap|
          invariant 0 <= i <= |cfg.forwardMap| && target == None
          invariant ForwardHost(cfg.forwardMap[i..], Str(host.value)) == ForwardHost(cfg.forwardMap, Str(host.value))
        {
          if Lower(cfg.forwardMap[i].host) == Lower(Str(host.value)) {
            target := Some(cfg.forwardMap[i].target);
            break;
          }
          i := i + 1;
        }
      }
    }
    if target.None? {
      target := cfg.forwardAll;
    }
  }

  /** needs_https_redirect */
  method RedirectsToHttps(cfg: Config, request: bytes) returns (needed: bool)
    ensures needed == NeedsHttps(cfg, request)
  {
    if !cfg.forwardToHttps {
      return false;
    }
    var proto := Request.ParseField(request, FORWARDED_PROTO);
    needed := proto.Some? && !Request.SameText(proto.value, HTTPS_WORD);
  }

  /** What poll_send_reply may rely on. */
  lemma ReplySendable(c: Conn, n: nat)
    requires Sound(c) && c.state == SendReply && n <= ReplyWant(c.out)
    ensures !c.out.headerOnly && c.out.replySent <= c.out.replyLength
    ensures |ReplyBytes(c.out, n)| == n
  {
  }

  /**
   What poll_send_header may rely on, up to the state in which it hands over to
   poll_send_reply.
   */
  lemma HeaderSendable(c: Conn, now: int, io: Io)
    requires Sound(c) && c.state == SendHeader
    ensures c.out.headerSent < c.out.headerLength == |Str(c.out.header)|
    ensures var n := Accepted(io.header, c.out.headerLength - c.out.headerSent);
            && |HeaderBytes(c.out, n)| == n
            && (n > 0 && c.out.headerSent + n == c.out.headerLength && !c.out.headerOnly ==>
                  Sound(Count(c.(lastActive := now), PutHeader(c.out, n), HeaderBytes(c.out, n)).(state := SendReply)))
  {
    StrWhole(c.out.header);
    var n := Accepted(io.header, HeaderWant(c.out));
    if n > 0 {
      PutHeaderOk(c.out, n);
      CountSound(c.(lastActive := now, state := Done, connClose := true), PutHeader(c.out, n), HeaderBytes(c.out, n));
    }
  }
}
