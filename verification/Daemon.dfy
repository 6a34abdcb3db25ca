/** httpd_poll on the heap, one call after another. */
module Daemon {
  import opened Bytes
  import opened Conn
  import opened Process
  import opened EventLoop
  import opened Safety
  import opened Connections
  import opened Server

  /** The list after a visit of its k-th connection that goes on at next. */
  function Left(all: seq<Connection>, k: nat, next: nat): seq<Connection>
    requires k < |all|
  {
    if next == k then Without(all, k) else all
  }

  /** All but the k-th connection are as kept and pending say. */
  ghost predicate Others(all: seq<Connection>, k: nat, kept: seq<Conn>, pending: seq<Conn>)
    reads all
  {
    && |all| == |kept| + |pending| && |kept| == k < |all|
    && (forall i :: 0 <= i < k ==> all[i].View() == kept[i])
    && (forall i :: 0 < i < |pending| ==> pending[i] == all[k + i].View())
  }

  twostate predicate OthersSame(all: seq<Connection>, k: nat)
    reads all
  {
    forall i :: 0 <= i < |all| && i != k ==> all[i].View() == old(all[i].View())
  }

  lemma Parts(all: seq<Connection>, k: nat)
    requires k < |all|
    ensures Others(all, k, Views(all[..k]), Views(all[k..])) && Views(all[k..])[0] == all[k].View()
  {
    forall i | 0 <= i < |all| - k
      ensures Views(all[k..])[i] == all[k + i].View()
    {
      assert all[k..][i] == all[k + i];
    }
  }

  /** The list on either side of the next connection, after the k-th was visited. */
  lemma AdvancedLinks(all: seq<Connection>, k: nat, next: nat, left: seq<Connection>)
    requires k < |all| && (next == k || next == k + 1) && left == Left(all, k, next)
    ensures next <= |left| && left[next..] == all[k + 1..] && Elem(left, next) == Elem(all, k + 1)
    ensures forall i :: 0 <= i < |left| ==> left[i] in all
    ensures forall i :: 0 <= i < next ==> left[i] == all[i]
  {
  }

  lemma Advanced(all: seq<Connection>, k: nat, next: nat, left: seq<Connection>, kept: seq<Conn>, pending: seq<Conn>)
    requires Others(all, k, kept, pending)
    requires (next == k || next == k + 1) && left == Left(all, k, next)
    ensures next <= |left| && left[next..] == all[k + 1..] && Elem(left, next) == Elem(all, k + 1)
    ensures forall i :: 0 <= i < |left| ==> left[i] in all
    ensures Views(left[next..]) == pending[1..]
    ensures Views(left[..next]) == kept + if next == k then [] else [all[k].View()]
  {
    AdvancedLinks(all, k, next, left);
    forall i | 0 <= i < |all| - k - 1
      ensures Views(left[next..])[i] == pending[1 + i]
    {
      assert left[next..][i] == all[k + (1 + i)];
    }
    var now := kept + if next == k then [] else [all[k].View()];
    forall i | 0 <= i < next
      ensures Views(left[..next])[i] == now[i]
    {
      assert left[..next][i] == all[i];
    }
    assert Views(left[..next]) == now;
  }

  /** All connections but the head are as others say. */
  lemma ViewsHead(cs: seq<Connection>, others: seq<Conn>)
    requires |cs| == |others| + 1
    requires forall i :: 0 <= i < |others| ==> cs[i + 1].View() == others[i]
    ensures Views(cs) == [cs[0].View()] + others
  {
  }

  lemma WaitingNone(cs: seq<Connection>, accepting: bool)
    ensures WaitingFor(Views(cs[..0]), accepting) == Waiting(accepting, {}, {}, false)
  {
  }

  lemma WaitingMore(cs: seq<Connection>, accepting: bool, k: nat)
    requires k < |cs|
    ensures WaitingFor(Views(cs[..k + 1]), accepting) == AddWaiting(WaitingFor(Views(cs[..k]), accepting), cs[k].View())
  {
    assert Views(cs[..k + 1])[..k] == Views(cs[..k]);
  }

  lemma OneMore(visited: seq<Connection>, cs: seq<Connection>, k: nat)
    requires k < |cs|
    ensures visited + cs[k..] == visited + [cs[k]] + cs[k + 1..]
  {
  }

  /** AcceptStep in two steps: opening the socket, then reading from it. */
  lemma AcceptInTwo(cfg: Config, s: Sys, io: Io, bound: Sys, after: Sys, c': Conn)
    requires var fd := LowestFree(s.kernel.open, 0);
             && bound == s.(kernel := s.kernel.(open := s.kernel.open + {fd}))
             && (c', after.kernel) == RecvStep(cfg, Fresh(fd, s.now), s.now, io, bound.kernel)
             && after == Account(bound, Fresh(fd, s.now), c', after.kernel)
    ensures AcceptStep(cfg, s, Accepts(io)) == after.(conns := [c'] + s.conns)
  {
    hide RecvStep;
  }

  lemma SweepOne(cfg: Config, base: set<int>, s: Sys, pending: seq<Conn>, w: Waiting, io: map<int, Io>)
    requires MidInv(cfg, base, s, pending) && pending != []
    ensures var t := EventLoop.Visit(cfg, s, pending[0], w, io);
            && MidInv(cfg, base, t, pending[1..])
            && EventLoop.Sweep(cfg, t, pending[1..], w, io) == EventLoop.Sweep(cfg, s, pending, w, io)
  {
    hide EventLoop.Visit, MidInv;
    VisitMidInv(cfg, base, s, pending, w, io);
  }

  lemma SweepNone(cfg: Config, s: Sys, w: Waiting, io: map<int, Io>)
    ensures EventLoop.Sweep(cfg, s, [], w, io) == s
  {
  }

  lemma Cursor(cs: seq<Connection>, k: nat)
    ensures Elem(cs, k) == if k < |cs| then cs[k] else null
  {
  }

  lemma ElemFirst(cs: seq<Connection>)
    ensures Elem(cs, 0) == null <==> cs == []
    ensures cs != [] ==> Elem(cs, 0) == cs[0]
  {
  }

  lemma FirstOf(cs: seq<Connection>)
    requires cs != []
    ensures var vs := Views(cs);
            vs == [cs[0].View()] + Views(cs[1..]) && vs[0] == cs[0].View() && vs[1..] == Views(cs[1..]) &&
            Sum(vs).fds == Owned(cs[0].View()) + Sum(Views(cs[1..])).fds
  {
    assert Views(cs)[1..] == Views(cs[1..]);
  }

  /** Views of all but the first, which may have gone. */
  lemma BehindFirst(all: seq<Connection>, vs: seq<Conn>)
    requires |vs| == |all| > 0 && forall i :: 0 <= i < |all| ==> all[i].View() == vs[i]
    ensures Views(all[1..]) == vs[1..]
  {
    assert forall i :: 0 <= i < |all| - 1 ==> all[1..][i] == all[i + 1];
  }

  /** The listener is no connection's, so closing it leaves the rest as it was. */
  lemma CloseListener(base: set<int>, sockin: int, open: set<int>, owned: multiset<int>)
    requires sockin in base && multiset(open) == multiset(base) + owned
    ensures sockin in open && multiset(open - {sockin}) == multiset(base - {sockin}) + owned
  {
    assert sockin in multiset(open);
    MultisetRemove(open, sockin);
    MultisetRemove(base, sockin);
  }

  lemma Emptied(open: set<int>, left: set<int>)
    requires multiset(open) == multiset(left) + Sum(Views([])).fds
    ensures open == left
  {
    assert forall fd :: fd in open <==> fd in multiset(open);
    assert forall fd :: fd in left <==> fd in multiset(left);
  }

  /** What a visit needs to know to close what the connection owns. */
  ghost predicate Closable(g: Globals, base: set<int>, c: Conn)
    reads g
  {
    exists rest: multiset<int> :: multiset(g.open) == multiset(base) + (Owned(c) + rest)
  }

  /** A connection that a sweep has come to is sound, and its descriptors can be closed after its turn. */
  lemma VisitReady(cfg: Config, base: set<int>, s: Sys, pending: seq<Conn>, w: Waiting, io: map<int, Io>)
    requires MidInv(cfg, base, s, pending) && pending != []
    ensures Sound(pending[0])
    ensures var (c', k') := Turn(cfg, pending[0], s.now, w, io, s.kernel);
            Sound(c') && exists rest: multiset<int> :: multiset(k'.open) == multiset(base) + (Owned(c') + rest)
  {
    hide Turn, Sound;
    TurnBalanced(cfg, base, s, pending, w, io);
    var rest := Plus(Sum(s.conns), Sum(pending[1..])).fds;
    var (c', k') := Turn(cfg, pending[0], s.now, w, io, s.kernel);
    assert multiset(k'.open) == multiset(base) + (Owned(c') + rest);
  }

  class Httpd {
    const cfg: Config
    const base: set<int>
    const list: ConnList
    const g: Globals
    ghost var retired: seq<Conn>

    /** The server as a value, with only the given connections. */
    ghost function SysOf(conns: seq<Conn>): Sys
      reads this, g
    {
      Sys(conns, g.View(), g.now, g.accepting, g.numRequests, g.totalIn, g.totalOut, retired)
    }

    ghost function View(): Sys
      reads this, g, list, list.contents
    {
      SysOf(Views(list.contents))
    }

    ghost predicate Valid()
      reads this, g, list, list.contents
    {
      && list.Valid()
      && (cfg.authKey.Some? ==> NUL !in cfg.authKey.value)
      && Inv(cfg, base, View())
    }

    /** The server before its first poll. */
    constructor (cfg: Config, base: set<int>, now: int)
      requires cfg.authKey.Some? ==> NUL !in cfg.authKey.value
      ensures Valid() && View() == Start(base, now) && this.cfg == cfg && this.base == base
      ensures fresh(list) && fresh(g)
    {
      this.cfg, this.base, retired := cfg, base, [];
      list := new ConnList();
      g := new Globals(base, now);
      new;
      StartInv(cfg, base, now);
    }

    /** Closes what an unlinked connection owns; no object changes. */
    method Close(conn: Connection)
      requires conn.replyFd >= -1 && (conn.socket != -1 ==> conn.socket in g.open)
      requires conn.replyFd != -1 ==> conn.replyFd in CloseFd(g.open, conn.socket)
      modifies g`open, g`accepting
      ensures g.accepting && g.open == CloseFd(CloseFd(old(g.open), conn.socket), conn.replyFd)
      ensures unchanged(conn) && list.Valid() == old(list.Valid())
      ensures forall c: Connection :: allocated(c) && old(allocated(c)) ==> c.View() == old(c.View())
    {
      conn.FreeConnection(g);
    }

    /** Unlinks and frees a finished connection. */
    method Drop(conn: Connection, ghost k: nat, ghost kept: seq<Conn>)
      requires list.Valid() && k < |list.contents| && list.contents[k] == conn
      requires conn.state == Done && conn.connClose
      requires conn.replyFd >= -1 && (conn.socket != -1 ==> conn.socket in g.open)
      requires conn.replyFd != -1 ==> conn.replyFd in CloseFd(g.open, conn.socket)
      modifies this`retired, list, g`open, g`accepting
      modifies (set c | c in list.contents)`leNext, (set c | c in list.contents)`lePrev
      ensures list.Valid() && list.contents == Without(old(list.contents), k)
      ensures SysOf(kept) == EventLoop.Settle(old(SysOf(kept)), old(conn.View()))
      ensures conn.leNext == old(conn.leNext) && SameViews(old(list.contents))
    {
      hide CloseFd, ConnList.Valid;
      retired := retired + [conn.View()];
      list.Remove(conn, k);
      Close(conn);
    }

    /** Recycles a finished connection in its place. */
    method Reuse(conn: Connection, ghost kept: seq<Conn>)
      requires list.Valid() && conn.state == Done && !conn.connClose
      requires conn.replyFd >= -1 && (conn.replyFd != -1 ==> conn.replyFd in g.open)
      modifies this`retired, conn, g`open, g`accepting
      ensures SysOf(kept + [conn.View()]) == EventLoop.Settle(old(SysOf(kept)), old(conn.View()))
      ensures list.Valid() && conn.SameLinks()
    {
      hide CloseFd, Recycled;
      retired := retired + [conn.View()];
      conn.RecycleConnection(g);
      list.StillValid();
    }

    /** The end of a turn: a finished connection is unlinked and freed, or recycled. */
    method Settle(conn: Connection, ghost k: nat, ghost kept: seq<Conn>) returns (ghost next: nat)
      requires list.Valid() && k < |list.contents| && list.contents[k] == conn
      requires Sound(conn.View()) && Closable(g, base, conn.View())
      modifies this`retired, list, conn, g`open, g`accepting
      modifies (set c | c in list.contents)`leNext, (set c | c in list.contents)`lePrev
      ensures list.Valid() && conn.leNext == old(conn.leNext) && OthersSame(old(list.contents), k)
      ensures if next == k then list.contents == Without(old(list.contents), k)
              else next == k + 1 && list.contents == old(list.contents)
      ensures SysOf(kept + if next == k then [] else [conn.View()]) ==
              EventLoop.Settle(old(SysOf(kept)), old(conn.View()))
    {
      hide Sound, CloseFd, ConnList.Valid;
      ghost var rest: multiset<int> :| multiset(g.open) == multiset(base) + (Owned(conn.View()) + rest);
      list.EachOnce();
      SoundOwner(conn.View());
      CloseBalanced(g.open, base, rest, conn.View());
      next := k + 1;
      if conn.state == Done {
        hide EventLoop.Settle;
        if conn.connClose {
          Drop(conn, k, kept);
          next := k;
          assert kept + [] == kept;
        } else {
          Reuse(conn, kept);
        }
      }
    }

    /** One connection's turn, with the books moving along. */
    method Act(conn: Connection, w: Waiting, io: map<int, Io>, ghost kept: seq<Conn>, ghost pending: seq<Conn>)
      requires list.Valid() && conn in list.contents
      requires cfg.authKey.Some? ==> NUL !in cfg.authKey.value
      requires pending != [] && pending[0] == conn.View() && MidInv(cfg, base, SysOf(kept), pending)
      modifies conn, g`open, g`touched, g`numRequests, g`totalIn, g`totalOut
      ensures list.Valid() && conn.SameLinks() && Sound(conn.View()) && Closable(g, base, conn.View())
      ensures (conn.View(), g.View()) == Turn(cfg, old(conn.View()), g.now, w, io, old(g.View()))
      ensures SysOf(kept) == Account(old(SysOf(kept)), old(conn.View()), conn.View(), g.View())
    {
      hide Turn, MidInv, Sound, ConnList.Valid, Owned;
      VisitReady(cfg, base, SysOf(kept), pending, w, io);
      conn.TakeTurn(cfg, g, w, io);
      list.StillValid();
    }

    /** One connection's share of the sweep: its turn, and what follows when it is done. */
    method Visit(conn: Connection, ghost k: nat, w: Waiting, io: map<int, Io>,
                 ghost kept: seq<Conn>, ghost pending: seq<Conn>) returns (ghost next: nat)
      requires list.Valid() && k < |list.contents| && list.contents[k] == conn
      requires cfg.authKey.Some? ==> NUL !in cfg.authKey.value
      requires pending != [] && pending[0] == conn.View() && MidInv(cfg, base, SysOf(kept), pending)
      modifies this`retired, list, conn, g
      modifies (set c | c in list.contents)`leNext, (set c | c in list.contents)`lePrev
      ensures list.Valid() && conn.leNext == old(conn.leNext) && g.now == old(g.now)
      ensures OthersSame(old(list.contents), k)
      ensures if next == k then list.contents == Without(old(list.contents), k)
              else next == k + 1 && list.contents == old(list.contents)
      ensures SysOf(kept + if next == k then [] else [conn.View()]) ==
              EventLoop.Visit(cfg, old(SysOf(kept)), old(conn.View()), w, io)
    {
      hide ConnList.Valid, Turn, MidInv, Sound, EventLoop.Settle, Closable;
      list.EachOnce();
      Act(conn, w, io, kept, pending);
      next := Settle(conn, k, kept);
    }

    /** The sweep has come to the k-th connection: s is the server so far, pending the rest. */
    ghost predicate At(k: nat, s: Sys, pending: seq<Conn>)
      reads this, g, list, list.contents
    {
      && list.Valid() && k <= |list.contents|
      && s == SysOf(Views(list.contents[..k]))
      && pending == Views(list.contents[k..])
    }

    lemma AtStart()
      requires list.Valid()
      ensures At(0, SysOf([]), Views(list.contents))
    {
      assert list.contents[..0] == [] && list.contents[0..] == list.contents;
    }

    lemma AtNext(k: nat, s: Sys, pending: seq<Conn>)
      requires At(k, s, pending)
      ensures list.Valid() && k <= |list.contents| && |pending| == |list.contents| - k
    {
    }

    lemma AtEnd(s: Sys, pending: seq<Conn>)
      requires At(|list.contents|, s, pending)
      ensures list.Valid() && s == View() && pending == []
    {
      assert list.contents[..|list.contents|] == list.contents;
    }

    /** The same, for the k-th connection of the list, in terms of the list. */
    method Advance(conn: Connection, ghost k: nat, w: Waiting, io: map<int, Io>,
                   ghost s: Sys, ghost pending: seq<Conn>) returns (ghost next: nat)
      requires At(k, s, pending) && k < |list.contents| && list.contents[k] == conn
      requires cfg.authKey.Some? ==> NUL !in cfg.authKey.value
      requires MidInv(cfg, base, s, pending)
      modifies this`retired, list, list.contents, g
      ensures pending != [] && At(next, EventLoop.Visit(cfg, s, pending[0], w, io), pending[1..])
      ensures next <= |list.contents| && list.contents[next..] == old(list.contents[k + 1..])
      ensures Elem(list.contents, next) == Elem(old(list.contents), k + 1)
      ensures forall i :: 0 <= i < |list.contents| ==> list.contents[i] in old(list.contents)
    {
      hide Turn, MidInv, Sound, EventLoop.Visit, ConnList.Valid, Views;
      ghost var all := list.contents;
      ghost var kept := Views(all[..k]);
      Parts(all, k);
      next := Visit(conn, k, w, io, kept, pending);
      Advanced(all, k, next, list.contents, kept, pending);
    }

    /** The second LIST_FOREACH_SAFE of httpd_poll: every connection has its turn exactly once. */
    method Sweep(w: Waiting, io: map<int, Io>) returns (ghost visited: seq<Connection>)
      requires list.Valid()
      requires cfg.authKey.Some? ==> NUL !in cfg.authKey.value
      requires MidInv(cfg, base, SysOf([]), Views(list.contents))
      modifies this`retired, list, list.contents, g
      ensures Valid() && visited == old(list.contents)
      ensures View() == EventLoop.Sweep(cfg, old(SysOf([])), old(Views(list.contents)), w, io)
      ensures forall i :: 0 <= i < |list.contents| ==> list.contents[i] in old(list.contents)
    {
      hide MidInv, EventLoop.Visit, EventLoop.Sweep, ConnList.Valid, Inv, SysOf, Views, At;
      ghost var k: nat, s, pending := 0, SysOf([]), Views(list.contents);
      ghost var goal := EventLoop.Sweep(cfg, s, pending, w, io);
      visited := [];
      AtStart();
      assert list.contents[0..] == list.contents;
      var conn := list.First();
      while conn != null
        invariant At(k, s, pending) && k <= |list.contents| && conn == Elem(list.contents, k)
        invariant visited + list.contents[k..] == old(list.contents)
        invariant forall i :: 0 <= i < |list.contents| ==> list.contents[i] in old(list.contents)
        invariant MidInv(cfg, base, s, pending) && EventLoop.Sweep(cfg, s, pending, w, io) == goal
        decreases |list.contents[k..]|
      {
        conn, k, s, pending, visited := Round(conn, k, w, io, s, pending, visited);
      }
      assert list.contents[k..] == [];
      AtEnd(s, pending);
      SweepNone(cfg, s, w, io);
      MidEnd(cfg, base, s);
    }

    /** One round of that loop; the next connection is read before this one's turn. */
    method Round(conn: Connection, ghost k: nat, w: Waiting, io: map<int, Io>,
                 ghost s: Sys, ghost pending: seq<Conn>, ghost visited: seq<Connection>)
      returns (next: Connection?, ghost k': nat, ghost s': Sys, ghost pending': seq<Conn>, ghost visited': seq<Connection>)
      requires At(k, s, pending) && k < |list.contents| && list.contents[k] == conn
      requires cfg.authKey.Some? ==> NUL !in cfg.authKey.value
      requires MidInv(cfg, base, s, pending)
      modifies this`retired, list, list.contents, g
      ensures At(k', s', pending') && k' <= |list.contents| && next == Elem(list.contents, k')
      ensures MidInv(cfg, base, s', pending')
      ensures EventLoop.Sweep(cfg, s', pending', w, io) == EventLoop.Sweep(cfg, s, pending, w, io)
      ensures visited' + list.contents[k'..] == visited + old(list.contents[k..])
      ensures |list.contents[k'..]| < |old(list.contents[k..])|
      ensures forall i :: 0 <= i < |list.contents| ==> list.contents[i] in old(list.contents)
    {
      hide MidInv, EventLoop.Visit, EventLoop.Sweep, ConnList.Valid, SysOf, Views, At;
      AtNext(k, s, pending);
      next := list.After(conn, k);
      OneMore(visited, list.contents, k);
      visited' := visited + [conn];
      SweepOne(cfg, base, s, pending, w, io);
      k' := Advance(conn, k, w, io, s, pending);
      s', pending' := EventLoop.Visit(cfg, s, pending[0], w, io), pending[1..];
    }

    // ------------------------------------------------------------- accepting

    /** Reads from a new connection straight away. */
    method ReadNew(conn: Connection, io: Io, ghost rest: seq<Conn>)
      requires list.Valid() && conn in list.contents
      requires cfg.authKey.Some? ==> NUL !in cfg.authKey.value
      requires Sound(conn.View()) && conn.state == RecvRequest
      modifies conn, g`open, g`touched, g`numRequests, g`totalIn, g`totalOut
      ensures list.Valid() && conn.SameLinks()
      ensures (conn.View(), g.View()) == RecvStep(cfg, old(conn.View()), g.now, io, old(g.View()))
      ensures SysOf(rest) == Account(old(SysOf(rest)), old(conn.View()), conn.View(), g.View())
    {
      hide RecvStep, ConnList.Valid, Sound;
      conn.PollRecvRequest(cfg, g, io);
      list.StillValid();
    }

    /** A connection for a freshly accepted socket, at the head of the list. */
    method NewConnection(fd: nat) returns (conn: Connection)
      requires list.Valid()
      modifies list, (set c | c in list.contents)`lePrev
      ensures list.Valid() && fresh(conn) && list.contents == [conn] + old(list.contents)
      ensures conn.View() == Fresh(fd, g.now) && conn.state == RecvRequest && Sound(conn.View())
      ensures SameViews(old(list.contents))
    {
      hide ConnList.Valid, Sound;
      FreshSound(fd, g.now);
      conn := new Connection(fd, g.now);
      list.InsertHead(conn);
    }

    /** A connection on the new socket, at the head of the list. */
    method OpenConnection(ghost others: seq<Conn>) returns (conn: Connection)
      requires list.Valid() && others == Views(list.contents)
      modifies list, g`open, (set c | c in list.contents)`lePrev
      ensures list.Valid() && fresh(conn) && list.contents == [conn] + old(list.contents)
      ensures var s := old(SysOf(others)); var fd := LowestFree(s.kernel.open, 0);
              && conn.View() == Fresh(fd, s.now) && conn.state == RecvRequest && Sound(conn.View())
              && SysOf(others) == s.(kernel := s.kernel.(open := s.kernel.open + {fd}))
      ensures OthersAre(others)
    {
      hide ConnList.Valid, Sound, Views, Fresh;
      var fd := g.NewFd();
      conn := NewConnection(fd);
      assert list.contents[1..] == old(list.contents);
    }

    /** All connections but the first are as given. */
    ghost predicate OthersAre(others: seq<Conn>)
      reads list, list.contents
    {
      |list.contents| == |others| + 1 && forall i :: 0 <= i < |others| ==> list.contents[i + 1].View() == others[i]
    }

    /** accept_connection, once accept has succeeded. */
    method Welcome(io: Io)
      requires list.Valid()
      requires cfg.authKey.Some? ==> NUL !in cfg.authKey.value
      modifies list, g, (set c | c in list.contents)`lePrev
      ensures list.Valid() && |list.contents| == 1 + |old(list.contents)| && fresh(list.contents[0])
      ensures list.contents[1..] == old(list.contents)
      ensures View() == AcceptStep(cfg, old(View()), Accepts(io))
    {
      hide RecvStep, ConnList.Valid, Sound, Views, Account, AcceptStep, Fresh;
      ghost var s, others := View(), Views(list.contents);
      var conn := OpenConnection(others);
      ghost var bound := SysOf(others);
      list.EachOnce();
      ReadNew(conn, io, others);
      ViewsHead(list.contents, others);
      AcceptInTwo(cfg, s, io, bound, SysOf(others), conn.View());
    }

    /** accept_connection */
    method AcceptConnection(a: AcceptOutcome)
      requires list.Valid()
      requires cfg.authKey.Some? ==> NUL !in cfg.authKey.value
      modifies list, g, (set c | c in list.contents)`lePrev
      ensures list.Valid() && View() == AcceptStep(cfg, old(View()), a)
      ensures a.AcceptFails? ==> list.contents == old(list.contents)
      ensures a.Accepts? ==>
                |list.contents| == 1 + |old(list.contents)| && fresh(list.contents[0]) &&
                list.contents[1..] == old(list.contents)
    {
      hide RecvStep, ConnList.Valid, Views;
      match a {
        case AcceptFails(exhausted) =>
          if exhausted {
            g.accepting := false;
          }
        case Accepts(io) =>
          Welcome(io);
      }
    }

    // ------------------------------------------------------------- httpd_poll

    lemma AllSettled()
      requires Valid()
      ensures forall c :: c in list.contents ==> Settled(cfg, c.View(), g.now)
    {
      forall c | c in list.contents
        ensures Settled(cfg, c.View(), g.now)
      {
        var i :| 0 <= i < |list.contents| && list.contents[i] == c;
        assert Views(list.contents)[i] in View().conns;
      }
    }

    lemma ListValid()
      requires Valid()
      ensures list.Valid()
    {
    }

    lemma NoneDone(k: nat)
      requires Valid() && k < |list.contents|
      ensures list.contents[k].state != Done
    {
      assert list.contents[k].View() in View().conns;
    }

    /** One round of the first LIST_FOREACH_SAFE of httpd_poll; no connection is DONE here. */
    method WaitNext(conn: Connection, ghost k: nat, before: Waiting) returns (next: Connection?, w: Waiting)
      requires Valid() && k < |list.contents| && conn == list.contents[k]
      requires before == WaitingFor(Views(list.contents[..k]), g.accepting)
      ensures next == Elem(list.contents, k + 1)
      ensures w == WaitingFor(Views(list.contents[..k + 1]), g.accepting)
    {
      hide Valid, ConnList.Valid, WaitingFor, AddWaiting, Views, Elem;
      ListValid();
      next := list.After(conn, k);
      NoneDone(k);
      assert conn.state != Done;
      WaitingMore(list.contents, g.accepting, k);
      w := conn.AddTo(before);
    }

    /** What httpd_poll waits for. */
    method WaitSets() returns (w: Waiting)
      requires Valid()
      ensures w == Await(cfg, Views(list.contents), g.accepting)
    {
      hide Valid, ConnList.Valid, WaitingFor, Views, Elem;
      ListValid();
      w := Waiting(g.accepting, {}, {}, false);
      WaitingNone(list.contents, g.accepting);
      ghost var k: nat := 0;
      var conn := list.First();
      while conn != null
        invariant k <= |list.contents| && conn == Elem(list.contents, k)
        invariant w == WaitingFor(Views(list.contents[..k]), g.accepting)
        decreases |list.contents| - k
      {
        Cursor(list.contents, k);
        conn, w := WaitNext(conn, k, w);
        k := k + 1;
      }
      Cursor(list.contents, k);
      assert list.contents[..k] == list.contents;
      if cfg.timeoutSecs == 0 {
        w := w.(bother := false);
      }
    }

    /** Whatever is on the list was there before, or is new. */
    twostate predicate Listed(before: seq<Connection>)
      reads list
    {
      forall i :: 0 <= i < |list.contents| ==> list.contents[i] in before || fresh(list.contents[i])
    }

    /** Every connection that survived the select, and the new one, has its turn. */
    method AcceptAndSweep(w: Waiting, accept: Option<AcceptOutcome>, io: map<int, Io>)
      requires list.Valid()
      requires cfg.authKey.Some? ==> NUL !in cfg.authKey.value
      requires MidInv(cfg, base, SysOf([]), Views(list.contents))
      modifies this`retired, list, list.contents, g
      ensures Valid()
      ensures var s := old(View());
              var t := if w.listener && accept.Some? then AcceptStep(cfg, s, accept.value) else s;
              View() == EventLoop.Sweep(cfg, t.(conns := []), t.conns, w, io)
      ensures Listed(old(list.contents))
    {
      hide ConnList.Valid, MidInv, AcceptStep, Inv, Views, EventLoop.Sweep;
      assert SysOf([]) == View().(conns := []);
      if w.listener && accept.Some? {
        AcceptMidInv(cfg, base, View(), accept.value);
        AcceptConnection(accept.value);
      }
      ghost var visited := Sweep(w, io);
    }

    /** httpd_poll */
    method HttpdPoll(ev: PollEvent)
      requires Valid()
      modifies this`retired, list, list.contents, g
      ensures Valid() && View() == EventLoop.Poll(cfg, old(View()), ev)
      ensures Listed(old(list.contents))
    {
      hide ConnList.Valid, MidInv, AcceptStep, Inv, Views, EventLoop.Sweep;
      var w := WaitSets();
      match ev {
        case Interrupted =>
        case Ready(now, accept, io) =>
          MidStart(cfg, base, View(), now);
          g.now := now;
          list.StillValid();
          AcceptAndSweep(w, accept, io);
      }
    }

    /** The loop of main: one poll for each thing that happens. */
    method Loop(events: seq<PollEvent>)
      requires Valid()
      modifies this`retired, list, list.contents, g
      ensures Valid() && View() == EventLoop.Run(cfg, old(View()), events)
    {
      hide Valid, View, EventLoop.Poll;
      ghost var start := View();
      var i := 0;
      while i < |events|
        invariant 0 <= i <= |events| && Valid()
        invariant View() == EventLoop.Run(cfg, start, events[..i])
        invariant Listed(old(list.contents))
      {
        assert events[..i + 1][..i] == events[..i];
        HttpdPoll(events[i]);
        i := i + 1;
      }
      assert events[..i] == events;
    }

    /** Besides left, only what the connections vs of the list own is still open. */
    ghost predicate Leaving(left: set<int>, vs: seq<Conn>)
      reads this, g, list, list.contents
    {
      && list.Valid() && vs == Views(list.contents)
      && (forall c :: c in vs ==> Sound(c))
      && multiset(g.open) == multiset(left) + Sum(vs).fds
    }

    method CloseListening(sockin: int)
      requires Valid() && sockin in base
      modifies g`open
      ensures Leaving(base - {sockin}, Views(list.contents))
    {
      hide ConnList.Valid, Sound, Views, Sum;
      CloseListener(base, sockin, g.open, Sum(View().conns).fds);
      g.XClose(sockin);
      list.StillValid();
    }

    method RemoveFirst(conn: Connection, ghost vs: seq<Conn>)
      requires list.Valid() && list.contents != [] && conn == list.contents[0] && vs == Views(list.contents)
      modifies list, (set c | c in list.contents)`leNext, (set c | c in list.contents)`lePrev
      ensures list.Valid() && list.contents == old(list.contents)[1..]
      ensures Elem(list.contents, 0) == Elem(old(list.contents), 1)
      ensures vs != [] && Views(list.contents) == vs[1..] && conn.View() == vs[0]
    {
      hide ConnList.Valid, Views;
      ghost var all := list.contents;
      FirstOf(all);
      list.Remove(conn, 0);
      BehindFirst(all, vs);
      assert list.contents == all[1..];
    }

    /** Unlinks, closes and frees the first connection of the list. */
    method FreeFirst(conn: Connection, ghost left: set<int>, ghost vs: seq<Conn>)
      requires Leaving(left, vs) && list.contents != [] && conn == list.contents[0]
      modifies list, list.contents, g
      ensures vs != [] && Leaving(left, vs[1..]) && list.contents == old(list.contents)[1..]
      ensures Elem(list.contents, 0) == Elem(old(list.contents), 1)
    {
      hide ConnList.Valid, Sound, Views, CloseFd, Sum;
      FirstOf(list.contents);
      assert vs[0] in vs;
      SoundOwner(vs[0]);
      CloseBalanced(g.open, left, Sum(vs[1..]).fds, vs[0]);
      RemoveFirst(conn, vs);
      conn.FreeConnection(g);
    }

    /** One round of the clean exit's LIST_FOREACH_SAFE. */
    method LeaveNext(conn: Connection, ghost left: set<int>, ghost vs: seq<Conn>)
      returns (next: Connection?, ghost rest: seq<Conn>)
      requires Leaving(left, vs) && conn == Elem(list.contents, 0)
      modifies list, list.contents, g
      ensures Leaving(left, rest) && next == Elem(list.contents, 0)
      ensures |list.contents| < |old(list.contents)|
      ensures forall i :: 0 <= i < |list.contents| ==> list.contents[i] in old(list.contents)
    {
      hide Leaving, ConnList.Valid, Views, Elem;
      LeavingList(left, vs);
      ElemFirst(list.contents);
      next := list.After(conn, 0);
      FreeFirst(conn, left, vs);
      rest := vs[1..];
    }

    /** The clean exit of main: whatever was open besides what the server started with is closed, once. */
    method CleanExit(sockin: int)
      requires Valid() && sockin in base
      modifies list, list.contents, g
      ensures list.Valid() && list.contents == [] && g.open == base - {sockin}
    {
      hide Leaving, Valid, Views, Elem, ConnList.Valid;
      ghost var left, vs := base - {sockin}, Views(list.contents);
      CloseListening(sockin);
      LeavingList(left, vs);
      var conn := list.First();
      while conn != null
        invariant Leaving(left, vs) && conn == Elem(list.contents, 0)
        invariant forall i :: 0 <= i < |list.contents| ==> list.contents[i] in old(list.contents)
        decreases |list.contents|
      {
        conn, vs := LeaveNext(conn, left, vs);
      }
      ElemFirst(list.contents);
      LeavingList(left, vs);
    }

    lemma LeavingList(left: set<int>, vs: seq<Conn>)
      requires Leaving(left, vs)
      ensures list.Valid()
      ensures list.contents == [] ==> g.open == left
    {
      if list.contents == [] {
        Emptied(g.open, left);
      }
    }
  }

  /** The server from its start through any events: the run that the safety theorems are about. */
  method Serve(cfg: Config, base: set<int>, now: int, events: seq<PollEvent>) returns (h: Httpd)
    requires cfg.authKey.Some? ==> NUL !in cfg.authKey.value
    ensures fresh(h) && h.Valid() && h.View() == EventLoop.Run(cfg, Start(base, now), events)
    ensures forall c :: c in h.list.contents ==> Settled(cfg, c.View(), h.g.now)
  {
    h := new Httpd(cfg, base, now);
    h.Loop(events);
    h.AllSettled();
  }
}
