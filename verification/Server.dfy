/** The intrusive connection list and httpd_poll. */
module Server {
  import opened Conn
  import opened Connections

  /** The connections as values, in list order. */
  ghost function Views(cs: seq<Connection>): (vs: seq<Conn>)
    reads cs
    ensures |vs| == |cs| && forall i :: 0 <= i < |cs| ==> vs[i] == cs[i].View()
  {
    if cs == [] then [] else [cs[0].View()] + Views(cs[1..])
  }

  /** Objects, each once. */
  ghost predicate Distinct(cs: seq<Connection>) {
    forall i, j :: 0 <= i < j < |cs| ==> cs[i] != cs[j]
  }

  /** The i-th connection, or null behind the last. */
  function Elem(cs: seq<Connection>, i: nat): Connection? {
    if i < |cs| then cs[i] else null
  }

  /** What le_prev of the i-th connection is: the address of the link that leads to it. */
  function LinkTo(cs: seq<Connection>, i: nat): Link
    requires i <= |cs|
  {
    if i == 0 then Head else NextOf(cs[i - 1])
  }

  /** The list without its k-th element. */
  function Without(cs: seq<Connection>, k: nat): (r: seq<Connection>)
    requires k < |cs|
    ensures |r| == |cs| - 1 && forall i :: 0 <= i < |r| ==> r[i] == cs[if i < k then i else i + 1]
  {
    cs[..k] + cs[k + 1..]
  }

  /** Neighbours in the shorter list, in terms of the longer one. */
  lemma WithoutAt(cs: seq<Connection>, k: nat, i: nat)
    requires k < |cs| && i < |cs| - 1
    ensures var r := Without(cs, k); var j := if i < k then i else i + 1;
            && r[i] == cs[j]
            && Elem(r, i + 1) == (if j + 1 == k then Elem(cs, k + 1) else Elem(cs, j + 1))
            && LinkTo(r, i) == (if j == k + 1 then LinkTo(cs, k) else LinkTo(cs, j))
  {
  }

  /** The pointers of cs form a list that starts at first. */
  ghost predicate Chain(cs: seq<Connection>, first: Connection?)
    reads cs
  {
    && first == Elem(cs, 0)
    && (forall i: nat :: i < |cs| ==> cs[i].leNext == Elem(cs, i + 1))
    && (forall i: nat :: i < |cs| ==> cs[i].lePrev == LinkTo(cs, i))
  }

  /** The same pointers, leading past the k-th element. */
  ghost predicate Bypassed(cs: seq<Connection>, k: nat, first: Connection?)
    requires k < |cs|
    reads cs
  {
    && first == (if k == 0 then Elem(cs, 1) else Elem(cs, 0))
    && (forall i: nat :: i < |cs| ==> cs[i].leNext == if i + 1 == k then Elem(cs, k + 1) else Elem(cs, i + 1))
    && (forall i: nat :: i < |cs| ==> cs[i].lePrev == if i == k + 1 then LinkTo(cs, k) else LinkTo(cs, i))
  }

  lemma BypassedIsChain(cs: seq<Connection>, k: nat, first: Connection?)
    requires k < |cs| && Bypassed(cs, k, first)
    ensures Chain(Without(cs, k), first)
  {
    var rest := Without(cs, k);
    forall i: nat | i < |rest|
      ensures rest[i].leNext == Elem(rest, i + 1) && rest[i].lePrev == LinkTo(rest, i)
    {
      WithoutAt(cs, k, i);
    }
  }

  /** The pointers of cs, with elm in front. */
  ghost predicate Headed(elm: Connection, cs: seq<Connection>, first: Connection?)
    reads elm, cs
  {
    && first == elm && elm.leNext == Elem(cs, 0) && elm.lePrev == Head
    && (forall i: nat :: i < |cs| ==> cs[i].leNext == Elem(cs, i + 1))
    && (forall i: nat :: i < |cs| ==> cs[i].lePrev == if i == 0 then NextOf(elm) else LinkTo(cs, i))
  }

  lemma HeadedIsChain(elm: Connection, cs: seq<Connection>, first: Connection?)
    requires Headed(elm, cs, first)
    ensures Chain([elm] + cs, first)
  {
    var all := [elm] + cs;
    forall i: nat | i < |all|
      ensures all[i].leNext == Elem(all, i + 1) && all[i].lePrev == LinkTo(all, i)
    {
      assert i > 0 ==> all[i] == cs[i - 1];
    }
  }

  /** Nothing has happened to these connections but to their links. */
  twostate predicate SameViews(cs: seq<Connection>)
    reads cs
  {
    forall i :: 0 <= i < |cs| ==> cs[i].View() == old(cs[i].View())
  }

  class ConnList {
    var lhFirst: Connection?
    ghost var contents: seq<Connection>

    /** The list is well formed, and holds every connection once. */
    ghost predicate Valid()
      reads this, contents
    {
      Distinct(contents) && Chain(contents, lhFirst)
    }

    /** A step that leaves every link alone leaves the list well formed. */
    twostate lemma StillValid()
      requires old(Valid()) && lhFirst == old(lhFirst) && contents == old(contents)
      requires forall i :: 0 <= i < |contents| ==> contents[i].SameLinks()
      ensures Valid()
    {
      forall i: nat | i < |contents|
        ensures contents[i].leNext == Elem(contents, i + 1) && contents[i].lePrev == LinkTo(contents, i)
      {
        assert contents[i].SameLinks();
        assert old(contents[i].leNext == Elem(contents, i + 1) && contents[i].lePrev == LinkTo(contents, i));
      }
    }

    constructor ()
      ensures Valid() && contents == []
    {
      lhFirst, contents := null, [];
    }

    lemma EachOnce()
      requires Valid()
      ensures Distinct(contents)
    {
    }

    /** LIST_FIRST */
    method First() returns (c: Connection?)
      requires Valid()
      ensures c == Elem(contents, 0)
    {
      c := lhFirst;
    }

    /** LIST_NEXT */
    method After(c: Connection, ghost k: nat) returns (next: Connection?)
      requires Valid() && k < |contents| && contents[k] == c
      ensures next == Elem(contents, k + 1)
    {
      next := c.leNext;
    }

    /** The pointer updates of LIST_INSERT_HEAD. */
    method LinkHead(elm: Connection)
      requires Valid() && elm !in contents
      modifies this`lhFirst, elm`leNext, elm`lePrev, (set c | c in contents)`lePrev
      ensures Headed(elm, contents, lhFirst)
    {
      elm.leNext := lhFirst;
      if elm.leNext != null {
        lhFirst.lePrev := NextOf(elm);
      }
      lhFirst := elm;
      elm.lePrev := Head;
    }

    /** LIST_INSERT_HEAD */
    method InsertHead(elm: Connection)
      requires Valid() && elm !in contents
      modifies this, elm`leNext, elm`lePrev, (set c | c in contents)`lePrev
      ensures Valid() && contents == [elm] + old(contents)
      ensures elm.View() == old(elm.View()) && SameViews(old(contents))
    {
      hide Chain, Headed;
      LinkHead(elm);
      HeadedIsChain(elm, contents, lhFirst);
      contents := [elm] + contents;
    }

    /** The two pointer updates of LIST_REMOVE, for the k-th connection. */
    method Unlink(elm: Connection, ghost k: nat)
      requires Valid() && k < |contents| && contents[k] == elm
      modifies this`lhFirst, (set c | c in contents)`leNext, (set c | c in contents)`lePrev
      ensures Bypassed(contents, k, lhFirst) && elm.leNext == old(elm.leNext)
    {
      if elm.leNext != null {
        assert elm.leNext == contents[k + 1];
        elm.leNext.lePrev := elm.lePrev;
      }
      match elm.lePrev {
        case Head =>
          lhFirst := elm.leNext;
        case NextOf(owner) =>
          assert owner == contents[k - 1];
          owner.leNext := elm.leNext;
      }
    }

    /** LIST_REMOVE; the removed connection's own next pointer survives. */
    method Remove(elm: Connection, ghost k: nat)
      requires Valid() && k < |contents| && contents[k] == elm
      modifies this, (set c | c in contents)`leNext, (set c | c in contents)`lePrev
      ensures Valid() && contents == Without(old(contents), k)
      ensures elm !in contents && elm.leNext == old(elm.leNext)
      ensures SameViews(old(contents))
    {
      hide Bypassed, Chain;
      Unlink(elm, k);
      BypassedIsChain(contents, k, lhFirst);
      contents := Without(contents, k);
    }
  }
}
