/** make_safe_url: the two-pointer rewrite of a URL inside its own buffer. */
module SafeUrl {
  import opened Bytes
  import opened UrlPath

  // -------------------------------------------------------------- lookahead

  predicate Ends(c: byte) {
    c == SLASH || c == NUL
  }

  predicate LooksDot(s: bytes, p: nat)
    requires p <= |s|
  {
    CharAt(s, p) == DOT && Ends(CharAt(s, p + 1))
  }

  predicate LooksDotDot(s: bytes, p: nat)
    requires p <= |s|
  {
    CharAt(s, p) == DOT && CharAt(s, p + 1) == DOT && Ends(CharAt(s, p + 2))
  }

  /** Three characters of lookahead tell the kind of the segment that starts at p. */
  lemma Lookahead(s: bytes, p: nat)
    requires p < |s| && NUL !in s
    ensures var g := s[p..SlashAt(s, p)];
            && (s[p] == SLASH <==> g == [])
            && (LooksDot(s, p) <==> IsDot(g))
            && (LooksDotDot(s, p) <==> IsDotDot(g))
  {
    hide SlashAt, IsDot, IsDotDot;
    var j := SlashAt(s, p);
    NoSlashBefore(s, p);
    SegmentKind(s, p, j);
    NotNul(s, p + 1);
    NotNul(s, p + 2);
  }

  lemma NotNul(s: bytes, k: nat)
    requires NUL !in s
    ensures k < |s| ==> s[k] != NUL
  {
  }

  lemma NoSlashBefore(s: bytes, p: nat)
    requires p <= |s|
    ensures var j := SlashAt(s, p); p <= j <= |s| && forall k :: p <= k < j ==> s[k] != SLASH
  {
    var g := s[p..SlashAt(s, p)];
    assert forall k :: 0 <= k < |g| ==> s[p + k] == g[k] && g[k] in g;
    assert forall k :: p <= k < SlashAt(s, p) ==> s[k] == g[k - p];
  }

  // ------------------------------------------------------ the loop on values

  /** Where the backward scan for the previous slash stops. */
  function Backtrack(out: bytes, d: nat): (k: nat)
    requires 0 < d <= |out|
    ensures k < d
  {
    if d == 1 || out[d - 1] == SLASH then d - 1 else Backtrack(out, d - 1)
  }

  /** A slash the fast scan does not step over. */
  predicate Dirty(s: bytes, i: nat)
    requires i < |s|
  {
    s[i] == SLASH &&
    (CharAt(s, i + 1) == SLASH || LooksDot(s, i + 1) || LooksDotDot(s, i + 1))
  }

  /** The slow loop on values: the reader is at i, the writer holds out. */
  function Rewrite(s: bytes, i: nat, out: bytes): Option<bytes>
    requires i <= |s|
    decreases |s| - i
  {
    if i == |s| then Some(if out == [] then [SLASH] else out)
    else if !Dirty(s, i) then Rewrite(s, i + 1, out + [s[i]])
    else if CharAt(s, i + 1) == SLASH then Rewrite(s, i + 1, out)
    else if LooksDot(s, i + 1) then Rewrite(s, i + 2, out)
    else if out == [] then None
    else Rewrite(s, i + 3, out[..Backtrack(out, |out|)])
  }

  /**
   The fast scan is only an optimisation: entering the slow loop after any
   stretch without a dirty slash is the same as running it from the start.
   */
  lemma {:induction false} FastScanIsOptimisation(s: bytes, i: nat)
    requires i <= |s| && forall k :: 0 <= k < i ==> !Dirty(s, k)
    ensures Rewrite(s, i, s[..i]) == Rewrite(s, 0, [])
  {
    if i > 0 {
      FastScanIsOptimisation(s, i - 1);
      assert s[..i] == s[..i - 1] + [s[i - 1]];
    }
  }

  // ------------------------------------------------------------ the meaning

  lemma {:induction false} BacktrackIs(out: bytes, k: nat, d: nat)
    requires k < d <= |out| && out[k] == SLASH
    requires forall m :: k < m < d ==> out[m] != SLASH
    ensures Backtrack(out, d) == k
  {
    if k + 1 < d {
      BacktrackIs(out, k, d - 1);
    }
  }

  /** Backtracking pops the last segment. */
  lemma BacktrackPops(init: seq<Segment>, last: Segment)
    requires SLASH !in last
    ensures var out := Render(init) + [SLASH] + last; out[..Backtrack(out, |out|)] == Render(init)
  {
    var out := Render(init) + [SLASH] + last;
    var k := |Render(init)|;
    assert forall m :: k < m < |out| ==> out[m] == last[m - k - 1] && last[m - k - 1] in last;
    BacktrackIs(out, k, |out|);
  }

  lemma {:induction false} CopySegment(s: bytes, i: nat, j: nat, out: bytes)
    requires i <= j <= |s| && SLASH !in s[i..j]
    ensures Rewrite(s, i, out) == Rewrite(s, j, out + s[i..j])
    decreases j - i
  {
    if i == j {
      assert out + s[i..j] == out;
    } else {
      assert s[i..j] == [s[i]] + s[i + 1..j];
      CopySegment(s, i + 1, j, out + [s[i]]);
      assert out + [s[i]] + s[i + 1..j] == out + s[i..j];
    }
  }

  /** The segments still to come for a reader on the slash (or the end) at i. */
  function Rest(s: bytes, i: nat): seq<Segment>
    requires i <= |s|
  {
    if i == |s| then [] else Split(s[i + 1..])
  }

  lemma RestFirst(s: bytes, i: nat, stack: seq<Segment>)
    requires i < |s|
    ensures var j := SlashAt(s, i + 1);
            Walk(stack, Rest(s, i)) ==
              (match Step(stack, s[i + 1..j]) case None => None case Some(next) => Walk(next, Rest(s, j)))
  {
    hide Walk, Step, Split, SlashAt;
    var j := SlashAt(s, i + 1);
    var g := s[i + 1..j];
    if j == |s| {
      assert s[i + 1..] == g;
      SplitPlain(g);
      WalkFirst(stack, g, []);
      assert [g] + [] == [g];
    } else {
      assert s[i + 1..] == g + [SLASH] + s[j + 1..];
      SplitFirst(g, s[j + 1..]);
      WalkFirst(stack, g, Rest(s, j));
    }
  }

  lemma WalkFirst(stack: seq<Segment>, g: Segment, rest: seq<Segment>)
    ensures Walk(stack, [g] + rest) == match Step(stack, g) case None => None case Some(next) => Walk(next, rest)
  {
    assert ([g] + rest)[1..] == rest;
  }

  function Answer(walked: Option<seq<Segment>>, slash: bool): Option<bytes> {
    match walked case None => None case Some(stack) => Some(Finish(stack, slash))
  }

  predicate SlashFrom(s: bytes, i: nat) {
    i < |s| && s[|s| - 1] == SLASH
  }

  lemma RenderPush(stack: seq<Segment>, g: Segment)
    ensures Render(stack + [g]) == Render(stack) + [SLASH] + g
  {
    assert (stack + [g])[..|stack|] == stack;
  }

  lemma RewriteOrdinary(s: bytes, i: nat, stack: seq<Segment>)
    requires i + 1 < |s| && s[i] == SLASH && NUL !in s
    requires Ordinary(s[i + 1..SlashAt(s, i + 1)])
    ensures var j := SlashAt(s, i + 1);
            Rewrite(s, i, Render(stack)) == Rewrite(s, j, Render(stack + [s[i + 1..j]]))
  {
    var j := SlashAt(s, i + 1);
    Lookahead(s, i + 1);
    CopySegment(s, i + 1, j, Render(stack) + [SLASH]);
    RenderPush(stack, s[i + 1..j]);
  }

  lemma RewriteDirty(s: bytes, i: nat, stack: seq<Segment>)
    requires i + 1 < |s| && s[i] == SLASH && NUL !in s
    requires forall g :: g in stack ==> SLASH !in g
    requires !Ordinary(s[i + 1..SlashAt(s, i + 1)])
    ensures var j := SlashAt(s, i + 1);
            Rewrite(s, i, Render(stack)) ==
              (match Step(stack, s[i + 1..j]) case None => None case Some(next) => Rewrite(s, j, Render(next)))
  {
    Lookahead(s, i + 1);
    if IsDotDot(s[i + 1..SlashAt(s, i + 1)]) && stack != [] {
      var n := |stack| - 1;
      BacktrackPops(stack[..n], stack[n]);
    }
  }

  /** From any slash, with any stack written, the slow loop walks the remaining segments. */
  lemma {:induction false} RewriteWalks(s: bytes, i: nat, stack: seq<Segment>)
    requires i <= |s| && (i < |s| ==> s[i] == SLASH) && NUL !in s
    requires forall g :: g in stack ==> SLASH !in g
    ensures Rewrite(s, i, Render(stack)) == Answer(Walk(stack, Rest(s, i)), SlashFrom(s, i))
    decreases |s| - i
  {
    if i == |s| {
      assert Render(stack) == [] <==> stack == [];
      assert [] + [SLASH] == [SLASH];
    } else {
      var j := SlashAt(s, i + 1);
      var g := s[i + 1..j];
      RestFirst(s, i, stack);
      if i + 1 == |s| {
        assert g == [];
      } else {
        if Ordinary(g) {
          RewriteOrdinary(s, i, stack);
        } else {
          RewriteDirty(s, i, stack);
        }
        match Step(stack, g)
        case None =>
        case Some(next) =>
          RewriteWalks(s, j, next);
          LastSegment(s, i + 1);
      }
    }
  }

  lemma LastSegment(s: bytes, p: nat)
    requires p < |s|
    ensures SlashFrom(s, p) == SlashFrom(s, SlashAt(s, p))
  {
    var j := SlashAt(s, p);
    assert j == |s| ==> s[|s| - 1] == s[p..j][|s| - 1 - p];
  }

  lemma RewriteResolves(s: bytes)
    requires s != [] && s[0] == SLASH && NUL !in s
    ensures Rewrite(s, 0, []) == Resolve(s)
  {
    RewriteWalks(s, 0, []);
  }

  lemma {:induction false} RewriteNoNul(s: bytes, i: nat, out: bytes)
    requires i <= |s| && NUL !in s && NUL !in out
    ensures Rewrite(s, i, out).Some? ==> NUL !in Rewrite(s, i, out).value
    decreases |s| - i
  {
    if i < |s| {
      assert s[i] in s;
      if !Dirty(s, i) {
        RewriteNoNul(s, i + 1, out + [s[i]]);
      } else if CharAt(s, i + 1) == SLASH {
        RewriteNoNul(s, i + 1, out);
      } else if LooksDot(s, i + 1) {
        RewriteNoNul(s, i + 2, out);
      } else if out != [] {
        RewriteNoNul(s, i + 3, out[..Backtrack(out, |out|)]);
      }
    }
  }

  // ---------------------------------------------------------------- in place

  /** Skips the part of the URL that needs no change. */
  method FastScan(url: array<byte>) returns (src: nat)
    requires NUL in url[..]
    ensures var s := Str(url[..]);
            && src <= |s|
            && (forall k :: 0 <= k < src ==> !Dirty(s, k))
            && (src < |s| ==> Dirty(s, src))
  {
    ghost var s := Str(url[..]);
    BufferChars(url[..]);
    src := 0;
    while url[src] != NUL
      invariant src <= |s|
      invariant forall k :: 0 <= k < src ==> !Dirty(s, k)
      decreases |s| - src
    {
      if url[src] == SLASH {
        if url[src + 1] == SLASH {
          break;
        } else if url[src + 1] == DOT {
          if Ends(url[src + 2]) {
            break;
          } else if url[src + 2] == DOT && Ends(url[src + 3]) {
            break;
          }
        }
      }
      src := src + 1;
    }
  }

  /** Moves the writer back to the previous slash. */
  method BacktrackTo(url: array<byte>, dst: nat) returns (k: nat)
    requires 0 < dst <= url.Length
    ensures k < dst && url[..k] == url[..dst][..Backtrack(url[..dst], dst)]
  {
    ghost var out := url[..dst];
    k := dst - 1;
    while url[k] != SLASH && k > 0
      invariant k < dst
      invariant Backtrack(out, dst) == Backtrack(out, k + 1)
      decreases k
    {
      k := k - 1;
    }
  }

  /** *dst++ = c */
  method Put(url: array<byte>, dst: nat, c: byte) returns (next: nat)
    requires dst < url.Length
    modifies url
    ensures next == dst + 1 && url[dst] == c
    ensures url[..next] == old(url[..dst]) + [c]
    ensures forall k :: 0 <= k < url.Length && k != dst ==> url[k] == old(url[k])
  {
    url[dst] := c;
    next := dst + 1;
  }

  /** *dst = '\0', after stepping over the leading slash if nothing else is left. */
  method Terminate(url: array<byte>, dst: nat)
    requires dst < url.Length && (dst == 0 ==> 1 < url.Length && url[0] == SLASH)
    requires NUL !in url[..dst]
    modifies url
    ensures NUL in url[..]
    ensures Str(url[..]) == if dst == 0 then [SLASH] else old(url[..dst])
    ensures forall k :: dst + 1 < k < url.Length ==> url[k] == old(url[k])
    ensures 0 < dst && dst + 1 < url.Length ==> url[dst + 1] == old(url[dst + 1])
  {
    var end := if dst == 0 then 1 else dst;
    assert url[..1] == [url[0]];
    url[end] := NUL;
    assert url[..][end] == NUL;
    StrIs(url[..], url[..end]);
  }

  /**
   Copies the rest of the URL down over itself from start on, collapsing slashes
   and resolving dot-dirs.  The writer never passes the reader, so nothing
   unread is overwritten.
   */
  method Collapse(url: array<byte>, start: nat) returns (ok: bool, dst: nat)
    requires NUL in url[..] && url[0] == SLASH && start <= |Str(url[..])|
    modifies url
    ensures var s := Str(old(url[..])); var r := Rewrite(s, start, s[..start]);
            && ok == r.Some?
            && dst <= |s|
            && (ok ==> r.value == (if dst == 0 then [SLASH] else url[..dst]))
            && NUL !in url[..dst] && url[0] == SLASH
            && forall k :: |s| <= k < url.Length ==> url[k] == old(url[k])
  {
    hide Rewrite, Str, Backtrack;
    ghost var s := Str(url[..]);
    BufferChars(url[..]);
    var src: nat := start;
    dst := start;
    assert url[..dst] == s[..start];
    while url[src] != NUL
      invariant dst <= src <= |s| < url.Length
      invariant url[0] == SLASH && (dst == 0 ==> Ends(CharAt(s, src)))
      invariant forall k :: src <= k < url.Length ==> url[k] == old(url[k])
      invariant NUL !in url[..dst]
      invariant Rewrite(s, src, url[..dst]) == Rewrite(s, start, s[..start])
      decreases |s| - src
    {
      RewriteOnce(s, src, url[..dst]);
      if url[src] != SLASH {
        dst := Put(url, dst, url[src]);
        src := src + 1;
      } else {
        src := src + 1;
        if url[src] == SLASH {
        } else if url[src] != DOT {
          dst := Put(url, dst, SLASH);
        } else if Ends(url[src + 1]) {
          src := src + 1;
        } else if url[src + 1] == DOT && Ends(url[src + 2]) {
          src := src + 2;
          if dst == 0 {
            return false, 0;
          }
          dst := BacktrackTo(url, dst);
        } else {
          dst := Put(url, dst, SLASH);
        }
      }
    }
    RewriteOnce(s, src, url[..dst]);
    ok := true;
  }

  /** One step of the loop on values. */
  lemma RewriteOnce(s: bytes, i: nat, out: bytes)
    requires i <= |s|
    ensures Rewrite(s, i, out) ==
            if i == |s| then Some(if out == [] then [SLASH] else out)
            else if !Dirty(s, i) then Rewrite(s, i + 1, out + [s[i]])
            else if CharAt(s, i + 1) == SLASH then Rewrite(s, i + 1, out)
            else if LooksDot(s, i + 1) then Rewrite(s, i + 2, out)
            else if out == [] then None
            else Rewrite(s, i + 3, out[..Backtrack(out, |out|)])
  {
  }

  /** The fast scan and the slow loop, on a URL with a leading slash. */
  method Normalise(url: array<byte>) returns (ok: bool, dst: nat)
    requires NUL in url[..] && url[0] == SLASH
    modifies url
    ensures var s := Str(old(url[..]));
            && dst <= |s| && ok == Resolve(s).Some?
            && (ok ==> Resolve(s).value == (if dst == 0 then [SLASH] else url[..dst]))
            && NUL !in url[..dst] && url[0] == SLASH
            && forall k :: |s| <= k < url.Length ==> url[k] == old(url[k])
  {
    hide Rewrite, Dirty, Resolve, Str;
    ghost var s := Str(url[..]);
    BufferChars(url[..]);
    var src := FastScan(url);
    FastScanIsOptimisation(s, src);
    RewriteResolves(s);
    ok, dst := Collapse(url, src);
  }

  /**
   The in-place normaliser.  Nothing past the original terminator is touched,
   and what it leaves is what the URL means; false stands for the NULL result.
   */
  method MakeSafeUrl(url: array<byte>) returns (ok: bool)
    requires NUL in url[..]
    modifies url
    ensures NUL in url[..]
    ensures var s := Str(old(url[..]));
            && ok == Resolve(s).Some?
            && (ok ==> Str(url[..]) == Resolve(s).value)
            && forall k :: |s| < k < url.Length ==> url[k] == old(url[k])
  {
    hide Str;
    ghost var s := Str(url[..]);
    BufferChars(url[..]);
    assert url[..][|s|] == NUL;
    if url[0] != SLASH {
      return false;
    }
    var dst;
    ok, dst := Normalise(url);
    assert url[..][|s|] == NUL;
    if ok {
      hide Resolve;
      Terminate(url, dst);
    }
  }
}
