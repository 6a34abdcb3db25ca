/**
 The meaning of a URL path, stated without any buffer: split at slashes, then
 walk the segments with a stack.  Both in-place normalisers refine Resolve.
 */
module UrlPath {
  import opened Bytes

  type Segment = bytes

  /** Where the segment that starts at i ends: the next slash, or the end of s. */
  function SlashAt(s: bytes, i: nat): (j: nat)
    requires i <= |s|
    ensures i <= j <= |s| && SLASH !in s[i..j]
    ensures j < |s| ==> s[j] == SLASH
    decreases |s| - i
  {
    if i == |s| || s[i] == SLASH then i else SlashAt(s, i + 1)
  }

  /** The pieces of s between slashes; always at least one. */
  function Split(s: bytes): (r: seq<Segment>)
    ensures |r| >= 1
    decreases |s|
  {
    var j := SlashAt(s, 0);
    if j == |s| then [s] else [s[..j]] + Split(s[j + 1..])
  }

  predicate IsDot(g: Segment) { g == [DOT] }
  predicate IsDotDot(g: Segment) { g == [DOT, DOT] }

  /** A segment that names something: neither empty, nor "." nor "..". */
  predicate Ordinary(g: Segment) {
    g != [] && !IsDot(g) && !IsDotDot(g)
  }

  /** Resolves one more segment against the stack of directories entered so far. */
  function Step(stack: seq<Segment>, g: Segment): Option<seq<Segment>> {
    if g == [] || IsDot(g) then Some(stack)
    else if IsDotDot(g) then
      if stack == [] then None else Some(stack[..|stack| - 1])
    else Some(stack + [g])
  }

  function Walk(stack: seq<Segment>, segs: seq<Segment>): Option<seq<Segment>>
    decreases |segs|
  {
    if segs == [] then Some(stack)
    else match Step(stack, segs[0])
      case None => None
      case Some(next) => Walk(next, segs[1..])
  }

  /** Each stacked segment with a slash in front. */
  function Render(stack: seq<Segment>): bytes {
    if stack == [] then []
    else Render(stack[..|stack| - 1]) + [SLASH] + stack[|stack| - 1]
  }

  predicate EndsInSlash(s: bytes) {
    s != [] && s[|s| - 1] == SLASH
  }

  function Finish(stack: seq<Segment>, slash: bool): bytes {
    if stack == [] || slash then Render(stack) + [SLASH] else Render(stack)
  }

  /** What make_safe_url means: None is the rejected URL. */
  function Resolve(s: bytes): (r: Option<bytes>)
    ensures r.Some? ==> r.value != [] && s != [] && s[0] == SLASH
  {
    if s == [] || s[0] != SLASH then None
    else match Walk([], Split(s[1..]))
      case None => None
      case Some(stack) => Some(Finish(stack, EndsInSlash(s)))
  }

  // ---------------------------------------------------------------- splitting

  lemma {:induction false} SlashAtIs(s: bytes, i: nat, j: nat)
    requires i <= j <= |s| && SLASH !in s[i..j] && (j < |s| ==> s[j] == SLASH)
    ensures SlashAt(s, i) == j
    decreases j - i
  {
    if i < j {
      assert s[i] == s[i..j][0];
      assert s[i + 1..j] == s[i..j][1..];
      SlashAtIs(s, i + 1, j);
    }
  }

  /** The two special segments, character by character. */
  lemma SegmentKind(s: bytes, i: nat, j: nat)
    requires i <= j <= |s|
    ensures IsDot(s[i..j]) <==> j == i + 1 && s[i] == DOT
    ensures IsDotDot(s[i..j]) <==> j == i + 2 && s[i] == DOT && s[i + 1] == DOT
  {
    if j == i + 1 {
      assert s[i..j] == [s[i]];
    } else if j == i + 2 {
      assert s[i..j] == [s[i], s[i + 1]];
    }
  }

  lemma SplitPlain(g: bytes)
    requires SLASH !in g
    ensures Split(g) == [g]
  {
    assert g[0..|g|] == g;
    SlashAtIs(g, 0, |g|);
  }

  /** Peels the first segment off. */
  lemma SplitFirst(g: bytes, rest: bytes)
    requires SLASH !in g
    ensures Split(g + [SLASH] + rest) == [g] + Split(rest)
  {
    var s := g + [SLASH] + rest;
    assert s[0..|g|] == s[..|g|] == g;
    SlashAtIs(s, 0, |g|);
    assert s[|g| + 1..] == rest;
  }

  lemma AssociateSegments(x: seq<Segment>, y: seq<Segment>, z: seq<Segment>)
    ensures x + (y + z) == x + y + z
  {
  }

  /** Splitting is a homomorphism for joining at a slash. */
  lemma {:induction false} SplitJoin(a: bytes, b: bytes)
    ensures Split(a + [SLASH] + b) == Split(a) + Split(b)
    decreases |a|
  {
    var j := SlashAt(a, 0);
    var head := a[..j];
    assert SLASH !in head by {
      assert a[0..j] == head;
    }
    if j == |a| {
      SplitPlain(a);
      SplitFirst(a, b);
    } else {
      hide Split;
      var tail := a[j + 1..];
      calc {
        Split(a + [SLASH] + b);
        { Regroup(a, j, b); }
        Split(head + [SLASH] + (tail + [SLASH] + b));
        { SplitFirst(head, tail + [SLASH] + b); }
        [head] + Split(tail + [SLASH] + b);
        { SplitJoin(tail, b); }
        [head] + (Split(tail) + Split(b));
        { AssociateSegments([head], Split(tail), Split(b)); }
        [head] + Split(tail) + Split(b);
        { SplitFirst(head, tail); assert a == head + [SLASH] + tail; }
        Split(a) + Split(b);
      }
    }
  }

  lemma SplitSlash(s: bytes)
    ensures Split(s + [SLASH]) == Split(s) + [[]]
  {
    SplitPlain([]);
    SplitJoin(s, []);
    assert s + [SLASH] + [] == s + [SLASH];
  }

  lemma LastGrows(head: Segment, r: seq<Segment>, c: byte)
    requires r != []
    ensures var n := |r| - 1; var all := [head] + r;
            [head] + (r[..n] + [r[n] + [c]]) == all[..n + 1] + [all[n + 1] + [c]]
  {
  }

  lemma {:induction false} SplitSnoc(s: bytes, c: byte)
    requires c != SLASH
    ensures var r := Split(s); var n := |r| - 1; Split(s + [c]) == r[..n] + [r[n] + [c]]
    decreases |s|
  {
    var j := SlashAt(s, 0);
    assert s[0..j] == s[..j];
    if j == |s| {
      SplitPlain(s);
      SplitPlain(s + [c]);
    } else {
      hide Split;
      var head, rest := s[..j], s[j + 1..];
      SplitSnoc(rest, c);
      assert s == head + [SLASH] + rest;
      assert s + [c] == head + [SLASH] + (rest + [c]);
      SplitFirst(head, rest);
      SplitFirst(head, rest + [c]);
      LastGrows(head, Split(rest), c);
    }
  }

  lemma Regroup(a: bytes, j: nat, b: bytes)
    requires j < |a| && a[j] == SLASH
    ensures a + [SLASH] + b == a[..j] + [SLASH] + (a[j + 1..] + [SLASH] + b)
  {
    assert a == a[..j] + [SLASH] + a[j + 1..];
  }

  lemma {:induction false} SplitSlashFree(s: bytes)
    ensures forall g :: g in Split(s) ==> SLASH !in g
    decreases |s|
  {
    var j := SlashAt(s, 0);
    assert s[0..j] == s[..j];
    if j < |s| {
      SplitSlashFree(s[j + 1..]);
    }
  }

  // ------------------------------------------------------------------ walking

  lemma {:induction false} WalkAppend(stack: seq<Segment>, xs: seq<Segment>, ys: seq<Segment>)
    ensures Walk(stack, xs + ys) == (match Walk(stack, xs) case None => None case Some(mid) => Walk(mid, ys))
    decreases |xs|
  {
    if xs == [] {
      assert xs + ys == ys;
    } else {
      assert (xs + ys)[1..] == xs[1..] + ys;
      match Step(stack, xs[0])
      case None =>
      case Some(next) => WalkAppend(next, xs[1..], ys);
    }
  }

  ghost predicate AllOrdinary(stack: seq<Segment>) {
    forall g :: g in stack ==> Ordinary(g) && SLASH !in g
  }

  lemma {:induction false} WalkOrdinary(stack: seq<Segment>, segs: seq<Segment>)
    requires AllOrdinary(stack)
    requires forall g :: g in segs ==> SLASH !in g
    ensures Walk(stack, segs).Some? ==> AllOrdinary(Walk(stack, segs).value)
    decreases |segs|
  {
    if segs != [] {
      match Step(stack, segs[0])
      case None =>
      case Some(next) => WalkOrdinary(next, segs[1..]);
    }
  }

  lemma {:induction false} WalkPushes(stack: seq<Segment>, segs: seq<Segment>)
    requires forall g :: g in segs ==> Ordinary(g)
    ensures Walk(stack, segs) == Some(stack + segs)
    decreases |segs|
  {
    if segs == [] {
      assert stack + segs == stack;
    } else {
      assert segs[0] in segs;
      WalkPushes(stack + [segs[0]], segs[1..]);
      assert stack + [segs[0]] + segs[1..] == stack + segs;
    }
  }

  // ---------------------------------------------------------------- rejection

  function Ups(segs: seq<Segment>): nat {
    if segs == [] then 0 else Ups(segs[..|segs| - 1]) + (if IsDotDot(segs[|segs| - 1]) then 1 else 0)
  }

  function Downs(segs: seq<Segment>): nat {
    if segs == [] then 0 else Downs(segs[..|segs| - 1]) + (if Ordinary(segs[|segs| - 1]) then 1 else 0)
  }

  /** The first k segments climb more often than they descend. */
  predicate Underflows(segs: seq<Segment>, k: nat)
    requires k <= |segs|
  {
    Ups(segs[..k]) > Downs(segs[..k])
  }

  /** Some prefix of the path climbs more often than it descends. */
  ghost predicate ClimbsOut(segs: seq<Segment>) {
    exists k :: 0 <= k <= |segs| && Underflows(segs, k)
  }

  /** As long as the walk succeeds, the stack is exactly as deep as the balance says. */
  lemma {:induction false} WalkDepth(segs: seq<Segment>)
    ensures Walk([], segs).Some? ==> |Walk([], segs).value| == Downs(segs) - Ups(segs)
    ensures Walk([], segs).None? <==> ClimbsOut(segs)
    decreases |segs|
  {
    hide Walk;
    if segs == [] {
      WalkNothing([]);
      assert segs[..0] == [];
    } else {
      var n := |segs| - 1;
      var init, last := segs[..n], segs[n];
      WalkDepth(init);
      WalkLast([], init, last);
      assert init + [last] == segs && segs[..n + 1] == segs;
      assert forall k :: 0 <= k <= n ==> init[..k] == segs[..k];
      assert forall k :: 0 <= k <= n ==> Underflows(init, k) == Underflows(segs, k);
      if Walk([], init).None? {
        var k :| 0 <= k <= n && Underflows(init, k);
        assert Underflows(segs, k);
      } else if Step(Walk([], init).value, last).None? {
        assert Underflows(segs, n + 1);
      } else {
        assert !Underflows(segs, n + 1);
      }
    }
  }

  lemma WalkNothing(stack: seq<Segment>)
    ensures Walk(stack, []) == Some(stack)
  {
  }

  lemma WalkLast(stack: seq<Segment>, init: seq<Segment>, last: Segment)
    ensures Walk(stack, init + [last]) ==
            match Walk(stack, init) case None => None case Some(mid) => Step(mid, last)
  {
    WalkAppend(stack, init, [last]);
    match Walk(stack, init)
    case None =>
    case Some(mid) =>
      match Step(mid, last)
      case None =>
      case Some(next) => WalkNothing(next);
  }

  /**
   A URL is rejected exactly when it lacks the leading slash or some prefix of
   its path climbs more often than it descends.
   */
  lemma RejectsExactlyUnderflow(s: bytes)
    ensures Resolve(s).None? <==>
            s == [] || s[0] != SLASH || ClimbsOut(Split(s[1..]))
  {
    hide Walk, Split, ClimbsOut;
    if s != [] && s[0] == SLASH {
      WalkDepth(Split(s[1..]));
    }
  }

  // ---------------------------------------------------------------- canonical

  /**
   A confined path: it starts with a slash and every segment names something,
   except that the last may be empty (one trailing slash).
   */
  ghost predicate Canonical(t: bytes) {
    t != [] && t[0] == SLASH &&
    var segs := Split(t[1..]);
    (forall i :: 0 <= i < |segs| - 1 ==> Ordinary(segs[i])) &&
    (segs[|segs| - 1] == [] || Ordinary(segs[|segs| - 1]))
  }

  lemma {:induction false} SplitRender(stack: seq<Segment>)
    requires AllOrdinary(stack) && stack != []
    ensures Render(stack) != [] && Render(stack)[0] == SLASH
    ensures Split(Render(stack)[1..]) == stack
    decreases |stack|
  {
    var n := |stack| - 1;
    var init, last := stack[..n], stack[n];
    assert stack == init + [last];
    if n == 0 {
      SplitPlain(last);
      assert Render(stack)[1..] == last;
    } else {
      SplitRender(init);
      SplitRenderStep(Render(init), init, last);
      assert Render(stack) == Render(init) + [SLASH] + last;
    }
  }

  lemma SplitRenderStep(front: bytes, init: seq<Segment>, last: Segment)
    requires front != [] && front[0] == SLASH && Split(front[1..]) == init && SLASH !in last
    ensures Split((front + [SLASH] + last)[1..]) == init + [last]
  {
    assert (front + [SLASH] + last)[1..] == front[1..] + [SLASH] + last;
    SplitJoin(front[1..], last);
    SplitPlain(last);
  }

  lemma FinishCanonical(stack: seq<Segment>, slash: bool)
    requires AllOrdinary(stack)
    ensures Canonical(Finish(stack, slash))
    ensures Split(Finish(stack, slash)[1..]) == if stack == [] || slash then stack + [[]] else stack
  {
    var t := Finish(stack, slash);
    SplitPlain([]);
    if stack != [] {
      SplitRender(stack);
      if slash {
        assert t[1..] == Render(stack)[1..] + [SLASH] + [];
        SplitJoin(Render(stack)[1..], []);
      }
    }
  }

  /** Whatever is accepted stays inside the root it is appended to. */
  lemma ResolveConfined(s: bytes)
    requires Resolve(s).Some?
    ensures Canonical(Resolve(s).value)
  {
    var segs := Split(s[1..]);
    SplitSlashFree(s[1..]);
    WalkOrdinary([], segs);
    FinishCanonical(Walk([], segs).value, EndsInSlash(s));
  }

  lemma SplitLastEmpty(s: bytes)
    ensures var r := Split(s); r[|r| - 1] == [] <==> s == [] || s[|s| - 1] == SLASH
  {
    hide Split;
    if s == [] {
      SplitPlain([]);
    } else {
      var n := |s| - 1;
      assert s == s[..n] + [s[n]];
      if s[n] == SLASH {
        SplitSlash(s[..n]);
      } else {
        SplitSnoc(s[..n], s[n]);
      }
    }
  }

  /** Splitting loses nothing: the pieces, each with its slash, are the path again. */
  lemma {:induction false} RenderSplit(s: bytes)
    ensures Render(Split(s)) == [SLASH] + s
    decreases |s|
  {
    var j := SlashAt(s, 0);
    SplitPeel(s);
    hide Split, Render;
    if j == |s| {
      RenderOnly(s);
    } else {
      RenderSplit(s[j + 1..]);
      RenderCons(s[..j], Split(s[j + 1..]));
      Rejoined(s, j);
    }
  }

  lemma Rejoined(s: bytes, j: nat)
    requires j < |s| && s[j] == SLASH
    ensures [SLASH] + s[..j] + ([SLASH] + s[j + 1..]) == [SLASH] + s
  {
  }

  lemma SplitPeel(s: bytes)
    ensures var j := SlashAt(s, 0);
            && (j < |s| ==> s[j] == SLASH)
            && Split(s) == if j == |s| then [s] else [s[..j]] + Split(s[j + 1..])
  {
    hide Split, SlashAt;
    var j := SlashAt(s, 0);
    var head := s[..j];
    assert s[0..j] == head;
    if j == |s| {
      assert head == s;
      SplitPlain(s);
    } else {
      SplitFirst(head, s[j + 1..]);
      CutAt(s, j);
    }
  }

  lemma CutAt(s: bytes, j: nat)
    requires j < |s|
    ensures s == s[..j] + [s[j]] + s[j + 1..]
  {
  }

  lemma RenderOnly(g: Segment)
    ensures Render([g]) == [SLASH] + g
  {
    assert [g][..0] == [];
  }

  lemma {:induction false} RenderCons(g: Segment, rest: seq<Segment>)
    ensures Render([g] + rest) == [SLASH] + g + Render(rest)
    decreases |rest|
  {
    var all := [g] + rest;
    if rest == [] {
      assert all[..0] == [];
    } else {
      var n := |rest| - 1;
      hide Render;
      RenderCons(g, rest[..n]);
      RenderLast([g] + rest[..n], rest[n]);
      RenderLast(rest[..n], rest[n]);
      assert all == [g] + rest[..n] + [rest[n]] && rest == rest[..n] + [rest[n]];
      Associate([SLASH] + g, Render(rest[..n]), [SLASH] + rest[n]);
      Associate([SLASH] + g + Render(rest[..n]), [SLASH], rest[n]);
      Associate(Render(rest[..n]), [SLASH], rest[n]);
    }
  }

  /** Resolving is a projection onto the canonical paths: they are its fixed points. */
  lemma CanonicalIsFixed(t: bytes)
    ensures Canonical(t) <==> Resolve(t) == Some(t)
  {
    if Canonical(t) {
      CanonicalResolves(t);
    }
    if Resolve(t) == Some(t) {
      ResolveConfined(t);
    }
  }

  lemma CanonicalResolves(t: bytes)
    requires Canonical(t)
    ensures Resolve(t) == Some(t)
  {
    hide Split, Walk, Render, Ordinary;
    var segs := Split(t[1..]);
    var n := |segs| - 1;
    SplitLastEmpty(t[1..]);
    RenderSplit(t[1..]);
    assert t == [SLASH] + t[1..];
    assert EndsInSlash(t) <==> segs[n] == [] by {
      assert t[1..] == [] <==> |t| == 1;
    }
    assert segs == segs[..n] + [segs[n]];
    WalkOrdinaries(segs[..n]);
    if segs[n] == [] {
      WalkLast([], segs[..n], []);
      RenderLast(segs[..n], []);
      assert Render(segs) == Render(segs[..n]) + [SLASH];
    } else {
      WalkOrdinaries(segs);
    }
  }

  lemma WalkOrdinaries(segs: seq<Segment>)
    requires forall i :: 0 <= i < |segs| ==> Ordinary(segs[i])
    ensures Walk([], segs) == Some(segs)
  {
    hide Walk, Ordinary;
    WalkPushes([], segs);
    assert [] + segs == segs;
  }

  lemma RenderLast(init: seq<Segment>, last: Segment)
    ensures Render(init + [last]) == Render(init) + [SLASH] + last
  {
    assert (init + [last])[..|init|] == init;
  }

  /** Running the normaliser on its own output changes nothing. */
  lemma ResolveIdempotent(s: bytes)
    requires Resolve(s).Some?
    ensures Resolve(Resolve(s).value) == Resolve(s)
  {
    ResolveConfined(s);
    CanonicalIsFixed(Resolve(s).value);
  }

  predicate OccursAt(t: bytes, i: nat, needle: bytes) {
    i + |needle| <= |t| && t[i..i + |needle|] == needle
  }

  /** A segment between two slashes is one of the pieces, and not the last one. */
  lemma InnerSegment(t: bytes, i: nat, g: Segment) returns (k: nat)
    requires t != [] && t[0] == SLASH && SLASH !in g
    requires OccursAt(t, i, [SLASH] + g + [SLASH])
    ensures k < |Split(t[1..])| - 1 && Split(t[1..])[k] == g
  {
    hide Split;
    var n := |g| + 2;
    var rest := t[i + n..];
    SplitFirst(g, rest);
    Around(t, i, [SLASH] + g + [SLASH]);
    if i == 0 {
      assert t[1..] == g + [SLASH] + rest;
      k := 0;
    } else {
      var front := t[1..i];
      BehindFront(t, i, g, rest);
      SplitJoin(front, g + [SLASH] + rest);
      k := |Split(front)|;
    }
  }

  lemma BehindFront(t: bytes, i: nat, g: bytes, rest: bytes)
    requires 0 < i <= |t| && t == t[..i] + ([SLASH] + g + [SLASH]) + rest
    ensures t[1..] == t[1..i] + [SLASH] + (g + [SLASH] + rest)
  {
    assert t[1..] == t[..i][1..] + ([SLASH] + g + [SLASH]) + rest;
    assert t[..i][1..] == t[1..i];
  }

  lemma Around(t: bytes, i: nat, needle: bytes)
    requires OccursAt(t, i, needle)
    ensures i + |needle| <= |t| && t == t[..i] + needle + t[i + |needle|..]
  {
    assert t[i..i + |needle|] == needle;
  }

  /** The substrings the fuzz harness traps on never occur in an accepted URL. */
  lemma ConfinedHasNoDotDir(t: bytes, i: nat)
    requires Canonical(t)
    ensures !OccursAt(t, i, [SLASH, DOT, SLASH])
    ensures !OccursAt(t, i, [SLASH, DOT, DOT, SLASH])
    ensures !OccursAt(t, i, [SLASH, SLASH])
  {
    if OccursAt(t, i, [SLASH, DOT, SLASH]) {
      var k := InnerSegment(t, i, [DOT]);
    } else if OccursAt(t, i, [SLASH, DOT, DOT, SLASH]) {
      var k := InnerSegment(t, i, [DOT, DOT]);
    } else if OccursAt(t, i, [SLASH, SLASH]) {
      var k := InnerSegment(t, i, []);
    }
  }

  // ------------------------------------------------------------ rewriting laws

  /** Segments that leave every stack as it is. */
  ghost predicate Neutral(segs: seq<Segment>) {
    forall stack :: Walk(stack, segs) == Some(stack)
  }

  lemma WalkOne(stack: seq<Segment>, g: Segment)
    ensures Walk(stack, [g]) == Step(stack, g)
  {
    match Step(stack, g)
    case None =>
    case Some(next) => WalkNothing(next);
  }

  lemma NeutralSegments(x: Segment)
    requires Ordinary(x)
    ensures Neutral([[]]) && Neutral([[DOT]]) && Neutral([x, [DOT, DOT]])
  {
    forall stack
      ensures Walk(stack, [[]]) == Some(stack) == Walk(stack, [[DOT]])
      ensures Walk(stack, [x, [DOT, DOT]]) == Some(stack)
    {
      WalkOne(stack, []);
      WalkOne(stack, [DOT]);
      WalkOne(stack, x);
      WalkLast(stack, [x], [DOT, DOT]);
      assert [x] + [[DOT, DOT]] == [x, [DOT, DOT]];
      assert (stack + [x])[..|stack|] == stack;
    }
  }

  /** The segments of a, as far as a path that goes on with a slash is concerned. */
  function Before(a: bytes): seq<Segment> {
    if a == [] then [] else Split(a[1..])
  }

  /** The segments of a path cut at a slash. */
  lemma SplitAt(a: bytes, b: bytes)
    ensures a + [SLASH] + b != [] && Split((a + [SLASH] + b)[1..]) == Before(a) + Split(b)
  {
    var t := a + [SLASH] + b;
    if a == [] {
      assert t[1..] == b;
    } else {
      assert t[1..] == a[1..] + [SLASH] + b;
      SplitJoin(a[1..], b);
    }
  }

  /** Whatever is neutral can be left out in front of a slash. */
  lemma NeutralInside(a: bytes, m: bytes, b: bytes)
    requires (a == [] || a[0] == SLASH) && Neutral(Split(m))
    ensures Resolve(a + [SLASH] + m + [SLASH] + b) == Resolve(a + [SLASH] + b)
  {
    hide Split, Walk;
    var long, short := a + [SLASH] + m + [SLASH] + b, a + [SLASH] + b;
    assert long == a + [SLASH] + (m + [SLASH] + b);
    SplitAt(a, b);
    SplitAt(a, m + [SLASH] + b);
    SplitJoin(m, b);
    WalkAppend([], Before(a), Split(b));
    WalkAppend([], Before(a), Split(m) + Split(b));
    if Walk([], Before(a)).Some? {
      WalkAppend(Walk([], Before(a)).value, Split(m), Split(b));
    }
    assert EndsInSlash(long) == EndsInSlash(short);
  }

  /** And at the end, where no slash remains but that of an empty path. */
  lemma NeutralAtEnd(a: bytes, m: bytes)
    requires (a == [] || (a[0] == SLASH && !EndsInSlash(a))) && Neutral(Split(m)) && m != [] && !EndsInSlash(m)
    ensures Resolve(a + [SLASH] + m) == if a == [] then Some([SLASH]) else Resolve(a)
  {
    hide Split, Walk;
    SplitAt(a, m);
    WalkAppend([], Before(a), Split(m));
    var t := a + [SLASH] + m;
    assert t[|t| - 1] == m[|m| - 1] && t[0] == SLASH;
    WalkNothing([]);
    assert [] + [SLASH] == [SLASH] && Render([]) == [];
    match Walk([], Before(a))
    case None =>
    case Some(stack) => assert Walk(stack, Split(m)) == Some(stack);
  }

  /**
   What resolving does, as laws about the text: a doubled slash, a "." and an ordinary
   segment with the ".." behind it can be left out wherever they stand.
   */
  lemma ResolveLaws(a: bytes, x: Segment, b: bytes)
    requires (a == [] || a[0] == SLASH) && Ordinary(x) && SLASH !in x
    ensures Resolve(a + [SLASH] + [SLASH] + b) == Resolve(a + [SLASH] + b)
    ensures Resolve(a + [SLASH, DOT, SLASH] + b) == Resolve(a + [SLASH] + b)
    ensures Resolve(a + [SLASH] + x + [SLASH, DOT, DOT, SLASH] + b) == Resolve(a + [SLASH] + b)
    ensures !EndsInSlash(a) ==>
              var end := if a == [] then Some([SLASH]) else Resolve(a);
              && Resolve(a + [SLASH, DOT]) == end
              && Resolve(a + [SLASH] + x + [SLASH, DOT, DOT]) == end
  {
    hide Resolve, Split, Walk, Ordinary, Neutral;
    var up := x + [SLASH] + [DOT, DOT];
    NeutralSegments(x);
    SplitPlain([]);
    SplitPlain([DOT]);
    SplitPlain(x);
    SplitPlain([DOT, DOT]);
    SplitJoin(x, [DOT, DOT]);
    assert [x] + [[DOT, DOT]] == [x, [DOT, DOT]];
    NeutralInside(a, [], b);
    NeutralInside(a, [DOT], b);
    NeutralInside(a, up, b);
    assert a + [SLASH] + [] + [SLASH] + b == a + [SLASH] + [SLASH] + b;
    assert a + [SLASH] + [DOT] + [SLASH] + b == a + [SLASH, DOT, SLASH] + b;
    assert a + [SLASH] + up + [SLASH] + b == a + [SLASH] + x + [SLASH, DOT, DOT, SLASH] + b;
    if !EndsInSlash(a) {
      NeutralAtEnd(a, [DOT]);
      NeutralAtEnd(a, up);
      assert a + [SLASH] + [DOT] == a + [SLASH, DOT];
      assert a + [SLASH] + up == a + [SLASH] + x + [SLASH, DOT, DOT];
    }
  }
}
