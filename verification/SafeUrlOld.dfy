/**
 The older make_safe_url, kept by the fuzz harness as the reference: consolidate
 slashes, split into a stack of chunks, reassemble in place.
 */
module SafeUrlOld {
  import opened Bytes
  import opened UrlPath
  import SafeUrl

  // ------------------------------------------------------------ consolidating

  predicate SlashBefore(s: bytes, i: nat) {
    0 < i <= |s| && s[i - 1] == SLASH
  }

  /** s without the slashes that follow a slash. */
  function Squeeze(s: bytes): (r: bytes)
    ensures |r| <= |s| && (NUL !in s ==> NUL !in r)
  {
    if s == [] then []
    else
      var n := |s| - 1;
      if s[n] == SLASH && SlashBefore(s, n) then Squeeze(s[..n]) else Squeeze(s[..n]) + [s[n]]
  }

  function NonEmpty(segs: seq<Segment>): seq<Segment> {
    if segs == [] then []
    else
      var n := |segs| - 1;
      NonEmpty(segs[..n]) + if segs[n] == [] then [] else [segs[n]]
  }

  /** Empty segments do not matter to a walk. */
  lemma {:induction false} WalkNonEmpty(stack: seq<Segment>, segs: seq<Segment>)
    ensures Walk(stack, NonEmpty(segs)) == Walk(stack, segs)
    decreases |segs|
  {
    if segs != [] {
      var n := |segs| - 1;
      var init, last := segs[..n], segs[n];
      WalkNonEmpty(stack, init);
      assert init + [last] == segs;
      WalkAppend(stack, init, [last]);
      WalkAppend(stack, NonEmpty(init), [last]);
      if last == [] {
        assert NonEmpty(segs) == NonEmpty(init);
        match Walk(stack, init)
        case None =>
        case Some(mid) => assert Walk(mid, [last]) == Step(mid, last);
      }
    }
  }

  /** Up to empty segments, squeezing does not change the pieces. */
  lemma {:induction false} SqueezeSplit(s: bytes)
    ensures var a, b := Split(Squeeze(s)), Split(s);
            a[|a| - 1] == b[|b| - 1] && NonEmpty(a[..|a| - 1]) == NonEmpty(b[..|b| - 1])
    decreases |s|
  {
    if s != [] {
      hide Split, Squeeze, NonEmpty;
      var n := |s| - 1;
      var init, c := s[..n], s[n];
      assert s == init + [c];
      SqueezeSplit(init);
      SqueezeStep(s, n);
      assert s[..n + 1] == s && Squeeze(init) + [] == Squeeze(init);
      if c != SLASH {
        SplitSnoc(init, c);
        SplitSnoc(Squeeze(init), c);
      } else {
        SplitSlash(init);
        NonEmptyLast(Split(init));
        if SlashBefore(s, n) {
          SplitLastEmpty(init);
        } else {
          SplitSlash(Squeeze(init));
          NonEmptyLast(Split(Squeeze(init)));
        }
      }
    }
  }

  lemma NonEmptyLast(segs: seq<Segment>)
    requires segs != []
    ensures var n := |segs| - 1; NonEmpty(segs) == NonEmpty(segs[..n]) + if segs[n] == [] then [] else [segs[n]]
  {
  }

  lemma {:induction false} SqueezeEnds(s: bytes)
    ensures s != [] ==> Squeeze(s) != [] && Squeeze(s)[0] == s[0]
    ensures EndsInSlash(Squeeze(s)) == EndsInSlash(s)
    decreases |s|
  {
    if |s| > 1 {
      SqueezeEnds(s[..|s| - 1]);
    }
  }

  lemma LeadingSlash(s: bytes)
    requires s != [] && s[0] == SLASH
    ensures Walk([], Split(s)) == Walk([], Split(s[1..]))
  {
    SplitFirst([], s[1..]);
    assert s == [] + [SLASH] + s[1..];
    assert ([[]] + Split(s[1..]))[1..] == Split(s[1..]);
  }

  /** Consolidating slashes does not change what a URL means. */
  lemma SqueezeResolves(s: bytes)
    requires s != [] && s[0] == SLASH
    ensures Resolve(Squeeze(s)) == Resolve(s)
  {
    hide Split, Walk, Squeeze, NonEmpty;
    SqueezeEnds(s);
    SqueezeSplit(s);
    LeadingSlash(s);
    LeadingSlash(Squeeze(s));
    WalkNonEmpty([], Split(s));
    WalkNonEmpty([], Split(Squeeze(s)));
    NonEmptyLast(Split(s));
    NonEmptyLast(Split(Squeeze(s)));
  }

  lemma SqueezeNothing()
    ensures Squeeze([]) == []
  {
  }

  lemma SqueezeStep(s: bytes, i: nat)
    requires i < |s|
    ensures Squeeze(s[..i + 1]) ==
            Squeeze(s[..i]) + if s[i] == SLASH && SlashBefore(s, i) then [] else [s[i]]
  {
    assert s[..i + 1][..i] == s[..i];
    assert SlashBefore(s[..i + 1], i) == SlashBefore(s, i);
  }

  /** Shifts the string down over its repeated slashes. */
  method ConsolidateSlashes(s: array<byte>)
    requires NUL in s[..]
    modifies s
    ensures NUL in s[..] && Str(s[..]) == Squeeze(Str(old(s[..])))
  {
    hide Squeeze;
    ghost var was := Str(s[..]);
    BufferChars(s[..]);
    SqueezeNothing();
    var left: nat, right: nat := 0, 0;
    var sawSlash := false;
    while s[right] != NUL
      invariant left <= right <= |was| < s.Length
      invariant s[..left] == Squeeze(was[..right])
      invariant sawSlash == SlashBefore(was, right)
      invariant forall k :: right <= k < s.Length ==> s[k] == old(s[k])
      decreases |was| - right
    {
      SqueezeStep(was, right);
      if sawSlash {
        if s[right] == SLASH {
          right := right + 1;
        } else {
          sawSlash := false;
          left := SafeUrl.Put(s, left, s[right]);
          right := right + 1;
        }
      } else {
        if s[right] == SLASH {
          sawSlash := true;
        }
        left := SafeUrl.Put(s, left, s[right]);
        right := right + 1;
      }
    }
    assert was[..right] == was;
    s[left] := NUL;
    assert s[..][left] == NUL;
    StrIs(s[..], s[..left]);
  }

  // ------------------------------------------------------------------- chunks

  datatype Chunk = Chunk(start: nat, len: nat)

  /** The chunks are disjoint pieces of s[..limit], in order, each after a slash of its own. */
  ghost predicate InOrder(chunks: seq<Chunk>, limit: int) {
    chunks == [] ||
    var last := chunks[|chunks| - 1];
    1 <= last.start && last.start + last.len <= limit && InOrder(chunks[..|chunks| - 1], last.start - 1)
  }

  ghost function Piece(s: bytes, c: Chunk): Segment
    requires c.start + c.len <= |s|
  {
    s[c.start..c.start + c.len]
  }

  /** The segments the chunks stand for. */
  ghost function Pieces(s: bytes, chunks: seq<Chunk>): seq<Segment>
    requires InOrder(chunks, |s|)
  {
    if chunks == [] then []
    else
      var init, last := chunks[..|chunks| - 1], chunks[|chunks| - 1];
      InOrderWider(init, last.start - 1, |s|);
      Pieces(s, init) + [Piece(s, last)]
  }

  lemma InOrderWider(chunks: seq<Chunk>, a: int, b: int)
    requires InOrder(chunks, a) && a <= b
    ensures InOrder(chunks, b)
  {
  }

  lemma {:induction false} InOrderPrefix(chunks: seq<Chunk>, limit: int, i: nat)
    requires InOrder(chunks, limit) && i < |chunks|
    ensures 1 <= chunks[i].start && chunks[i].start + chunks[i].len <= limit
    ensures InOrder(chunks[..i], chunks[i].start - 1)
    decreases |chunks|
  {
    var n := |chunks| - 1;
    if i < n {
      InOrderPrefix(chunks[..n], chunks[n].start - 1, i);
      assert chunks[..n][..i] == chunks[..i];
    }
  }

  function Slashes(s: bytes): nat {
    if s == [] then 0 else Slashes(s[..|s| - 1]) + (if s[|s| - 1] == SLASH then 1 else 0)
  }

  lemma {:induction false} SlashesGrow(s: bytes, i: nat, j: nat)
    requires i <= j <= |s|
    ensures Slashes(s[..i]) <= Slashes(s[..j])
    decreases j - i
  {
    if i < j {
      SlashesGrow(s, i, j - 1);
      assert s[..j][..j - 1] == s[..j - 1];
    }
  }

  lemma SlashesStep(s: bytes, i: nat, j: nat)
    requires i <= j < |s| && s[j] == SLASH
    ensures Slashes(s[..i]) + 1 <= Slashes(s[..j + 1]) <= Slashes(s)
  {
    SlashesGrow(s, i, j);
    SlashesGrow(s, j + 1, |s|);
    assert s[..|s|] == s;
    assert s[..j + 1][..j] == s[..j];
  }

  method CountSlashes(url: array<byte>, urllen: nat) returns (n: nat)
    requires urllen <= url.Length
    ensures n == Slashes(url[..urllen])
  {
    n := 0;
    for i := 0 to urllen
      invariant n == Slashes(url[..i])
    {
      assert url[..i + 1][..i] == url[..i];
      if url[i] == SLASH {
        n := n + 1;
      }
    }
  }

  ghost predicate NoDoubleSlash(s: bytes) {
    forall k :: 0 < k < |s| ==> !(s[k - 1] == SLASH && s[k] == SLASH)
  }

  lemma {:induction false} SqueezeNoDouble(s: bytes)
    ensures NoDoubleSlash(Squeeze(s))
    decreases |s|
  {
    if s != [] {
      var init := s[..|s| - 1];
      SqueezeNoDouble(init);
      SqueezeEnds(init);
      assert EndsInSlash(init) == SlashBefore(s, |s| - 1);
    }
  }

  lemma NotAfterSlash(s: bytes, i: nat)
    requires NoDoubleSlash(s) && 1 <= i <= |s| && s[i - 1] == SLASH
    ensures i < |s| ==> s[i] != SLASH
  {
  }

  /** What the segment that starts at i does to the chunk stack. */
  function Next(s: bytes, i: nat, chunks: seq<Chunk>): Option<seq<Chunk>>
    requires i <= |s|
  {
    var g := s[i..SlashAt(s, i)];
    if IsDot(g) then Some(chunks)
    else if IsDotDot(g) then
      if chunks == [] then None else Some(chunks[..|chunks| - 1])
    else Some(chunks + [Chunk(i, |g|)])
  }

  /** The splitting loop on values: the next segment starts at i. */
  function Scan(s: bytes, i: nat, chunks: seq<Chunk>): Option<seq<Chunk>>
    decreases |s| - i
  {
    if i >= |s| then Some(chunks)
    else match Next(s, i, chunks)
      case None => None
      case Some(next) => Scan(s, SlashAt(s, i) + 1, next)
  }

  lemma PiecesPush(s: bytes, chunks: seq<Chunk>, c: Chunk)
    requires 1 <= c.start && c.start + c.len <= |s| && InOrder(chunks, c.start - 1)
    ensures InOrder(chunks + [c], c.start + c.len) && InOrder(chunks + [c], |s|) && InOrder(chunks, |s|)
    ensures Pieces(s, chunks + [c]) == Pieces(s, chunks) + [Piece(s, c)]
  {
    assert (chunks + [c])[..|chunks|] == chunks;
    InOrderWider(chunks, c.start - 1, |s|);
  }

  /** A scan result as the segments it stands for. */
  ghost function Seen(s: bytes, scanned: Option<seq<Chunk>>): Option<seq<Segment>>
    requires scanned.Some? ==> InOrder(scanned.value, |s|)
  {
    match scanned case None => None case Some(chunks) => Some(Pieces(s, chunks))
  }

  lemma {:induction false} ScanInOrder(s: bytes, i: nat, chunks: seq<Chunk>)
    requires NoDoubleSlash(s) && 1 <= i <= |s| && s[i - 1] == SLASH
    requires InOrder(chunks, i - 1)
    ensures Scan(s, i, chunks).Some? ==>
              InOrder(Scan(s, i, chunks).value, Limit(s)) && InOrder(Scan(s, i, chunks).value, |s|)
    decreases |s| - i
  {
    hide InOrder, Next, Pieces, Step, NoDoubleSlash, SlashAt;
    NotAfterSlash(s, i);
    if i == |s| {
      InOrderWider(chunks, i - 1, |s|);
    } else {
      var j := SlashAt(s, i);
      if j == |s| {
        LastSegment(s, i);
      }
      NextIsStep(s, i, chunks);
      match Next(s, i, chunks)
      case None =>
      case Some(next) =>
        if j < |s| {
          ScanInOrder(s, j + 1, next);
        }
    }
  }

  lemma LastSegment(s: bytes, i: nat)
    requires i < |s| && SlashAt(s, i) == |s|
    ensures Limit(s) == |s|
  {
    assert s[|s| - 1] == s[i..SlashAt(s, i)][|s| - 1 - i];
  }

  lemma PiecesPop(s: bytes, chunks: seq<Chunk>, limit: int)
    requires InOrder(chunks, limit) && limit <= |s| && chunks != []
    ensures var init := chunks[..|chunks| - 1];
            && InOrder(chunks, |s|) && InOrder(init, limit) && InOrder(init, |s|)
            && Pieces(s, chunks) == Pieces(s, init) + [Piece(s, chunks[|chunks| - 1])]
  {
    var init := chunks[..|chunks| - 1];
    InOrderWider(init, chunks[|chunks| - 1].start - 1, limit);
    InOrderWider(init, limit, |s|);
    InOrderWider(chunks, limit, |s|);
  }

  lemma NoPieces(s: bytes)
    ensures InOrder([], |s|) && Pieces(s, []) == [] && Render(Pieces(s, [])) == []
  {
  }

  /** Pushing and popping chunks is pushing and popping their pieces. */
  lemma NextIsStep(s: bytes, i: nat, chunks: seq<Chunk>)
    requires 1 <= i < |s| && InOrder(chunks, i - 1) && s[i] != SLASH
    ensures InOrder(chunks, |s|)
    ensures var j := SlashAt(s, i);
            match Next(s, i, chunks)
            case None => Step(Pieces(s, chunks), s[i..j]) == None
            case Some(next) => InOrder(next, j) && Step(Pieces(s, chunks), s[i..j]) == Some(Pieces(s, next))
  {
    InOrderWider(chunks, i - 1, |s|);
    NoPieces(s);
    hide InOrder, Pieces, SlashAt;
    var j := SlashAt(s, i);
    var g := s[i..j];
    InOrderWider(chunks, i - 1, j);
    if IsDotDot(g) {
      if chunks != [] {
        PiecesPop(s, chunks, i - 1);
        InOrderWider(chunks[..|chunks| - 1], i - 1, j);
      }
    } else if !IsDot(g) {
      PiecesPush(s, chunks, Chunk(i, |g|));
    }
  }

  /** The segment walk, driven by positions in s. */
  function WalkAt(s: bytes, i: nat, stack: seq<Segment>): Option<seq<Segment>>
    decreases |s| - i
  {
    if i >= |s| then Some(stack)
    else match Step(stack, s[i..SlashAt(s, i)])
      case None => None
      case Some(next) => WalkAt(s, SlashAt(s, i) + 1, next)
  }

  lemma WalkAtLast(s: bytes, i: nat, stack: seq<Segment>)
    requires 1 <= i && |s| <= i <= |s| + 1
    ensures Walk(stack, SafeUrl.Rest(s, i - 1)) == Some(stack) == WalkAt(s, i, stack)
  {
    if i == |s| {
      assert s[i..] == [];
      assert Split([]) == [[]];
    }
  }

  lemma {:induction false} WalkAtIsWalk(s: bytes, i: nat, stack: seq<Segment>)
    requires 1 <= i <= |s| + 1
    ensures WalkAt(s, i, stack) == Walk(stack, SafeUrl.Rest(s, i - 1))
    decreases |s| + 1 - i
  {
    hide Walk, Step, SafeUrl.Rest;
    if i >= |s| {
      WalkAtLast(s, i, stack);
    } else {
      SafeUrl.RestFirst(s, i - 1, stack);
      match Step(stack, s[i..SlashAt(s, i)])
      case None =>
      case Some(next) => WalkAtIsWalk(s, SlashAt(s, i) + 1, next);
    }
  }

  lemma ScanEnd(s: bytes, i: nat, chunks: seq<Chunk>)
    requires |s| <= i && InOrder(chunks, |s|)
    ensures Scan(s, i, chunks) == Some(chunks) && WalkAt(s, i, Pieces(s, chunks)) == Some(Pieces(s, chunks))
  {
  }

  lemma ScanStep(s: bytes, i: nat, chunks: seq<Chunk>)
    requires i < |s| && InOrder(chunks, |s|)
    ensures var j := SlashAt(s, i);
            && Scan(s, i, chunks) == (match Next(s, i, chunks) case None => None case Some(c) => Scan(s, j + 1, c))
            && WalkAt(s, i, Pieces(s, chunks)) ==
               (match Step(Pieces(s, chunks), s[i..j]) case None => None case Some(g) => WalkAt(s, j + 1, g))
  {
    hide Next, Step, InOrder, Pieces;
  }

  /** The chunk scan is the segment walk, seen through the pieces. */
  lemma {:induction false} ScanWalks(s: bytes, i: nat, chunks: seq<Chunk>)
    requires NoDoubleSlash(s) && 1 <= i <= |s| && s[i - 1] == SLASH
    requires InOrder(chunks, i - 1)
    ensures InOrder(chunks, |s|)
    ensures Scan(s, i, chunks).Some? ==> InOrder(Scan(s, i, chunks).value, |s|)
    ensures Seen(s, Scan(s, i, chunks)) == WalkAt(s, i, Pieces(s, chunks))
    decreases |s| - i
  {
    hide InOrder, Next, Pieces, Step, NoDoubleSlash, Scan, WalkAt, SlashAt, Limit;
    ScanInOrder(s, i, chunks);
    InOrderWider(chunks, i - 1, |s|);
    NotAfterSlash(s, i);
    if i == |s| {
      ScanEnd(s, i, chunks);
    } else {
      var j := SlashAt(s, i);
      NextIsStep(s, i, chunks);
      ScanStep(s, i, chunks);
      match Next(s, i, chunks)
      case None =>
      case Some(next) =>
        if j < |s| {
          ScanWalks(s, j + 1, next);
        } else {
          ScanEnd(s, j + 1, next);
        }
    }
  }

  /** How many chunks there can be before the segment at i. */
  ghost predicate Room(s: bytes, i: nat, n: nat) {
    if i <= |s| then n + 1 <= Slashes(s[..i]) else n <= Slashes(s)
  }

  lemma RoomStep(s: bytes, i: nat, n: nat)
    requires i < |s| && Room(s, i, n)
    ensures n < Slashes(s) && Room(s, SlashAt(s, i) + 1, n + 1)
  {
    var j := SlashAt(s, i);
    SlashesGrow(s, i, |s|);
    assert s[..|s|] == s;
    if j < |s| {
      SlashesStep(s, i, j);
    }
  }

  /** How far the chunks may reach: a trailing slash belongs to none of them. */
  function Limit(s: bytes): nat {
    if EndsInSlash(s) then |s| - 1 else |s|
  }

  /** Looks for the next slash. */
  method FindSlash(url: array<byte>, i: nat, urllen: nat) returns (j: nat)
    requires i <= urllen <= url.Length
    ensures i <= j <= urllen && j == SlashAt(url[..urllen], i)
  {
    j := i;
    while j < urllen && url[j] != SLASH
      invariant i <= j <= urllen
      invariant SlashAt(url[..urllen], i) == SlashAt(url[..urllen], j)
    {
      j := j + 1;
    }
  }

  /** Pushes, pops or drops the segment url[i..j]; false means there is nothing to pop. */
  method PushChunk(url: array<byte>, ghost s: bytes, i: nat, j: nat, chunks: array<Chunk>, num: nat)
    returns (ok: bool, next: nat)
    requires i < |s| <= url.Length && s == url[..|s|]
    requires i < j == SlashAt(s, i) && num < chunks.Length
    modifies chunks
    ensures next <= num + 1
    ensures Next(s, i, old(chunks[..num])) == if ok then Some(chunks[..next]) else None
  {
    ghost var before := chunks[..num];
    SegmentKind(s, i, j);
    if j == i + 1 && url[i] == DOT {
      return true, num;
    } else if j == i + 2 && url[i] == DOT && url[i + 1] == DOT {
      if num == 0 {
        return false, 0;
      } else {
        next := num - 1;
        assert chunks[..next] == before[..|before| - 1];
      }
    } else {
      chunks[num] := Chunk(i, j - i);
      next := num + 1;
      assert chunks[..next] == before + [Chunk(i, j - i)];
    }
    ok := true;
  }

  /** Fills the chunk stack; false means the path climbs out of the root. */
  method SplitChunks(url: array<byte>, urllen: nat, chunks: array<Chunk>) returns (ok: bool, num: nat)
    requires 0 < urllen <= url.Length && url[0] == SLASH
    requires NoDoubleSlash(url[..urllen])
    requires chunks.Length == Slashes(url[..urllen])
    modifies chunks
    ensures num <= chunks.Length
    ensures Scan(url[..urllen], 1, []) == if ok then Some(chunks[..num]) else None
  {
    hide Scan, Next;
    ghost var s := url[..urllen];
    num := 0;
    var i: nat := 1;
    assert s[..1][..0] == [] && chunks[..0] == [];
    while i < urllen
      invariant 1 <= i && num <= chunks.Length && Room(s, i, num)
      invariant i < urllen ==> s[i - 1] == SLASH
      invariant Scan(s, i, chunks[..num]) == Scan(s, 1, [])
      decreases urllen + 1 - i
    {
      var j := FindSlash(url, i, urllen);
      RoomStep(s, i, num);
      ScanOnce(s, i, chunks[..num]);
      ok, num := PushChunk(url, s, i, j, chunks, num);
      if !ok {
        return false, 0;
      }
      i := j + 1;
    }
    ScanOnce(s, i, chunks[..num]);
    ok := true;
  }

  lemma ScanOnce(s: bytes, i: nat, chunks: seq<Chunk>)
    ensures Scan(s, i, chunks) ==
            if i >= |s| then Some(chunks)
            else match Next(s, i, chunks) case None => None case Some(next) => Scan(s, SlashAt(s, i) + 1, next)
  {
  }

  // ------------------------------------------------------------- reassembling

  /** memmove within one buffer. */
  method MemMove(buf: array<byte>, dst: nat, src: nat, len: nat)
    requires dst + len <= buf.Length && src + len <= buf.Length
    modifies buf
    ensures buf[dst..dst + len] == old(buf[src..src + len])
    ensures forall k :: 0 <= k < buf.Length && !(dst <= k < dst + len) ==> buf[k] == old(buf[k])
  {
    forall k | dst <= k < dst + len {
      buf[k] := buf[k - dst + src];
    }
  }

  /** Moves one chunk down to pos, behind a slash. */
  method MoveChunk(url: array<byte>, pos: nat, chunk: Chunk) returns (next: nat)
    requires pos < chunk.start && chunk.start + chunk.len <= url.Length
    modifies url
    ensures next == pos + 1 + chunk.len
    ensures url[..next] == old(url[..pos]) + [SLASH] + old(url[chunk.start..chunk.start + chunk.len])
    ensures forall k :: next <= k < url.Length ==> url[k] == old(url[k])
  {
    next := SafeUrl.Put(url, pos, SLASH);
    ghost var front := url[..next];
    assert url[chunk.start..chunk.start + chunk.len] == old(url[chunk.start..chunk.start + chunk.len]);
    if next < chunk.start {
      MemMove(url, next, chunk.start, chunk.len);
    }
    assert url[..next] == front;
    assert url[..next + chunk.len] == url[..next] + url[next..next + chunk.len];
    next := next + chunk.len;
  }

  /** How far the first i chunks may reach. */
  ghost function Reach(chunks: seq<Chunk>, limit: nat, i: nat): int {
    if i < |chunks| then chunks[i].start - 1 else limit
  }

  lemma ReachIs(chunks: seq<Chunk>, limit: nat, i: nat)
    requires InOrder(chunks, limit) && i <= |chunks|
    ensures 0 <= Reach(chunks, limit, i) <= limit && InOrder(chunks[..i], Reach(chunks, limit, i))
    ensures 0 < i ==> chunks[i - 1].start + chunks[i - 1].len <= Reach(chunks, limit, i)
  {
    if i < |chunks| {
      InOrderPrefix(chunks, limit, i);
    } else {
      assert chunks[..i] == chunks;
    }
  }

  /** The first i chunks stand in url[..pos], and the rest of url is as it was. */
  ghost predicate Assembled(u: bytes, s: bytes, all: seq<Chunk>, limit: nat, i: nat, pos: nat)
    requires i <= |all| && pos <= |u|
  {
    && pos <= Reach(all, limit, i) <= limit && InOrder(all[..i], |s|)
    && u[..pos] == Render(Pieces(s, all[..i]))
    && (forall k :: pos <= k < |s| <= |u| ==> u[k] == s[k])
  }

  /** The (i+1)-th chunk is still where it was when its turn comes. */
  lemma NextChunk(u: bytes, s: bytes, all: seq<Chunk>, limit: nat, i: nat, pos: nat)
    requires i < |all| && pos <= |u| && limit <= |s| <= |u| && InOrder(all, limit)
    requires Assembled(u, s, all, limit, i, pos)
    ensures var c := all[i];
            && pos < c.start && c.start + c.len <= Reach(all, limit, i + 1) <= limit
            && u[c.start..c.start + c.len] == Piece(s, c)
            && InOrder(all[..i + 1], |s|)
            && Render(Pieces(s, all[..i + 1])) == u[..pos] + [SLASH] + Piece(s, c)
  {
    var c := all[i];
    InOrderPrefix(all, limit, i);
    ReachIs(all, limit, i + 1);
    hide InOrder, Pieces;
    assert all[..i + 1] == all[..i] + [c];
    PiecesPush(s, all[..i], c);
    SafeUrl.RenderPush(Pieces(s, all[..i]), Piece(s, c));
  }

  /** Moves the chunks down so that they follow one another, each behind one slash. */
  method Reassemble(url: array<byte>, urllen: nat, chunks: array<Chunk>, num: nat) returns (pos: nat)
    requires urllen < url.Length && num <= chunks.Length
    requires InOrder(chunks[..num], Limit(url[..urllen]))
    modifies url
    ensures InOrder(chunks[..num], urllen)
    ensures pos <= Limit(old(url[..urllen]))
    ensures url[..pos] == Render(Pieces(old(url[..urllen]), chunks[..num]))
    ensures forall k :: pos <= k < url.Length ==> url[k] == old(url[k])
  {
    ghost var s := url[..urllen];
    ghost var all := chunks[..num];
    ghost var limit := Limit(s);
    InOrderWider(all, limit, urllen);
    ReachIs(all, limit, 0);
    pos := 0;
    NothingAssembled(url[..], s, all, limit);
    hide InOrder, Pieces, Render, Reach, Assembled;
    for i := 0 to num
      invariant pos <= url.Length && Assembled(url[..], s, all, limit, i, pos)
      invariant forall k :: pos <= k < url.Length ==> url[k] == old(url[k])
    {
      ghost var u, before := url[..], pos;
      NextChunk(u, s, all, limit, i, pos);
      pos := MoveChunk(url, pos, chunks[i]);
      Placed(u, url[..], s, all, limit, i, before, pos);
    }
    AllAssembled(url[..], s, all, limit, pos);
    assert url[..][..pos] == url[..pos];
  }

  lemma Placed(u: bytes, u': bytes, s: bytes, all: seq<Chunk>, limit: nat, i: nat, pos: nat, next: nat)
    requires i < |all| && pos <= |u| == |u'| && limit <= |s| <= |u| && InOrder(all, limit)
    requires Assembled(u, s, all, limit, i, pos)
    requires next == pos + 1 + all[i].len <= |u| && all[i].start + all[i].len <= |u|
    requires u'[..next] == u[..pos] + [SLASH] + u[all[i].start..all[i].start + all[i].len]
    requires forall k :: next <= k < |u| ==> u'[k] == u[k]
    ensures Assembled(u', s, all, limit, i + 1, next)
  {
    NextChunk(u, s, all, limit, i, pos);
  }

  lemma AllAssembled(u: bytes, s: bytes, all: seq<Chunk>, limit: nat, pos: nat)
    requires pos <= |u| && Assembled(u, s, all, limit, |all|, pos)
    ensures pos <= limit && InOrder(all, |s|) && u[..pos] == Render(Pieces(s, all))
  {
    assert all[..|all|] == all;
  }

  lemma NothingAssembled(u: bytes, s: bytes, all: seq<Chunk>, limit: nat)
    requires s <= u && 0 <= Reach(all, limit, 0) <= limit
    ensures Assembled(u, s, all, limit, 0, 0)
  {
    assert all[..0] == [];
  }

  /** What the chunks left after the scan mean. */
  lemma ScanResolves(was: bytes)
    requires was != [] && was[0] == SLASH
    ensures var s := Squeeze(was);
            && s != [] && s[0] == SLASH && NoDoubleSlash(s) && 0 < Slashes(s)
            && match Scan(s, 1, [])
               case None => Resolve(was) == None
               case Some(chunks) =>
                 && InOrder(chunks, Limit(s)) && InOrder(chunks, |s|)
                 && Resolve(was) == Some(Finish(Pieces(s, chunks), EndsInSlash(s)))
                 && (chunks == [] <==> Pieces(s, chunks) == [])
  {
    SqueezeResolves(was);
    SqueezeEnds(was);
    SqueezeNoDouble(was);
    var s := Squeeze(was);
    SlashesStep(s, 0, 0);
    ScanInOrder(s, 1, []);
    ScanWalks(s, 1, []);
    WalkAtIsWalk(s, 1, []);
  }

  /**
   The reference normaliser: the same answer, on every string, as the pure
   meaning; false stands for the NULL result.
   */
  method MakeSafeUrlOld(url: array<byte>) returns (ok: bool)
    requires NUL in url[..]
    modifies url
    ensures NUL in url[..]
    ensures var s := Str(old(url[..]));
            && ok == Resolve(s).Some?
            && (ok ==> Str(url[..]) == Resolve(s).value)
  {
    hide Scan, Squeeze, InOrder, Pieces, Render, Slashes;
    BufferChars(url[..]);
    if url[0] != SLASH {
      return false;
    }
    ScanResolves(Str(url[..]));
    ConsolidateSlashes(url);
    ghost var s := Str(url[..]);
    var urllen := StrLen(url);
    assert url[..urllen] == s;
    var endsInSlash := if urllen > 0 then url[urllen - 1] == SLASH else true;
    var numSlashes := CountSlashes(url, urllen);
    assert numSlashes > 0;
    var chunks := new Chunk[numSlashes];
    var num;
    ok, num := SplitChunks(url, urllen, chunks);
    if !ok {
      assert url[..][urllen] == NUL;
      return;
    }
    var pos := Reassemble(url, urllen, chunks, num);
    PiecesNoNul(s, chunks[..num]);
    NoPieces(s);
    if num == 0 || endsInSlash {
      pos := SafeUrl.Put(url, pos, SLASH);
    }
    assert pos <= urllen;
    url[pos] := NUL;
    assert url[..][pos] == NUL;
    StrIs(url[..], url[..pos]);
  }

  method StrLen(url: array<byte>) returns (n: nat)
    requires NUL in url[..]
    ensures n == |Str(url[..])| < url.Length
  {
    BufferChars(url[..]);
    n := 0;
    while url[n] != NUL
      invariant n <= |Str(url[..])|
      decreases |Str(url[..])| - n
    {
      n := n + 1;
    }
  }

  lemma {:induction false} PiecesNoNul(s: bytes, chunks: seq<Chunk>)
    requires NUL !in s && InOrder(chunks, |s|)
    ensures NUL !in Render(Pieces(s, chunks))
    decreases |chunks|
  {
    if chunks == [] {
      NoPieces(s);
    } else {
      var init, last := chunks[..|chunks| - 1], chunks[|chunks| - 1];
      PiecesPop(s, chunks, |s|);
      hide InOrder, Pieces, Render;
      PiecesNoNul(s, init);
      SafeUrl.RenderPush(Pieces(s, init), Piece(s, last));
    }
  }

  // --------------------------------------------------------------- the fuzzer

  /** A NUL-terminated copy. */
  method Sdup(data: bytes) returns (buf: array<byte>)
    ensures fresh(buf) && buf[..] == data + [NUL]
    ensures NUL in buf[..] && Str(buf[..]) == Str(data)
  {
    buf := new byte[|data| + 1];
    forall i | 0 <= i < |data| {
      buf[i] := data[i];
    }
    buf[|data|] := NUL;
    assert buf[..][|data|] == NUL;
    var n := |Str(data)|;
    assert n < |data| ==> buf[n] == NUL;
    StrIs(buf[..], Str(data));
  }

  /** What the harness calls safe: no dot-dir inside the result. */
  ghost predicate Checked(safe: Option<bytes>) {
    safe.Some? ==>
      forall i: nat :: !OccursAt(safe.value, i, [SLASH, DOT, DOT, SLASH]) &&
                       !OccursAt(safe.value, i, [SLASH, DOT, SLASH])
  }

  lemma ResolveChecked(s: bytes)
    ensures Checked(Resolve(s))
  {
    if Resolve(s).Some? {
      ResolveConfined(s);
      forall i: nat
        ensures !OccursAt(Resolve(s).value, i, [SLASH, DOT, DOT, SLASH])
        ensures !OccursAt(Resolve(s).value, i, [SLASH, DOT, SLASH])
      {
        ConfinedHasNoDotDir(Resolve(s).value, i);
      }
    }
  }

  /**
   The fuzz target never traps: on every input the two normalisers give the
   same verdict and the same string, and an accepted string has no dot-dir.
   */
  method FuzzOneInput(data: bytes) returns (safe1: Option<bytes>, safe2: Option<bytes>)
    ensures safe1 == safe2 == Resolve(Str(data))
    ensures Checked(safe1) && Checked(safe2)
  {
    var buf1 := Sdup(data);
    var buf2 := Sdup(data);
    var ok1 := MakeSafeUrlOld(buf1);
    var ok2 := SafeUrl.MakeSafeUrl(buf2);
    safe1 := if ok1 then Some(Str(buf1[..])) else None;
    safe2 := if ok2 then Some(Str(buf2[..])) else None;
    ResolveChecked(Str(data));
  }
}
