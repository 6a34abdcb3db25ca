/** Printing requests, and what the parser makes of a printed one. */
module RequestPrint {
  import opened Bytes
  import opened Request

  datatype Eol = Unix | Dos {
    function Bytes(): (r: bytes)
      ensures |r| >= 1 && r[|r| - 1] == LF && (forall k :: 0 <= k < |r| - 1 ==> r[k] == CR) && |r| <= 2
    {
      match this case Unix => [LF] case Dos => [CR, LF]
    }
  }

  /**
   A request before it is put on the wire: its first line is a method, a URL and perhaps
   a version, with one space more than the gap says between them, and a header line is a
   field name, ": " and a value.
   */
  datatype Message = Message(
    method_: bytes,
    gap: nat,
    url: bytes,
    versionGap: nat,
    version: Option<bytes>,
    headers: seq<bytes>)

  /** Nothing in it breaks a line, and there is a URL. */
  ghost predicate Lined(m: Message) {
    && LineText(m.method_) && SPACE !in m.method_
    && LineText(m.url) && SPACE !in m.url && m.url != []
    && (m.version.Some? ==> LineText(m.version.value) && m.version.value != [] && m.version.value[0] != SPACE)
    && forall h :: h in m.headers ==> LineText(h) && h != []
  }

  /** What a client may send: single words in the first line, nonempty header lines. */
  ghost predicate Printable(m: Message) {
    Lined(m) && (m.version.Some? ==> SPACE !in m.version.value)
  }

  function Gap(n: nat): (r: bytes)
    ensures |r| == n + 1 && forall k :: 0 <= k < |r| ==> r[k] == SPACE
  {
    seq(n + 1, _ => SPACE)
  }

  function PrintHeaders(headers: seq<bytes>, eol: Eol): bytes {
    if headers == [] then eol.Bytes()
    else headers[0] + eol.Bytes() + PrintHeaders(headers[1..], eol)
  }

  function PrintVersion(m: Message): bytes {
    match m.version case None => [] case Some(version) => Gap(m.versionGap) + version
  }

  function FirstLine(m: Message): bytes {
    m.method_ + Gap(m.gap) + m.url + PrintVersion(m)
  }

  function Print(m: Message, eol: Eol): bytes {
    FirstLine(m) + eol.Bytes() + PrintHeaders(m.headers, eol)
  }

  /** The value on the first header line that begins with the name, ignoring case. */
  function FirstHeader(headers: seq<bytes>, name: bytes): Option<bytes> {
    if headers == [] then None
    else if |name| <= |headers[0]| && Lower(headers[0][..|name|]) == Lower(name) then
      Some(headers[0][|name|..])
    else FirstHeader(headers[1..], name)
  }

  // ------------------------------------------------------- where lines begin

  /** A line feed at p, and behind it the headers and the closing blank line. */
  ghost predicate HeadersAt(h: bytes, p: nat, headers: seq<bytes>, eol: Eol) {
    p < |h| && h[p] == LF && h[p + 1..] == PrintHeaders(headers, eol)
    && forall l :: l in headers ==> LineText(l) && l != []
  }

  /** Where the line feed of the next line lies. */
  function NextFeed(p: nat, line: bytes, eol: Eol): nat {
    p + |line| + |eol.Bytes()|
  }

  /** One line on: its text, its ending, and the headers behind. */
  lemma NextHeaders(h: bytes, p: nat, headers: seq<bytes>, eol: Eol)
    requires HeadersAt(h, p, headers, eol) && headers != []
    ensures var q := NextFeed(p, headers[0], eol);
            && HeadersAt(h, q, headers[1..], eol)
            && h[p + 1..p + 1 + |headers[0]|] == headers[0]
            && (forall k :: p < k < q ==> h[k] != LF)
            && (forall k :: p < k <= p + |headers[0]| ==> h[k] != CR && h[k] != LF && h[k] != NUL)
            && (h[p + 1 + |headers[0]|] == CR || h[p + 1 + |headers[0]|] == LF)
  {
    var line, e, rest := headers[0], eol.Bytes(), PrintHeaders(headers[1..], eol);
    var b := p + 1 + |line|;
    hide LineText, PrintHeaders, HeadersAt;
    hide NextFeed;
    HeadersParts(h, p, headers, eol);
    TwoAt(h, p + 1, line, e, rest);
    LineAt(h, p + 1, line);
    EolAt(h, b, eol);
    HeadersRest(h, b + |e| - 1, headers, eol);
    FeedIs(p, line, eol);
  }

  lemma FeedIs(p: nat, line: bytes, eol: Eol)
    ensures NextFeed(p, line, eol) == p + 1 + |line| + |eol.Bytes()| - 1
  {
  }

  lemma HeadersParts(h: bytes, p: nat, headers: seq<bytes>, eol: Eol)
    requires HeadersAt(h, p, headers, eol) && headers != []
    ensures p < |h| && h[p] == LF && LineText(headers[0])
    ensures h[p + 1..] == headers[0] + (eol.Bytes() + PrintHeaders(headers[1..], eol))
    ensures forall l :: l in headers ==> LineText(l) && l != []
  {
    assert headers[0] in headers;
    Associate(headers[0], eol.Bytes(), PrintHeaders(headers[1..], eol));
  }

  lemma HeadersRest(h: bytes, q: nat, headers: seq<bytes>, eol: Eol)
    requires headers != [] && q < |h| && h[q] == LF && h[q + 1..] == PrintHeaders(headers[1..], eol)
    requires forall l :: l in headers ==> LineText(l) && l != []
    ensures HeadersAt(h, q, headers[1..], eol)
  {
    assert forall l :: l in headers[1..] ==> l in headers;
  }

  lemma LineAt(h: bytes, i: nat, line: bytes)
    requires i + |line| <= |h| && h[i..i + |line|] == line && LineText(line)
    ensures forall k :: i <= k < i + |line| ==> h[k] != CR && h[k] != LF && h[k] != NUL
  {
    assert forall k :: 0 <= k < |line| ==> line[k] in line;
    assert forall k :: i <= k < i + |line| ==> h[k] == line[k - i];
  }

  // ------------------------------------------------------------- the fields

  predicate Name(name: bytes) {
    name != [] && LineText(name)
  }

  /** Between line feeds nothing can match. */
  lemma {:induction false} FindSkips(h: bytes, needle: bytes, i: nat, j: nat)
    requires needle != [] && needle[0] == LF && i <= j <= |h|
    requires forall k :: i <= k < j ==> h[k] != LF
    ensures Find(h, needle, i) == Find(h, needle, j)
    decreases j - i
  {
    if i < j {
      NoMatchHere(h, needle, i);
      FindSkips(h, needle, i + 1, j);
    }
  }

  lemma NoMatchHere(h: bytes, needle: bytes, i: nat)
    requires needle != [] && needle[0] == LF && i < |h| && h[i] != LF
    ensures !MatchAt(h, needle, i)
  {
    if i + |needle| <= |h| {
      var x := h[i..i + |needle|];
      assert Lower(x)[0] == ToLower(x[0]) != LF;
      assert Lower(needle)[0] == LF;
    }
  }

  /** At a line feed the field matches exactly when the line begins with its name. */
  lemma MatchAtLine(h: bytes, p: nat, line: bytes, name: bytes)
    requires p < |h| && h[p] == LF && p + 1 + |line| < |h| && h[p + 1..p + 1 + |line|] == line
    requires h[p + 1 + |line|] == CR || h[p + 1 + |line|] == LF
    requires Name(name)
    ensures MatchAt(h, [LF] + name, p) <==> |name| <= |line| && Lower(line[..|name|]) == Lower(name)
  {
    hide Lower;
    var n := |name|;
    var field := [LF] + name;
    if p + 1 + n <= |h| {
      var x := h[p + 1..p + 1 + n];
      assert h[p..p + |field|] == [LF] + x;
      LowerLine(x);
      LowerLine(name);
      assert MatchAt(h, field, p) <==> Lower(x) == Lower(name) by {
        assert ([LF] + Lower(x))[1..] == Lower(x) && ([LF] + Lower(name))[1..] == Lower(name);
      }
      if n <= |line| {
        assert x == line[..n];
      } else {
        assert x[|line|] == h[p + 1 + |line|];
        EndsApart(x, name, |line|);
      }
    }
  }

  lemma LowerLine(s: bytes)
    ensures Lower([LF] + s) == [LF] + Lower(s)
  {
  }

  /** A line ending matches no character of a name. */
  lemma EndsApart(x: bytes, name: bytes, k: nat)
    requires k < |x| && k < |name| && (x[k] == CR || x[k] == LF) && LineText(name)
    ensures Lower(x) != Lower(name)
  {
    assert name[k] in name;
    assert Lower(x)[k] == x[k] && Lower(name)[k] != CR && Lower(name)[k] != LF;
  }

  lemma MatchValue(h: bytes, p: nat, line: bytes, name: bytes)
    requires p + 1 + |line| < |h| && h[p + 1..p + 1 + |line|] == line && |name| <= |line|
    requires LineText(line)
    requires h[p + 1 + |line|] == CR || h[p + 1 + |line|] == LF
    ensures ValueBehind(h, Some(p), |name| + 1) == Some(line[|name|..])
  {
    var start := p + 1 + |name|;
    assert forall k :: start <= k < p + 1 + |line| ==> h[k] == line[k - p - 1] && h[k] in line;
    SpanIs(h, start, |line| - |name|, {CR, LF});
    assert h[start..p + 1 + |line|] == line[|name|..];
  }

  /** Search from a line feed finds the first header with that name, and its value ends the line. */
  lemma {:induction false} FindHeader(h: bytes, p: nat, headers: seq<bytes>, eol: Eol, field: Field)
    requires HeadersAt(h, p, headers, eol)
    ensures ValueBehind(h, Find(h, field, p), |field|) == FirstHeader(headers, field[1..])
    decreases |headers|
  {
    hide Find, MatchAt, Lower, LineText, PrintHeaders, ValueBehind;
    var name := field[1..];
    assert field == [LF] + name;
    FieldName(field);
    FindOnce(h, field, p);
    if headers == [] {
      NoMatchAtEnd(h, p, eol, name);
      ValueOfNone(h, |field|);
    } else {
      var line := headers[0];
      var q := NextFeed(p, line, eol);
      NextHeaders(h, p, headers, eol);
      MatchAtLine(h, p, line, name);
      if MatchAt(h, field, p) {
        assert line in headers;
        MatchValue(h, p, line, name);
      } else {
        FindSkips(h, field, p + 1, q);
        assert Find(h, field, p) == Find(h, field, q);
        FindHeader(h, q, headers[1..], eol, field);
      }
    }
  }

  lemma FieldName(field: Field)
    ensures Name(field[1..])
  {
  }

  lemma ValueOfNone(h: bytes, n: nat)
    ensures ValueBehind(h, None, n) == None
  {
  }

  lemma FindOnce(h: bytes, needle: bytes, i: nat)
    ensures i <= |h| && MatchAt(h, needle, i) ==> Find(h, needle, i) == Some(i)
    ensures i <= |h| && !MatchAt(h, needle, i) ==> Find(h, needle, i) == Find(h, needle, i + 1)
  {
  }

  lemma NoMatchAtEnd(h: bytes, p: nat, eol: Eol, name: bytes)
    requires HeadersAt(h, p, [], eol) && Name(name)
    ensures Find(h, [LF] + name, p) == None
  {
    var field := [LF] + name;
    var tail := h[p + 1..];
    assert tail == eol.Bytes();
    assert h[p + 1] == tail[0] && h[|h| - 1] == LF;
    assert h[p + 1..p + 1 + 0] == [];
    MatchAtLine(h, p, [], name);
    FindSkips(h, field, p + 1, |h| - 1);
    assert |field| >= 2;
    assert !MatchAt(h, field, |h| - 1);
  }

  // --------------------------------------------------------- the first line

  /** Where the URL begins. */
  function UrlAt(m: Message): nat {
    |m.method_| + 1 + m.gap
  }

  function UrlEnd(m: Message): nat {
    UrlAt(m) + |m.url|
  }

  /** The positions of the first line's pieces. */
  lemma PrintShape(m: Message, eol: Eol)
    requires Lined(m)
    ensures var h := Print(m, eol); var a := |m.method_|; var u := UrlAt(m); var b := UrlEnd(m); var c := b + |PrintVersion(m)|;
            && c + |eol.Bytes()| < |h| && c == |FirstLine(m)|
            && h[..a] == m.method_ && h[a..u] == Gap(m.gap)
            && h[u..b] == m.url && h[b..c] == PrintVersion(m) && (h[c] == CR || h[c] == LF)
            && HeadersAt(h, c + |eol.Bytes()| - 1, m.headers, eol)
            && (forall k :: 0 <= k < c ==> h[k] != LF && h[k] != CR && h[k] != NUL)
            && (forall k :: c <= k < c + |eol.Bytes()| - 1 ==> h[k] == CR)
  {
    hide PrintVersion, Gap, PrintHeaders, LineText, Print, FirstLine;
    var h := Print(m, eol);
    var c := UrlEnd(m) + |PrintVersion(m)|;
    PiecesAt(m, eol);
    HeadersBegin(m.headers, eol);
    EolAt(h, c, eol);
    PlainFirst(m);
    FirstIs(m, h, c);
  }

  /** Where the printed pieces lie. */
  lemma PiecesAt(m: Message, eol: Eol)
    ensures var h := Print(m, eol); var a := |m.method_|; var u := UrlAt(m); var b := UrlEnd(m); var c := b + |PrintVersion(m)|;
            && c + |eol.Bytes()| <= |h| && h[..c] == FirstLine(m)
            && h[..a] == m.method_ && h[a..u] == Gap(m.gap) && h[u..b] == m.url && h[b..c] == PrintVersion(m)
            && h[c..c + |eol.Bytes()|] == eol.Bytes() && h[c + |eol.Bytes()|..] == PrintHeaders(m.headers, eol)
  {
    hide PrintVersion, Gap, PrintHeaders;
    var e, rest := eol.Bytes(), PrintHeaders(m.headers, eol);
    Regrouped(m.method_, Gap(m.gap), m.url, PrintVersion(m), e, rest);
    SixPieces(Print(m, eol), m.method_, Gap(m.gap), m.url, PrintVersion(m), e, rest);
    Associate(FirstLine(m), e, rest);
    Front(FirstLine(m), e + rest);
  }

  lemma Front(x: bytes, y: bytes)
    ensures (x + y)[..|x|] == x
  {
  }

  lemma SixPieces(h: bytes, x: bytes, g: bytes, y: bytes, z: bytes, e: bytes, rest: bytes)
    requires h == x + (g + (y + (z + (e + rest))))
    ensures var a := |x|; var u := a + |g|; var b := u + |y|; var c := b + |z|;
            && c + |e| <= |h| && h[..a] == x && h[a..u] == g && h[u..b] == y && h[b..c] == z
            && h[c..c + |e|] == e && h[c + |e|..] == rest
  {
    var b := |x| + |g|;
    var c := b + |y| + |z|;
    Whole(h);
    TwoAt(h, 0, x, g, y + (z + (e + rest)));
    TwoAt(h, b, y, z, e + rest);
    PartsAt(h, c, e, rest);
  }

  lemma Whole(h: bytes)
    ensures h[0..] == h && forall n :: 0 <= n <= |h| ==> h[0..n] == h[..n]
  {
  }

  lemma TwoAt(h: bytes, i: nat, x: bytes, y: bytes, rest: bytes)
    requires i <= |h| && h[i..] == x + (y + rest)
    ensures i + |x| + |y| <= |h| && h[i..i + |x|] == x && h[i + |x|..i + |x| + |y|] == y && h[i + |x| + |y|..] == rest
  {
    PartsAt(h, i, x, y + rest);
    PartsAt(h, i + |x|, y, rest);
  }

  lemma EolAt(h: bytes, c: nat, eol: Eol)
    requires c + |eol.Bytes()| <= |h| && h[c..c + |eol.Bytes()|] == eol.Bytes()
    ensures h[c] == CR || h[c] == LF
    ensures h[c + |eol.Bytes()| - 1] == LF && forall k :: c <= k < c + |eol.Bytes()| - 1 ==> h[k] == CR
  {
    var e := eol.Bytes();
    assert forall k :: c <= k < c + |e| ==> h[k] == e[k - c];
  }

  lemma Regrouped(a: bytes, b: bytes, c: bytes, d: bytes, e: bytes, f: bytes)
    ensures a + b + c + d + e + f == a + (b + (c + (d + (e + f))))
  {
  }

  lemma HeadersBegin(headers: seq<bytes>, eol: Eol)
    ensures |PrintHeaders(headers, eol)| >= 1
  {
  }

  lemma FirstIs(m: Message, h: bytes, c: nat)
    requires c <= |h| && h[..c] == FirstLine(m)
    ensures forall k :: 0 <= k < c ==> h[k] == FirstLine(m)[k]
  {
    assert forall k :: 0 <= k < c ==> h[k] == h[..c][k];
  }

  /** The spaces of a gap, and what follows them. */
  lemma GapAt(h: bytes, i: nat, n: nat)
    requires i + n + 1 < |h| && h[i..i + n + 1] == Gap(n) && h[i + n + 1] != SPACE
    ensures SpacesFrom(h, i) == i + n + 1 && h[i] == SPACE
  {
    assert forall k :: i <= k < i + n + 1 ==> h[k] == h[i..i + n + 1][k - i] == SPACE;
    SpacesFromIs(h, i, n + 1);
  }

  /** What stands behind the URL. */
  lemma BehindUrl(m: Message, eol: Eol)
    requires Lined(m)
    ensures var h := Print(m, eol); var b := UrlEnd(m);
            match m.version
            case None => b < |h| && (h[b] == CR || h[b] == LF)
            case Some(version) =>
              var v := b + 1 + m.versionGap; var c := v + |version|;
              && c < |h| && h[b] == SPACE && SpacesFrom(h, b) == v && h[v..c] == version && (h[c] == CR || h[c] == LF)
  {
    hide Print, Gap;
    PrintShape(m, eol);
    if m.version.Some? {
      var h := Print(m, eol);
      var b := UrlEnd(m);
      hide Print, HeadersAt, LineText, FirstLine;
      PieceBetween(h, b, Gap(m.versionGap), m.version.value);
      GapAt(h, b, m.versionGap);
    }
  }

  lemma PieceBetween(h: bytes, b: nat, x: bytes, y: bytes)
    requires b + |x| + |y| <= |h| && h[b..b + |x + y|] == x + y
    ensures h[b..b + |x|] == x && h[b + |x|..b + |x| + |y|] == y
    ensures y != [] ==> h[b + |x|] == y[0]
  {
    var v := h[b..b + |x + y|];
    assert v[..|x|] == x && v[|x|..] == y;
  }

  lemma PlainFirst(m: Message)
    requires Lined(m)
    ensures var f := FirstLine(m); forall k :: 0 <= k < |f| ==> f[k] != LF && f[k] != CR && f[k] != NUL
  {
    assert LineText(FirstLine(m));
    var f := FirstLine(m);
    assert forall k :: 0 <= k < |f| ==> f[k] in f;
  }

  lemma {:induction false} HeadersNoNul(headers: seq<bytes>, eol: Eol)
    requires forall l :: l in headers ==> LineText(l)
    ensures NUL !in PrintHeaders(headers, eol)
  {
    if headers != [] {
      HeadersNoNul(headers[1..], eol);
      assert headers[0] in headers;
    }
  }

  lemma PrintNoNul(m: Message, eol: Eol)
    requires Lined(m)
    ensures NUL !in Print(m, eol) && Str(Print(m, eol)) == Print(m, eol)
  {
    HeadersNoNul(m.headers, eol);
    StrWhole(Print(m, eol));
  }

  /** Reading a field from a printed request is looking it up in the list of headers. */
  lemma FieldOfPrinted(m: Message, eol: Eol, field: Field)
    requires Lined(m)
    ensures FieldValue(Print(m, eol), field) == FirstHeader(m.headers, field[1..])
  {
    var h := Print(m, eol);
    PrintNoNul(m, eol);
    var p := FirstFeed(m, eol);
    FindSkips(h, field, 0, p);
    FindHeader(h, p, m.headers, eol, field);
  }

  /** The first line feed of a printed request. */
  lemma FirstFeed(m: Message, eol: Eol) returns (p: nat)
    requires Lined(m)
    ensures var h := Print(m, eol);
            && |eol.Bytes()| <= p && HeadersAt(h, p, m.headers, eol) && (forall k :: 0 <= k < p ==> h[k] != LF)
            && (eol == Dos ==> h[p - 1] == CR)
  {
    PrintShape(m, eol);
    p := |FirstLine(m)| + |eol.Bytes()| - 1;
  }

  // ------------------------------------------------------------ the round trip

  function Header(m: Message, field: Field): Option<bytes> {
    FirstHeader(m.headers, field[1..])
  }

  /** A message's headers, looked up by name. */
  function Compose(m: Message, cfg: Config, method_: bytes, url: bytes, byVersion: bool): Parsed {
    Parsed(
      method_,
      url,
      CloseDecision(byVersion, Header(m, CONNECTION), cfg.wantKeepalive),
      Header(m, REFERER),
      Header(m, USER_AGENT),
      Header(m, AUTHORIZATION),
      if cfg.trustedIp then Header(m, FORWARDED_FOR) else None,
      Header(m, RANGE))
  }

  /** Whether the connection closes by the version alone; without one it does. */
  function ByVersion(m: Message): Option<bool> {
    match m.version case None => Some(true) case Some(version) => KnownVersion(version)
  }

  /** What a server should make of a message. */
  function Understood(m: Message, cfg: Config): Option<Parsed> {
    match ByVersion(m)
    case None => None
    case Some(byVersion) => Some(Compose(m, cfg, Upper(m.method_), m.url, byVersion))
  }

  lemma {:induction false} SpacesFromIs(s: bytes, i: nat, n: nat)
    requires i + n < |s| && (forall k :: i <= k < i + n ==> s[k] == SPACE) && s[i + n] != SPACE
    ensures SpacesFrom(s, i) == i + n
    decreases n
  {
    if n > 0 {
      SpacesFromIs(s, i + 1, n - 1);
    }
  }

  lemma WordEndIs(s: bytes, i: nat, j: nat)
    requires i < j < |s| && (s[j] == SPACE || s[j] == CR || s[j] == LF)
    requires forall k :: i <= k < j ==> s[k] != SPACE && s[k] != CR && s[k] != LF
    ensures WordEnd(s, i) == j
  {
    SpanIs(s, i + 1, j - i - 1, {SPACE, CR, LF});
  }

  lemma WordAt(h: bytes, i: nat, word: bytes)
    requires i + |word| <= |h| && h[i..i + |word|] == word && LineText(word) && SPACE !in word
    ensures forall k :: i <= k < i + |word| ==> h[k] != SPACE && h[k] != CR && h[k] != LF && h[k] != NUL
  {
    assert forall k :: 0 <= k < |word| ==> word[k] in word;
    assert forall k :: i <= k < i + |word| ==> h[k] == word[k - i];
  }

  /** The method and the URL are found where the printer put them. */
  lemma WordsParsed(m: Message, eol: Eol)
    requires Lined(m)
    ensures var h := Print(m, eol); var a := |m.method_|; var u := UrlAt(m); var b := UrlEnd(m);
            && Span(h, 0, {SPACE}) == a && h[..a] == m.method_
            && SpacesFrom(h, a) == u < |h|
            && WordEnd(h, u) == b && b < |h| && h[u..b] == m.url
            && NUL !in h[u + 1..b]
  {
    hide Print, Gap;
    var h := Print(m, eol);
    var a, u, b := |m.method_|, UrlAt(m), UrlEnd(m);
    PrintShape(m, eol);
    BehindUrl(m, eol);
    WordAt(h, 0, m.method_);
    WordAt(h, u, m.url);
    assert h[u] == m.url[0] && m.url[0] in m.url;
    GapAt(h, a, m.gap);
    SpanIs(h, 0, a, {SPACE});
    WordEndIs(h, u, b);
  }

  lemma VersionAt(h: bytes, b: nat, v: nat, c: nat)
    requires b < v < c < |h| && h[b] == SPACE && SpacesFrom(h, b) == v && (h[c] == SPACE || h[c] == CR || h[c] == LF)
    requires forall k :: v <= k < c ==> h[k] != SPACE && h[k] != CR && h[k] != LF
    ensures VersionClose(h, b) == if h[c] == SPACE then None else KnownVersion(h[v..c])
  {
    hide Span, SpacesFrom;
    WordEndIs(h, v, c);
  }

  lemma VersionParsed(m: Message, eol: Eol)
    requires Printable(m)
    ensures UrlEnd(m) <= |Print(m, eol)| && VersionClose(Print(m, eol), UrlEnd(m)) == ByVersion(m)
  {
    hide KnownVersion, Print, HeadersAt, SpacesFrom;
    var h := Print(m, eol);
    var b := UrlEnd(m);
    BehindUrl(m, eol);
    if m.version.Some? {
      hide VersionClose;
      var v := b + 1 + m.versionGap;
      WordAt(h, v, m.version.value);
      VersionAt(h, b, v, v + |m.version.value|);
    }
  }

  /** Anything behind the version makes a bad request of it, be it only a space. */
  lemma TooManyWords(m: Message, eol: Eol, cfg: Config, junk: bytes)
    requires Printable(m) && m.version.Some? && LineText(junk)
    ensures Parse(Print(m.(version := Some(m.version.value + [SPACE] + junk)), eol), cfg) == None
  {
    hide KnownVersion, Print, SpacesFrom, WordEnd, Span, VersionClose, Assemble;
    var version := m.version.value;
    var m2 := m.(version := Some(version + [SPACE] + junk));
    assert m2.version.value[0] == version[0] && version[0] in version;
    WordsParsed(m2, eol);
    BehindUrl(m2, eol);
    var h := Print(m2, eol);
    var v := UrlEnd(m2) + 1 + m.versionGap;
    var c := v + |version|;
    Associate(version, [SPACE], junk);
    PieceBetween(h, v, version, [SPACE] + junk);
    WordAt(h, v, version);
    VersionAt(h, UrlEnd(m2), v, c);
  }

  /** A NUL in the URL, but at its very beginning, makes a bad request of it. */
  lemma NulInUrl(method_: bytes, url: bytes, rest: bytes, cfg: Config)
    requires SPACE !in method_ && url != [] && NUL in url[1..]
    requires forall c :: c in url ==> c !in {SPACE, CR, LF}
    requires rest != [] && rest[0] in {SPACE, CR, LF}
    ensures Parse(method_ + [SPACE] + url + rest, cfg) == None
  {
    hide VersionClose, Assemble;
    var h := method_ + [SPACE] + url + rest;
    var a := |method_|;
    var u, b := a + 1, a + 1 + |url|;
    assert forall k :: 0 <= k < a ==> h[k] == method_[k] && method_[k] in method_;
    assert forall k :: u <= k < b ==> h[k] == url[k - u] && url[k - u] in url;
    assert h[b] == rest[0] && h[u] == url[0];
    SpanIs(h, 0, a, {SPACE});
    SpacesFromIs(h, a, 1);
    WordEndIs(h, u, b);
    assert h[u + 1..b] == url[1..];
  }

  lemma FieldsParsed(m: Message, eol: Eol, cfg: Config, method_: bytes, url: bytes, byVersion: bool)
    requires Lined(m)
    ensures Assemble(Print(m, eol), cfg, method_, url, byVersion) == Compose(m, cfg, method_, url, byVersion)
  {
    FieldOfPrinted(m, eol, CONNECTION);
    FieldOfPrinted(m, eol, REFERER);
    FieldOfPrinted(m, eol, USER_AGENT);
    FieldOfPrinted(m, eol, AUTHORIZATION);
    FieldOfPrinted(m, eol, FORWARDED_FOR);
    FieldOfPrinted(m, eol, RANGE);
  }

  /**
   The parser undoes the printer: method in capitals, URL, and for each field the
   value on the first line that names it, in any case and with either line ending.
   */
  lemma ParsePrinted(m: Message, eol: Eol, cfg: Config)
    requires Printable(m)
    ensures Parse(Print(m, eol), cfg) == Understood(m, cfg)
  {
    hide Print, Span, SpacesFrom, WordEnd, VersionClose, ByVersion, Assemble, Compose, Upper;
    WordsParsed(m, eol);
    VersionParsed(m, eol);
    if ByVersion(m).Some? {
      FieldsParsed(m, eol, cfg, Upper(m.method_), m.url, ByVersion(m).value);
    }
  }

  /** The word is the literal, in any case. */
  predicate Is(word: bytes, literal: string) {
    Lower(word) == Lower(Ascii(literal))
  }

  /** The first header line that begins with the name. */
  lemma {:induction false} FirstHeaderMeans(headers: seq<bytes>, name: bytes) returns (i: nat)
    ensures i <= |headers|
    ensures forall j :: 0 <= j < i ==> !(|name| <= |headers[j]| && Lower(headers[j][..|name|]) == Lower(name))
    ensures FirstHeader(headers, name).None? <==> i == |headers|
    ensures i < |headers| ==>
              |name| <= |headers[i]| && Lower(headers[i][..|name|]) == Lower(name) &&
              FirstHeader(headers, name) == Some(headers[i][|name|..])
  {
    if headers == [] || (|name| <= |headers[0]| && Lower(headers[0][..|name|]) == Lower(name)) {
      i := 0;
    } else {
      i := FirstHeaderMeans(headers[1..], name);
      i := i + 1;
    }
  }

  lemma ValuePlain(m: Message, name: bytes)
    requires Lined(m)
    ensures var v := FirstHeader(m.headers, name); v.Some? ==> LineText(v.value) && Str(v.value) == v.value
  {
    var i := FirstHeaderMeans(m.headers, name);
    if i < |m.headers| {
      assert m.headers[i] in m.headers;
      StrWhole(m.headers[i][|name|..]);
    }
  }

  /**
   What a printed request is taken for, word for word: which versions are understood,
   when the connection closes, and which header line each field comes from.
   */
  lemma ParsedMeans(m: Message, eol: Eol, cfg: Config)
    requires Printable(m)
    ensures var p := Parse(Print(m, eol), cfg);
            && (p.None? <==> m.version.Some? && !Is(m.version.value, "HTTP/1.1") && !Is(m.version.value, "HTTP/1.0"))
            && (p.Some? ==>
                  && p.value.method_ == Upper(m.method_) && p.value.url == m.url
                  && p.value.connClose == Closes(m, cfg)
                  && p.value.referer == FirstHeader(m.headers, Ascii("Referer: "))
                  && p.value.userAgent == FirstHeader(m.headers, Ascii("User-Agent: "))
                  && p.value.authorization == FirstHeader(m.headers, Ascii("Authorization: "))
                  && p.value.forwardedFor == (if cfg.trustedIp then FirstHeader(m.headers, Ascii("X-Forwarded-For: ")) else None)
                  && p.value.range == FirstHeader(m.headers, Ascii("Range: bytes=")))
  {
    hide Print, Parse, Lower, FirstHeader, LineText, CloseDecision;
    ParsePrinted(m, eol, cfg);
    VersionMeans(m);
    NamesAre();
    if ByVersion(m).Some? {
      ClosingMeans(m, cfg, ByVersion(m).value);
    }
  }

  /** Sections 3 and 9.3 of RFC 9112, and the flag that denies keep-alive. */
  predicate Closes(m: Message, cfg: Config) {
    !cfg.wantKeepalive ||
    var connection := FirstHeader(m.headers, Ascii("Connection: "));
    if connection.Some? && Is(connection.value, "close") then true
    else if connection.Some? && Is(connection.value, "keep-alive") then false
    else !(m.version.Some? && Is(m.version.value, "HTTP/1.1"))
  }

  lemma VersionMeans(m: Message)
    requires Printable(m)
    ensures ByVersion(m) ==
            match m.version
            case None => Some(true)
            case Some(v) => if Is(v, "HTTP/1.1") then Some(false) else if Is(v, "HTTP/1.0") then Some(true) else None
  {
    hide Lower;
    if m.version.Some? {
      StrWhole(m.version.value);
    }
  }

  lemma NamesAre()
    ensures CONNECTION[1..] == Ascii("Connection: ") && REFERER[1..] == Ascii("Referer: ")
    ensures USER_AGENT[1..] == Ascii("User-Agent: ") && AUTHORIZATION[1..] == Ascii("Authorization: ")
    ensures FORWARDED_FOR[1..] == Ascii("X-Forwarded-For: ") && RANGE[1..] == Ascii("Range: bytes=")
  {
    NamedIs("Connection: ");
    NamedIs("Referer: ");
    NamedIs("User-Agent: ");
    NamedIs("Authorization: ");
    NamedIs("X-Forwarded-For: ");
    NamedIs("Range: bytes=");
  }

  lemma NamedIs(name: string)
    requires name != "" && forall i :: 0 <= i < |name| ==> ' ' <= name[i] <= '~'
    ensures Named(name)[1..] == Ascii(name)
  {
  }

  lemma ClosingMeans(m: Message, cfg: Config, byVersion: bool)
    requires Printable(m) && ByVersion(m) == Some(byVersion)
    ensures CloseDecision(byVersion, FirstHeader(m.headers, Ascii("Connection: ")), cfg.wantKeepalive) == Closes(m, cfg)
  {
    hide Lower, FirstHeader;
    ValuePlain(m, Ascii("Connection: "));
    VersionMeans(m);
    CloseIsNotKeepAlive();
  }

  lemma CloseIsNotKeepAlive()
    ensures Lower(Ascii("close")) != Lower(Ascii("keep-alive"))
    ensures Lower(Ascii("HTTP/1.1")) != Lower(Ascii("HTTP/1.0"))
  {
    assert |Lower(Ascii("close"))| != |Lower(Ascii("keep-alive"))|;
    assert Lower(Ascii("HTTP/1.1"))[7] != Lower(Ascii("HTTP/1.0"))[7];
  }

  // ------------------------------------------------------- complete, and only at the end

  /** A blank line begins behind the line feed at q. */
  predicate BlankBehind(h: bytes, q: nat) {
    q < |h| && h[q] == LF &&
    ((q + 1 < |h| && h[q + 1] == LF) || (q + 2 < |h| && h[q + 1] == CR && h[q + 2] == LF))
  }

  lemma {:induction false} BlankOnlyAtEnd(h: bytes, p: nat, headers: seq<bytes>, eol: Eol, q: nat)
    requires HeadersAt(h, p, headers, eol) && p <= q
    ensures BlankBehind(h, q) ==>
              |h| == q + 1 + |eol.Bytes()| && (h[q + 1] == LF <==> eol == Unix)
    decreases |headers|
  {
    if headers == [] {
      var tail := h[p + 1..];
      assert tail == eol.Bytes();
      assert forall k :: p < k < |h| ==> h[k] == tail[k - p - 1];
    } else {
      assert headers[0] in headers;
      NextHeaders(h, p, headers, eol);
      var next := NextFeed(p, headers[0], eol);
      if q >= next {
        BlankOnlyAtEnd(h, next, headers[1..], eol, q);
      }
    }
  }

  lemma {:induction false} PrintEnds(h: bytes, p: nat, headers: seq<bytes>, eol: Eol)
    requires HeadersAt(h, p, headers, eol) && (eol == Dos ==> p > 0 && h[p - 1] == CR)
    ensures |h| >= p + 1 + |eol.Bytes()|
    ensures h[|h| - 2 * |eol.Bytes()|..] == eol.Bytes() + eol.Bytes()
    decreases |headers|
  {
    if headers == [] {
      assert h[p + 1..] == eol.Bytes();
      assert h[|h| - 2 * |eol.Bytes()|..] == h[p + 1 - |eol.Bytes()|..p + 1] + h[p + 1..];
    } else {
      NextHeaders(h, p, headers, eol);
      var next := NextFeed(p, headers[0], eol);
      if eol == Dos {
        assert h[next - 1] == CR by {
          var tail := h[p + 1..];
          assert tail == headers[0] + [CR, LF] + PrintHeaders(headers[1..], eol);
          assert h[next - 1] == tail[|headers[0]|];
        }
      }
      PrintEnds(h, next, headers[1..], eol);
    }
  }

  lemma EndsComplete(h: bytes, eol: Eol)
    requires |h| > 2 * |eol.Bytes()| && h[|h| - 2 * |eol.Bytes()|..] == eol.Bytes() + eol.Bytes()
    ensures Complete(h)
  {
    assert eol.Bytes() + eol.Bytes() == if eol == Unix then [LF, LF] else [CR, LF, CR, LF];
  }

  /** A printed request passes the completeness test, and no proper prefix of it does. */
  lemma PrintedCompleteOnce(m: Message, eol: Eol)
    requires Printable(m)
    ensures var h := Print(m, eol);
            Complete(h) && forall k :: 0 <= k < |h| ==> !Complete(h[..k])
  {
    hide Print, HeadersAt, Complete;
    var h := Print(m, eol);
    var p := FirstFeed(m, eol);
    PrintEnds(h, p, m.headers, eol);
    EndsComplete(h, eol);
    forall k | 0 <= k < |h|
      ensures !Complete(h[..k])
    {
      PrefixIncomplete(h, p, m.headers, eol, k);
    }
  }

  lemma PrefixIncomplete(h: bytes, p: nat, headers: seq<bytes>, eol: Eol, k: nat)
    requires HeadersAt(h, p, headers, eol) && k < |h|
    requires forall i :: 0 <= i < p ==> h[i] != LF
    ensures !Complete(h[..k])
  {
    if Complete(h[..k]) {
      var q := BlankAtEnd(h, k);
      BlankOnlyAtEnd(h, p, headers, eol, q);
    }
  }

  /** A complete prefix ends in a blank line. */
  lemma BlankAtEnd(h: bytes, k: nat) returns (q: nat)
    requires k <= |h| && Complete(h[..k])
    ensures BlankBehind(h, q)
    ensures k == q + (if h[q + 1] == LF then 2 else 3)
  {
    var r := h[..k];
    if EndsWith(r, [LF, LF]) {
      q := k - 2;
      assert r[q..][0] == h[q] && r[q..][1] == h[q + 1];
    } else {
      q := k - 3;
      var t := r[k - 4..];
      assert t[1] == h[q] && t[2] == h[q + 1] && t[3] == h[q + 2];
    }
  }
}
