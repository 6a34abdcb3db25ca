/** Reading an HTTP request out of the receive buffer. */
module Request {
  import opened Bytes

  // -------------------------------------------------------------- the fields

  /** Text that can stand inside a line. */
  predicate LineText(s: bytes) {
    NUL !in s && CR !in s && LF !in s
  }

  /** What is searched for begins a line, so no field hides inside another. */
  type Field = f: bytes | |f| > 1 && f[0] == LF && LineText(f[1..]) witness [LF, SPACE]

  /** A field whose name is printable. */
  function Named(name: string): (f: Field)
    requires name != "" && forall i :: 0 <= i < |name| ==> ' ' <= name[i] <= '~'
  {
    [LF] + Ascii(name)
  }

  predicate MatchAt(h: bytes, needle: bytes, p: nat) {
    p + |needle| <= |h| && Lower(h[p..p + |needle|]) == Lower(needle)
  }

  /** strcasestr from position i on: the first match that ignores case. */
  function Find(h: bytes, needle: bytes, i: nat): (r: Option<nat>)
    ensures r.Some? ==> i <= r.value && MatchAt(h, needle, r.value)
    ensures r.Some? ==> forall p :: i <= p < r.value ==> !MatchAt(h, needle, p)
    ensures r.None? ==> forall p :: i <= p ==> !MatchAt(h, needle, p)
    decreases |h| - i
  {
    if i > |h| then None
    else if MatchAt(h, needle, i) then Some(i)
    else Find(h, needle, i + 1)
  }

  /** What follows a match, up to the end of its line. */
  function ValueBehind(request: bytes, found: Option<nat>, length: nat): Option<bytes>
    requires found.Some? ==> found.value + length <= |request|
  {
    match found
    case None => None
    case Some(p) =>
      var start := p + length;
      Some(request[start..start + Span(request, start, {CR, LF})])
  }

  /** The value of a request field: the rest of the line on which it first occurs. */
  function FieldValue(request: bytes, field: bytes): Option<bytes> {
    ValueBehind(request, Find(Str(request), field, 0), |field|)
  }

  /** parse_field */
  method ParseField(request: bytes, field: Field) returns (value: Option<bytes>)
    ensures value == FieldValue(request, field)
  {
    var pos := Find(Str(request), field, 0);
    if pos.None? {
      return None;
    }
    var bound1 := pos.value + |field|;
    var bound2 := bound1;
    while bound2 < |request| && request[bound2] != CR && request[bound2] != LF
      invariant bound1 <= bound2 <= |request|
      invariant Span(request, bound1, {CR, LF}) == bound2 - bound1 + Span(request, bound2, {CR, LF})
    {
      bound2 := bound2 + 1;
    }
    value := Some(request[bound1..bound2]);
  }

  // ------------------------------------------------------------- completeness

  predicate EndsWith(r: bytes, tail: bytes) {
    |r| > |tail| && r[|r| - |tail|..] == tail
  }

  /** The test poll_recv_request makes after every chunk. */
  predicate Complete(r: bytes) {
    EndsWith(r, [LF, LF]) || EndsWith(r, [CR, LF, CR, LF])
  }

  lemma CompleteEndsLine(r: bytes)
    requires Complete(r)
    ensures r != [] && r[|r| - 1] == LF
  {
    if EndsWith(r, [LF, LF]) {
      assert r[|r| - 1] == r[|r| - 2..][1];
    } else {
      assert r[|r| - 1] == r[|r| - 4..][3];
    }
  }

  // ------------------------------------------------------------- the request

  datatype Parsed = Parsed(
    method_: bytes,
    url: bytes,
    connClose: bool,
    referer: Option<bytes>,
    userAgent: Option<bytes>,
    authorization: Option<bytes>,
    forwardedFor: Option<bytes>,
    range: Option<bytes>)

  datatype Config = Config(wantKeepalive: bool, trustedIp: bool)

  const CONNECTION: Field := Named("Connection: ")
  const REFERER: Field := Named("Referer: ")
  const USER_AGENT: Field := Named("User-Agent: ")
  const AUTHORIZATION: Field := Named("Authorization: ")
  const FORWARDED_FOR: Field := Named("X-Forwarded-For: ")
  const RANGE: Field := Named("Range: bytes=")

  const HTTP_11 := Ascii("HTTP/1.1")
  const HTTP_10 := Ascii("HTTP/1.0")
  const CLOSE := Ascii("close")
  const KEEP_ALIVE := Ascii("keep-alive")

  /** strcasecmp on a freshly split string. */
  predicate SameText(a: bytes, word: bytes) {
    Lower(Str(a)) == Lower(word)
  }

  function SpacesFrom(s: bytes, i: nat): (j: nat)
    requires i <= |s|
    ensures i <= j <= |s| && (j < |s| ==> s[j] != SPACE)
    ensures forall k :: i <= k < j ==> s[k] == SPACE
    decreases |s| - i
  {
    if i < |s| && s[i] == SPACE then SpacesFrom(s, i + 1) else i
  }

  /** Where the word that starts at i ends; its first character is never examined. */
  function WordEnd(s: bytes, i: nat): nat
    requires i < |s|
  {
    i + 1 + Span(s, i + 1, {SPACE, CR, LF})
  }

  /** The two versions the server speaks, and whether they close by default. */
  function KnownVersion(version: bytes): Option<bool> {
    if SameText(version, HTTP_11) then Some(false)
    else if SameText(version, HTTP_10) then Some(true)
    else None
  }

  /** Whether the connection closes, from the version token; None is a bad request line. */
  function VersionClose(request: bytes, urlEnd: nat): Option<bool>
    requires urlEnd <= |request|
  {
    if CharAt(request, urlEnd) != SPACE then Some(true)
    else
      var start := SpacesFrom(request, urlEnd);
      if start == |request| then None
      else
        var end := WordEnd(request, start);
        var version := request[start..end];
        if CharAt(request, end) != CR && CharAt(request, end) != LF then None
        else KnownVersion(version)
  }

  /** The Connection field overrides the version, and the flag overrides both. */
  predicate CloseDecision(byVersion: bool, connection: Option<bytes>, wantKeepalive: bool) {
    !wantKeepalive ||
    (if connection.Some? && SameText(connection.value, CLOSE) then true
     else if connection.Some? && SameText(connection.value, KEEP_ALIVE) then false
     else byVersion)
  }

  function Parse(request: bytes, cfg: Config): Option<Parsed> {
    var methodEnd := Span(request, 0, {SPACE});
    var urlStart := SpacesFrom(request, methodEnd);
    if urlStart == |request| then None
    else
      var urlEnd := WordEnd(request, urlStart);
      if NUL in request[urlStart + 1..urlEnd] then None
      else match VersionClose(request, urlEnd)
        case None => None
        case Some(byVersion) =>
          Some(Assemble(request, cfg, Upper(request[..methodEnd]), request[urlStart..urlEnd], byVersion))
  }

  /** Everything the fields contribute, once the first line is understood. */
  function Assemble(request: bytes, cfg: Config, method_: bytes, url: bytes, byVersion: bool): Parsed {
    Parsed(
      method_,
      url,
      CloseDecision(byVersion, FieldValue(request, CONNECTION), cfg.wantKeepalive),
      FieldValue(request, REFERER),
      FieldValue(request, USER_AGENT),
      FieldValue(request, AUTHORIZATION),
      if cfg.trustedIp then FieldValue(request, FORWARDED_FOR) else None,
      FieldValue(request, RANGE))
  }

  method SkipSpaces(s: bytes, from: nat) returns (i: nat)
    requires from <= |s|
    ensures i == SpacesFrom(s, from)
  {
    i := from;
    while i < |s| && s[i] == SPACE
      invariant from <= i <= |s| && SpacesFrom(s, from) == SpacesFrom(s, i)
    {
      i := i + 1;
    }
  }

  /** Finds the end of a word, and whether a NUL lies behind its first character. */
  method SkipWord(s: bytes, from: nat) returns (i: nat, nul: bool)
    requires from < |s|
    ensures !nul ==> i == WordEnd(s, from)
    ensures nul <==> NUL in s[from + 1..WordEnd(s, from)]
  {
    i := from + 1;
    while i < |s| && s[i] != SPACE && s[i] != CR && s[i] != LF
      invariant from + 1 <= i <= |s|
      invariant Span(s, from + 1, {SPACE, CR, LF}) == i - from - 1 + Span(s, i, {SPACE, CR, LF})
      invariant NUL !in s[from + 1..i]
    {
      if s[i] == NUL {
        assert s[from + 1..WordEnd(s, from)][i - from - 1] == NUL;
        return i, true;
      }
      assert s[from + 1..i + 1] == s[from + 1..i] + [s[i]];
      i := i + 1;
    }
    nul := false;
  }

  method SkipVersion(s: bytes, from: nat) returns (i: nat)
    requires from < |s|
    ensures i == WordEnd(s, from)
  {
    i := from + 1;
    while i < |s| && s[i] != SPACE && s[i] != CR && s[i] != LF
      invariant from + 1 <= i <= |s|
      invariant Span(s, from + 1, {SPACE, CR, LF}) == i - from - 1 + Span(s, i, {SPACE, CR, LF})
    {
      i := i + 1;
    }
  }

  /** The protocol part of parse_request. */
  method ParseVersion(request: bytes, urlEnd: nat) returns (connClose: Option<bool>)
    requires urlEnd <= |request| && request != [] && request[|request| - 1] == LF
    ensures connClose == VersionClose(request, urlEnd)
  {
    connClose := Some(true);
    if CharAt(request, urlEnd) == SPACE {
      var bound1 := SkipSpaces(request, urlEnd);
      assert bound1 < |request|;
      var bound2 := SkipVersion(request, bound1);
      if CharAt(request, bound2) != CR && CharAt(request, bound2) != LF {
        return None;
      }
      var proto := request[bound1..bound2];
      if SameText(proto, HTTP_11) {
        connClose := Some(false);
      } else if !SameText(proto, HTTP_10) {
        return None;
      }
    }
  }

  /** The Connection field and the command-line flag. */
  method DecideClose(request: bytes, byVersion: bool, wantKeepalive: bool) returns (connClose: bool)
    ensures connClose == CloseDecision(byVersion, FieldValue(request, CONNECTION), wantKeepalive)
  {
    connClose := byVersion;
    var tmp := ParseField(request, CONNECTION);
    if tmp.Some? {
      if SameText(tmp.value, CLOSE) {
        connClose := true;
      } else if SameText(tmp.value, KEEP_ALIVE) {
        connClose := false;
      }
    }
    if !wantKeepalive {
      connClose := true;
    }
  }

  method SkipMethod(request: bytes) returns (i: nat)
    ensures i == Span(request, 0, {SPACE})
  {
    i := 0;
    while i < |request| && request[i] != SPACE
      invariant i <= |request|
      invariant Span(request, 0, {SPACE}) == i + Span(request, i, {SPACE})
    {
      i := i + 1;
    }
  }

  /** parse_request on a request that ends its last line, as the completeness test ensures. */
  method ParseRequest(request: bytes, cfg: Config) returns (parsed: Option<Parsed>)
    requires request != [] && request[|request| - 1] == LF
    ensures parsed == Parse(request, cfg)
  {
    hide FieldValue, CloseDecision, VersionClose, Upper, Span, SpacesFrom;
    var bound1 := SkipMethod(request);
    var method_ := Upper(request[..bound1]);
    bound1 := SkipSpaces(request, bound1);
    if bound1 == |request| {
      return None;
    }
    var bound2, nul := SkipWord(request, bound1);
    if nul {
      return None;
    }
    var url := request[bound1..bound2];
    var byVersion := ParseVersion(request, bound2);
    if byVersion.None? {
      return None;
    }
    var connClose := DecideClose(request, byVersion.value, cfg.wantKeepalive);
    var referer := ParseField(request, REFERER);
    var userAgent := ParseField(request, USER_AGENT);
    var authorization := ParseField(request, AUTHORIZATION);
    var forwardedFor := None;
    if cfg.trustedIp {
      forwardedFor := ParseField(request, FORWARDED_FOR);
    }
    var range := ParseField(request, RANGE);
    parsed := Some(Parsed(method_, url, connClose, referer, userAgent, authorization, forwardedFor, range));
  }
}
