/** Percent-encoding, absolute-form stripping, and the way from a request URL to a path. */
module UrlCodec {
  import opened Bytes
  import opened UrlPath
  import SafeUrl
  import SafeUrlOld

  // ----------------------------------------------------------------- decoding

  function HexValue(c: byte): (v: int)
    requires IsXDigit(c)
    ensures 0 <= v < 16
  {
    if 65 <= c <= 70 then c - 65 + 10
    else if 97 <= c <= 102 then c - 97 + 10
    else c - 48
  }

  function HexDigit(v: int): (c: byte)
    requires 0 <= v < 16
    ensures IsXDigit(c) && HexValue(c) == v
  {
    if v < 10 then 48 + v else 65 + v - 10
  }

  /** s starts with a percent sign and two hexadecimal digits. */
  predicate Escaped(s: bytes) {
    |s| > 2 && s[0] == PERCENT && IsXDigit(s[1]) && IsXDigit(s[2])
  }

  function Decode(s: bytes): (r: bytes)
    ensures |r| <= |s|
    decreases |s|
  {
    if s == [] then []
    else if Escaped(s) then [HexValue(s[1]) * 16 + HexValue(s[2])] + Decode(s[3..])
    else [s[0]] + Decode(s[1..])
  }

  lemma DecodeFrom(s: bytes, i: nat)
    requires i < |s|
    ensures Decode(s[i..]) ==
            if i + 2 < |s| && s[i] == PERCENT && IsXDigit(s[i + 1]) && IsXDigit(s[i + 2])
            then [HexValue(s[i + 1]) * 16 + HexValue(s[i + 2])] + Decode(s[i + 3..])
            else [s[i]] + Decode(s[i + 1..])
  {
    var t := s[i..];
    assert t[1..] == s[i + 1..];
    if |t| > 2 {
      assert t[3..] == s[i + 3..];
    }
  }

  lemma DecodeNothing()
    ensures Decode([]) == []
  {
  }

  /** urldecode: the result may hold a NUL, decoded from %00, before its terminator. */
  method UrlDecode(url: bytes) returns (out: array<byte>)
    ensures fresh(out) && out.Length == |url| + 1
    ensures out[..|Decode(url)|] == Decode(url) && out[|Decode(url)|] == NUL
  {
    hide Decode, HexValue, IsXDigit;
    out := new byte[|url| + 1];
    var i: nat, pos: nat := 0, 0;
    assert url[0..] == url && out[..0] + Decode(url) == Decode(url);
    while i < |url|
      invariant pos <= i <= |url|
      invariant out[..pos] + Decode(url[i..]) == Decode(url)
    {
      ghost var done := out[..pos];
      DecodeFrom(url, i);
      if url[i] == PERCENT && i + 2 < |url| && IsXDigit(url[i + 1]) && IsXDigit(url[i + 2]) {
        pos := SafeUrl.Put(out, pos, HexValue(url[i + 1]) * 16 + HexValue(url[i + 2]));
        i := i + 2;
      } else {
        pos := SafeUrl.Put(out, pos, url[i]);
      }
      i := i + 1;
      Associate(done, [out[pos - 1]], Decode(url[i..]));
    }
    assert out[..pos] + [] == Decode(url) by {
      assert url[i..] == [];
      DecodeNothing();
    }
    out[pos] := NUL;
  }

  // ----------------------------------------------------------------- encoding

  predicate NeedsEncoding(c: byte) {
    !(97 <= c <= 122 || 65 <= c <= 90 || IsDigit(c)
      || c == HYPHEN || c == DOT || c == 95 || c == 126 || c == SLASH)
  }

  function EncodeByte(c: byte): (r: bytes)
    ensures 1 <= |r| <= 3
  {
    if NeedsEncoding(c) then [PERCENT, HexDigit(c / 16), HexDigit(c % 16)] else [c]
  }

  function Encode(s: bytes): bytes {
    if s == [] then [] else Encode(s[..|s| - 1]) + EncodeByte(s[|s| - 1])
  }

  /** urlencode: the caller provides the room. */
  method UrlEncode(src: bytes, dest: array<byte>)
    requires NUL !in src && |Encode(src)| < dest.Length
    modifies dest
    ensures dest[..|Encode(src)|] == Encode(src) && dest[|Encode(src)|] == NUL
  {
    hide Encode;
    var i: nat, j: nat := 0, 0;
    EncodeNothing();
    assert src[..0] == [];
    while i < |src|
      invariant i <= |src| && j == |Encode(src[..i])|
      invariant |Encode(src[..i])| <= |Encode(src)|
      invariant dest[..j] == Encode(src[..i])
    {
      ghost var done := dest[..j];
      EncodeGrows(src, i + 1);
      EncodeStep(src, i);
      if NeedsEncoding(src[i]) {
        dest[j] := PERCENT;
        dest[j + 1] := HexDigit(src[i] / 16);
        dest[j + 2] := HexDigit(src[i] % 16);
        j := j + 3;
      } else {
        dest[j] := src[i];
        j := j + 1;
      }
      assert dest[..j] == done + EncodeByte(src[i]);
      i := i + 1;
    }
    assert src[..i] == src;
    dest[j] := NUL;
  }

  lemma EncodeNothing()
    ensures Encode([]) == []
  {
  }

  lemma EncodeStep(s: bytes, i: nat)
    requires i < |s|
    ensures Encode(s[..i + 1]) == Encode(s[..i]) + EncodeByte(s[i])
  {
    assert s[..i + 1][..i] == s[..i];
  }

  lemma {:induction false} EncodeGrows(s: bytes, i: nat)
    requires i <= |s|
    ensures |Encode(s[..i])| <= |Encode(s)|
    decreases |s| - i
  {
    if i < |s| {
      assert s[..i + 1][..i] == s[..i];
      EncodeGrows(s, i + 1);
    } else {
      assert s[..i] == s;
    }
  }

  /** A name of at most n bytes fits, encoded, in 3n bytes and a terminator. */
  lemma {:induction false} EncodeFits(s: bytes)
    ensures |s| <= |Encode(s)| <= 3 * |s|
    ensures NUL !in s ==> NUL !in Encode(s)
    ensures QUESTION !in Encode(s)
  {
    if s != [] {
      EncodeFits(s[..|s| - 1]);
      assert QUESTION !in EncodeByte(s[|s| - 1]);
    }
  }

  /** Encoding is a homomorphism, so a link relative to d is the encoding of the whole path. */
  lemma {:induction false} EncodeConcat(a: bytes, b: bytes)
    ensures Encode(a + b) == Encode(a) + Encode(b)
  {
    hide EncodeByte;
    if b == [] {
      assert a + b == a;
      assert Encode(a) + [] == Encode(a);
    } else {
      var n := |b| - 1;
      var all := a + b;
      assert all[..|all| - 1] == a + b[..n] && all[|all| - 1] == b[n];
      EncodeConcat(a, b[..n]);
      Associate(Encode(a), Encode(b[..n]), EncodeByte(b[n]));
    }
  }

  lemma DecodeByte(c: byte, rest: bytes)
    ensures Decode(EncodeByte(c) + rest) == [c] + Decode(rest)
  {
    var s := EncodeByte(c) + rest;
    if NeedsEncoding(c) {
      assert s[3..] == rest;
      assert Escaped(s);
      assert HexValue(s[1]) * 16 + HexValue(s[2]) == c;
    } else {
      assert s[1..] == rest;
    }
  }

  lemma {:induction false} DecodeEncodeWith(s: bytes, rest: bytes)
    ensures Decode(Encode(s) + rest) == s + Decode(rest)
    decreases |s|
  {
    if s == [] {
      assert Encode(s) + rest == rest;
    } else {
      var init, c := s[..|s| - 1], s[|s| - 1];
      calc {
        Decode(Encode(s) + rest);
        { assert Encode(s) + rest == Encode(init) + (EncodeByte(c) + rest); }
        Decode(Encode(init) + (EncodeByte(c) + rest));
        { DecodeEncodeWith(init, EncodeByte(c) + rest); }
        init + Decode(EncodeByte(c) + rest);
        { DecodeByte(c, rest); }
        init + ([c] + Decode(rest));
        { assert s == init + [c]; }
        s + Decode(rest);
      }
    }
  }

  /** urldecode undoes urlencode on every byte string. */
  lemma DecodeEncode(s: bytes)
    ensures Decode(Encode(s)) == s
  {
    DecodeEncodeWith(s, []);
    assert Encode(s) + [] == Encode(s);
  }

  // ------------------------------------------- percent-encoding, in the RFC's terms

  /** How a byte is written: as it is, or escaped, each hexadecimal digit in either case. */
  datatype Style = Plain | Escape(highCapital: bool, lowCapital: bool)

  function Digit(v: int, capital: bool): byte
    requires 0 <= v < 16
  {
    if capital then HEX_CAPITALS[v] else HEX_SMALLS[v]
  }

  function WriteByte(c: byte, style: Style): bytes {
    match style
    case Plain => [c]
    case Escape(high, low) => [PERCENT, Digit(c / 16, high), Digit(c % 16, low)]
  }

  function Write(s: bytes, styles: seq<Style>): bytes
    requires |s| == |styles|
  {
    if s == [] then [] else WriteByte(s[0], styles[0]) + Write(s[1..], styles[1..])
  }

  lemma DigitValue(v: int, capital: bool)
    requires 0 <= v < 16
    ensures IsXDigit(Digit(v, capital)) && HexValue(Digit(v, capital)) == v
  {
    HexDigits(v);
  }

  /** Whatever is escaped, and however, urldecode recovers it; only a percent sign must be. */
  lemma {:induction false} DecodeWritten(s: bytes, styles: seq<Style>)
    requires |s| == |styles|
    requires forall i :: 0 <= i < |s| && s[i] == PERCENT ==> styles[i].Escape?
    ensures Decode(Write(s, styles)) == s
  {
    if s != [] {
      DecodeWritten(s[1..], styles[1..]);
      DecodeOne(s[0], styles[0], Write(s[1..], styles[1..]));
      assert s == [s[0]] + s[1..];
    }
  }

  lemma DecodeOne(c: byte, style: Style, rest: bytes)
    requires c == PERCENT ==> style.Escape?
    ensures Decode(WriteByte(c, style) + rest) == [c] + Decode(rest)
  {
    hide HexValue, IsXDigit, Digit;
    var t := WriteByte(c, style) + rest;
    match style
    case Plain =>
      assert t[1..] == rest;
    case Escape(high, low) =>
      DigitValue(c / 16, high);
      DigitValue(c % 16, low);
      assert t[3..] == rest;
  }

  /** A percent sign without two hexadecimal digits behind it stays. */
  lemma StrayPercent(rest: bytes)
    requires |rest| >= 2 ==> !((rest[0] in HEX_CAPITALS || rest[0] in HEX_SMALLS) &&
                               (rest[1] in HEX_CAPITALS || rest[1] in HEX_SMALLS))
    ensures Decode([PERCENT] + rest) == [PERCENT] + Decode(rest)
  {
    var t := [PERCENT] + rest;
    assert t[1..] == rest;
    if |rest| >= 2 {
      HexMeans(rest[0]);
      HexMeans(rest[1]);
    }
  }

  /** Letters, digits and five marks. */
  predicate Unreserved(c: byte) {
    c in CAPITALS || c in SMALLS || c in DIGITS || c in Ascii("-._~/")
  }

  function ListingStyles(s: bytes): seq<Style> {
    if s == [] then []
    else [if Unreserved(s[0]) then Plain else Escape(true, true)] + ListingStyles(s[1..])
  }

  lemma NeedsEncodingMeans(c: byte)
    ensures NeedsEncoding(c) <==> !Unreserved(c)
  {
    hide Ascii;
    InCapitals(c);
    InSmalls(c);
    InDigits(c);
    Marks(c);
  }

  lemma Marks(c: byte)
    ensures c in Ascii("-._~/") <==> c == HYPHEN || c == DOT || c == 95 || c == 126 || c == SLASH
  {
    var marks := Ascii("-._~/");
    assert marks[0] == HYPHEN && marks[1] == DOT && marks[2] == 95 && marks[3] == 126 && marks[4] == SLASH;
  }

  lemma EncodeByteIs(c: byte)
    ensures EncodeByte(c) == WriteByte(c, if Unreserved(c) then Plain else Escape(true, true))
  {
    hide Unreserved, NeedsEncoding, HexValue;
    NeedsEncodingMeans(c);
    HexDigits(c / 16);
    HexDigits(c % 16);
  }

  /** What urlencode writes: escapes in capitals for everything that is not unreserved, or a slash. */
  lemma {:induction false} EncodeIsWritten(s: bytes)
    ensures |ListingStyles(s)| == |s| && Encode(s) == Write(s, ListingStyles(s))
    decreases |s|
  {
    hide Unreserved, WriteByte;
    if s != [] {
      EncodeIsWritten(s[1..]);
      EncodeByteIs(s[0]);
      EncodeConcat([s[0]], s[1..]);
      assert [s[0]] + s[1..] == s;
      assert [s[0]][..0] == [] && Encode([]) == [] && Encode([s[0]]) == [] + EncodeByte(s[0]);
      assert ListingStyles(s)[1..] == ListingStyles(s[1..]);
    }
  }

  // ------------------------------------------------------------ absolute form

  const HTTP: bytes := [104, 116, 116, 112, 58, 47, 47]
  const HTTPS: bytes := [104, 116, 116, 112, 115, 58, 47, 47]

  /** The scheme of an absolute-form URL, as far as the authority begins. */
  function SchemeLength(s: bytes): (n: nat)
    ensures n <= |s|
  {
    if HTTP <= s then |HTTP| else if HTTPS <= s then |HTTPS| else 0
  }

  /** "http://host:port/foo" becomes "/foo"; anything else stays. */
  function Normalize(s: bytes): bytes {
    var pos := SchemeLength(s);
    if pos > 0 then s[SlashAt(s, pos)..] else s
  }

  /** strncmp with a literal without NUL. */
  method StartsWith(url: array<byte>, word: bytes) returns (yes: bool)
    requires NUL in url[..] && NUL !in word
    ensures yes == (word <= Str(url[..]))
  {
    ghost var s := Str(url[..]);
    BufferChars(url[..]);
    var k := 0;
    while k < |word|
      invariant k <= |word| && k <= |s|
      invariant word[..k] == s[..k]
    {
      assert word[k] in word;
      if url[k] != word[k] {
        assert k < |s| ==> s[k] != word[k];
        return false;
      }
      k := k + 1;
      assert word[..k] == word[..k - 1] + [word[k - 1]];
      assert s[..k] == s[..k - 1] + [s[k - 1]];
    }
    assert word[..k] == word;
    yes := true;
  }

  /** Where the authority ends. */
  method SkipHost(url: array<byte>, start: nat) returns (pos: nat)
    requires NUL in url[..] && start <= |Str(url[..])|
    ensures pos == SlashAt(Str(url[..]), start)
  {
    ghost var s := Str(url[..]);
    BufferChars(url[..]);
    pos := start;
    while url[pos] != NUL && url[pos] != SLASH
      invariant pos <= |s|
      invariant SlashAt(s, pos) == SlashAt(s, start)
      decreases |s| - pos
    {
      pos := pos + 1;
    }
  }

  /** normalize_path, shifting the path down over scheme and host. */
  method NormalizePath(url: array<byte>)
    requires NUL in url[..]
    modifies url
    ensures NUL in url[..] && Str(url[..]) == Normalize(Str(old(url[..])))
  {
    ghost var s := Str(url[..]);
    BufferChars(url[..]);
    var pos: nat := 0;
    var isHttp := StartsWith(url, HTTP);
    if isHttp {
      pos := pos + 7;
    } else {
      var isHttps := StartsWith(url, HTTPS);
      if isHttps {
        pos := pos + 8;
      }
    }
    assert pos == SchemeLength(s);
    if pos > 0 {
      pos := SkipHost(url, pos);
      var urllen := SafeUrlOld.StrLen(url);
      SafeUrlOld.MemMove(url, 0, pos, urllen + 1 - pos);
      assert url[0..urllen + 1 - pos] == old(url[..])[pos..urllen + 1];
      assert url[..urllen - pos] == s[pos..];
      assert url[..][urllen - pos] == NUL;
      StrIs(url[..], s[pos..]);
    }
  }

  // ---------------------------------------------------- from URL to resolved path

  /** The URL without its query. */
  function StripQuery(url: bytes): (r: bytes)
    ensures r <= url && QUESTION !in r
  {
    url[..Span(url, 0, {QUESTION})]
  }

  /** The path process_get serves for a request URL; None is answered with 400. */
  function Locate(url: bytes): (path: Option<bytes>)
    ensures path.Some? ==> path.value != []
  {
    LocateWhole(StripQuery(url))
  }

  /** The path a URL names when nothing is stripped from it, as redirect_https reads it. */
  function LocateWhole(url: bytes): (path: Option<bytes>)
    ensures path.Some? ==> path.value != []
  {
    Resolve(Normalize(Str(Decode(url))))
  }

  /** urldecode, normalize_path and make_safe_url in a row. */
  method ResolveWhole(url: bytes) returns (path: Option<bytes>)
    ensures path == LocateWhole(url)
  {
    var decoded := UrlDecode(url);
    ghost var d := Decode(url);
    assert decoded[..][|d|] == NUL;
    StrOfTerminated(decoded[..], d);
    NormalizePath(decoded);
    var ok := SafeUrl.MakeSafeUrl(decoded);
    path := if ok then Some(Str(decoded[..])) else None;
  }

  /** The first half of process_get; None stands for the 400 reply. */
  method ResolveRequest(url: bytes) returns (path: Option<bytes>)
    ensures path == Locate(url)
  {
    var end: nat := 0;
    while end < |url| && url[end] != QUESTION
      invariant end <= |url|
      invariant Span(url, 0, {QUESTION}) == end + Span(url, end, {QUESTION})
    {
      end := end + 1;
    }
    path := ResolveWhole(url[..end]);
  }

  lemma StrOfTerminated(b: bytes, d: bytes)
    requires |d| < |b| && b[..|d|] == d && b[|d|] == NUL
    ensures Str(b) == Str(d)
  {
    var n := |Str(d)|;
    assert n < |d| ==> b[n] == d[n];
    assert b[..n] == d[..n];
    StrIs(b, Str(d));
  }

  /**
   For every URL byte string, what gets appended to the root starts with a slash
   and has no empty, "." or ".." segment except one trailing slash.
   */
  lemma LocateConfined(url: bytes)
    requires Locate(url).Some?
    ensures Canonical(Locate(url).value)
    ensures Locate(url).value != [] && NUL !in Locate(url).value
  {
    LocateNoNul(StripQuery(url));
    ResolveConfined(Normalize(Str(Decode(StripQuery(url)))));
  }

  lemma LocateNoNul(url: bytes)
    ensures LocateWhole(url).Some? ==> NUL !in LocateWhole(url).value
  {
    var s := Normalize(Str(Decode(url)));
    if s != [] && s[0] == SLASH {
      SafeUrl.RewriteResolves(s);
      SafeUrl.RewriteNoNul(s, 0, []);
    }
  }

  // ---------------------------------------------------------------- dot files

  /** Some segment of the path is hidden. */
  predicate HasDotFile(t: bytes)
    requires t != []
  {
    exists g :: g in Split(t[1..]) && g != [] && g[0] == DOT
  }

  predicate DotAfterSlash(t: bytes, i: nat) {
    i + 1 < |t| && t[i] == SLASH && t[i + 1] == DOT
  }

  lemma {:induction false} DotSegment(t: bytes)
    requires t != [] && t[0] == SLASH
    ensures HasDotFile(t) <==> exists i: nat :: DotAfterSlash(t, i)
    decreases |t|
  {
    var j := SlashAt(t, 1);
    var g := t[1..j];
    if j == |t| {
      assert t[1..] == g;
      SplitPlain(g);
      assert g != [] ==> g[0] == t[1];
      assert DotAfterSlash(t, 0) <==> (g != [] && g[0] == DOT);
      assert forall i: nat :: 0 < i < |t| ==> t[i] == g[i - 1] && g[i - 1] in g;
      assert g in Split(t[1..]);
    } else {
      var rest := t[j..];
      assert t[1..] == g + [SLASH] + rest[1..];
      SplitFirst(g, rest[1..]);
      DotSegment(rest);
      assert g != [] ==> g[0] == t[1];
      assert g == [] ==> j == 1;
      assert forall i: nat :: 0 < i < j ==> t[i] == g[i - 1] && g[i - 1] in g;
      DotHere(t, j);
      assert g in [g] + Split(rest[1..]);
      assert forall x :: x in Split(t[1..]) <==> x == g || x in Split(rest[1..]);
    }
  }

  lemma DotHere(t: bytes, j: nat)
    requires j < |t| && (forall i: nat :: 0 < i < j ==> t[i] != SLASH)
    ensures (exists i: nat :: DotAfterSlash(t, i)) <==>
            DotAfterSlash(t, 0) || exists i: nat :: DotAfterSlash(t[j..], i)
  {
    if i: nat :| DotAfterSlash(t, i) && i > 0 {
      assert DotAfterSlash(t[j..], i - j);
    }
    if i: nat :| DotAfterSlash(t[j..], i) {
      assert DotAfterSlash(t, i + j);
    }
  }

  /** The --hide-dotfiles loop: it answers yes exactly for a path with a hidden segment. */
  method HidesDotFile(t: bytes) returns (hidden: bool)
    requires t != [] && t[0] == SLASH
    ensures hidden == HasDotFile(t)
  {
    DotSegment(t);
    var i: nat := 0;
    while i < |t| - 1
      invariant i <= |t| - 1
      invariant forall k: nat :: k < i ==> !DotAfterSlash(t, k)
    {
      if t[i] == SLASH && t[i + 1] == DOT {
        assert DotAfterSlash(t, i);
        return true;
      }
      i := i + 1;
    }
    hidden := false;
  }

  // ------------------------------------------------------------ listing links

  /** Naming an entry behind a directory's slash replaces its empty last segment. */
  lemma ChildSplit(d: bytes, name: Segment)
    requires d != [] && d[0] == SLASH && EndsInSlash(d) && SLASH !in name
    ensures var r := Split(d[1..]); var n := |r| - 1; r[n] == [] && Split((d + name)[1..]) == r[..n] + [name]
  {
    hide Split;
    SplitPlain(name);
    SplitPlain([]);
    if |d| == 1 {
      assert d[1..] == [] && (d + name)[1..] == name;
    } else {
      var inner := d[1..|d| - 1];
      assert d[1..] == inner + [SLASH] && (d + name)[1..] == inner + [SLASH] + name;
      SplitSlash(inner);
      SplitJoin(inner, name);
    }
  }

  lemma CanonicalChild(d: bytes, name: Segment)
    requires Canonical(d) && EndsInSlash(d) && Ordinary(name) && SLASH !in name
    ensures Canonical(d + name) && Canonical(d + name + [SLASH])
  {
    hide Split;
    ChildSplit(d, name);
    SplitSlash((d + name)[1..]);
    assert (d + name + [SLASH])[1..] == (d + name)[1..] + [SLASH];
  }

  /** An entry that is not hidden, of a directory that is not hidden, is not hidden. */
  lemma ChildShown(d: bytes, name: Segment)
    requires Canonical(d) && EndsInSlash(d) && name != [] && SLASH !in name
    ensures HasDotFile(d + name) <==> HasDotFile(d) || name[0] == DOT
  {
    hide Split;
    ChildSplit(d, name);
    var r := Split(d[1..]);
    var n := |r| - 1;
    assert r == r[..n] + [[]];
    assert forall g :: g in r[..n] + [name] <==> g in r[..n] || g == name;
    assert forall g :: g in r <==> g in r[..n] || g == [];
    if name[0] == DOT {
      assert name in Split((d + name)[1..]);
    }
  }

  lemma CanonicalLocates(t: bytes)
    requires Canonical(t) && NUL !in t
    ensures Locate(Encode(t)) == Some(t)
  {
    hide Encode, Decode, Canonical, Resolve, StripQuery, Normalize;
    EncodeFits(t);
    StripNothing(Encode(t));
    DecodeEncode(t);
    StrWhole(t);
    CanonicalIsFixed(t);
    CanonicalStarts(t);
    NormalizeNothing(t);
  }

  lemma StripNothing(url: bytes)
    requires QUESTION !in url
    ensures StripQuery(url) == url
  {
    assert forall k :: 0 <= k < |url| ==> url[k] in url;
    SpanIs(url, 0, |url|, {QUESTION});
    assert url[..|url|] == url;
  }

  lemma NormalizeNothing(s: bytes)
    requires s != [] && s[0] == SLASH
    ensures Normalize(s) == s
  {
  }

  lemma CanonicalStarts(t: bytes)
    requires Canonical(t)
    ensures t != [] && t[0] == SLASH
  {
  }

  /**
   Following a listing link leads to the listed entry, be it a file or, with a
   slash behind the link, a directory.
   */
  lemma LinkResolvesToEntry(d: bytes, name: Segment)
    requires Canonical(d) && EndsInSlash(d) && NUL !in d
    requires Ordinary(name) && SLASH !in name && NUL !in name
    ensures Locate(Encode(d) + Encode(name)) == Some(d + name)
    ensures Locate(Encode(d) + Encode(name) + [SLASH]) == Some(d + name + [SLASH])
    ensures |Encode(name)| + 1 <= 3 * |name| + 1
  {
    EncodeFits(name);
    CanonicalChild(d, name);
    EncodeConcat(d, name);
    EncodeConcat(d + name, [SLASH]);
    assert [SLASH][..0] == [];
    assert Encode([SLASH]) == [SLASH];
    CanonicalLocates(d + name);
    CanonicalLocates(d + name + [SLASH]);
  }

  // ------------------------------------------- what does not change a resolved path

  function Scheme(secure: bool): bytes {
    if secure then Ascii("https://") else Ascii("http://")
  }

  lemma SchemeIs(secure: bool)
    ensures Scheme(secure) == if secure then HTTPS else HTTP
  {
    var http, https := Ascii("http://"), Ascii("https://");
    assert http == HTTP && https == HTTPS;
  }

  /** Of an absolute-form URL the path remains, whatever scheme and authority; nothing else changes. */
  lemma NormalizeMeans(secure: bool, host: bytes, path: bytes, other: bytes)
    requires SLASH !in host && (path == [] || path[0] == SLASH)
    requires !(Scheme(false) <= other) && !(Scheme(true) <= other)
    ensures Normalize(Scheme(secure) + host + path) == path
    ensures Normalize(other) == other
  {
    hide SlashAt, Scheme;
    SchemeIs(secure);
    SchemeIs(!secure);
    var scheme := Scheme(secure);
    var s := scheme + host + path;
    var n := |scheme|;
    assert s[..n] == scheme && s[n..] == host + path;
    assert s[4] == if secure then 115 else 58;
    assert SchemeLength(s) == n by {
      assert scheme <= s;
    }
    assert forall k :: n <= k < n + |host| ==> s[k] == host[k - n] && s[k] in host;
    SlashAtIs(s, n, n + |host|);
    assert s[n + |host|..] == path;
  }

  /** A query does not change the path. */
  lemma QueryIgnored(url: bytes, query: bytes)
    requires QUESTION !in url
    ensures Locate(url + [QUESTION] + query) == Locate(url)
  {
    hide LocateWhole;
    var u := url + [QUESTION] + query;
    StripNothing(url);
    assert forall k :: 0 <= k < |url| ==> u[k] == url[k] && u[k] in url;
    SpanIs(u, 0, |url|, {QUESTION});
    assert u[..|url|] == url;
  }

  /** Nor do scheme and authority, in the absolute form of a proxy's request. */
  lemma AbsoluteLocates(secure: bool, host: bytes, url: bytes)
    requires forall c :: c in host ==> c !in {SLASH, PERCENT, QUESTION, NUL}
    requires url != [] && url[0] == SLASH
    ensures Locate(Scheme(secure) + host + url) == Locate(url)
  {
    hide Resolve, Normalize, Decode, Str, StripQuery;
    var front := Scheme(secure) + host;
    SchemePlain(secure, host);
    assert SLASH !in host;
    StripBehind(front, url);
    var path := StripQuery(url);
    DecodeBehind(front, path);
    StartsWithSlash(url);
    StrBehind(front, Decode(path));
    var p := Str(Decode(path));
    Associate(Scheme(secure), host, p);
    AbsoluteNormal(secure, host, p);
  }

  lemma SchemePlain(secure: bool, host: bytes)
    requires forall c :: c in host ==> c !in {SLASH, PERCENT, QUESTION, NUL}
    ensures forall c :: c in Scheme(secure) + host ==> c !in {PERCENT, QUESTION, NUL}
  {
    hide Scheme;
    SchemeIs(secure);
  }

  lemma StripBehind(front: bytes, url: bytes)
    requires forall c :: c in front ==> c !in {PERCENT, QUESTION, NUL}
    ensures StripQuery(front + url) == front + StripQuery(url)
  {
    hide Span;
    var u := front + url;
    var n := Span(url, 0, {QUESTION});
    assert forall k :: 0 <= k < |front| ==> u[k] == front[k] && u[k] in front;
    assert forall k :: |front| <= k < |u| ==> u[k] == url[k - |front|];
    SpanIs(u, 0, |front| + n, {QUESTION});
    assert u[..|front| + n] == front + url[..n];
  }

  lemma {:induction false} DecodeBehind(front: bytes, rest: bytes)
    requires forall c :: c in front ==> c !in {PERCENT, QUESTION, NUL}
    ensures Decode(front + rest) == front + Decode(rest)
    decreases |front|
  {
    if front == [] {
      assert front + rest == rest;
    } else {
      var t := front + rest;
      assert t[0] == front[0] && front[0] in front && t[1..] == front[1..] + rest;
      assert forall c :: c in front[1..] ==> c in front;
      DecodeBehind(front[1..], rest);
      assert [front[0]] + (front[1..] + Decode(rest)) == front + Decode(rest);
    }
  }

  lemma StrBehind(front: bytes, rest: bytes)
    requires forall c :: c in front ==> c !in {PERCENT, QUESTION, NUL}
    ensures Str(front + rest) == front + Str(rest)
  {
    StrConcat(front, rest, 0);
  }

  lemma {:induction false} StrConcat(front: bytes, rest: bytes, i: nat)
    requires i <= |front| && NUL !in front
    ensures StrEnd(front + rest, i) == |front| + StrEnd(rest, 0)
    decreases |front| - i
  {
    if i < |front| {
      assert front[i] in front;
      StrConcat(front, rest, i + 1);
    } else {
      StrEndAt(front, rest, 0);
    }
  }

  lemma {:induction false} StrEndAt(front: bytes, rest: bytes, i: nat)
    requires i <= |rest|
    ensures StrEnd(front + rest, |front| + i) == |front| + StrEnd(rest, i)
    decreases |rest| - i
  {
    if i < |rest| {
      StrEndAt(front, rest, i + 1);
    }
  }

  lemma StartsWithSlash(url: bytes)
    requires url != [] && url[0] == SLASH
    ensures var p := Str(Decode(StripQuery(url))); p != [] && p[0] == SLASH
  {
    assert StripQuery(url)[0] == SLASH;
  }

  lemma AbsoluteNormal(secure: bool, host: bytes, p: bytes)
    requires SLASH !in host && p != [] && p[0] == SLASH
    ensures Normalize(Scheme(secure) + host + p) == p && Normalize(p) == p
  {
    hide Normalize;
    NotAbsolute(p);
    NormalizeMeans(secure, host, p, p);
  }

  lemma NotAbsolute(p: bytes)
    requires p != [] && p[0] == SLASH
    ensures !(Scheme(false) <= p) && !(Scheme(true) <= p)
  {
    SchemeIs(false);
    SchemeIs(true);
  }

  /**
   However a request writes its path, escaping what it likes, it leads where the path
   itself does; a percent sign and a question mark must be escaped.
   */
  lemma LocateWritten(s: bytes, styles: seq<Style>)
    requires |s| == |styles| && NUL !in s
    requires forall i :: 0 <= i < |s| && (s[i] == PERCENT || s[i] == QUESTION) ==> styles[i].Escape?
    ensures Locate(Write(s, styles)) == Resolve(Normalize(s))
  {
    hide Write, Decode, Resolve, Normalize, StripQuery;
    NoQuestion(s, styles);
    StripNothing(Write(s, styles));
    DecodeWritten(s, styles);
    StrWhole(s);
  }

  lemma {:induction false} NoQuestion(s: bytes, styles: seq<Style>)
    requires |s| == |styles|
    requires forall i :: 0 <= i < |s| && s[i] == QUESTION ==> styles[i].Escape?
    ensures QUESTION !in Write(s, styles)
  {
    hide Digit;
    if s != [] {
      NoQuestion(s[1..], styles[1..]);
      DigitMarks(s[0] / 16);
      DigitMarks(s[0] % 16);
      assert s[0] == QUESTION ==> styles[0].Escape?;
    }
  }

  lemma DigitMarks(v: int)
    requires 0 <= v < 16
    ensures Digit(v, true) != QUESTION && Digit(v, false) != QUESTION
  {
    HexDigits(v);
  }
}
