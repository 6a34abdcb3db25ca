/** Bytes, NUL-terminated strings and the ASCII case folding of the C library. */
module Bytes {
  type byte = b: int | 0 <= b < 256
  type bytes = seq<byte>

  const NUL: byte := 0
  const LF: byte := 10
  const CR: byte := 13
  const TAB: byte := 9
  const SPACE: byte := 32
  const HASH: byte := 35
  const PERCENT: byte := 37
  const COMMA: byte := 44
  const HYPHEN: byte := 45
  const DOT: byte := 46
  const SLASH: byte := 47
  const QUESTION: byte := 63

  datatype Option<+T> = None | Some(value: T)

  /** strlen, counting from i: how far the next NUL is, or the end of the buffer. */
  function StrEnd(b: bytes, i: nat): (n: nat)
    requires i <= |b|
    ensures i <= n <= |b|
    ensures forall k :: i <= k < n ==> b[k] != NUL
    ensures n < |b| ==> b[n] == NUL
    decreases |b| - i
  {
    if i == |b| || b[i] == NUL then i else StrEnd(b, i + 1)
  }

  /** The C string held in a buffer: everything before its first NUL. */
  function Str(b: bytes): (s: bytes)
    ensures |s| <= |b| && s == b[..|s|] && NUL !in s
    ensures |s| < |b| ==> b[|s|] == NUL
    ensures NUL in b ==> |s| < |b|
  {
    b[..StrEnd(b, 0)]
  }

  /** A buffer that holds s followed by a NUL holds the C string s, whatever comes after. */
  lemma StrIs(b: bytes, s: bytes)
    requires |s| < |b| && b[..|s|] == s && b[|s|] == NUL && NUL !in s
    ensures Str(b) == s
  {
    var n := StrEnd(b, 0);
    assert forall k :: 0 <= k < |s| ==> b[k] == s[k] && s[k] in s;
    assert n == |s|;
  }

  /** A buffer with no NUL is its own string. */
  lemma StrWhole(b: bytes)
    requires NUL !in b
    ensures Str(b) == b
  {
    var n := StrEnd(b, 0);
    assert forall k :: 0 <= k < |b| ==> b[k] in b;
    assert n == |b|;
  }

  /** s[k], or the terminator; nothing behind that may be read. */
  function CharAt(s: bytes, k: nat): byte
    requires k <= |s|
  {
    if k < |s| then s[k] else NUL
  }

  lemma CharAtEnd(s: bytes, k: nat)
    requires NUL !in s && k <= |s|
    ensures CharAt(s, k) == NUL <==> k == |s|
  {
    if k < |s| {
      assert s[k] in s;
    }
  }

  /** Reading the buffer up to the terminator is reading the string. */
  lemma BufferChars(b: bytes)
    requires NUL in b
    ensures forall k :: 0 <= k <= |Str(b)| ==> b[k] == CharAt(Str(b), k)
    ensures forall k :: 0 <= k < |Str(b)| ==> b[k] != NUL
  {
    var s := Str(b);
    assert forall k :: 0 <= k < |s| ==> s[k] == b[k] && s[k] in s;
  }

  function Min(a: int, b: int): int { if a < b then a else b }
  function Max(a: int, b: int): int { if a < b then b else a }

  lemma Associate(x: bytes, y: bytes, z: bytes)
    ensures x + y + z == x + (y + z)
  {
  }

  /** Where the two halves of a suffix lie. */
  lemma PartsAt(content: bytes, p: nat, a: bytes, b: bytes)
    requires p <= |content| && content[p..] == a + b
    ensures p + |a| <= |content| && content[p..p + |a|] == a && content[p + |a|..] == b
    ensures forall k :: 0 <= k < |a| ==> content[p + k] == a[k]
    ensures b != [] ==> p + |a| < |content| && content[p + |a|] == b[0]
  {
    assert content[p..][..|a|] == a && content[p..][|a|..] == b;
    assert forall k :: 0 <= k < |a| ==> content[p + k] == content[p..][k];
  }

  function ToLower(c: byte): byte {
    if 65 <= c <= 90 then c + 32 else c
  }

  function ToUpper(c: byte): byte {
    if 97 <= c <= 122 then c - 32 else c
  }

  function Lower(s: bytes): (r: bytes)
    ensures |r| == |s| && forall i :: 0 <= i < |s| ==> r[i] == ToLower(s[i])
  {
    seq(|s|, i requires 0 <= i < |s| => ToLower(s[i]))
  }

  function Upper(s: bytes): (r: bytes)
    ensures |r| == |s| && forall i :: 0 <= i < |s| ==> r[i] == ToUpper(s[i])
  {
    seq(|s|, i requires 0 <= i < |s| => ToUpper(s[i]))
  }

  predicate IsDigit(c: byte) {
    48 <= c <= 57
  }

  predicate IsXDigit(c: byte) {
    IsDigit(c) || 65 <= c <= 70 || 97 <= c <= 102
  }

  /** The length of the longest prefix of s[from..] that avoids every byte of stops. */
  function Span(s: bytes, from: nat, stops: set<byte>): (n: nat)
    requires from <= |s|
    ensures from + n <= |s|
    ensures forall k :: from <= k < from + n ==> s[k] !in stops
    ensures from + n < |s| ==> s[from + n] in stops
    decreases |s| - from
  {
    if from == |s| || s[from] in stops then 0 else 1 + Span(s, from + 1, stops)
  }

  lemma {:induction false} SpanIs(s: bytes, from: nat, n: nat, stops: set<byte>)
    requires from + n <= |s|
    requires forall k :: from <= k < from + n ==> s[k] !in stops
    requires from + n < |s| ==> s[from + n] in stops
    ensures Span(s, from, stops) == n
    decreases n
  {
    if n > 0 {
      SpanIs(s, from + 1, n - 1, stops);
    }
  }

  /** A string literal as bytes. */
  function Ascii(s: string): (r: bytes)
    ensures |r| == |s| && forall i :: 0 <= i < |s| ==> r[i] == s[i] as int % 256
  {
    seq(|s|, i requires 0 <= i < |s| => s[i] as int % 256)
  }

  // ------------------------------------------------------------ the alphabets

  const CAPITALS := Ascii("ABCDEFGHIJKLMNOPQRSTUVWXYZ")
  const SMALLS := Ascii("abcdefghijklmnopqrstuvwxyz")
  const DIGITS := Ascii("0123456789")
  const HEX_CAPITALS := Ascii("0123456789ABCDEF")
  const HEX_SMALLS := Ascii("0123456789abcdef")

  lemma Capital(k: nat)
    requires k < 26
    ensures CAPITALS[k] == 65 + k
  {
  }

  lemma Small(k: nat)
    requires k < 26
    ensures SMALLS[k] == 97 + k
  {
  }

  lemma Digits(k: nat)
    requires k < 10
    ensures DIGITS[k] == 48 + k
  {
  }

  lemma HexDigits(k: nat)
    requires k < 16
    ensures HEX_CAPITALS[k] == (if k < 10 then 48 + k else 55 + k)
    ensures HEX_SMALLS[k] == (if k < 10 then 48 + k else 87 + k)
  {
  }

  /** Capitals become the small letters in the same place of the alphabet; nothing else changes. */
  lemma LowerMeans(c: byte, k: nat)
    requires k < 26
    ensures ToLower(CAPITALS[k]) == SMALLS[k]
    ensures c !in CAPITALS ==> ToLower(c) == c
  {
    Capital(k);
    Small(k);
    if 65 <= c <= 90 {
      Capital(c - 65);
      assert c in CAPITALS;
    }
  }

  /** And the other way round. */
  lemma UpperMeans(c: byte, k: nat)
    requires k < 26
    ensures ToUpper(SMALLS[k]) == CAPITALS[k]
    ensures c !in SMALLS ==> ToUpper(c) == c
  {
    Capital(k);
    Small(k);
    if 97 <= c <= 122 {
      Small(c - 97);
      assert c in SMALLS;
    }
  }

  lemma InCapitals(c: byte)
    ensures c in CAPITALS <==> 65 <= c <= 90
  {
    if 65 <= c <= 90 {
      Capital(c - 65);
      assert CAPITALS[c - 65] in CAPITALS;
    } else if c in CAPITALS {
      var k :| 0 <= k < |CAPITALS| && CAPITALS[k] == c;
      Capital(k);
    }
  }

  lemma InSmalls(c: byte)
    ensures c in SMALLS <==> 97 <= c <= 122
  {
    if 97 <= c <= 122 {
      Small(c - 97);
      assert SMALLS[c - 97] in SMALLS;
    } else if c in SMALLS {
      var k :| 0 <= k < |SMALLS| && SMALLS[k] == c;
      Small(k);
    }
  }

  lemma InDigits(c: byte)
    ensures c in DIGITS <==> 48 <= c <= 57
  {
    DigitMeans(c);
  }

  lemma DigitMeans(c: byte)
    ensures IsDigit(c) <==> c in DIGITS
  {
    if IsDigit(c) {
      Digits(c - 48);
      assert c in DIGITS;
    } else if c in DIGITS {
      var k :| 0 <= k < |DIGITS| && DIGITS[k] == c;
      Digits(k);
    }
  }

  lemma HexMeans(c: byte)
    ensures IsXDigit(c) <==> c in HEX_CAPITALS || c in HEX_SMALLS
  {
    if IsXDigit(c) {
      var k := if IsDigit(c) then c - 48 else if c < 97 then c - 55 else c - 87;
      HexDigits(k);
      assert c in HEX_CAPITALS || c in HEX_SMALLS;
    } else if c in HEX_CAPITALS {
      var k :| 0 <= k < |HEX_CAPITALS| && HEX_CAPITALS[k] == c;
      HexDigits(k);
    } else if c in HEX_SMALLS {
      var k :| 0 <= k < |HEX_SMALLS| && HEX_SMALLS[k] == c;
      HexDigits(k);
    }
  }
}
