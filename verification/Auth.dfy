/** HTTP Basic authentication: base64 of section 4 of RFC 4648 and the constant-time comparison. */
module Auth {
  import opened Bytes

  const PAD: byte := 61

  // ------------------------------------------------------------------ alphabet

  /** base64_table */
  function Symbol(v: int): (c: byte)
    requires 0 <= v < 64
    ensures c != PAD && c != NUL
  {
    if v < 26 then 65 + v
    else if v < 52 then 97 + v - 26
    else if v < 62 then 48 + v - 52
    else if v == 62 then 43
    else 47
  }

  function Sextet(c: byte): (v: int)
    ensures 0 <= v < 64
  {
    if 65 <= c <= 90 then c - 65
    else if 97 <= c <= 122 then c - 97 + 26
    else if 48 <= c <= 57 then c - 48 + 52
    else if c == 43 then 62
    else if c == 47 then 63
    else 0
  }

  /** The alphabet of section 4 of RFC 4648. */
  const ALPHABET := CAPITALS + SMALLS + DIGITS + Ascii("+/")

  lemma SymbolMeans(v: int)
    requires 0 <= v < 64
    ensures |ALPHABET| == 64 && Symbol(v) == ALPHABET[v]
  {
    if v < 26 {
      Capital(v);
    } else if v < 52 {
      Small(v - 26);
    } else if v < 62 {
      Digits(v - 52);
    } else {
      var marks := Ascii("+/");
      assert marks[0] == 43 && marks[1] == 47;
    }
  }

  // ------------------------------------------------------------- specification

  /** The four symbols of a 24-bit group. */
  function Group(a: byte, b: byte, c: byte): (r: bytes)
    ensures |r| == 4
  {
    [Symbol(a / 4), Symbol(a % 4 * 16 + b / 16), Symbol(b % 16 * 4 + c / 64), Symbol(c % 64)]
  }

  /** The encoding of section 4 of RFC 4648, block by block. */
  function Base64(s: bytes): bytes
    decreases |s|
  {
    if s == [] then []
    else if |s| == 1 then
      [Symbol(s[0] / 4), Symbol(s[0] % 4 * 16), PAD, PAD]
    else if |s| == 2 then
      [Symbol(s[0] / 4), Symbol(s[0] % 4 * 16 + s[1] / 16), Symbol(s[1] % 16 * 4), PAD]
    else Group(s[0], s[1], s[2]) + Base64(s[3..])
  }

  /** A decoder of padded blocks. */
  function Unbase64(t: bytes): bytes
    decreases |t|
  {
    if |t| < 4 then []
    else
      var a, b, c, d := Sextet(t[0]), Sextet(t[1]), Sextet(t[2]), Sextet(t[3]);
      var x: byte, y: byte, z: byte := a * 4 + b / 16, b % 16 * 16 + c / 4, c % 4 * 64 + d;
      if t[2] == PAD then [x]
      else if t[3] == PAD then [x, y]
      else [x, y, z] + Unbase64(t[4..])
  }

  /** The decoder recovers every byte string. */
  lemma {:induction false} Base64RoundTrip(s: bytes)
    ensures Unbase64(Base64(s)) == s
    decreases |s|
  {
    hide Unbase64, Group;
    if |s| >= 3 {
      Base64RoundTrip(s[3..]);
      FullBlock(s[0], s[1], s[2], Base64(s[3..]));
      assert s == [s[0], s[1], s[2]] + s[3..];
    } else if |s| == 2 {
      LastTwo(s[0], s[1]);
      assert s == [s[0], s[1]];
    } else if |s| == 1 {
      LastOne(s[0]);
      assert s == [s[0]];
    } else {
      assert Unbase64([]) == [] by {
        NoBlock();
      }
    }
  }

  lemma NoBlock()
    ensures Unbase64([]) == []
  {
  }

  lemma LastTwo(x: byte, y: byte)
    ensures Unbase64(Base64([x, y])) == [x, y]
  {
    BlockRoundTrip(x, y, 0);
  }

  lemma LastOne(x: byte)
    ensures Unbase64(Base64([x])) == [x]
  {
    BlockRoundTrip(x, 0, 0);
  }

  lemma FullBlock(x: byte, y: byte, z: byte, rest: bytes)
    ensures Unbase64(Group(x, y, z) + rest) == [x, y, z] + Unbase64(rest)
  {
    BlockRoundTrip(x, y, z);
    var t := Group(x, y, z) + rest;
    assert t[4..] == rest;
  }

  lemma BlockRoundTrip(x: byte, y: byte, z: byte)
    ensures var a, b, c, d := x / 4, x % 4 * 16 + y / 16, y % 16 * 4 + z / 64, z % 64;
            a * 4 + b / 16 == x && b % 16 * 16 + c / 4 == y && c % 4 * 64 + d == z
    ensures Sextet(Symbol(x / 4)) == x / 4
    ensures Sextet(Symbol(x % 4 * 16 + y / 16)) == x % 4 * 16 + y / 16
    ensures Sextet(Symbol(y % 16 * 4 + z / 64)) == y % 16 * 4 + z / 64
    ensures Sextet(Symbol(z % 64)) == z % 64
  {
  }

  /** What the (i+1)-th symbols stand for: three octets, taken as one number of four sextets. */
  lemma Base64Means(s: bytes, i: nat) returns (w: nat, x: nat, y: nat, z: nat)
    requires 3 * i < |s|
    ensures w < 64 && x < 64 && y < 64 && z < 64 && |ALPHABET| == 64
    ensures OctetAt(s, 3 * i) * 65536 + OctetAt(s, 3 * i + 1) * 256 + OctetAt(s, 3 * i + 2) ==
            w * 262144 + x * 4096 + y * 64 + z
    ensures var t := Base64(s);
            && 4 * i + 4 <= |t|
            && t[4 * i] == ALPHABET[w] && t[4 * i + 1] == ALPHABET[x]
            && t[4 * i + 2] == (if 3 * i + 1 < |s| then ALPHABET[y] else PAD)
            && t[4 * i + 3] == (if 3 * i + 2 < |s| then ALPHABET[z] else PAD)
  {
    hide Symbol, Base64, OctetAt;
    w, x, y, z := Base64Groups(s, i);
    SymbolMeans(w);
    SymbolMeans(x);
    SymbolMeans(y);
    SymbolMeans(z);
  }

  lemma {:induction false} Base64Groups(s: bytes, i: nat) returns (w: nat, x: nat, y: nat, z: nat)
    requires 3 * i < |s|
    ensures w < 64 && x < 64 && y < 64 && z < 64
    ensures OctetAt(s, 3 * i) * 65536 + OctetAt(s, 3 * i + 1) * 256 + OctetAt(s, 3 * i + 2) ==
            w * 262144 + x * 4096 + y * 64 + z
    ensures var t := Base64(s);
            && 4 * i + 4 <= |t|
            && t[4 * i] == Symbol(w) && t[4 * i + 1] == Symbol(x)
            && t[4 * i + 2] == (if 3 * i + 1 < |s| then Symbol(y) else PAD)
            && t[4 * i + 3] == (if 3 * i + 2 < |s| then Symbol(z) else PAD)
    decreases i
  {
    hide Group, Symbol, Base64, OctetAt;
    if i == 0 {
      w, x, y, z := FirstGroup(s);
    } else {
      LongBlocks(s);
      w, x, y, z := Base64Groups(s[3..], i - 1);
      var j := i - 1;
      OctetBehind(s, 3 * j);
      OctetBehind(s, 3 * j + 1);
      OctetBehind(s, 3 * j + 2);
      SymbolsBehind(Group(s[0], s[1], s[2]), Base64(s[3..]), 4 * j);
    }
  }

  lemma Sextets(a: byte, b: byte, c: byte)
    ensures a * 65536 + b * 256 + c ==
            a / 4 * 262144 + (a % 4 * 16 + b / 16) * 4096 + (b % 16 * 4 + c / 64) * 64 + c % 64
  {
  }

  lemma FirstSymbols(s: bytes)
    requires s != []
    ensures var a, b, c, t := OctetAt(s, 0), OctetAt(s, 1), OctetAt(s, 2), Base64(s);
            && 4 <= |t| && t[0] == Symbol(a / 4) && t[1] == Symbol(a % 4 * 16 + b / 16)
            && t[2] == (if 1 < |s| then Symbol(b % 16 * 4 + c / 64) else PAD)
            && t[3] == (if 2 < |s| then Symbol(c % 64) else PAD)
  {
    hide Symbol;
  }

  lemma OctetBehind(s: bytes, k: nat)
    requires |s| >= 3
    ensures OctetAt(s, k + 3) == OctetAt(s[3..], k)
  {
  }

  lemma SymbolsBehind(g: bytes, rest: bytes, k: nat)
    requires |g| == 4 && k + 4 <= |rest|
    ensures var t := g + rest;
            t[k + 4] == rest[k] && t[k + 5] == rest[k + 1] && t[k + 6] == rest[k + 2] && t[k + 7] == rest[k + 3]
  {
  }

  lemma FirstGroup(s: bytes) returns (w: nat, x: nat, y: nat, z: nat)
    requires s != []
    ensures w < 64 && x < 64 && y < 64 && z < 64
    ensures OctetAt(s, 0) * 65536 + OctetAt(s, 1) * 256 + OctetAt(s, 2) == w * 262144 + x * 4096 + y * 64 + z
    ensures var t := Base64(s);
            && 4 <= |t|
            && t[0] == Symbol(w) && t[1] == Symbol(x)
            && t[2] == (if 1 < |s| then Symbol(y) else PAD)
            && t[3] == (if 2 < |s| then Symbol(z) else PAD)
  {
    hide Symbol, Base64, OctetAt;
    var a, b, c := OctetAt(s, 0), OctetAt(s, 1), OctetAt(s, 2);
    w, x, y, z := a / 4, a % 4 * 16 + b / 16, b % 16 * 4 + c / 64, c % 64;
    Sextets(a, b, c);
    FirstSymbols(s);
  }

  lemma {:induction false} Base64Length(s: bytes)
    ensures |Base64(s)| == 4 * ((|s| + 2) / 3)
    ensures NUL !in Base64(s)
    decreases |s|
  {
    if |s| >= 3 {
      Base64Length(s[3..]);
    }
  }

  // ------------------------------------------------------------- the encoder

  function OctetAt(s: bytes, i: nat): byte {
    if i < |s| then s[i] else 0
  }

  /** The symbols before padding replaces the last ones. */
  function Unpadded(s: bytes): bytes
    decreases |s|
  {
    if s == [] then []
    else Group(s[0], OctetAt(s, 1), OctetAt(s, 2)) + Unpadded(if |s| > 3 then s[3..] else [])
  }

  function PadCount(n: nat): nat {
    if n % 3 == 0 then 0 else 3 - n % 3
  }

  function Pads(n: nat): bytes {
    seq(PadCount(n), _ => PAD)
  }

  lemma {:induction false} UnpaddedLength(s: bytes)
    ensures |Unpadded(s)| == 4 * ((|s| + 2) / 3) && PadCount(|s|) <= |Unpadded(s)|
    decreases |s|
  {
    hide Group, OctetAt;
    if |s| > 3 {
      UnpaddedLength(s[3..]);
      assert (|s| + 2) / 3 == (|s| - 3 + 2) / 3 + 1;
    }
  }

  lemma {:induction false} PadUnpadded(s: bytes)
    ensures |Unpadded(s)| == 4 * ((|s| + 2) / 3)
    ensures Padded(s)
    decreases |s|
  {
    UnpaddedLength(s);
    if |s| > 3 {
      PadUnpadded(s[3..]);
      PaddedLonger(s);
    } else {
      PadLast(s);
    }
  }

  lemma PaddedLonger(s: bytes)
    requires |s| > 3 && Padded(s[3..])
    ensures Padded(s)
  {
    hide Base64, Unpadded, Group, Pads, PadCount;
    var g, u, p := Group(s[0], s[1], s[2]), Unpadded(s[3..]), PadCount(|s|);
    LongBlocks(s);
    SamePads(|s|);
    TakeBehind(g, u, |u| - p, Pads(|s|));
  }

  lemma SamePads(n: nat)
    requires n >= 3
    ensures PadCount(n) == PadCount(n - 3) && Pads(n) == Pads(n - 3)
  {
  }

  lemma LongBlocks(s: bytes)
    requires |s| > 3
    ensures Base64(s) == Group(s[0], s[1], s[2]) + Base64(s[3..])
    ensures Unpadded(s) == Group(s[0], s[1], s[2]) + Unpadded(s[3..])
  {
  }

  lemma TakeBehind(g: bytes, rest: bytes, n: nat, pads: bytes)
    requires n <= |rest|
    ensures (g + rest)[..|g| + n] + pads == g + (rest[..n] + pads)
  {
  }

  ghost predicate Padded(s: bytes) {
    PadCount(|s|) <= |Unpadded(s)| &&
    Base64(s) == Unpadded(s)[..|Unpadded(s)| - PadCount(|s|)] + Pads(|s|)
  }

  lemma PadLast(s: bytes)
    requires |s| <= 3
    ensures Padded(s)
  {
    if |s| == 3 {
      PadThree(s[0], s[1], s[2]);
      assert s == [s[0], s[1], s[2]];
    } else if |s| == 2 {
      PadTwo(s[0], s[1]);
      assert s == [s[0], s[1]];
    } else if |s| == 1 {
      PadOne(s[0]);
      assert s == [s[0]];
    }
  }

  lemma PadThree(a: byte, b: byte, c: byte)
    ensures Padded([a, b, c])
  {
    assert Unpadded([a, b, c]) == Group(a, b, c) + Unpadded([]);
    assert Base64([a, b, c]) == Group(a, b, c) + Base64([]);
    assert Pads(3) == [];
  }

  lemma PadTwo(a: byte, b: byte)
    ensures Padded([a, b])
  {
    var g := Group(a, b, 0);
    assert Unpadded([a, b]) == g + Unpadded([]);
    assert Pads(2) == [PAD];
    assert g[..3] == [g[0], g[1], g[2]];
  }

  lemma PadOne(a: byte)
    ensures Padded([a])
  {
    var g := Group(a, 0, 0);
    assert Unpadded([a]) == g + Unpadded([]);
    assert Pads(1) == [PAD, PAD];
    assert g[..2] == [g[0], g[1]];
  }

  lemma Quotient(x: int, k: int, q: int, r: int)
    requires k in {64, 4096, 262144} && x == q * k + r && 0 <= r < k
    ensures x / k == q
  {
  }

  lemma Digit64(q: int, d: int)
    requires 0 <= d < 64
    ensures (q * 64 + d) % 64 == d
  {
  }

  /** The shifts and masks pick out the four sextets of a triple. */
  lemma Triple(a: byte, b: byte, c: byte)
    ensures var triple := a * 65536 + b * 256 + c;
            && triple / 262144 % 64 == a / 4
            && triple / 4096 % 64 == a % 4 * 16 + b / 16
            && triple / 64 % 64 == b % 16 * 4 + c / 64
            && triple % 64 == c % 64
  {
    var triple := a * 65536 + b * 256 + c;
    var w, x, y, z := a / 4, a % 4 * 16 + b / 16, b % 16 * 4 + c / 64, c % 64;
    assert triple == w * 262144 + x * 4096 + y * 64 + z;
    Quotient(triple, 262144, w, x * 4096 + y * 64 + z);
    Quotient(triple, 4096, w * 64 + x, y * 64 + z);
    Quotient(triple, 64, (w * 64 + x) * 64 + y, z);
    Digit64(w, x);
    Digit64(w * 64 + x, y);
    Digit64((w * 64 + x) * 64 + y, z);
  }

  // --------------------------------------------------------------- the methods

  /** Splits 24 bits into four symbols. */
  method PutGroup(encoded: array<byte>, j: nat, a: byte, b: byte, c: byte)
    requires j + 4 <= encoded.Length
    modifies encoded
    ensures encoded[..j + 4] == old(encoded[..j]) + Group(a, b, c)
  {
    hide Symbol;
    var triple: nat := a * 65536 + b * 256 + c;
    Triple(a, b, c);
    encoded[j] := Symbol(triple / 262144 % 64);
    encoded[j + 1] := Symbol(triple / 4096 % 64);
    encoded[j + 2] := Symbol(triple / 64 % 64);
    encoded[j + 3] := Symbol(triple % 64);
  }

  /** Overwrites the last symbols with padding. */
  method PutPads(encoded: array<byte>, end: nat, pads: nat)
    requires pads <= end <= encoded.Length
    modifies encoded
    ensures encoded[..end] == old(encoded[..end - pads]) + seq(pads, _ => PAD)
  {
    for k := 0 to pads
      invariant forall m :: 0 <= m < end - k ==> encoded[m] == old(encoded[m])
      invariant forall m :: end - k <= m < end ==> encoded[m] == PAD
    {
      encoded[end - 1 - k] := PAD;
    }
  }

  /** base64_encode */
  method Base64Encode(str: bytes) returns (encoded: array<byte>)
    requires NUL !in str
    ensures fresh(encoded) && encoded.Length == 4 * ((|str| + 2) / 3) + 1
    ensures encoded[..encoded.Length - 1] == Base64(str) && encoded[encoded.Length - 1] == NUL
  {
    var outputLength := 4 * ((|str| + 2) / 3);
    encoded := new byte[outputLength + 1];
    UnpaddedLength(str);
    PutGroups(str, encoded, outputLength);
    var pads := if |str| % 3 == 0 then 0 else if |str| % 3 == 1 then 2 else 1;
    PadsAre(str, encoded[..outputLength], pads);
    PutPads(encoded, outputLength, pads);
    encoded[outputLength] := NUL;
  }

  /** Triple by triple, without the padding. */
  method PutGroups(str: bytes, encoded: array<byte>, outputLength: nat)
    requires outputLength == |Unpadded(str)| <= encoded.Length
    modifies encoded
    ensures encoded[..outputLength] == Unpadded(str)
  {
    hide Unpadded, Group;
    var i: nat, j: nat := 0, 0;
    assert str[0..] == str && encoded[..0] == [];
    UnpaddedNothing();
    while i < |str|
      invariant i <= |str| && j + |Unpadded(str[i..])| == outputLength
      invariant encoded[..j] + Unpadded(str[i..]) == Unpadded(str)
    {
      ghost var done, start := encoded[..j], i;
      var a: byte := str[i];
      i := i + 1;
      var b: byte := 0;
      if i < |str| {
        b := str[i];
        i := i + 1;
      }
      var c: byte := 0;
      if i < |str| {
        c := str[i];
        i := i + 1;
      }
      UnpaddedStep(str, start, i);
      PutGroup(encoded, j, a, b, c);
      j := j + 4;
      Associate(done, Group(a, b, c), Unpadded(str[i..]));
    }
    assert str[i..] == [] && j == outputLength;
    assert encoded[..outputLength] + [] == encoded[..outputLength];
  }

  lemma UnpaddedNothing()
    ensures Unpadded([]) == []
  {
  }

  lemma UnpaddedStep(str: bytes, i: nat, j: nat)
    requires i < |str| && j == if i + 3 < |str| then i + 3 else |str|
    ensures Unpadded(str[i..]) == Group(str[i], OctetAt(str, i + 1), OctetAt(str, i + 2)) + Unpadded(str[j..])
  {
    var rest := str[i..];
    assert str[j..] == if |rest| > 3 then rest[3..] else [];
    assert OctetAt(rest, 1) == OctetAt(str, i + 1) && OctetAt(rest, 2) == OctetAt(str, i + 2);
  }

  lemma PadsAre(str: bytes, symbols: bytes, pads: nat)
    requires symbols == Unpadded(str)
    requires pads == if |str| % 3 == 0 then 0 else if |str| % 3 == 1 then 2 else 1
    ensures pads <= |symbols| && symbols[..|symbols| - pads] + seq(pads, _ => PAD) == Base64(str)
  {
    hide Base64, Unpadded;
    PadUnpadded(str);
    assert pads == PadCount(|str|);
    assert seq(pads, _ => PAD) == Pads(|str|);
  }

  // ----------------------------------------------------------- the comparison

  /** Bitwise exclusive or, by binary digits. */
  function Xor(x: nat, y: nat): nat {
    if x == 0 && y == 0 then 0
    else (if x % 2 == y % 2 then 0 else 1) + 2 * Xor(x / 2, y / 2)
  }

  /** Bitwise or. */
  function Or(x: nat, y: nat): nat {
    if x == 0 && y == 0 then 0
    else (if x % 2 == 0 && y % 2 == 0 then 0 else 1) + 2 * Or(x / 2, y / 2)
  }

  lemma {:induction false} XorZero(x: nat, y: nat)
    ensures Xor(x, y) == 0 <==> x == y
  {
    if x != 0 || y != 0 {
      XorZero(x / 2, y / 2);
    }
  }

  lemma {:induction false} OrZero(x: nat, y: nat)
    ensures Or(x, y) == 0 <==> x == 0 && y == 0
  {
    if x != 0 || y != 0 {
      OrZero(x / 2, y / 2);
    }
  }

  /** secret[k], stopping at its terminator. */
  function Clamped(secret: bytes, k: nat): byte {
    CharAt(secret, Min(k, |secret|))
  }

  /** The first n characters of the input find their match in the clamped secret. */
  ghost predicate Matching(userInput: bytes, secret: bytes, n: nat)
    requires n <= |userInput| + 1
  {
    forall k :: 0 <= k < n ==> CharAt(userInput, k) == Clamped(secret, k)
  }

  /**
   password_equal: string equality, in one iteration per character of the input
   and one for its terminator, whatever the secret.
   */
  method PasswordEqual(userInput: bytes, secret: bytes) returns (equal: bool, iterations: nat)
    requires NUL !in userInput && NUL !in secret
    ensures equal == (userInput == secret)
    ensures iterations == |userInput| + 1
  {
    var i: nat, j: nat := 0, 0;
    var out := 0;
    iterations := 0;
    while true
      invariant i <= |userInput| && j == Min(i, |secret|) && iterations == i
      invariant out == 0 <==> Matching(userInput, secret, i)
      decreases |userInput| - i
    {
      XorZero(CharAt(userInput, i), CharAt(secret, j));
      OrZero(out, Xor(CharAt(userInput, i), CharAt(secret, j)));
      CharAtEnd(userInput, i);
      CharAtEnd(secret, j);
      iterations := iterations + 1;
      out := Or(out, Xor(CharAt(userInput, i), CharAt(secret, j)));
      if CharAt(userInput, i) == NUL {
        break;
      }
      i := i + 1;
      if CharAt(secret, j) != NUL {
        j := j + 1;
      }
    }
    MatchingIsEqual(userInput, secret);
    CharAtEnd(secret, j);
    OrZero(out, if i != j then 1 else 0);
    out := Or(out, if i != j then 1 else 0);
    OrZero(out, if CharAt(secret, j) != NUL then 1 else 0);
    out := Or(out, if CharAt(secret, j) != NUL then 1 else 0);
    equal := out == 0;
  }

  lemma MatchingIsEqual(u: bytes, s: bytes)
    requires NUL !in u && NUL !in s
    ensures Matching(u, s, |u| + 1) && |u| == Min(|u|, |s|) && CharAt(s, |u|) == NUL <==> u == s
  {
    CharAtEnd(s, Min(|u|, |s|));
    if u == s {
      assert forall k :: 0 <= k <= |u| ==> Clamped(s, k) == CharAt(s, k);
    } else if |u| == Min(|u|, |s|) && CharAt(s, |u|) == NUL && |u| == |s| {
      var k :| 0 <= k < |u| && u[k] != s[k];
      assert CharAt(u, k) != Clamped(s, k);
    }
  }

  // ------------------------------------------------------------- authorization

  const BASIC := Ascii("Basic ")

  /** What --auth stores: the header value that will be accepted. */
  function AuthKey(userpass: bytes): bytes {
    BASIC + Base64(userpass)
  }

  lemma Base64Injective(a: bytes, b: bytes)
    ensures Base64(a) == Base64(b) <==> a == b
  {
    Base64RoundTrip(a);
    Base64RoundTrip(b);
  }

  /** The 401 test of process_request; None is a request without the header, or no --auth. */
  method Authorized(authorization: Option<bytes>, authKey: Option<bytes>) returns (ok: bool)
    requires authorization.Some? ==> NUL !in authorization.value
    requires authKey.Some? ==> NUL !in authKey.value
    ensures ok == (authKey.None? || authorization == authKey)
  {
    if authKey.Some? {
      if authorization.None? {
        return false;
      }
      var iterations;
      ok, iterations := PasswordEqual(authorization.value, authKey.value);
    } else {
      ok := true;
    }
  }

  lemma KeyParts(u: bytes)
    requires NUL !in Base64(u)
    ensures AuthKey(u)[|BASIC|..] == Base64(u) && NUL !in AuthKey(u)
  {
    assert BASIC[0] != NUL && BASIC[1] != NUL && BASIC[2] != NUL && BASIC[3] != NUL && BASIC[4] != NUL && BASIC[5] != NUL;
  }

  /** A client that presents u is let in exactly when u is the configured user:pass. */
  lemma CredentialsDecide(u: bytes, userpass: bytes)
    requires NUL !in u && NUL !in userpass
    ensures NUL !in AuthKey(u) && NUL !in AuthKey(userpass)
    ensures AuthKey(u) == AuthKey(userpass) <==> u == userpass
  {
    Base64Length(u);
    Base64Length(userpass);
    Base64Injective(u, userpass);
    KeyParts(u);
    KeyParts(userpass);
  }
}
