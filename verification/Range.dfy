/**
 Range requests: parse_range_field and the range block of process_get, in signed
 64-bit arithmetic with saturating strtoll, against section 14.1.2 of RFC 9110
 over unbounded integers.
 */
module Range {
  import opened Bytes

  const OFF_MAX: int := 0x7fff_ffff_ffff_ffff

  /** off_t: every result of every operation on it is checked to fit. */
  newtype off_t = x: int | -0x8000_0000_0000_0000 <= x <= 0x7fff_ffff_ffff_ffff

  // ------------------------------------------------------------------ numbers

  function DigitRun(s: bytes, i: nat): (n: nat)
    requires i <= |s|
    ensures i + n <= |s| && (forall k :: i <= k < i + n ==> IsDigit(s[k]))
    ensures i + n < |s| ==> !IsDigit(s[i + n])
    decreases |s| - i
  {
    if i == |s| || !IsDigit(s[i]) then 0 else 1 + DigitRun(s, i + 1)
  }

  predicate AllDigits(s: bytes) {
    forall k :: 0 <= k < |s| ==> IsDigit(s[k])
  }

  /** The decimal value, however large. */
  function Value(s: bytes): nat
    requires AllDigits(s)
  {
    if s == [] then 0 else Value(s[..|s| - 1]) * 10 + (s[|s| - 1] - 48)
  }

  function Saturate(n: nat): (r: nat)
    ensures r <= OFF_MAX
  {
    if n > OFF_MAX then OFF_MAX else n
  }

  /** strtoll in base 10 on a run of digits, one digit at a time, never overflowing. */
  method Strtoll(s: bytes) returns (n: off_t)
    requires AllDigits(s)
    ensures n as int == Saturate(Value(s))
  {
    n := 0;
    assert s[..0] == [];
    for i := 0 to |s|
      invariant AllDigits(s[..i]) && 0 <= n && n as int == Saturate(Value(s[..i]))
    {
      assert s[..i + 1][..i] == s[..i];
      var d := (s[i] - 48) as off_t;
      if n > (0x7fff_ffff_ffff_ffff - d) / 10 {
        n := 0x7fff_ffff_ffff_ffff;
      } else {
        n := n * 10 + d;
      }
    }
    assert s[..|s|] == s;
  }

  // ------------------------------------------------------------------ grammar

  /** What may stand between the elements of a list, and around its commas. */
  predicate Separator(c: byte) {
    c == COMMA || c == SPACE || c == TAB
  }

  /** Where the first element of a list begins: empty elements count for nothing. */
  function Begin(v: bytes, i: nat): (j: nat)
    requires i <= |v|
    ensures i <= j <= |v| && (j < |v| ==> !Separator(v[j])) && (i < j ==> Separator(v[i]))
    decreases |v| - i
  {
    if i < |v| && Separator(v[i]) then Begin(v, i + 1) else i
  }

  function TrimEnd(s: bytes): (r: bytes)
    ensures r <= s && (|r| < |s| ==> s[|r|] == SPACE || s[|r|] == TAB)
    ensures s != [] && s[|s| - 1] != SPACE && s[|s| - 1] != TAB ==> r == s
    decreases |s|
  {
    if s != [] && (s[|s| - 1] == SPACE || s[|s| - 1] == TAB) then TrimEnd(s[..|s| - 1]) else s
  }

  /** The first element of a comma-separated list, as section 5.6.1 of RFC 9110 reads one. */
  function FirstElement(v: bytes): bytes {
    var i := Begin(v, 0);
    TrimEnd(v[i..i + Span(v, i, {COMMA})])
  }

  /** What stands before the first comma. */
  function Head(v: bytes): bytes {
    v[..Span(v, 0, {COMMA})]
  }

  /** What a range names: first-last, first-, or the last n bytes. */
  datatype Spec = FirstLast(first: nat, last: nat) | From(first: nat) | Suffix(n: nat)

  /** int-range or suffix-range of section 14.1.2 of RFC 9110. */
  predicate WellFormed(e: bytes) {
    var n1 := DigitRun(e, 0);
    n1 < |e| && e[n1] == HYPHEN &&
    var n2 := DigitRun(e, n1 + 1);
    n1 + 1 + n2 == |e| && (n1 > 0 || n2 > 0)
  }

  function Meaning(e: bytes): Spec
    requires WellFormed(e)
  {
    var n1 := DigitRun(e, 0);
    if n1 == 0 then Suffix(Value(e[1..]))
    else if n1 + 1 == |e| then From(Value(e[..n1]))
    else FirstLast(Value(e[..n1]), Value(e[n1 + 1..]))
  }

  /** The bytes to send; None is the 416 reply. */
  datatype Slice = Slice(from: nat, to: nat)

  /** The slice a range selects from a file of the given size, over unbounded integers. */
  function Select(spec: Spec, size: nat): (r: Option<Slice>)
    ensures r.Some? ==> r.value.from <= r.value.to < size
  {
    match spec
    case FirstLast(first, last) =>
      if first < size && first <= last then Some(Slice(first, Min(last, size - 1))) else None
    case From(first) =>
      if first < size then Some(Slice(first, size - 1)) else None
    case Suffix(n) =>
      if n > 0 && size > 0 then Some(Slice(Max(0, size - n), size - 1)) else None
  }

  // --------------------------------------------------------------- the parser

  datatype Fields = Fields(begin: off_t, end: off_t, beginGiven: bool, endGiven: bool)

  /** What the header value says about the first number, then about the second. */
  function Given(v: bytes): (Option<nat>, Option<nat>) {
    var n1 := DigitRun(v, 0);
    if n1 == |v| || v[n1] != HYPHEN then (None, None)
    else
      var n2 := DigitRun(v, n1 + 1);
      var end := n1 + 1 + n2;
      var first := if n1 > 0 then Some(Value(v[..n1])) else None;
      if end != |v| && v[end] != COMMA then (first, None)
      else (first, if n2 > 0 then Some(Value(v[n1 + 1..end])) else None)
  }

  ghost predicate Holds(f: Fields, given: (Option<nat>, Option<nat>)) {
    && f.beginGiven == given.0.Some?
    && f.endGiven == given.1.Some?
    && (f.beginGiven ==> f.begin as int == Saturate(given.0.value))
    && (f.endGiven ==> f.end as int == Saturate(given.1.value))
  }

  /** The loop `for (...; bound < len && isdigit(range[bound]); bound++)`. */
  method SkipDigits(v: bytes, from: nat) returns (bound: nat)
    requires from <= |v|
    ensures bound == from + DigitRun(v, from)
  {
    bound := from;
    while bound < |v| && IsDigit(v[bound])
      invariant from <= bound <= |v|
      invariant from + DigitRun(v, from) == bound + DigitRun(v, bound)
    {
      bound := bound + 1;
    }
  }

  /** parse_range_field on the value behind "bytes=". */
  method ParseRangeField(v: bytes) returns (f: Fields)
    ensures Holds(f, Given(v))
  {
    f := Fields(0, 0, false, false);
    var bound1 := 0;
    var bound2 := SkipDigits(v, 0);
    if bound2 == |v| || v[bound2] != HYPHEN {
      return;
    }
    if bound1 != bound2 {
      var n := Strtoll(v[bound1..bound2]);
      assert v[bound1..bound2] == v[..bound2];
      f := f.(beginGiven := true, begin := n);
    }
    bound2 := bound2 + 1;
    bound1 := bound2;
    bound2 := SkipDigits(v, bound2);
    if bound2 != |v| && v[bound2] != COMMA {
      return;
    }
    if bound1 != bound2 {
      var n := Strtoll(v[bound1..bound2]);
      f := f.(endGiven := true, end := n);
    }
  }

  // --------------------------------------------------------------- the block

  /** The range block of process_get, for a file of the given size. */
  method SelectRange(f: Fields, size: off_t) returns (r: Option<Slice>, replyStart: off_t, replyLength: off_t)
    requires f.beginGiven || f.endGiven
    requires f.beginGiven ==> 0 <= f.begin
    requires f.endGiven ==> 0 <= f.end
    requires 0 <= size
    ensures r == Select(SpecOf(f), size as int)
    ensures r.Some? ==> replyStart as int == r.value.from &&
                        replyLength as int == r.value.to - r.value.from + 1 <= size as int
  {
    var from: off_t, to: off_t;
    replyStart, replyLength := 0, 0;
    if f.beginGiven && f.endGiven {
      from := f.begin;
      to := f.end;
      if to > size - 1 {
        to := size - 1;
      }
    } else if f.beginGiven && !f.endGiven {
      from := f.begin;
      to := size - 1;
    } else {
      to := size - 1;
      from := to - f.end + 1;
      if from < 0 {
        from := 0;
      }
    }
    if from >= size {
      return None, 0, 0;
    }
    if to < from {
      return None, 0, 0;
    }
    replyStart := from;
    replyLength := to - from + 1;
    r := Some(Slice(from as int, to as int));
  }

  /** The range the parsed fields stand for. */
  ghost function SpecOf(f: Fields): Spec
    requires f.beginGiven || f.endGiven
    requires f.beginGiven ==> 0 <= f.begin
    requires f.endGiven ==> 0 <= f.end
  {
    if f.beginGiven && f.endGiven then FirstLast(f.begin as int, f.end as int)
    else if f.beginGiven then From(f.begin as int)
    else Suffix(f.end as int)
  }

  // ----------------------------------------------------------------- theorems

  function SaturateSpec(spec: Spec): Spec {
    match spec
    case FirstLast(first, last) => FirstLast(Saturate(first), Saturate(last))
    case From(first) => From(Saturate(first))
    case Suffix(n) => Suffix(Saturate(n))
  }

  /** Saturation is invisible: no file is large enough to tell the numbers apart. */
  lemma SaturationIsExact(spec: Spec, size: nat)
    requires size <= OFF_MAX
    ensures Select(SaturateSpec(spec), size) == Select(spec, size)
  {
  }

  lemma {:induction false} DigitRunPrefix(v: bytes, n: nat, i: nat)
    requires i <= n <= |v| && (n < |v| ==> !IsDigit(v[n]))
    ensures DigitRun(v[..n], i) == DigitRun(v, i)
    decreases n - i
  {
    if i < n && IsDigit(v[i]) {
      DigitRunPrefix(v, n, i + 1);
    }
  }

  /**
   The first element opens the list, and no blank separates it from the comma, or none
   that matters: the case in which the code reads it as it is meant.
   */
  predicate Readable(v: bytes) {
    var e := FirstElement(v);
    e != [] && e <= v && (|e| == |v| || v[|e|] == COMMA || e[|e| - 1] == HYPHEN)
  }

  /** What the code makes of a well-formed first element: nothing at all, or only its first number, unless readable. */
  function AsRead(v: bytes): Option<Spec>
    requires WellFormed(FirstElement(v))
  {
    var spec := Meaning(FirstElement(v));
    if Readable(v) then Some(spec)
    else if FirstElement(v) <= v && spec.FirstLast? then Some(From(spec.first))
    else None
  }

  function Numbers(spec: Option<Spec>): (Option<nat>, Option<nat>) {
    match spec
    case None => (None, None)
    case Some(FirstLast(first, last)) => (Some(first), Some(last))
    case Some(From(first)) => (Some(first), None)
    case Some(Suffix(n)) => (None, Some(n))
  }

  /**
   On every list with a well-formed first element, what the parser reads; and it reads
   what the grammar says if and only if the element is readable.
   */
  lemma GivenMeans(v: bytes)
    requires WellFormed(FirstElement(v))
    ensures Given(v) == Numbers(AsRead(v))
    ensures Given(v) == Numbers(Some(Meaning(FirstElement(v)))) <==> Readable(v)
  {
    hide Value, FirstElement, Given, Separator;
    var e := FirstElement(v);
    FirstBegins(v);
    if e <= v {
      assert v[..|e|] == e;
      GivenBy(v, |e|);
      assert e[1..] == e[0 + 1..];
    } else {
      GivenNothing(v);
      assert !Readable(v);
    }
  }

  lemma GivenNothing(v: bytes)
    requires v != [] && Separator(v[0])
    ensures Given(v) == (None, None)
  {
  }

  /** What is given, in terms of what stands before a separator. */
  lemma GivenBy(v: bytes, n: nat)
    requires n <= |v| && COMMA !in v[..n] && (n < |v| ==> Separator(v[n]))
    ensures var e := v[..n]; var n1 := DigitRun(e, 0);
            Given(v) ==
              if n1 == n || e[n1] != HYPHEN then (None, None)
              else
                var first := if n1 > 0 then Some(Value(e[..n1])) else None;
                var n2 := DigitRun(e, n1 + 1);
                if n1 + 1 + n2 < n || (n < |v| && v[n] != COMMA) then (first, None)
                else (first, if n2 > 0 then Some(Value(e[n1 + 1..])) else None)
  {
    hide Value, DigitRun;
    DigitRunPrefix(v, n, 0);
    var n1 := DigitRun(v, 0);
    HeadAt(v, n, n1);
    if n1 < n {
      DigitRunPrefix(v, n, n1 + 1);
      HeadAt(v, n, n1 + 1 + DigitRun(v, n1 + 1));
      assert v[..n][n1 + 1..] == v[n1 + 1..n];
    }
  }

  lemma HeadAt(v: bytes, n: nat, k: nat)
    requires k <= n <= |v| && COMMA !in v[..n]
    ensures v[..n][..k] == v[..k]
    ensures k < n ==> v[..n][k] == v[k] != COMMA
  {
    assert k < n ==> v[..n][k] in v[..n];
  }

  /** Either the first element opens the list, up to a separator or the end, or a separator does. */
  lemma FirstBegins(v: bytes)
    ensures var e := FirstElement(v);
            && (e != [] ==> !Separator(e[0])) && COMMA !in e
            && (e <= v ==> |e| == |v| || Separator(v[|e|]))
            && (!(e <= v) ==> v != [] && Separator(v[0]))
  {
    hide Begin, Span, TrimEnd;
    var i := Begin(v, 0);
    var n := Span(v, i, {COMMA});
    var raw := v[i..i + n];
    var e := TrimEnd(raw);
    assert forall k :: 0 <= k < |e| ==> e[k] == raw[k] == v[i + k];
    if i == 0 {
      assert v[..|e|] == e;
      assert |e| < n ==> v[|e|] == raw[|e|];
    } else if e != [] {
      assert v[0] != e[0];
    }
  }

  /** A well-formed head is the first element. */
  lemma HeadIsFirst(v: bytes)
    ensures WellFormed(Head(v)) ==> FirstElement(v) == Head(v)
  {
    var e := Head(v);
    if WellFormed(e) {
      assert e[0] == v[0] && Begin(v, 0) == 0;
      assert v[0..0 + |e|] == e;
    }
  }

  /**
   A malformed first element is not always ignored: what stands before the comma is read
   as "first-" exactly when it opens with a number and a hyphen.
   */
  lemma MalformedReadAsOpen(v: bytes)
    requires !WellFormed(FirstElement(v))
    ensures var e := Head(v); var n1 := DigitRun(e, 0);
            Given(v) == if 0 < n1 < |e| && e[n1] == HYPHEN then (Some(Value(e[..n1])), None) else (None, None)
  {
    hide FirstElement, Value, Given;
    HeadIsFirst(v);
    HeadEnds(v);
    GivenBy(v, |Head(v)|);
  }

  lemma HeadEnds(v: bytes)
    ensures var n := |Head(v)|; v[..n] == Head(v) && COMMA !in Head(v) && (n < |v| ==> v[n] == COMMA)
  {
  }

  /** "5-x" is malformed, and yet it is served like "5-". */
  lemma MalformedExample()
    ensures var v := [53, HYPHEN, 120]; !WellFormed(FirstElement(v)) && Given(v) == (Some(5), None)
  {
    var v: bytes := [53, HYPHEN, 120];
    assert DigitRun(v, 0) == 1;
    assert DigitRun(v, 2) == 0;
    assert Span(v, 0, {COMMA}) == 3 by {
      assert Span(v, 3, {COMMA}) == 0;
      assert Span(v, 2, {COMMA}) == 1;
      assert Span(v, 1, {COMMA}) == 2;
    }
    assert v[0..3] == v;
    assert TrimEnd(v) == v;
    assert v[..1] == [53];
    assert Value([53]) == 5 by {
      assert [53][..0] == [];
      assert Value([]) == 0;
    }
  }

  /** "0-5 ,6-7" names the first six bytes, and is served like "0-". */
  lemma SpacedExample()
    ensures var v := [48, HYPHEN, 53, SPACE, COMMA, 54, HYPHEN, 55];
            && WellFormed(FirstElement(v)) && Meaning(FirstElement(v)) == FirstLast(0, 5)
            && AsRead(v) == Some(From(0))
  {
    var v: bytes := [48, HYPHEN, 53, SPACE, COMMA, 54, HYPHEN, 55];
    var e: bytes := [48, HYPHEN, 53];
    assert Begin(v, 0) == 0;
    SpanIs(v, 0, 4, {COMMA});
    assert v[0..4] == e + [SPACE];
    assert (e + [SPACE])[..3] == e;
    assert TrimEnd(e + [SPACE]) == e;
    assert DigitRun(e, 1) == 0 && DigitRun(e, 0) == 1;
    assert DigitRun(e, 3) == 0 && DigitRun(e, 2) == 1;
    assert e[..1] == [48] && e[2..] == [53];
    OneDigit(48);
    OneDigit(53);
  }

  lemma OneDigit(c: byte)
    requires IsDigit(c)
    ensures Value([c]) == c - 48
  {
    assert [c][..0] == [];
  }

  // ------------------------------------------------------------ printed ranges

  /** The digits of a number, most significant first. */
  function Decimal(n: nat): bytes {
    if n < 10 then [DIGITS[n]] else Decimal(n / 10) + [DIGITS[n % 10]]
  }

  function Zeros(n: nat): bytes {
    seq(n, _ => DIGITS[0])
  }

  /** A number as a client may write it, with leading zeros if it likes. */
  function Number(n: nat, zeros: nat): bytes {
    Zeros(zeros) + Decimal(n)
  }

  lemma {:induction false} ValueZeros(n: nat)
    ensures AllDigits(Zeros(n)) && Value(Zeros(n)) == 0
  {
    Digits(0);
    if n > 0 {
      ValueZeros(n - 1);
      assert Zeros(n)[..n - 1] == Zeros(n - 1);
    }
  }

  lemma ValueSnoc(s: bytes, d: nat)
    requires AllDigits(s) && d < 10
    ensures AllDigits(s + [DIGITS[d]]) && Value(s + [DIGITS[d]]) == Value(s) * 10 + d
  {
    Digits(d);
    var t := s + [DIGITS[d]];
    assert t[..|t| - 1] == s;
  }

  /** Numbers are read in base ten. */
  lemma {:induction false} ValueOfNumber(n: nat, zeros: nat)
    ensures AllDigits(Number(n, zeros)) && Value(Number(n, zeros)) == n && Number(n, zeros) != []
    decreases n
  {
    hide Value, AllDigits, Zeros;
    if n < 10 {
      ValueZeros(zeros);
      ValueSnoc(Zeros(zeros), n);
    } else {
      ValueOfNumber(n / 10, zeros);
      ValueSnoc(Number(n / 10, zeros), n % 10);
      Associate(Zeros(zeros), Decimal(n / 10), [DIGITS[n % 10]]);
    }
  }

  /** A range on paper. */
  function Print(spec: Spec, zeros: nat, more: nat): bytes {
    match spec
    case FirstLast(first, last) => Number(first, zeros) + [HYPHEN] + Number(last, more)
    case From(first) => Number(first, zeros) + [HYPHEN]
    case Suffix(n) => [HYPHEN] + Number(n, zeros)
  }

  lemma RunIs(s: bytes, i: nat, n: nat)
    requires i + n <= |s| && AllDigits(s[i..i + n]) && (i + n < |s| ==> !IsDigit(s[i + n]))
    ensures DigitRun(s, i) == n
  {
    assert forall k :: i <= k < i + n ==> s[k] == s[i..i + n][k - i];
  }

  lemma JoinedMeans(a: bytes, b: bytes)
    requires AllDigits(a) && AllDigits(b) && (a != [] || b != [])
    ensures var e := a + [HYPHEN] + b;
            && WellFormed(e)
            && Meaning(e) == if a == [] then Suffix(Value(b))
                             else if b == [] then From(Value(a)) else FirstLast(Value(a), Value(b))
  {
    hide Value, AllDigits, DigitRun;
    var e := a + [HYPHEN] + b;
    assert e[0..0 + |a|] == a == e[..|a|] && e[|a| + 1..|a| + 1 + |b|] == b == e[|a| + 1..];
    RunIs(e, 0, |a|);
    RunIs(e, |a| + 1, |b|);
  }

  /** Printed ranges are well formed and mean what was printed. */
  lemma PrintedMeans(spec: Spec, zeros: nat, more: nat)
    ensures var e := Print(spec, zeros, more); WellFormed(e) && Meaning(e) == spec
  {
    hide Value, WellFormed, Meaning, AllDigits, Number;
    assert AllDigits([]) by {
      NoDigits();
    }
    match spec
    case FirstLast(first, last) =>
      ValueOfNumber(first, zeros);
      ValueOfNumber(last, more);
      JoinedMeans(Number(first, zeros), Number(last, more));
    case From(first) =>
      ValueOfNumber(first, zeros);
      JoinedMeans(Number(first, zeros), []);
      assert Number(first, zeros) + [HYPHEN] + [] == Print(spec, zeros, more);
    case Suffix(n) =>
      ValueOfNumber(n, zeros);
      JoinedMeans([], Number(n, zeros));
      assert [] + [HYPHEN] + Number(n, zeros) == Print(spec, zeros, more);
  }

  lemma NoDigits()
    ensures AllDigits([])
  {
  }

  ghost predicate Blanks(s: bytes) {
    forall c :: c in s ==> c == 32 || c == 9
  }

  /** The element e in a list: separators in front, blanks behind, and then a comma or the end. */
  lemma FirstOfList(front: bytes, e: bytes, blanks: bytes, tail: bytes)
    requires forall c :: c in front ==> c == ',' as int || c == 32 || c == 9
    requires e != [] && !Separator(e[0]) && !Separator(e[|e| - 1]) && COMMA !in e
    requires Blanks(blanks) && (tail == [] || tail[0] == COMMA)
    ensures FirstElement(front + e + blanks + tail) == e
  {
    hide Begin, TrimEnd, Span;
    var v := front + e + blanks + tail;
    var raw := e + blanks;
    var i := |front|;
    assert v == front + (raw + tail);
    assert v[i] == e[0];
    assert forall k :: 0 <= k < i ==> v[k] == front[k] && front[k] in front;
    BeginIs(v, 0, i);
    assert forall k :: i <= k < i + |raw| ==> v[k] == raw[k - i] && raw[k - i] in raw;
    assert COMMA !in raw;
    assert i + |raw| < |v| ==> v[i + |raw|] == tail[0];
    SpanIs(v, i, |raw|, {COMMA});
    assert v[i..i + |raw|] == raw;
    TrimBlanks(e, blanks);
  }

  lemma {:induction false} BeginIs(v: bytes, i: nat, j: nat)
    requires i <= j < |v| && (forall k :: i <= k < j ==> Separator(v[k])) && !Separator(v[j])
    ensures Begin(v, i) == j
    decreases j - i
  {
    if i < j {
      BeginIs(v, i + 1, j);
    }
  }

  lemma {:induction false} TrimBlanks(e: bytes, blanks: bytes)
    requires e != [] && !Separator(e[|e| - 1]) && Blanks(blanks)
    ensures TrimEnd(e + blanks) == e
    decreases |blanks|
  {
    if blanks == [] {
      assert e + blanks == e;
    } else {
      var n := |blanks| - 1;
      var s := e + blanks;
      assert s[|s| - 1] == blanks[n] && blanks[n] in blanks && s[..|s| - 1] == e + blanks[..n];
      assert forall c :: c in blanks[..n] ==> c in blanks;
      TrimBlanks(e, blanks[..n]);
    }
  }

  /** A printed range that opens the list, whatever follows its comma, is read as what was printed. */
  lemma PrintedIsRead(spec: Spec, zeros: nat, more: nat, tail: bytes)
    requires tail == [] || tail[0] == COMMA
    ensures var v := Print(spec, zeros, more) + tail;
            && FirstElement(v) == Print(spec, zeros, more) && Readable(v) && WellFormed(FirstElement(v))
            && AsRead(v) == Some(spec)
  {
    hide FirstElement, Value;
    var e := Print(spec, zeros, more);
    PrintedMeans(spec, zeros, more);
    PlainElement(e);
    FirstOfList([], e, [], tail);
    assert [] + e + [] + tail == e + tail;
  }

  lemma PlainElement(e: bytes)
    requires WellFormed(e)
    ensures e != [] && !Separator(e[0]) && !Separator(e[|e| - 1]) && COMMA !in e
  {
    var n1 := DigitRun(e, 0);
    var n2 := DigitRun(e, n1 + 1);
    assert n1 + 1 + n2 == |e|;
    assert forall k :: 0 <= k < |e| ==> IsDigit(e[k]) || e[k] == HYPHEN;
  }

  /** A range set is satisfiable in the sense of section 14.1.2 of RFC 9110. */
  predicate Satisfiable(spec: Spec, size: nat) {
    match spec
    case FirstLast(first, last) => first < size
    case From(first) => first < size
    case Suffix(n) => n > 0
  }

  /** Where the code departs from the RFC: backward ranges, and anything asked of an empty file. */
  lemma RejectsExactly(spec: Spec, size: nat)
    ensures Select(spec, size).None? <==>
            !Satisfiable(spec, size) || (spec.FirstLast? && spec.last < spec.first) || size == 0
  {
  }

  /** What a selected slice is: the positions of the file the range covers. */
  lemma SelectCovers(spec: Spec, size: nat, p: nat)
    requires Select(spec, size).Some?
    ensures var s := Select(spec, size).value;
            s.from <= p <= s.to <==>
              p < size && match spec
                          case FirstLast(first, last) => first <= p <= last
                          case From(first) => first <= p
                          case Suffix(n) => size <= p + n
  {
  }

  /**
   From the header value to the reply: for every file size, the 64-bit code gives
   the outcome of unbounded arithmetic on the first listed range, as far as it is read.
   */
  method RangeReply(v: bytes, size: off_t) returns (r: Option<Slice>, replyStart: off_t, replyLength: off_t)
    requires 0 <= size && WellFormed(FirstElement(v)) && AsRead(v).Some?
    ensures r == Select(AsRead(v).value, size as int)
    ensures Readable(v) ==> r == Select(Meaning(FirstElement(v)), size as int)
    ensures r.Some? ==> replyStart as int == r.value.from &&
                        replyLength as int == r.value.to - r.value.from + 1
  {
    hide FirstElement, WellFormed, Meaning, Given, Select;
    GivenMeans(v);
    SaturationIsExact(AsRead(v).value, size as int);
    var f := ParseRangeField(v);
    r, replyStart, replyLength := SelectRange(f, size);
  }
}
