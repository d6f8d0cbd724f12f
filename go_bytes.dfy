/**
 * Go strings are byte strings, and the core indexes and slices them by byte.
 * A `Byte` here is one byte of a Go string, written as a `char` below 256 so
 * that string literals can be used directly.  This module also holds the few
 * library routines of Go that the core calls on such strings.
 */
module GoBytes {

  type Byte = c: char | c as int < 256 witness 'a'
  type Bytes = seq<Byte>

  /** The value of a Go `byte` (uint8). */
  type U8 = x: int | 0 <= x < 256

  datatype Option<T> = None | Some(value: T)

  datatype Result<T, E> = Success(value: T) | Failure(error: E)

  /** Go's `[2]string{player, vertex}`, the element type of the stone and move lists. */
  datatype Pair = Pair(player: Bytes, vertex: Bytes)

  function Ord(c: Byte): U8 { c as int }

  function Chr(x: U8): Byte { x as char }

  /** uint8 addition and subtraction wrap around modulo 256. */
  function Add8(x: U8, y: U8): (r: U8)
    ensures r == (x + y) % 256
  {
    if x + y < 256 then x + y else x + y - 256
  }

  function Sub8(x: U8, y: U8): (r: U8)
    ensures r == (x - y) % 256
  {
    if x >= y then x - y else x - y + 256
  }

  predicate IsDigit(c: Byte) { '0' <= c <= '9' }

  predicate IsLower(c: Byte) { 'a' <= c <= 'z' }

  // ---------------------------------------------------------------------
  // strings.HasPrefix, strings.TrimPrefix, strings.TrimSuffix

  predicate HasPrefix(s: Bytes, prefix: Bytes) {
    |prefix| <= |s| && s[..|prefix|] == prefix
  }

  predicate HasSuffix(s: Bytes, suffix: Bytes) {
    |suffix| <= |s| && s[|s| - |suffix|..] == suffix
  }

  function TrimPrefix(s: Bytes, prefix: Bytes): (r: Bytes)
    ensures HasPrefix(s, prefix) ==> s == prefix + r
    ensures !HasPrefix(s, prefix) ==> r == s
  {
    if HasPrefix(s, prefix) then s[|prefix|..] else s
  }

  function TrimSuffix(s: Bytes, suffix: Bytes): (r: Bytes)
    ensures HasSuffix(s, suffix) ==> s == r + suffix
    ensures !HasSuffix(s, suffix) ==> r == s
  {
    if HasSuffix(s, suffix) then s[..|s| - |suffix|] else s
  }

  // ---------------------------------------------------------------------
  // Decimal digits: fmt's %d of a non-negative integer, and the value of a
  // digit string as strconv reads it.

  function DigitChar(d: nat): Byte
    requires d < 10
  {
    Chr(Ord('0') + d)
  }

  /** The decimal text of n, most significant digit first, without leading zeros. */
  function Decimal(n: nat): (r: Bytes)
    ensures |r| >= 1
    ensures forall k :: 0 <= k < |r| ==> IsDigit(r[k])
    ensures r[0] == '0' <==> n == 0
    ensures n < 10 <==> |r| == 1
    decreases n
  {
    if n < 10 then [DigitChar(n)] else Decimal(n / 10) + [DigitChar(n % 10)]
  }

  function DigitValue(c: Byte): nat
    requires IsDigit(c)
  {
    c as int - '0' as int
  }

  /** The value of a string of decimal digits. */
  function DigitsValue(ds: Bytes): nat
    requires forall k :: 0 <= k < |ds| ==> IsDigit(ds[k])
    decreases |ds|
  {
    if ds == [] then 0
    else 10 * DigitsValue(ds[..|ds| - 1]) + DigitValue(ds[|ds| - 1])
  }

  /** Reading back the decimal text of n gives n. */
  lemma {:induction false} DecimalRoundTrip(n: nat)
    ensures DigitsValue(Decimal(n)) == n
    decreases n
  {
    if n >= 10 {
      DecimalRoundTrip(n / 10);
      var r := Decimal(n);
      assert r[..|r| - 1] == Decimal(n / 10);
    }
  }

  /** Decimal is injective: different numbers have different texts. */
  lemma DecimalInjective(m: nat, n: nat)
    requires Decimal(m) == Decimal(n)
    ensures m == n
  {
    DecimalRoundTrip(m);
    DecimalRoundTrip(n);
  }

  // ---------------------------------------------------------------------
  // fmt's %c of a byte value: the UTF-8 encoding of the rune with that code point.

  function RuneBytes(v: U8): (r: Bytes)
    ensures v < 128 ==> r == [Chr(v)]
    ensures v >= 128 ==> |r| == 2 && Ord(r[0]) / 64 == 3 && Ord(r[1]) / 64 == 2
    ensures v >= 128 ==> (Ord(r[0]) % 64) * 64 + Ord(r[1]) % 64 == v
  {
    if v < 128 then [Chr(v)] else [Chr(0xC0 + v / 64), Chr(0x80 + v % 64)]
  }

  // ---------------------------------------------------------------------
  // strings.TrimSpace: removes every leading and trailing rune for which
  // unicode.IsSpace holds (U+0009..U+000D, U+0020, U+0085, U+00A0, U+1680,
  // U+2000..U+200A, U+2028, U+2029, U+202F, U+205F, U+3000), reading the
  // bytes as UTF-8.

  predicate Space1(a: Byte) { '\t' <= a <= '\r' || a == ' ' }

  predicate Space2(a: Byte, b: Byte) { a == '\U{C2}' && (b == '\U{85}' || b == '\U{A0}') }

  predicate Space3(a: Byte, b: Byte, c: Byte) {
    || (a == '\U{E1}' && b == '\U{9A}' && c == '\U{80}')
    || (a == '\U{E2}' && b == '\U{80}' && ('\U{80}' <= c <= '\U{8A}' || c == '\U{A8}' || c == '\U{A9}' || c == '\U{AF}'))
    || (a == '\U{E2}' && b == '\U{81}' && c == '\U{9F}')
    || (a == '\U{E3}' && b == '\U{80}' && c == '\U{80}')
  }

  /** r is the UTF-8 encoding of a rune that unicode.IsSpace accepts. */
  predicate IsSpaceRune(r: Bytes) {
    || (|r| == 1 && Space1(r[0]))
    || (|r| == 2 && Space2(r[0], r[1]))
    || (|r| == 3 && Space3(r[0], r[1], r[2]))
  }

  /** The byte length of the space rune s starts with, or 0 if it starts with none. */
  function LeadingSpace(s: Bytes): (n: nat)
    ensures n <= 3 && n <= |s|
    ensures n > 0 ==> IsSpaceRune(s[..n])
  {
    if |s| >= 1 && Space1(s[0]) then 1
    else if |s| >= 2 && Space2(s[0], s[1]) then 2
    else if |s| >= 3 && Space3(s[0], s[1], s[2]) then 3
    else 0
  }

  /** The byte length of the space rune s ends with, or 0 if it ends with none. */
  function TrailingSpace(s: Bytes): (n: nat)
    ensures n <= 3 && n <= |s|
    ensures n > 0 ==> IsSpaceRune(s[|s| - n..])
  {
    var k := |s|;
    if k >= 1 && Space1(s[k - 1]) then 1
    else if k >= 2 && Space2(s[k - 2], s[k - 1]) then 2
    else if k >= 3 && Space3(s[k - 3], s[k - 2], s[k - 1]) then 3
    else 0
  }

  /** LeadingSpace finds every space rune a string starts with. */
  lemma NoLeadingSpace(s: Bytes, k: nat)
    requires LeadingSpace(s) == 0 && 1 <= k <= |s|
    ensures !IsSpaceRune(s[..k])
  {
  }

  /** TrailingSpace finds every space rune a string ends with. */
  lemma NoTrailingSpace(s: Bytes, k: nat)
    requires TrailingSpace(s) == 0 && k < |s|
    ensures !IsSpaceRune(s[k..])
  {
  }

  /**
   * t is a run of whole space runes, one after another, read from the
   * front: t starts with a space rune, and so does what follows it, until
   * nothing is left.
   */
  ghost predicate SpaceRunes(t: Bytes)
    decreases |t|
  {
    |t| == 0 || (LeadingSpace(t) > 0 && SpaceRunes(t[LeadingSpace(t)..]))
  }

  /** t is a run of whole space runes, one after another, read from the back. */
  ghost predicate SpaceRunesBack(t: Bytes)
    decreases |t|
  {
    |t| == 0 || (TrailingSpace(t) > 0 && SpaceRunesBack(t[..|t| - TrailingSpace(t)]))
  }

  /** A space rune at the front is still found once bytes are cut off the end. */
  lemma LeadingSpaceTake(s: Bytes, p: nat)
    requires 0 < LeadingSpace(s) <= p <= |s|
    ensures LeadingSpace(s[..p]) == LeadingSpace(s)
  {
    assert s[..p][0] == s[0];
    if p >= 2 { assert s[..p][1] == s[1]; }
    if p >= 3 { assert s[..p][2] == s[2]; }
  }

  /** A space rune at the back is still found once bytes are cut off the front. */
  lemma TrailingSpaceDrop(s: Bytes, p: nat)
    requires 0 < TrailingSpace(s) <= |s| - p
    ensures TrailingSpace(s[p..]) == TrailingSpace(s)
  {
    var t := s[p..];
    assert t[|t| - 1] == s[|s| - 1];
    if |t| >= 2 { assert t[|t| - 2] == s[|s| - 2]; }
    if |t| >= 3 { assert t[|t| - 3] == s[|s| - 3]; }
  }

  lemma SliceMiddle(s: Bytes, j: nat, e: nat)
    requires j <= e <= |s|
    ensures s[j..][..e - j] == s[..e][j..]
  {
  }

  lemma SpaceRunesStep(u: Bytes, k: nat, rest: Bytes)
    requires 0 < k == LeadingSpace(u) && u[k..] == rest && SpaceRunes(rest)
    ensures SpaceRunes(u)
  {
  }

  lemma SpaceRunesBackStep(u: Bytes, k: nat, rest: Bytes)
    requires 0 < k == TrailingSpace(u) && u[..|u| - k] == rest && SpaceRunesBack(rest)
    ensures SpaceRunesBack(u)
  {
  }

  /** The number of bytes taken up by the space runes s starts with. */
  function LeftSpaceLength(s: Bytes): (n: nat)
    ensures n <= |s|
    ensures n == 0 <==> LeadingSpace(s) == 0
    decreases |s|
  {
    var k := LeadingSpace(s);
    if k == 0 then 0 else k + LeftSpaceLength(s[k..])
  }

  /** Where the space runes s ends with begin. */
  function RightSpaceCut(s: Bytes): (j: nat)
    ensures j <= |s|
    ensures j == |s| <==> TrailingSpace(s) == 0
    decreases |s|
  {
    var k := TrailingSpace(s);
    if k == 0 then |s| else RightSpaceCut(s[..|s| - k])
  }

  /** What LeftSpaceLength counts is a run of space runes, and no space rune follows it. */
  lemma {:induction false} LeftSpaceRun(s: Bytes)
    ensures SpaceRunes(s[..LeftSpaceLength(s)])
    ensures LeadingSpace(s[LeftSpaceLength(s)..]) == 0
    decreases |s|
  {
    var k := LeadingSpace(s);
    if k == 0 {
      assert s[..0] == [] && s[0..] == s;
    } else {
      var t := s[k..];
      var m := LeftSpaceLength(t);
      assert LeftSpaceLength(s) == k + m;
      LeftSpaceRun(t);
      assert t[m..] == s[k + m..];
      assert LeadingSpace(s[k + m..]) == 0;
      var u := s[..k + m];
      LeadingSpaceTake(s, k + m);
      SliceMiddle(s, k, k + m);
      assert LeadingSpace(u) == k;
      assert SpaceRunes(t[..m]);
      SpaceRunesStep(u, k, t[..m]);
    }
  }

  /** What follows RightSpaceCut is a run of space runes, and no space rune precedes it. */
  lemma {:induction false} RightSpaceRun(s: Bytes)
    ensures SpaceRunesBack(s[RightSpaceCut(s)..])
    ensures TrailingSpace(s[..RightSpaceCut(s)]) == 0
    decreases |s|
  {
    var k := TrailingSpace(s);
    if k == 0 {
      assert s[|s|..] == [] && s[..|s|] == s;
    } else {
      var t := s[..|s| - k];
      var j := RightSpaceCut(t);
      assert RightSpaceCut(s) == j;
      RightSpaceRun(t);
      assert t[..j] == s[..j];
      var u := s[j..];
      TrailingSpaceDrop(s, j);
      SliceMiddle(s, j, |s| - k);
      SpaceRunesBackStep(u, k, t[j..]);
    }
  }

  /** Removes the leading space runes. */
  function TrimLeftSpace(s: Bytes): (r: Bytes)
    ensures |r| <= |s| && r == s[|s| - |r|..]
    ensures SpaceRunes(s[..|s| - |r|]) && LeadingSpace(r) == 0
  {
    LeftSpaceRun(s);
    s[LeftSpaceLength(s)..]
  }

  /** Removes the trailing space runes. */
  function TrimRightSpace(s: Bytes): (r: Bytes)
    ensures |r| <= |s| && r == s[..|r|]
    ensures SpaceRunesBack(s[|r|..]) && TrailingSpace(r) == 0
  {
    RightSpaceRun(s);
    s[..RightSpaceCut(s)]
  }

  /** Cutting bytes off the end of a string that starts with no space rune leaves one that starts with none. */
  lemma LeadingSpacePrefix(s: Bytes, r: Bytes)
    requires LeadingSpace(s) == 0
    requires |r| <= |s| && r == s[..|r|]
    ensures LeadingSpace(r) == 0
  {
    if |r| >= 1 { assert r[0] == s[0]; }
    if |r| >= 2 { assert r[1] == s[1]; }
    if |r| >= 3 { assert r[2] == s[2]; }
  }

  /**
   * strings.TrimSpace: the result is s with a run of whole space runes cut
   * off each end, and it neither starts nor ends with a space rune.
   */
  function TrimSpace(s: Bytes): (r: Bytes)
    ensures |r| <= |s|
    ensures exists i, j :: 0 <= i <= j <= |s| && r == s[i..j] && SpaceRunes(s[..i]) && SpaceRunesBack(s[j..])
    ensures LeadingSpace(r) == 0 && TrailingSpace(r) == 0
    ensures LeadingSpace(s) == 0 && TrailingSpace(s) == 0 ==> r == s
  {
    var i := LeftSpaceLength(s);
    var left := s[i..];
    var j := i + RightSpaceCut(left);
    var r := left[..j - i];
    LeftSpaceRun(s);
    RightSpaceRun(left);
    LeadingSpacePrefix(left, r);
    assert r == s[i..j] && left[j - i..] == s[j..];
    r
  }

  // ---------------------------------------------------------------------
  // fmt.Sscanf's %d verb on a 64-bit int.

  const MinInt64: int := -0x8000_0000_0000_0000
  const MaxInt64: int := 0x7FFF_FFFF_FFFF_FFFF

  /** The number of leading bytes that are whole space runes other than a newline. */
  function SkipSpaceLength(s: Bytes): (n: nat)
    ensures n <= |s|
    decreases |s|
  {
    var k := LeadingSpace(s);
    if k == 0 || s[0] == '\n' then 0 else k + SkipSpaceLength(s[k..])
  }

  /** The length of the longest prefix of s made of decimal digits. */
  function DigitRun(s: Bytes): (n: nat)
    ensures n <= |s|
    ensures forall k :: 0 <= k < n ==> IsDigit(s[k])
    ensures n < |s| ==> !IsDigit(s[n])
    decreases |s|
  {
    if |s| > 0 && IsDigit(s[0]) then 1 + DigitRun(s[1..]) else 0
  }

  /**
   * The integer that %d reads from the front of s, or None when the scan
   * fails (fmt then leaves its operand unchanged): leading space runes are
   * skipped, a newline among them is an error, then come an optional sign,
   * at least one digit (as many as follow), and the value must fit in int64.
   */
  function ScanInt(s: Bytes): (r: Option<int>)
    ensures r.Some? ==> MinInt64 <= r.value <= MaxInt64
    ensures r.Some? ==> exists k :: 0 <= k < |s| && (IsDigit(s[k]) || s[k] == '+' || s[k] == '-')
  {
    var k := SkipSpaceLength(s);
    var r := ScanNumber(s[k..]);
    assert r.Some? ==> s[k..][0] == s[k];
    r
  }

  /** The number part of %d, once the spaces are skipped. */
  function ScanNumber(s: Bytes): (r: Option<int>)
    ensures r.Some? ==> MinInt64 <= r.value <= MaxInt64
    ensures r.Some? ==> |s| > 0 && (IsDigit(s[0]) || s[0] == '+' || s[0] == '-')
  {
    if |s| == 0 || s[0] == '\n' then None
    else
      var signed := s[0] == '+' || s[0] == '-';
      var start := if signed then 1 else 0;
      var n := DigitRun(s[start..]);
      if n == 0 then None
      else
        var magnitude: int := DigitsValue(s[start..start + n]);
        var v: int := if s[0] == '-' then -magnitude else magnitude;
        if MinInt64 <= v <= MaxInt64 then Some(v) else None
  }

  /** A run of digits followed by a non-digit, or by nothing, is read whole. */
  lemma {:induction false} DigitRunOf(ds: Bytes, rest: Bytes)
    requires forall k :: 0 <= k < |ds| ==> IsDigit(ds[k])
    requires rest == [] || !IsDigit(rest[0])
    ensures DigitRun(ds + rest) == |ds|
    decreases |ds|
  {
    if |ds| > 0 {
      assert (ds + rest)[0] == ds[0];
      assert (ds + rest)[1..] == ds[1..] + rest;
      DigitRunOf(ds[1..], rest);
    } else {
      assert ds + rest == rest;
    }
  }

  /** A string that starts with no space and no newline has its number read from the front. */
  lemma NoSpaceFront(s: Bytes)
    requires |s| > 0 && s[0] as int < 128 && !Space1(s[0])
    ensures ScanInt(s) == ScanNumber(s)
  {
    assert LeadingSpace(s) == 0;
    assert s[0..] == s;
  }

  lemma ScanNumberDecimal(n: nat, rest: Bytes)
    requires n <= MaxInt64 && (rest == [] || !IsDigit(rest[0]))
    ensures ScanNumber(Decimal(n) + rest) == Some(n)
  {
    var d := Decimal(n);
    var s := d + rest;
    assert s[0] == d[0];
    assert s[0..] == s;
    DigitRunOf(d, rest);
    assert s[0..|d|] == d;
    DecimalRoundTrip(n);
  }

  lemma ScanNumberNegative(n: nat, rest: Bytes, s: Bytes)
    requires n <= -MinInt64 && (rest == [] || !IsDigit(rest[0]))
    requires |s| > 0 && s[0] == '-' && s[1..] == Decimal(n) + rest
    ensures ScanNumber(s) == Some(-(n as int))
  {
    var d := Decimal(n);
    DigitRunOf(d, rest);
    assert s[1..][..|d|] == d;
    assert s[1..1 + |d|] == d;
    DecimalRoundTrip(n);
  }

  lemma DropFirst(c: Byte, t: Bytes)
    ensures ([c] + t)[0] == c && ([c] + t)[1..] == t
  {
  }

  /** %d reads back the decimal text of every int64 value, up to the first non-digit. */
  lemma ScanIntDecimal(n: nat, rest: Bytes)
    requires n <= MaxInt64 && (rest == [] || !IsDigit(rest[0]))
    ensures ScanInt(Decimal(n) + rest) == Some(n)
  {
    assert (Decimal(n) + rest)[0] == Decimal(n)[0];
    NoSpaceFront(Decimal(n) + rest);
    ScanNumberDecimal(n, rest);
  }

  /** A minus sign in front gives the negated value, down to the least int64. */
  lemma ScanIntNegative(n: nat, rest: Bytes)
    requires n <= -MinInt64 && (rest == [] || !IsDigit(rest[0]))
    ensures ScanInt(['-'] + (Decimal(n) + rest)) == Some(-(n as int))
  {
    var s := ['-'] + (Decimal(n) + rest);
    DropFirst('-', Decimal(n) + rest);
    NoSpaceFront(s);
    ScanNumberNegative(n, rest, s);
  }

  /** A space rune other than a newline in front does not change what is read. */
  lemma ScanIntSkipsSpace(sp: Bytes, t: Bytes)
    requires IsSpaceRune(sp) && sp[0] != '\n'
    ensures ScanInt(sp + t) == ScanInt(t)
  {
    var k := SkipSpaceLength(t);
    SkipSpaceFront(sp, t);
    DropAppend(sp, t, k);
    SameNumber(sp + t, t, |sp| + k, k);
  }

  /** Two strings whose numbers start at the same text read the same number. */
  lemma SameNumber(a: Bytes, b: Bytes, i: nat, j: nat)
    requires i == SkipSpaceLength(a) && j == SkipSpaceLength(b)
    requires a[i..] == b[j..]
    ensures ScanInt(a) == ScanInt(b)
  {
  }

  lemma SkipSpaceFront(sp: Bytes, t: Bytes)
    requires IsSpaceRune(sp) && sp[0] != '\n'
    ensures SkipSpaceLength(sp + t) == |sp| + SkipSpaceLength(t)
  {
    SpaceRuneFront(sp, t);
    assert (sp + t)[0] == sp[0];
  }

  lemma DropAppend(a: Bytes, b: Bytes, k: nat)
    requires k <= |b|
    ensures (a + b)[|a| + k..] == b[k..]
  {
  }

  /** A string that starts with a space rune has exactly that rune found at its front. */
  lemma SpaceRuneFront(sp: Bytes, t: Bytes)
    requires IsSpaceRune(sp)
    ensures LeadingSpace(sp + t) == |sp| && (sp + t)[|sp|..] == t
  {
    var s := sp + t;
    assert s[0] == sp[0];
    if |sp| >= 2 { assert s[1] == sp[1]; }
    if |sp| >= 3 { assert s[2] == sp[2]; }
  }

  /** A newline where the number should start makes the scan fail. */
  lemma ScanIntNewline(t: Bytes)
    ensures ScanInt(['\n'] + t) == None
  {
    var s := ['\n'] + t;
    DropFirst('\n', t);
    assert LeadingSpace(s) == 1;
    assert SkipSpaceLength(s) == 0;
    assert s[0..] == s;
  }

  /** Text that starts with neither a space, a sign nor a digit holds no number. */
  lemma ScanIntNoNumber(c: Byte, t: Bytes)
    requires c as int < 128 && !Space1(c) && !IsDigit(c) && c != '+' && c != '-'
    ensures ScanInt([c] + t) == None
  {
    var s := [c] + t;
    assert s[0] == c && LeadingSpace(s) == 0;
    assert s[0..] == s;
  }
}
