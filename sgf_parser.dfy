/**
 * The SGF reader of sgf_parser.go: it checks the outer parentheses, cuts the
 * body into node texts, turns move nodes into GTP moves and hands every other
 * node to the property handler, which fills in setup stones, rules, komi and
 * board size.
 */
module SgfParser {
  import opened GoBytes

  // ---------------------------------------------------------------------
  // Coordinates

  /** The GTP column letters, A to T without I. */
  const GtpColumns: Bytes := "ABCDEFGHJKLMNOPQRST"

  /** The GTP vertex with column number col (0-based, I skipped) and row number row. */
  function Vertex(col: nat, row: nat): Bytes
    requires col < |GtpColumns|
  {
    [GtpColumns[col]] + Decimal(row)
  }

  /**
   * convertToGTP: SGF "cr" (column c, row r, both from 'a') to GTP, in uint8
   * arithmetic.  Column 's' is refused because its shifted index 19 fails the
   * bound, and '`' is accepted because 0x60 - 'a' wraps to 255 and the
   * increment wraps that to column 0.
   */
  function ConvertToGTP(sgfPos: Bytes): (r: (Bytes, bool))
    ensures !r.1 ==> r.0 == ""
    ensures r.1 <==> |sgfPos| == 2 && 'a' <= sgfPos[1] <= 's'
                     && ('a' <= sgfPos[0] <= 'r' || sgfPos[0] == '`')
    ensures r.1 && sgfPos[0] != '`' ==>
              r.0 == Vertex(Ord(sgfPos[0]) - Ord('a'), 19 - (Ord(sgfPos[1]) - Ord('a')))
    ensures r.1 && sgfPos[0] == '`' ==> r.0 == Vertex(0, 19 - (Ord(sgfPos[1]) - Ord('a')))
  {
    if |sgfPos| != 2 then ("", false)
    else
      var col0 := Sub8(Ord(sgfPos[0]), Ord('a'));
      var col := if col0 >= 8 then Add8(col0, 1) else col0;
      var row := Sub8(19, Sub8(Ord(sgfPos[1]), Ord('a')));
      if col >= 19 || row < 1 || row > 19 then ("", false)
      else ([Chr(Add8(col, Ord('A')))] + Decimal(row), true)
  }

  /** The 19th column, 's', is refused on every row. */
  lemma LastColumnRejected(row: Byte)
    ensures !ConvertToGTP(['s', row]).1
  {
  }

  /** No vertex that ConvertToGTP produces has column I or T. */
  lemma NeverColumnIOrT(sgfPos: Bytes)
    requires ConvertToGTP(sgfPos).1
    ensures ConvertToGTP(sgfPos).0[0] != 'I' && ConvertToGTP(sgfPos).0[0] != 'T'
  {
    var c := if sgfPos[0] == '`' then 0 else Ord(sgfPos[0]) - Ord('a');
    assert ConvertToGTP(sgfPos).0[0] == GtpColumns[c];
  }

  /** The index of letter c in GtpColumns, if it is there. */
  function ColumnOf(c: Byte): (r: Option<nat>)
    ensures r.Some? ==> r.value < |GtpColumns| && GtpColumns[r.value] == c
    ensures r.None? ==> forall k :: 0 <= k < |GtpColumns| ==> GtpColumns[k] != c
  {
    if 'A' <= c <= 'H' then Some(Ord(c) - Ord('A'))
    else if 'J' <= c <= 'T' then Some(Ord(c) - Ord('A') - 1)
    else None
  }

  /**
   * The inverse conversion, GTP vertex to SGF coordinate, for columns A..T
   * without I and rows "1".."19" written without a leading zero.
   */
  function FromGTP(v: Bytes): (r: Option<Bytes>)
    ensures r.Some? ==> |r.value| == 2 && 'a' <= r.value[0] <= 's' && 'a' <= r.value[1] <= 's'
  {
    if |v| < 2 || |v| > 3 || ColumnOf(v[0]).None? then None
    else
      var digits := v[1..];
      if !(forall k :: 0 <= k < |digits| ==> IsDigit(digits[k])) || digits[0] == '0' then None
      else
        var row := DigitsValue(digits);
        if row < 1 || row > 19 then None
        else Some([Chr(Ord('a') + ColumnOf(v[0]).value), Chr(Ord('a') + 19 - row)])
  }

  /** Every coordinate ConvertToGTP accepts, apart from the wrapped '`', comes back from FromGTP. */
  lemma ConvertRoundTrip(sgfPos: Bytes)
    requires ConvertToGTP(sgfPos).1 && sgfPos[0] != '`'
    ensures FromGTP(ConvertToGTP(sgfPos).0) == Some(sgfPos)
  {
    var c := Ord(sgfPos[0]) - Ord('a');
    var row := 19 - (Ord(sgfPos[1]) - Ord('a'));
    var v := ConvertToGTP(sgfPos).0;
    assert v == [GtpColumns[c]] + Decimal(row);
    assert v[1..] == Decimal(row);
    DecimalRoundTrip(row);
    ColumnOfLetter(c);
    RowText(row);
    assert [Chr(Ord('a') + c), Chr(Ord('a') + 19 - row)] == sgfPos;
  }

  /** ColumnOf undoes the indexing of GtpColumns. */
  lemma ColumnOfLetter(c: nat)
    requires c < |GtpColumns|
    ensures ColumnOf(GtpColumns[c]) == Some(c)
  {
    assert GtpColumns[c] == Chr(Ord('A') + (if c >= 8 then c + 1 else c));
  }

  /** A row number is written with one or two digits and no leading zero. */
  lemma RowText(row: nat)
    requires 1 <= row <= 19
    ensures 1 <= |Decimal(row)| <= 2 && Decimal(row)[0] != '0'
  {
    if row >= 10 {
      assert Decimal(row) == Decimal(row / 10) + [DigitChar(row % 10)];
    }
  }

  /** FromGTP only produces coordinates that ConvertToGTP maps back to the same vertex (column T aside). */
  lemma FromGTPRoundTrip(v: Bytes)
    requires FromGTP(v).Some? && v[0] != 'T'
    ensures ConvertToGTP(FromGTP(v).value) == (v, true)
  {
    var digits := v[1..];
    var row := DigitsValue(digits);
    var c := ColumnOf(v[0]).value;
    var p := FromGTP(v).value;
    assert Ord(p[0]) - Ord('a') == c && c < 18;
    assert Ord(p[1]) - Ord('a') == 19 - row;
    CanonicalDigits(digits);
    assert v == [v[0]] + digits;
  }

  /** A one- or two-digit text without a leading zero is the decimal text of its value. */
  lemma CanonicalDigits(ds: Bytes)
    requires 1 <= |ds| <= 2 && forall k :: 0 <= k < |ds| ==> IsDigit(ds[k])
    requires ds[0] != '0'
    ensures Decimal(DigitsValue(ds)) == ds
  {
    if |ds| == 2 {
      var c, d := ds[0], ds[1];
      assert ds[..1] == [c] && [c][..0] == [];
      assert DigitsValue(ds) == 10 * DigitValue(c) + DigitValue(d);
      TwoDigits(c, d);
      assert ds == [c, d];
    } else {
      var c := ds[0];
      assert ds == [c] && [c][..0] == [];
      OneDigit(c);
    }
  }

  lemma OneDigit(c: Byte)
    requires IsDigit(c)
    ensures Decimal(DigitValue(c)) == [c]
  {
  }

  lemma TwoDigits(c: Byte, d: Byte)
    requires IsDigit(c) && IsDigit(d) && c != '0'
    ensures Decimal(10 * DigitValue(c) + DigitValue(d)) == [c, d]
  {
    var n := 10 * DigitValue(c) + DigitValue(d);
    assert n / 10 == DigitValue(c) && n % 10 == DigitValue(d);
    OneDigit(c);
    assert DigitChar(DigitValue(d)) == d;
  }

  /** On the board's own letters the conversion is one-to-one; only '`' aliases column 'a'. */
  lemma ConvertInjective(p: Bytes, q: Bytes)
    requires ConvertToGTP(p).1 && ConvertToGTP(q).1 && p[0] != '`' && q[0] != '`'
    requires ConvertToGTP(p).0 == ConvertToGTP(q).0
    ensures p == q
  {
    ConvertRoundTrip(p);
    ConvertRoundTrip(q);
  }

  lemma BacktickAliasesColumnA(row: Byte)
    ensures ConvertToGTP(['`', row]) == ConvertToGTP(['a', row])
  {
  }

  // ---------------------------------------------------------------------
  // extractPositions: every match of \[([a-z]{2})\], in order

  predicate PairAt(s: Bytes, i: int) {
    0 <= i && i + 4 <= |s| && s[i] == '[' && IsLower(s[i + 1]) && IsLower(s[i + 2]) && s[i + 3] == ']'
  }

  predicate IsTwoLower(p: Bytes) {
    |p| == 2 && IsLower(p[0]) && IsLower(p[1])
  }

  /** The submatches of \[([a-z]{2})\] in s, leftmost first and not overlapping. */
  function BracketPairs(s: Bytes): (r: seq<Bytes>)
    ensures forall k :: 0 <= k < |r| ==> IsTwoLower(r[k])
    decreases |s|
  {
    if |s| < 4 then []
    else if PairAt(s, 0) then [s[1..3]] + BracketPairs(s[4..])
    else BracketPairs(s[1..])
  }

  /** s holds the bracketed value x at byte i. */
  predicate PairValueAt(s: Bytes, i: int, x: Bytes) {
    PairAt(s, i) && s[i + 1..i + 3] == x
  }

  lemma PairValueShift(s: Bytes, k: nat, j: int, x: Bytes)
    requires k <= |s| && 0 <= j
    ensures PairValueAt(s[k..], j, x) <==> PairValueAt(s, j + k, x)
  {
    if j + 4 <= |s| - k {
      assert s[k..][j + 1..j + 3] == s[j + k + 1..j + k + 3];
    }
  }

  /** A value is found exactly when it stands, bracketed, somewhere in s. */
  lemma {:induction false} BracketPairsMembers(s: Bytes, x: Bytes)
    ensures x in BracketPairs(s) <==> exists i :: PairValueAt(s, i, x)
    decreases |s|
  {
    if |s| < 4 {
      assert forall i :: !PairValueAt(s, i, x);
    } else {
      var k := if PairAt(s, 0) then 4 else 1;
      var t := s[k..];
      BracketPairsMembers(t, x);
      if PairAt(s, 0) && x == s[1..3] {
        assert PairValueAt(s, 0, x);
      }
      if i :| PairValueAt(s, i, x) {
        if i >= k {
          PairValueShift(s, k, i - k, x);
        } else {
          // a match at 1, 2 or 3 would overlap the brackets at 0 and 3
          assert i == 0;
        }
      }
      if j :| PairValueAt(t, j, x) {
        PairValueShift(s, k, j, x);
      }
    }
  }

  /** A bracketed pair at the front comes first. */
  lemma BracketPairsCons(x: Bytes, rest: Bytes)
    requires IsTwoLower(x)
    ensures BracketPairs("[" + x + "]" + rest) == [x] + BracketPairs(rest)
  {
    var s := "[" + x + "]" + rest;
    assert PairAt(s, 0) && s[1..3] == x && s[4..] == rest;
  }

  /** A byte that does not open a bracket is skipped. */
  lemma BracketPairsSkip(c: Byte, rest: Bytes)
    requires c != '['
    ensures BracketPairs([c] + rest) == BracketPairs(rest)
  {
    var s := [c] + rest;
    assert s[1..] == rest;
    if |rest| < 4 && |s| >= 4 {
      assert !PairAt(rest, 0);
      assert BracketPairs(rest) == [];
    }
  }

  /** Bytes without a '[' in front of a text add no pairs. */
  lemma {:induction false} NoBracketPrefix(pre: Bytes, rest: Bytes)
    requires '[' !in pre
    ensures BracketPairs(pre + rest) == BracketPairs(rest)
    decreases |pre|
  {
    if pre != [] {
      assert pre + rest == [pre[0]] + (pre[1..] + rest);
      assert pre[0] in pre && forall c :: c in pre[1..] ==> c in pre;
      NoBracketPrefix(pre[1..], rest);
      BracketPairsSkip(pre[0], pre[1..] + rest);
    } else {
      assert pre + rest == rest;
    }
  }

  /** The values ps, each written in brackets, one after another. */
  function Bracketed(ps: seq<Bytes>): (r: Bytes)
    decreases |ps|
  {
    if ps == [] then [] else "[" + ps[0] + "]" + Bracketed(ps[1..])
  }

  /** A run of bracketed two-letter values is read back value by value, in order. */
  lemma {:induction false} BracketedPairs(ps: seq<Bytes>, rest: Bytes)
    requires forall k :: 0 <= k < |ps| ==> IsTwoLower(ps[k])
    ensures BracketPairs(Bracketed(ps) + rest) == ps + BracketPairs(rest)
    decreases |ps|
  {
    if ps != [] {
      var tail := Bracketed(ps[1..]) + rest;
      assert forall k :: 0 <= k < |ps| - 1 ==> ps[1..][k] == ps[k + 1];
      calc {
        BracketPairs(Bracketed(ps) + rest);
        { BracketedCons(ps, rest); }
        BracketPairs("[" + ps[0] + "]" + tail);
        { BracketPairsCons(ps[0], tail); }
        [ps[0]] + BracketPairs(tail);
        { BracketedPairs(ps[1..], rest); }
        [ps[0]] + (ps[1..] + BracketPairs(rest));
        { assert ps == [ps[0]] + ps[1..]; }
        ps + BracketPairs(rest);
      }
    } else {
      assert Bracketed(ps) + rest == rest;
    }
  }

  lemma BracketedCons(ps: seq<Bytes>, rest: Bytes)
    requires ps != []
    ensures Bracketed(ps) + rest == "[" + ps[0] + "]" + (Bracketed(ps[1..]) + rest)
  {
  }

  /** extractPositions on an AB node with three values, as in the package's test AB[aa][bb][cc]. */
  lemma ThreeSetupPairs(p1: Bytes, p2: Bytes, p3: Bytes)
    requires IsTwoLower(p1) && IsTwoLower(p2) && IsTwoLower(p3)
    ensures BracketPairs("AB" + Bracketed([p1, p2, p3])) == [p1, p2, p3]
  {
    BracketedPairs([p1, p2, p3], []);
    NoBracketPrefix("AB", Bracketed([p1, p2, p3]));
    assert Bracketed([p1, p2, p3]) + [] == Bracketed([p1, p2, p3]);
  }

  /** extractPositions: fills a slice of the regexp's length, one submatch per index. */
  method ExtractPositions(prop: Bytes) returns (positions: seq<Bytes>)
    ensures positions == BracketPairs(prop)
  {
    var matches := BracketPairs(prop);
    var buffer := new Bytes[|matches|];
    for i := 0 to |matches|
      invariant forall k :: 0 <= k < i ==> buffer[k] == matches[k]
    {
      buffer[i] := matches[i];
    }
    positions := buffer[..];
  }

  // ---------------------------------------------------------------------
  // handleSGFProperty

  /**
   * Komi as parseSGF holds it.  DefaultKomi is 7.5; ScannedFrom(prior, node)
   * is what fmt.Sscanf(node, "KM[%f]", &komi) leaves when komi was prior:
   * the number it reads, or prior when the scan fails.  The float itself is
   * not computed here.
   */
  datatype Komi = DefaultKomi | ScannedFrom(prior: Komi, node: Bytes)

  /** The property prefixes and values the reader looks for. */
  const SizeKey: Bytes := "SZ["
  const KomiKey: Bytes := "KM["
  const RulesKey: Bytes := "RU["
  const BlackSetupKey: Bytes := "AB["
  const WhiteSetupKey: Bytes := "AW["
  const BlackMoveKey: Bytes := "B["
  const WhiteMoveKey: Bytes := "W["
  const CloseBracket: Bytes := "]"
  const Black: Bytes := "B"
  const White: Bytes := "W"
  const DefaultRules: Bytes := "tromp-taylor"

  /** The four variables handleSGFProperty updates through its pointer arguments. */
  datatype Setup = Setup(initialStones: seq<Pair>, rules: Bytes, komi: Komi, boardSize: int)

  /** The stones of one AB or AW node: every position that converts, in order; others are dropped. */
  function SetupStones(player: Bytes, positions: seq<Bytes>): (r: seq<Pair>)
    ensures |r| <= |positions|
    ensures forall k :: 0 <= k < |r| ==> r[k].player == player
    decreases |positions|
  {
    if positions == [] then []
    else
      var last := positions[|positions| - 1];
      var (gtpPos, valid) := ConvertToGTP(last);
      SetupStones(player, positions[..|positions| - 1]) + (if valid then [Pair(player, gtpPos)] else [])
  }

  /** A stone is placed for a position exactly when it converts. */
  lemma {:induction false} SetupStonesMembers(player: Bytes, positions: seq<Bytes>, v: Bytes)
    ensures Pair(player, v) in SetupStones(player, positions)
            <==> exists p :: p in positions && ConvertToGTP(p) == (v, true)
    decreases |positions|
  {
    if positions != [] {
      var init := positions[..|positions| - 1];
      var last := positions[|positions| - 1];
      SetupStonesMembers(player, init, v);
      assert positions == init + [last];
      if ConvertToGTP(last) == (v, true) {
        assert last in positions;
      }
    }
  }

  /** Setup stones from a list whose positions all fail to convert: none. */
  lemma {:induction false} SetupStonesAllInvalid(player: Bytes, positions: seq<Bytes>)
    requires forall k :: 0 <= k < |positions| ==> !ConvertToGTP(positions[k]).1
    ensures SetupStones(player, positions) == []
    decreases |positions|
  {
    if positions != [] {
      SetupStonesAllInvalid(player, positions[..|positions| - 1]);
    }
  }

  /**
   * The effect of handleSGFProperty on the four variables.  Only the leading
   * property is looked at: SZ, KM and RU read from the start of the node, and
   * an AB or AW node takes every bracketed two-letter value in the whole node.
   */
  function HandleProperty(props: Bytes, s: Setup): (r: Setup)
    ensures !HasPrefix(props, BlackSetupKey) && !HasPrefix(props, WhiteSetupKey) ==> r.initialStones == s.initialStones
    ensures HasPrefix(props, BlackSetupKey) ==>
              r == s.(initialStones := s.initialStones + SetupStones(Black, BracketPairs(props)))
    ensures HasPrefix(props, WhiteSetupKey) ==>
              r == s.(initialStones := s.initialStones + SetupStones(White, BracketPairs(props)))
    ensures HasPrefix(props, RulesKey) ==> r.rules == TrimSuffix(props[3..], CloseBracket)
    ensures !HasPrefix(props, RulesKey) ==> r.rules == s.rules
    ensures HasPrefix(props, KomiKey) ==> r.komi == ScannedFrom(s.komi, props)
    ensures !HasPrefix(props, KomiKey) ==> r.komi == s.komi
    ensures HasPrefix(props, SizeKey) ==>
              r.boardSize == (if ScanInt(props[3..]).Some? then ScanInt(props[3..]).value else s.boardSize)
    ensures !HasPrefix(props, SizeKey) ==> r.boardSize == s.boardSize
  {
    if HasPrefix(props, SizeKey) then
      match ScanInt(props[3..])
      case Some(n) => s.(boardSize := n)
      case None => s
    else if HasPrefix(props, KomiKey) then s.(komi := ScannedFrom(s.komi, props))
    else if HasPrefix(props, RulesKey) then s.(rules := TrimSuffix(TrimPrefix(props, RulesKey), CloseBracket))
    else if HasPrefix(props, BlackSetupKey) then
      s.(initialStones := s.initialStones + SetupStones(Black, BracketPairs(props)))
    else if HasPrefix(props, WhiteSetupKey) then
      s.(initialStones := s.initialStones + SetupStones(White, BracketPairs(props)))
    else s
  }

  /** handleSGFProperty; the pointers become in and out parameters. */
  method HandleSGFProperty(props: Bytes, initialStones: seq<Pair>, rules: Bytes, komi: Komi, boardSize: int)
    returns (initialStones': seq<Pair>, rules': Bytes, komi': Komi, boardSize': int)
    ensures Setup(initialStones', rules', komi', boardSize')
            == HandleProperty(props, Setup(initialStones, rules, komi, boardSize))
  {
    initialStones', rules', komi', boardSize' := initialStones, rules, komi, boardSize;
    if HasPrefix(props, SizeKey) {
      var scanned := ScanInt(props[3..]);
      if scanned.Some? {
        boardSize' := scanned.value;
      }
    } else if HasPrefix(props, KomiKey) {
      komi' := ScannedFrom(komi, props);
    } else if HasPrefix(props, RulesKey) {
      rules' := TrimSuffix(TrimPrefix(props, RulesKey), CloseBracket);
    } else if HasPrefix(props, BlackSetupKey) {
      var positions := ExtractPositions(props);
      initialStones' := AppendStones(Black, positions, initialStones);
    } else if HasPrefix(props, WhiteSetupKey) {
      var positions := ExtractPositions(props);
      initialStones' := AppendStones(White, positions, initialStones);
    }
  }

  /** The loop of the AB and AW cases: append every position that converts. */
  method AppendStones(player: Bytes, positions: seq<Bytes>, stones: seq<Pair>) returns (stones': seq<Pair>)
    ensures stones' == stones + SetupStones(player, positions)
  {
    stones' := stones;
    for i := 0 to |positions|
      invariant stones' == stones + SetupStones(player, positions[..i])
    {
      var (gtpPos, valid) := ConvertToGTP(positions[i]);
      if valid {
        stones' := stones' + [Pair(player, gtpPos)];
      }
      assert positions[..i + 1][..i] == positions[..i];
    }
    assert positions[..|positions|] == positions;
  }

  // ---------------------------------------------------------------------
  // The node scanner: every match of ;([^;()]+) in the body

  predicate IsDelimiter(c: Byte) { c == ';' || c == '(' || c == ')' }

  /** A node text: a non-empty run of bytes, none of them ';', '(' or ')'. */
  predicate IsNodeText(t: Bytes) {
    |t| > 0 && forall j :: 0 <= j < |t| ==> !IsDelimiter(t[j])
  }

  /** The length of the longest prefix of s without a delimiter. */
  function RunLength(s: Bytes): (n: nat)
    ensures n <= |s|
    ensures forall j :: 0 <= j < n ==> !IsDelimiter(s[j])
    ensures n < |s| ==> IsDelimiter(s[n])
    decreases |s|
  {
    if |s| > 0 && !IsDelimiter(s[0]) then 1 + RunLength(s[1..]) else 0
  }

  /**
   * FindAllStringSubmatch(`;([^;()]+)`): after each ';' the longest
   * non-empty run of bytes that are not ';', '(' or ')'.  Nesting is not
   * looked at, so every variation's nodes come out in document order.
   */
  function NodeTexts(s: Bytes): (r: seq<Bytes>)
    ensures 2 * |r| <= |s|
    decreases |s|
  {
    if |s| == 0 then []
    else if s[0] == ';' then
      var n := RunLength(s[1..]);
      if n == 0 then NodeTexts(s[1..]) else [s[1..1 + n]] + NodeTexts(s[1 + n..])
    else NodeTexts(s[1..])
  }

  /** Every match is a node text. */
  lemma {:induction false} NodeTextsWellFormed(s: Bytes)
    ensures forall k :: 0 <= k < |NodeTexts(s)| ==> IsNodeText(NodeTexts(s)[k])
    decreases |s|
  {
    if |s| > 0 {
      var n := if s[0] == ';' then RunLength(s[1..]) else 0;
      if n == 0 {
        NodeTextsWellFormed(s[1..]);
      } else {
        NodeTextsWellFormed(s[1 + n..]);
        var r := NodeTexts(s);
        assert r == [s[1..1 + n]] + NodeTexts(s[1 + n..]);
        assert IsNodeText(s[1..1 + n]);
        assert forall k :: 1 <= k < |r| ==> r[k] == NodeTexts(s[1 + n..])[k - 1];
      }
    }
  }

  /** A run cannot reach past a delimiter that follows it. */
  lemma {:induction false} RunLengthAppend(a: Bytes, b: Bytes)
    requires b == [] || IsDelimiter(b[0])
    ensures RunLength(a + b) == RunLength(a)
    decreases |a|
  {
    if |a| > 0 && !IsDelimiter(a[0]) {
      assert (a + b)[1..] == a[1..] + b;
      RunLengthAppend(a[1..], b);
    }
  }

  /** Texts that meet at a delimiter are scanned independently: the scanner flattens variations. */
  lemma {:induction false} NodeTextsAppend(a: Bytes, b: Bytes)
    requires b == [] || IsDelimiter(b[0])
    ensures NodeTexts(a + b) == NodeTexts(a) + NodeTexts(b)
    decreases |a|
  {
    if |a| == 0 {
      assert a + b == b;
    } else {
      var n := RunLength(a[1..]);
      if a[0] == ';' && n > 0 {
        NodeTextsAppend(a[1 + n..], b);
        NodeTextsAppendMatch(a, b);
      } else {
        NodeTextsAppend(a[1..], b);
        NodeTextsAppendSkip(a, b);
      }
    }
  }

  /** The step of NodeTextsAppend where a starts with a match. */
  lemma NodeTextsAppendMatch(a: Bytes, b: Bytes)
    requires |a| > 0 && (b == [] || IsDelimiter(b[0]))
    requires a[0] == ';' && RunLength(a[1..]) > 0
    requires NodeTexts(a[1 + RunLength(a[1..])..] + b) == NodeTexts(a[1 + RunLength(a[1..])..]) + NodeTexts(b)
    ensures NodeTexts(a + b) == NodeTexts(a) + NodeTexts(b)
  {
    var n := RunLength(a[1..]);
    AppendFront(a, b);
    NodeTextsUnfold(a + b);
    NodeTextsUnfold(a);
    calc {
      NodeTexts(a + b);
      [a[1..1 + n]] + NodeTexts(a[1 + n..] + b);
      [a[1..1 + n]] + (NodeTexts(a[1 + n..]) + NodeTexts(b));
      { ConcatAssoc([a[1..1 + n]], NodeTexts(a[1 + n..]), NodeTexts(b)); }
      ([a[1..1 + n]] + NodeTexts(a[1 + n..])) + NodeTexts(b);
      NodeTexts(a) + NodeTexts(b);
    }
  }

  lemma ConcatAssoc(x: seq<Bytes>, y: seq<Bytes>, z: seq<Bytes>)
    ensures x + (y + z) == (x + y) + z
  {
  }

  /** The step of NodeTextsAppend where a's first byte is skipped. */
  lemma NodeTextsAppendSkip(a: Bytes, b: Bytes)
    requires |a| > 0 && (b == [] || IsDelimiter(b[0]))
    requires !(a[0] == ';' && RunLength(a[1..]) > 0)
    requires NodeTexts(a[1..] + b) == NodeTexts(a[1..]) + NodeTexts(b)
    ensures NodeTexts(a + b) == NodeTexts(a) + NodeTexts(b)
  {
    AppendFront(a, b);
    NodeTextsUnfold(a + b);
    NodeTextsUnfold(a);
  }

  /** One step of the scanner. */
  lemma NodeTextsUnfold(s: Bytes)
    requires |s| > 0
    ensures s[0] == ';' && RunLength(s[1..]) > 0 ==>
              NodeTexts(s) == [s[1..1 + RunLength(s[1..])]] + NodeTexts(s[1 + RunLength(s[1..])..])
    ensures !(s[0] == ';' && RunLength(s[1..]) > 0) ==> NodeTexts(s) == NodeTexts(s[1..])
  {
  }

  /** The front of a + b, up to the end of the run after a's first byte, lies in a. */
  lemma AppendFront(a: Bytes, b: Bytes)
    requires |a| > 0 && (b == [] || IsDelimiter(b[0]))
    ensures (a + b)[0] == a[0] && (a + b)[1..] == a[1..] + b
    ensures RunLength((a + b)[1..]) == RunLength(a[1..])
    ensures (a + b)[1..1 + RunLength(a[1..])] == a[1..1 + RunLength(a[1..])]
    ensures (a + b)[1 + RunLength(a[1..])..] == a[1 + RunLength(a[1..])..] + b
  {
    assert (a + b)[1..] == a[1..] + b;
    RunLengthAppend(a[1..], b);
  }

  /** One node: ';' followed by a node text that ends at a delimiter or at the end. */
  lemma NodeTextsCons(t: Bytes, rest: Bytes)
    requires IsNodeText(t)
    requires rest == [] || IsDelimiter(rest[0])
    ensures NodeTexts(";" + t + rest) == [t] + NodeTexts(rest)
  {
    var s := ";" + t + rest;
    assert s[1..] == t + rest;
    RunLengthAppend(t, rest);
    RunLengthWhole(t);
    assert s[1..1 + |t|] == t;
    assert s[1 + |t|..] == rest;
  }

  lemma {:induction false} RunLengthWhole(t: Bytes)
    requires forall j :: 0 <= j < |t| ==> !IsDelimiter(t[j])
    ensures RunLength(t) == |t|
    decreases |t|
  {
    if |t| > 0 {
      RunLengthWhole(t[1..]);
    }
  }

  // ---------------------------------------------------------------------
  // parseSGF

  datatype ParseError =
    | InvalidFormat                   // "invalid SGF format": no outer parentheses
    | InvalidPosition(pos: Bytes)     // "invalid SGF position": a move coordinate convertToGTP refuses
    | SliceOutOfRange(props: Bytes)   // props[2:4] on a move node shorter than 4 bytes panics

  /** The five results of parseSGF. */
  datatype Parsed = Parsed(setup: Setup, moves: seq<Pair>)

  const InitialSetup: Setup := Setup([], DefaultRules, DefaultKomi, 19)

  predicate IsMoveNode(props: Bytes) {
    HasPrefix(props, BlackMoveKey) || HasPrefix(props, WhiteMoveKey)
  }

  /** The move one move node yields: player from the first byte, coordinate from bytes 2 and 3. */
  function MoveOf(props: Bytes): (r: Result<Pair, ParseError>)
    requires IsMoveNode(props)
    ensures r.Success? <==> |props| >= 4 && ConvertToGTP(props[2..4]).1
    ensures r.Success? ==> r.value == Pair(props[..1], ConvertToGTP(props[2..4]).0)
                           && (r.value.player == Black || r.value.player == White)
    ensures r.Failure? && |props| < 4 ==> r.error == SliceOutOfRange(props)
    ensures r.Failure? && |props| >= 4 ==> r.error == InvalidPosition(props[2..4])
  {
    if |props| < 4 then Failure(SliceOutOfRange(props))
    else
      var pos := props[2..4];
      var (gtpPos, valid) := ConvertToGTP(pos);
      if !valid then Failure(InvalidPosition(pos)) else Success(Pair(props[..1], gtpPos))
  }

  /** The loop of parseSGF over the node texts, from the state acc on. */
  function ParseNodes(nodes: seq<Bytes>, acc: Parsed): (r: Result<Parsed, ParseError>)
    ensures r.Success? ==> |acc.moves| <= |r.value.moves| <= |acc.moves| + |nodes|
    ensures r.Success? ==> r.value.moves[..|acc.moves|] == acc.moves
    ensures r.Failure? ==> r.error.InvalidPosition? || r.error.SliceOutOfRange?
    decreases |nodes|
  {
    if nodes == [] then Success(acc)
    else if IsMoveNode(nodes[0]) then
      match MoveOf(nodes[0])
      case Failure(e) => Failure(e)
      case Success(m) => ParseNodes(nodes[1..], acc.(moves := acc.moves + [m]))
    else ParseNodes(nodes[1..], acc.(setup := HandleProperty(nodes[0], acc.setup)))
  }

  predicate Wrapped(t: Bytes) {
    |t| > 0 && t[0] == '(' && t[|t| - 1] == ')'
  }

  /** The text between the outer parentheses. */
  function Inner(t: Bytes): Bytes {
    if |t| >= 2 then t[1..|t| - 1] else []
  }

  /** The node texts parseSGF loops over. */
  function Body(content: Bytes): seq<Bytes>
  {
    var t := TrimSpace(content);
    if Wrapped(t) then NodeTexts(Inner(t)) else []
  }

  /** What parseSGF returns: an error value, or the five results. */
  function Parse(content: Bytes): (r: Result<Parsed, ParseError>)
    ensures !Wrapped(TrimSpace(content)) ==> r == Failure(InvalidFormat)
    ensures Wrapped(TrimSpace(content)) && r.Failure? ==> r.error.InvalidPosition? || r.error.SliceOutOfRange?
    ensures r.Success? ==> |r.value.moves| <= |Body(content)|
  {
    var t := TrimSpace(content);
    if !Wrapped(t) then Failure(InvalidFormat)
    else ParseNodes(Body(content), Parsed(InitialSetup, []))
  }

  method ParseSGF(content: Bytes) returns (r: Result<Parsed, ParseError>)
    ensures r == Parse(content)
  {
    var text := TrimSpace(content);
    if |text| == 0 || text[0] != '(' || text[|text| - 1] != ')' {
      ParseUnwrapped(content, text);
      return Failure(InvalidFormat);
    }
    ParseTrimmed(content, text);
    WrappedLength(text);
    text := text[1..|text| - 1];
    var matches := NodeTexts(text);
    r := ParseMatches(matches);
  }

  /** A wrapped text holds both parentheses, so it has at least two bytes. */
  lemma WrappedLength(t: Bytes)
    requires Wrapped(t)
    ensures |t| >= 2 && Inner(t) == t[1..|t| - 1]
  {
  }

  lemma ParseUnwrapped(content: Bytes, t: Bytes)
    requires t == TrimSpace(content) && !Wrapped(t)
    ensures Parse(content) == Failure(InvalidFormat)
  {
  }

  lemma ParseTrimmed(content: Bytes, t: Bytes)
    requires t == TrimSpace(content) && Wrapped(t)
    ensures Parse(content) == ParseNodes(NodeTexts(Inner(t)), Parsed(InitialSetup, []))
  {
  }

  /** The loop of parseSGF over the node texts, with its five result variables. */
  method ParseMatches(matches: seq<Bytes>) returns (r: Result<Parsed, ParseError>)
    ensures r == ParseNodes(matches, Parsed(InitialSetup, []))
  {
    var initialStones: seq<Pair>, moves: seq<Pair> := [], [];
    var rules: Bytes, komi, boardSize := DefaultRules, DefaultKomi, 19;
    for i := 0 to |matches|
      invariant ParseNodes(matches[i..], Parsed(Setup(initialStones, rules, komi, boardSize), moves))
                == ParseNodes(matches, Parsed(InitialSetup, []))
    {
      var props := matches[i];
      ParseNodesStep(matches[i..], Parsed(Setup(initialStones, rules, komi, boardSize), moves));
      assert matches[i..][1..] == matches[i + 1..];
      if HasPrefix(props, BlackMoveKey) || HasPrefix(props, WhiteMoveKey) {
        var player := props[..1];
        if |props| < 4 {
          return Failure(SliceOutOfRange(props));
        }
        var pos := props[2..4];
        var (gtpPos, valid) := ConvertToGTP(pos);
        if !valid {
          return Failure(InvalidPosition(pos));
        }
        moves := moves + [Pair(player, gtpPos)];
      } else {
        initialStones, rules, komi, boardSize := HandleSGFProperty(props, initialStones, rules, komi, boardSize);
      }
    }
    return Success(Parsed(Setup(initialStones, rules, komi, boardSize), moves));
  }

  /** One pass of parseSGF's loop on the first node of the list. */
  lemma ParseNodesStep(nodes: seq<Bytes>, acc: Parsed)
    requires nodes != []
    ensures IsMoveNode(nodes[0]) && MoveOf(nodes[0]).Failure? ==>
              ParseNodes(nodes, acc) == Failure(MoveOf(nodes[0]).error)
    ensures IsMoveNode(nodes[0]) && MoveOf(nodes[0]).Success? ==>
              ParseNodes(nodes, acc) == ParseNodes(nodes[1..], acc.(moves := acc.moves + [MoveOf(nodes[0]).value]))
    ensures !IsMoveNode(nodes[0]) ==>
              ParseNodes(nodes, acc) == ParseNodes(nodes[1..], acc.(setup := HandleProperty(nodes[0], acc.setup)))
  {
  }
}

/** What parseSGF's results mean, stated apart from its loop. */
module SgfParserProperties {
  import opened GoBytes
  import opened SgfParser

  /** Every move node of the list has a slice and a coordinate convertToGTP accepts. */
  predicate MovesValid(nodes: seq<Bytes>) {
    forall k :: 0 <= k < |nodes| && IsMoveNode(nodes[k]) ==> MoveOf(nodes[k]).Success?
  }

  /** One move per move node, in document order. */
  function MoveList(nodes: seq<Bytes>): (r: seq<Pair>)
    requires MovesValid(nodes)
    ensures |r| <= |nodes|
    ensures forall k :: 0 <= k < |r| ==> r[k].player == Black || r[k].player == White
    decreases |nodes|
  {
    if nodes == [] then []
    else (if IsMoveNode(nodes[0]) then [MoveOf(nodes[0]).value] else []) + MoveList(nodes[1..])
  }

  /** The setup after the non-move nodes of the list have been handled, in order. */
  function SetupAfter(nodes: seq<Bytes>, s: Setup): Setup
    decreases |nodes|
  {
    if nodes == [] then s
    else SetupAfter(nodes[1..], if IsMoveNode(nodes[0]) then s else HandleProperty(nodes[0], s))
  }

  /** The error of the first move node that fails. */
  function FirstError(nodes: seq<Bytes>): (e: ParseError)
    requires !MovesValid(nodes)
    ensures e.InvalidPosition? || e.SliceOutOfRange?
    decreases |nodes|
  {
    if IsMoveNode(nodes[0]) && MoveOf(nodes[0]).Failure? then MoveOf(nodes[0]).error
    else FirstError(nodes[1..])
  }

  /** The loop either fails at the first bad move node or yields all moves and the whole setup. */
  lemma {:induction false} ParseNodesOutcome(nodes: seq<Bytes>, acc: Parsed)
    ensures MovesValid(nodes) ==>
              ParseNodes(nodes, acc) == Success(Parsed(SetupAfter(nodes, acc.setup), acc.moves + MoveList(nodes)))
    ensures !MovesValid(nodes) ==> ParseNodes(nodes, acc) == Failure(FirstError(nodes))
    decreases |nodes|
  {
    if nodes != [] {
      var rest := nodes[1..];
      assert MovesValid(nodes) ==> MovesValid(rest) by {
        if MovesValid(nodes) {
          forall k | 0 <= k < |rest| && IsMoveNode(rest[k]) ensures MoveOf(rest[k]).Success? {
            assert rest[k] == nodes[k + 1];
          }
        }
      }
      assert !MovesValid(nodes) && !(IsMoveNode(nodes[0]) && MoveOf(nodes[0]).Failure?) ==> !MovesValid(rest) by {
        if !MovesValid(nodes) && !(IsMoveNode(nodes[0]) && MoveOf(nodes[0]).Failure?) {
          var k :| 0 <= k < |nodes| && IsMoveNode(nodes[k]) && !MoveOf(nodes[k]).Success?;
          assert k > 0 && rest[k - 1] == nodes[k];
        }
      }
      if IsMoveNode(nodes[0]) {
        if MoveOf(nodes[0]).Success? {
          var m := MoveOf(nodes[0]).value;
          ParseNodesOutcome(rest, acc.(moves := acc.moves + [m]));
          if MovesValid(nodes) {
            assert MoveList(nodes) == [m] + MoveList(rest);
            assert acc.moves + [m] + MoveList(rest) == acc.moves + MoveList(nodes);
          }
        }
      } else {
        ParseNodesOutcome(rest, acc.(setup := HandleProperty(nodes[0], acc.setup)));
        if MovesValid(nodes) {
          assert MoveList(nodes) == MoveList(rest);
        }
      }
    } else {
      assert acc.moves + MoveList(nodes) == acc.moves;
    }
  }

  /** parseSGF reports "invalid SGF format" exactly when the trimmed text is not wrapped in ( and ). */
  lemma ParseFormatError(content: Bytes)
    ensures Parse(content) == Failure(InvalidFormat) <==> !Wrapped(TrimSpace(content))
  {
    if Wrapped(TrimSpace(content)) {
      ParseNodesOutcome(Body(content), Parsed(InitialSetup, []));
    }
  }

  /**
   * On a wrapped text parseSGF succeeds exactly when every move node is
   * valid; its moves are then one per move node in document order, and its
   * setup is what the other nodes make of the defaults.  Otherwise the error
   * is that of the first bad move node, and setup coordinates never cause one.
   */
  lemma ParseOutcome(content: Bytes)
    requires Wrapped(TrimSpace(content))
    ensures Parse(content).Success? <==> MovesValid(Body(content))
    ensures MovesValid(Body(content)) ==>
              Parse(content).value == Parsed(SetupAfter(Body(content), InitialSetup), MoveList(Body(content)))
    ensures !MovesValid(Body(content)) ==> Parse(content) == Failure(FirstError(Body(content)))
  {
    ParseNodesOutcome(Body(content), Parsed(InitialSetup, []));
  }

  /** No node of the list starts with the given property prefix. */
  predicate NoneStartsWith(nodes: seq<Bytes>, prefix: Bytes) {
    forall k :: 0 <= k < |nodes| ==> !HasPrefix(nodes[k], prefix)
  }

  /** Rules, komi and board size keep their values unless a node starting with RU[, KM[ or SZ[ sets them. */
  lemma {:induction false} SetupDefaults(nodes: seq<Bytes>, s: Setup)
    ensures NoneStartsWith(nodes, RulesKey) ==> SetupAfter(nodes, s).rules == s.rules
    ensures NoneStartsWith(nodes, KomiKey) ==> SetupAfter(nodes, s).komi == s.komi
    ensures NoneStartsWith(nodes, SizeKey) ==> SetupAfter(nodes, s).boardSize == s.boardSize
    decreases |nodes|
  {
    if nodes != [] {
      var s' := if IsMoveNode(nodes[0]) then s else HandleProperty(nodes[0], s);
      SetupDefaults(nodes[1..], s');
      assert forall k :: 0 <= k < |nodes| - 1 ==> nodes[1..][k] == nodes[k + 1];
    }
  }

  /** With no node setting them, parseSGF returns rules "tromp-taylor", komi 7.5 and board size 19. */
  lemma ParseDefaults(content: Bytes, r: Parsed)
    requires Parse(content) == Success(r)
    ensures NoneStartsWith(Body(content), RulesKey) ==> r.setup.rules == DefaultRules
    ensures NoneStartsWith(Body(content), KomiKey) ==> r.setup.komi == DefaultKomi
    ensures NoneStartsWith(Body(content), SizeKey) ==> r.setup.boardSize == 19
  {
    SuccessSetup(content, r);
    SetupDefaults(Body(content), InitialSetup);
  }

  lemma {:induction false} SetupAfterAppend(a: seq<Bytes>, b: seq<Bytes>, s: Setup)
    ensures SetupAfter(a + b, s) == SetupAfter(b, SetupAfter(a, s))
    decreases |a|
  {
    if a == [] {
      assert a + b == b;
    } else {
      assert (a + b)[1..] == a[1..] + b;
      SetupAfterAppend(a[1..], b, if IsMoveNode(a[0]) then s else HandleProperty(a[0], s));
    }
  }

  /** An RU node is not a move node and sets the rules to its text after RU[, without a closing bracket. */
  lemma RulesNode(ru: Bytes, s: Setup)
    requires HasPrefix(ru, RulesKey)
    ensures !IsMoveNode(ru)
    ensures HandleProperty(ru, s).rules == TrimSuffix(ru[3..], CloseBracket)
  {
    assert ru[0] == 'R' && ru[1] == 'U' && ru[2] == '[' by { assert ru[..3] == RulesKey; }
  }

  /** An SZ node whose value is the decimal text of an int64 sets the board size to that number. */
  lemma SizeNode(sz: Bytes, n: nat, rest: Bytes, s: Setup)
    requires HasPrefix(sz, SizeKey) && sz[3..] == Decimal(n) + rest
    requires n <= MaxInt64 && (rest == [] || !IsDigit(rest[0]))
    ensures HandleProperty(sz, s).boardSize == n
  {
    ScanIntDecimal(n, rest);
  }

  /** The last RU node decides the rules, whatever came before it. */
  lemma LastRulesWin(nodes: seq<Bytes>, ru: Bytes, s: Setup)
    requires HasPrefix(ru, RulesKey)
    ensures SetupAfter(nodes + [ru], s).rules == TrimSuffix(ru[3..], CloseBracket)
  {
    SetupAfterAppend(nodes, [ru], s);
    var before := SetupAfter(nodes, s);
    RulesNode(ru, before);
    assert SetupAfter([ru], before) == SetupAfter([], HandleProperty(ru, before));
  }

  /** A successful parse's setup is what the non-move nodes make of the defaults. */
  lemma SuccessSetup(content: Bytes, r: Parsed)
    requires Parse(content) == Success(r)
    ensures r.setup == SetupAfter(Body(content), InitialSetup)
  {
    ParseFormatError(content);
    ParseOutcome(content);
  }

  /** The setup stones, node by node: for AB and AW nodes every bracketed pair that converts. */
  function StonesOf(nodes: seq<Bytes>): seq<Pair>
    decreases |nodes|
  {
    if nodes == [] then []
    else
      var props := nodes[0];
      var here :=
        if IsMoveNode(props) then []
        else if HasPrefix(props, BlackSetupKey) then SetupStones(Black, BracketPairs(props))
        else if HasPrefix(props, WhiteSetupKey) then SetupStones(White, BracketPairs(props))
        else [];
      here + StonesOf(nodes[1..])
  }

  /** The setup stones accumulate over the AB and AW nodes, in document order. */
  lemma {:induction false} SetupStonesAccumulate(nodes: seq<Bytes>, s: Setup)
    ensures SetupAfter(nodes, s).initialStones == s.initialStones + StonesOf(nodes)
    decreases |nodes|
  {
    if nodes != [] {
      var s' := if IsMoveNode(nodes[0]) then s else HandleProperty(nodes[0], s);
      SetupStonesAccumulate(nodes[1..], s');
    }
  }

  // ---------------------------------------------------------------------
  // Worked examples

  lemma VertexExamples()
    ensures Vertex(15, 16) == "Q16" && Vertex(3, 16) == "D16" && Vertex(3, 4) == "D4"
    ensures Vertex(0, 19) == "A19" && Vertex(1, 18) == "B18"
  {
    assert Decimal(16) == "16" by { assert Decimal(16) == Decimal(1) + [DigitChar(6)]; }
    assert Decimal(18) == "18" by { assert Decimal(18) == Decimal(1) + [DigitChar(8)]; }
    assert Decimal(19) == "19" by { assert Decimal(19) == Decimal(1) + [DigitChar(9)]; }
    assert GtpColumns[15] == 'Q' && GtpColumns[3] == 'D' && GtpColumns[1] == 'B';
  }

  /** The conversions of the package's tests that the code agrees with: pd is Q16, dd is D16, dp is D4 ... */
  lemma ConvertTestVertices(pd: Bytes, dd: Bytes, dp: Bytes)
    requires pd == "pd" && dd == "dd" && dp == "dp"
    ensures ConvertToGTP(pd) == ("Q16", true)
    ensures ConvertToGTP(dd) == ("D16", true)
    ensures ConvertToGTP(dp) == ("D4", true)
  {
    VertexExamples();
    assert pd[0] == 'p' && pd[1] == 'd' && dd[0] == 'd' && dd[1] == 'd' && dp[0] == 'd' && dp[1] == 'p';
  }

  /** ... aa is A19, the top left corner, and bb is B18. */
  lemma ConvertA19B18(aa: Bytes, bb: Bytes)
    requires aa == "aa" && bb == "bb"
    ensures ConvertToGTP(aa) == ("A19", true) && ConvertToGTP(bb) == ("B18", true)
  {
    VertexExamples();
    assert aa[0] == 'a' && aa[1] == 'a' && bb[0] == 'b' && bb[1] == 'b';
  }

  /** A text that starts with '(' and ends with ')' is parsed as the nodes between them. */
  lemma ParseWrapped(body: Bytes, nodes: seq<Bytes>)
    requires NodeTexts(body) == nodes
    ensures Parse("(" + body + ")") == ParseNodes(nodes, Parsed(InitialSetup, []))
  {
    var t: Bytes := "(" + body + ")";
    assert t[0] == '(' && t[|t| - 1] == ')';
    assert LeadingSpace(t) == 0 && TrailingSpace(t) == 0;
    assert Inner(t) == body;
  }

  lemma NodeTextsOfOne(a: Bytes)
    requires IsNodeText(a)
    ensures NodeTexts(";" + a) == [a]
  {
    NodeTextsCons(a, []);
    assert ";" + a == ";" + a + [];
  }

  lemma NodeTextsOfTwo(a: Bytes, b: Bytes)
    requires IsNodeText(a) && IsNodeText(b)
    ensures NodeTexts(";" + a + ";" + b) == [a, b]
  {
    var tail: Bytes := ";" + b;
    NodeTextsOfOne(b);
    NodeTextsCons(a, tail);
    assert ";" + a + ";" + b == ";" + a + tail;
  }

  lemma ParseTwoNodes(a: Bytes, b: Bytes)
    requires IsNodeText(a) && IsNodeText(b)
    ensures Parse("(" + (";" + a + ";" + b) + ")") == ParseNodes([a, b], Parsed(InitialSetup, []))
  {
    NodeTextsOfTwo(a, b);
    ParseWrapped(";" + a + ";" + b, [a, b]);
  }

  /** The loop over two move nodes that both convert. */
  lemma TwoMoves(a: Bytes, b: Bytes, m1: Pair, m2: Pair)
    requires IsMoveNode(a) && MoveOf(a) == Success(m1)
    requires IsMoveNode(b) && MoveOf(b) == Success(m2)
    ensures ParseNodes([a, b], Parsed(InitialSetup, [])) == Success(Parsed(InitialSetup, [m1, m2]))
  {
    var start := Parsed(InitialSetup, []);
    var acc := start.(moves := start.moves + [m1]);
    var done := acc.(moves := acc.moves + [m2]);
    assert [a, b][1..] == [b] && [b][1..] == [];
    assert done == Parsed(InitialSetup, [m1, m2]);
    calc {
      ParseNodes([a, b], start);
      ParseNodes([b], acc);
      ParseNodes([], done);
    }
  }

  /** A move node whose first byte is the player and whose next two bytes are "[" and a coordinate. */
  lemma MoveNodeOf(a: Bytes, player: Bytes, pos: Bytes)
    requires |a| >= 4 && a[1] == '[' && (player == Black || player == White) && a[..1] == player
    requires a[2..4] == pos && ConvertToGTP(pos).1
    ensures IsMoveNode(a) && MoveOf(a) == Success(Pair(player, ConvertToGTP(pos).0))
  {
    assert a[..2] == player + "[";
  }

  lemma MovesQ16D4(a: Bytes, b: Bytes)
    requires a == "B[pd]" && b == "W[dp]"
    ensures ParseNodes([a, b], Parsed(InitialSetup, []))
            == Success(Parsed(InitialSetup, [Pair("B", "Q16"), Pair("W", "D4")]))
  {
    var dd: Bytes := "dd";
    ConvertTestVertices(a[2..4], dd, b[2..4]);
    MoveNodeOf(a, Black, a[2..4]);
    MoveNodeOf(b, White, b[2..4]);
    TwoMoves(a, b, Pair(Black, "Q16"), Pair(White, "D4"));
  }

  /** A two-move game, (;B[pd];W[dp]): Black Q16, then White D4, with the defaults. */
  lemma ParseTwoMoves(a: Bytes, b: Bytes)
    requires a == "B[pd]" && b == "W[dp]"
    ensures Parse("(" + (";" + a + ";" + b) + ")")
            == Success(Parsed(InitialSetup, [Pair("B", "Q16"), Pair("W", "D4")]))
  {
    ParseTwoNodes(a, b);
    MovesQ16D4(a, b);
  }

  lemma MovesQ16ThenSqRefused(a: Bytes, b: Bytes)
    requires a == "B[pd]" && b == "W[sq]"
    ensures ParseNodes([a, b], Parsed(InitialSetup, [])) == Failure(InvalidPosition("sq"))
  {
    var dd: Bytes, dp: Bytes := "dd", "dp";
    ConvertTestVertices(a[2..4], dd, dp);
    MoveNodeOf(a, Black, a[2..4]);
    var sq := b[2..4];
    LastColumnRejected(b[3]);
    assert sq == ['s', b[3]] && b[..2] == WhiteMoveKey;
    assert MoveOf(b) == Failure(InvalidPosition(sq));
    var acc := Parsed(InitialSetup, [Pair(Black, "Q16")]);
    assert [a, b][1..] == [b];
    calc {
      ParseNodes([a, b], Parsed(InitialSetup, []));
      ParseNodes([b], acc);
      Failure(InvalidPosition(sq));
    }
  }

  /**
   * The package's long test game ends with W[sq]; the code refuses that
   * coordinate, so (;B[pd];W[sq]) fails with "invalid SGF position".
   */
  lemma LastColumnMoveAborts(a: Bytes, b: Bytes)
    requires a == "B[pd]" && b == "W[sq]"
    ensures Parse("(" + (";" + a + ";" + b) + ")") == Failure(InvalidPosition("sq"))
  {
    ParseTwoNodes(a, b);
    MovesQ16ThenSqRefused(a, b);
  }

  /** A move node shorter than four bytes stops the loop with the out-of-range slice. */
  lemma ShortMoveNode(a: Bytes, acc: Parsed)
    requires IsMoveNode(a) && |a| < 4
    ensures ParseNodes([a], acc) == Failure(SliceOutOfRange(a))
  {
  }

  /** A pass written (;B[]) makes props[2:4] go out of range. */
  lemma PassMovePanics(a: Bytes)
    requires a == "B[]"
    ensures Parse("(" + (";" + a) + ")") == Failure(SliceOutOfRange("B[]"))
  {
    NodeTextsOfOne(a);
    ParseWrapped(";" + a, [a]);
    assert a[..2] == BlackMoveKey;
    ShortMoveNode(a, Parsed(InitialSetup, []));
  }

  /** A record missing its closing parenthesis is refused before any node is looked at. */
  lemma MissingCloseRejected(body: Bytes)
    requires body == ";B[pd]"
    ensures Parse("(" + body) == Failure(InvalidFormat)
  {
    var t: Bytes := "(" + body;
    assert t[0] == '(' && t[|t| - 1] == ']';
    assert LeadingSpace(t) == 0 && TrailingSpace(t) == 0;
  }

  /** Variations are not skipped: (;B[pd](;W[dp])(;W[dd])) yields the nodes of both branches in document order. */
  lemma VariationsFlattened(a: Bytes, b: Bytes, c: Bytes)
    requires a == "B[pd]" && b == "W[dp]" && c == "W[dd]"
    ensures NodeTexts(";" + a + ("(;" + b + ")") + ("(;" + c + ")")) == [a, b, c]
  {
    var v1 := "(;" + b + ")";
    var v2 := "(;" + c + ")";
    VariationNodes(b);
    VariationNodes(c);
    NodeTextsAppend(v1, v2);
    NodeTextsCons(a, v1 + v2);
    assert ";" + a + v1 + v2 == ";" + a + (v1 + v2);
  }

  lemma VariationNodes(t: Bytes)
    requires IsNodeText(t)
    ensures NodeTexts("(;" + t + ")") == [t]
  {
    var s := "(;" + t + ")";
    assert s[1..] == ";" + t + ")";
    NodeTextsCons(t, ")");
    var close: Bytes := ")";
    assert NodeTexts(close) == NodeTexts(close[1..]);
  }

  /** The pairs of an AB node that carries three values and then a W value. */
  lemma SetupNodePairs(p1: Bytes, p2: Bytes, p3: Bytes, p4: Bytes)
    requires IsTwoLower(p1) && IsTwoLower(p2) && IsTwoLower(p3) && IsTwoLower(p4)
    ensures BracketPairs("AB" + Bracketed([p1, p2, p3]) + ("W" + Bracketed([p4]))) == [p1, p2, p3, p4]
  {
    var w := "W" + Bracketed([p4]);
    BracketedPairs([p4], []);
    assert Bracketed([p4]) + [] == Bracketed([p4]);
    NoBracketPrefix("W", Bracketed([p4]));
    BracketedPairs([p1, p2, p3], w);
    NoBracketPrefix("AB", Bracketed([p1, p2, p3]) + w);
    assert "AB" + Bracketed([p1, p2, p3]) + w == "AB" + (Bracketed([p1, p2, p3]) + w);
  }

  /**
   * AB[aa][zz][sa]W[bb]: the AB node takes the pair after W too, keeps the
   * pairs that convert and silently drops zz and the last-column sa.
   */
  lemma SetupNodeAbsorbsAll(p1: Bytes, p2: Bytes, p3: Bytes, p4: Bytes)
    requires p1 == "aa" && p2 == "zz" && p3 == "sa" && p4 == "bb"
    ensures HandleProperty("AB" + Bracketed([p1, p2, p3]) + ("W" + Bracketed([p4])), InitialSetup).initialStones
            == [Pair("B", "A19"), Pair("B", "B18")]
  {
    var t := "AB" + Bracketed([p1, p2, p3]) + ("W" + Bracketed([p4]));
    SetupNodePairs(p1, p2, p3, p4);
    assert t[..3] == "AB[" by {
      assert Bracketed([p1, p2, p3])[0] == '[';
    }
    SetupStonesExample(p1, p2, p3, p4);
  }

  lemma SetupStonesExample(p1: Bytes, p2: Bytes, p3: Bytes, p4: Bytes)
    requires p1 == "aa" && p2 == "zz" && p3 == "sa" && p4 == "bb"
    ensures SetupStones("B", [p1, p2, p3, p4]) == [Pair("B", "A19"), Pair("B", "B18")]
  {
    ConvertA19B18(p1, p4);
    assert !ConvertToGTP(p2).1 by { assert p2[1] == 'z'; }
    LastColumnRejected(p3[1]);
    assert p3 == ['s', p3[1]];
    var ps := [p1, p2, p3, p4];
    assert ps[..3] == [p1, p2, p3] && ps[..3][..2] == [p1, p2] && ps[..3][..2][..1] == [p1];
    assert [p1][..0] == [];
    assert SetupStones("B", [p1]) == [Pair("B", "A19")];
    assert SetupStones("B", [p1, p2]) == [Pair("B", "A19")];
    assert SetupStones("B", [p1, p2, p3]) == [Pair("B", "A19")];
  }
}
