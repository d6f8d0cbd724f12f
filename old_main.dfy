/**
 * The first analysis tool (old/main.go): it reads setup stones and moves
 * off an SGF tree, converts coordinates without checking them, and picks
 * the move of a player whose winrate dropped most.
 */
module OldMain {
  import opened GoBytes
  import opened SgfTree
  import SgfParser

  // ---------------------------------------------------------------------
  // convertToGTP, the unchecked variant

  /**
   * An empty coordinate is a pass.  Otherwise the first two bytes are read
   * in uint8 arithmetic: column index c - 'a', incremented from 8 on to
   * skip I, printed with %c after adding 'A'; row 19 - (r - 'a'), printed
   * with %d.  Nothing is checked, so off-board input gives off-board text.
   * A one-byte coordinate makes Go's sgfCoord[1] panic.
   */
  function ConvertToGTP(sgfCoord: Bytes): (r: Bytes)
    requires |sgfCoord| != 1
    ensures sgfCoord == [] ==> r == "pass"
  {
    if sgfCoord == [] then "pass"
    else
      var col0 := Sub8(Ord(sgfCoord[0]), Ord('a'));
      var row := Sub8(19, Sub8(Ord(sgfCoord[1]), Ord('a')));
      var col := if col0 >= 8 then Add8(col0, 1) else col0;
      RuneBytes(Add8(col, Ord('A'))) + Decimal(row)
  }

  /** On the board, a..s by a..s, the result is the GTP vertex: column letter without I, row 19 - (r - 'a'). */
  lemma OnBoardIsVertex(c: Bytes)
    requires |c| >= 2 && 'a' <= c[0] <= 's' && 'a' <= c[1] <= 's'
    ensures ConvertToGTP(c) == SgfParser.Vertex(Ord(c[0]) - Ord('a'), 19 - (Ord(c[1]) - Ord('a')))
  {
    var col0 := Ord(c[0]) - Ord('a');
    var col := if col0 >= 8 then col0 + 1 else col0;
    assert Sub8(Ord(c[0]), Ord('a')) == col0;
    assert Add8(col, Ord('A')) == Ord('A') + col;
    assert SgfParser.GtpColumns[col0] == Chr(Ord('A') + col);
  }

  /** Only the first two bytes of a coordinate are looked at. */
  lemma ReadsTwoBytes(c: Bytes, d: Bytes)
    requires |c| >= 2 && |d| >= 2 && c[..2] == d[..2]
    ensures ConvertToGTP(c) == ConvertToGTP(d)
  {
    assert c[0] == d[0] && c[1] == d[1] by { assert c[..2][0] == c[0] && c[..2][1] == c[1]; }
  }

  lemma DecimalOfByte(n: nat)
    requires n < 256
    ensures 1 <= |Decimal(n)| <= 3
  {
    if n >= 10 {
      assert Decimal(n) == Decimal(n / 10) + [DigitChar(n % 10)];
    }
  }

  /** There is no failure path: every coordinate gives a column and at least one row digit. */
  lemma AlwaysAVertex(c: Bytes)
    requires |c| >= 2
    ensures 2 <= |ConvertToGTP(c)| <= 5
    ensures var r := ConvertToGTP(c);
      exists k :: 1 <= k <= 2 && 1 <= |r| - k <= 3 && (forall d :: k <= d < |r| ==> IsDigit(r[d]))
        && DigitsValue(r[k..]) == Sub8(19, Sub8(Ord(c[1]), Ord('a')))
  {
    var col0 := Sub8(Ord(c[0]), Ord('a'));
    var row := Sub8(19, Sub8(Ord(c[1]), Ord('a')));
    var col := if col0 >= 8 then Add8(col0, 1) else col0;
    var letter := RuneBytes(Add8(col, Ord('A')));
    var r := ConvertToGTP(c);
    assert r == letter + Decimal(row);
    var k := |letter|;
    assert r[k..] == Decimal(row);
    DecimalOfByte(row);
    DecimalRoundTrip(row);
  }

  /** On every coordinate the checking variant of sgf_parser.go accepts, both give the same vertex. */
  lemma AgreesWithValidating(c: Bytes)
    requires SgfParser.ConvertToGTP(c).1
    ensures ConvertToGTP(c) == SgfParser.ConvertToGTP(c).0
  {
    if c[0] == '`' {
      // col0 = 0x60 - 'a' wraps to 255; 255 >= 8, so it is incremented and wraps to 0
      var row := 19 - (Ord(c[1]) - Ord('a'));
      assert ConvertToGTP(c) == RuneBytes(Ord('A')) + Decimal(row);
    }
  }

  /** Off the board the text is not a vertex: "zz" gives "[250" (column 26 past 'A', row 19 - 25 wrapped). */
  lemma OffBoardText()
    ensures ConvertToGTP("zz") == "[250"
  {
    var zz: Bytes := "zz";
    assert zz[0] == 'z' && zz[1] == 'z';
    assert Decimal(250) == "250" by {
      assert Decimal(250) == Decimal(25) + [DigitChar(0)];
      assert Decimal(25) == Decimal(2) + [DigitChar(5)];
    }
  }

  /** No on-board coordinate is converted to column I. */
  lemma OnBoardNeverI(c: Bytes)
    requires |c| >= 2 && 'a' <= c[0] <= 's' && 'a' <= c[1] <= 's'
    ensures ConvertToGTP(c)[0] != 'I'
  {
    var col := Ord(c[0]) - Ord('a');
    OnBoardIsVertex(c);
    assert ConvertToGTP(c)[0] == SgfParser.GtpColumns[col];
  }

  // ---------------------------------------------------------------------
  // extractMoves

  /** Every value the unchecked conversion can be applied to: not one byte long. */
  predicate Convertible(values: seq<Bytes>) {
    forall k :: 0 <= k < |values| ==> |values[k]| != 1
  }

  /** The pairs [player, convertToGTP(value)] for a list of values, in order. */
  function Converted(player: Bytes, values: seq<Bytes>): (r: seq<Pair>)
    requires Convertible(values)
    ensures |r| == |values|
    ensures forall k :: 0 <= k < |values| ==> r[k] == Pair(player, ConvertToGTP(values[k]))
    decreases |values|
  {
    if values == [] then []
    else Converted(player, values[..|values| - 1]) + [Pair(player, ConvertToGTP(values[|values| - 1]))]
  }

  /** The root's AB and AW values, and the first B and W value of each child, can be converted. */
  predicate ExtractableRoot(node: Node) {
    && Convertible(AllValues(node, "AB"))
    && Convertible(AllValues(node, "AW"))
    && forall k :: 0 <= k < |node.children| ==> MovesConvertible(node.children[k])
  }

  predicate MovesConvertible(n: Node) {
    && (GetValue(n, "B").1 ==> |GetValue(n, "B").0| != 1)
    && (GetValue(n, "W").1 ==> |GetValue(n, "W").0| != 1)
  }

  /** The moves one node holds: its B value, then its W value, each only if present. */
  function NodeMoves(n: Node): (r: seq<Pair>)
    requires MovesConvertible(n)
    ensures |r| == (if GetValue(n, "B").1 then 1 else 0) + (if GetValue(n, "W").1 then 1 else 0)
    ensures GetValue(n, "B").1 ==> r[0] == Pair("B", ConvertToGTP(GetValue(n, "B").0))
    ensures GetValue(n, "W").1 ==> r[|r| - 1] == Pair("W", ConvertToGTP(GetValue(n, "W").0))
  {
    (if GetValue(n, "B").1 then [Pair("B", ConvertToGTP(GetValue(n, "B").0))] else [])
    + (if GetValue(n, "W").1 then [Pair("W", ConvertToGTP(GetValue(n, "W").0))] else [])
  }

  /** A move's player: B or W. */
  predicate IsPlayer(p: Bytes) {
    p == "B" || p == "W"
  }

  predicate AllMovesConvertible(children: seq<Node>) {
    forall k :: 0 <= k < |children| ==> MovesConvertible(children[k])
  }

  /** The moves of a list of nodes, node after node. */
  function ChildMoves(children: seq<Node>): (r: seq<Pair>)
    requires AllMovesConvertible(children)
    ensures |r| <= 2 * |children|
    decreases |children|
  {
    if children == [] then []
    else ChildMoves(children[..|children| - 1]) + NodeMoves(children[|children| - 1])
  }

  /** Every collected move is a B or a W move. */
  lemma {:induction false} ChildMovesPlayers(children: seq<Node>)
    requires AllMovesConvertible(children)
    ensures forall k :: 0 <= k < |ChildMoves(children)| ==> IsPlayer(ChildMoves(children)[k].player)
    decreases |children|
  {
    if children != [] {
      var init := children[..|children| - 1];
      assert AllMovesConvertible(init) by {
        assert forall k :: 0 <= k < |init| ==> init[k] == children[k];
      }
      ChildMovesPlayers(init);
    }
  }

  /** The moves of consecutive child lists follow one another: child order is kept. */
  lemma {:induction false} ChildMovesAppend(xs: seq<Node>, ys: seq<Node>)
    requires AllMovesConvertible(xs) && AllMovesConvertible(ys)
    ensures AllMovesConvertible(xs + ys)
    ensures ChildMoves(xs + ys) == ChildMoves(xs) + ChildMoves(ys)
    decreases |ys|
  {
    assert forall k :: 0 <= k < |xs + ys| ==> (xs + ys)[k] == if k < |xs| then xs[k] else ys[k - |xs|];
    if ys == [] {
      assert xs + ys == xs;
    } else {
      var init := ys[..|ys| - 1];
      assert (xs + ys)[..|xs + ys| - 1] == xs + init;
      assert AllMovesConvertible(init) by {
        assert forall k :: 0 <= k < |init| ==> init[k] == ys[k];
      }
      ChildMovesAppend(xs, init);
    }
  }

  /** Only the children's own properties matter: their children, the grandchildren of the root, are never read. */
  lemma {:induction false} OnlyChildPropsMatter(cs: seq<Node>, ds: seq<Node>)
    requires |cs| == |ds| && forall k :: 0 <= k < |cs| ==> cs[k].props == ds[k].props
    requires AllMovesConvertible(cs)
    ensures AllMovesConvertible(ds)
    ensures ChildMoves(cs) == ChildMoves(ds)
    decreases |cs|
  {
    assert forall k :: 0 <= k < |cs| ==> GetValue(cs[k], "B") == GetValue(ds[k], "B") && GetValue(cs[k], "W") == GetValue(ds[k], "W");
    if cs != [] {
      var n := |cs| - 1;
      assert AllMovesConvertible(cs[..n]) by {
        assert forall k :: 0 <= k < n ==> cs[..n][k] == cs[k];
      }
      assert forall k :: 0 <= k < n ==> cs[..n][k] == cs[k] && ds[..n][k] == ds[k];
      OnlyChildPropsMatter(cs[..n], ds[..n]);
    }
  }

  /**
   * extractMoves: for the keys AB then AW, every value of that key on the
   * root becomes a setup stone of the matching colour; then, for every
   * child in order and the keys B then W, the child's first value becomes
   * a move.
   */
  method ExtractMoves(node: Node) returns (initialStones: seq<Pair>, moves: seq<Pair>)
    requires ExtractableRoot(node)
    ensures initialStones == Converted("B", AllValues(node, "AB")) + Converted("W", AllValues(node, "AW"))
    ensures moves == ChildMoves(node.children)
  {
    initialStones := [];
    moves := [];
    var setupKeys: seq<Bytes> := ["AB", "AW"];
    for i := 0 to |setupKeys|
      invariant i == 0 ==> initialStones == []
      invariant i == 1 ==> initialStones == Converted("B", AllValues(node, "AB"))
      invariant i == 2 ==> initialStones == Converted("B", AllValues(node, "AB")) + Converted("W", AllValues(node, "AW"))
    {
      var key := setupKeys[i];
      var player: Bytes := "B";
      if key == "AW" {
        player := "W";
      }
      initialStones := AppendValues(player, AllValues(node, key), initialStones);
    }
    var children := node.children;
    for i := 0 to |children|
      invariant moves == ChildMoves(children[..i])
    {
      moves := AppendNodeMoves(children[i], moves);
      assert children[..i + 1][..i] == children[..i];
    }
    assert children[..|children|] == children;
  }

  /** The inner loop over one setup key's values. */
  method AppendValues(player: Bytes, values: seq<Bytes>, stones: seq<Pair>) returns (stones': seq<Pair>)
    requires Convertible(values)
    ensures stones' == stones + Converted(player, values)
  {
    stones' := stones;
    for j := 0 to |values|
      invariant stones' == stones + Converted(player, values[..j])
    {
      stones' := stones' + [Pair(player, ConvertToGTP(values[j]))];
      assert values[..j + 1][..j] == values[..j];
    }
    assert values[..|values|] == values;
  }

  /** The inner loop over the keys B and W of one child. */
  method AppendNodeMoves(child: Node, moves: seq<Pair>) returns (moves': seq<Pair>)
    requires MovesConvertible(child)
    ensures moves' == moves + NodeMoves(child)
  {
    moves' := moves;
    var moveKeys: seq<Bytes> := ["B", "W"];
    for j := 0 to |moveKeys|
      invariant j == 0 ==> moves' == moves
      invariant j == 1 ==> moves' == moves + (if GetValue(child, "B").1 then [Pair("B", ConvertToGTP(GetValue(child, "B").0))] else [])
      invariant j == 2 ==> moves' == moves + NodeMoves(child)
    {
      var key := moveKeys[j];
      var (move, ok) := GetValue(child, key);
      if ok {
        moves' := moves' + [Pair(key, ConvertToGTP(move))];
      }
    }
  }

  // ---------------------------------------------------------------------
  // findWorstMove

  /** One analysed move: who played it, where, the winrate after it, and how much it dropped. */
  datatype MoveInfo = MoveInfo(player: Bytes, move: Bytes, winrate: real, drop: real)

  /** Go's zero MoveInfo. */
  const NoMove: MoveInfo := MoveInfo("", "", 0.0, 0.0)

  /** The loop of findWorstMove after the given evaluations; worstDrop is always the drop of worstMove. */
  function WorstSoFar(evals: seq<MoveInfo>, player: Bytes): (w: MoveInfo)
    ensures w == NoMove || w in evals
    decreases |evals|
  {
    if evals == [] then NoMove
    else
      var w := WorstSoFar(evals[..|evals| - 1], player);
      var m := evals[|evals| - 1];
      if m.player == player && m.drop > w.drop then m else w
  }

  /**
   * The worst move as the source promises it: the zero value when no move of
   * player dropped the winrate, and otherwise the earliest move of player
   * whose drop is the largest.
   */
  predicate IsWorstMove(evals: seq<MoveInfo>, player: Bytes, w: MoveInfo) {
    if forall k :: 0 <= k < |evals| && evals[k].player == player ==> evals[k].drop <= 0.0 then w == NoMove
    else exists i :: 0 <= i < |evals| && evals[i] == w && IsEarliestLargest(evals, player, i)
  }

  predicate IsEarliestLargest(evals: seq<MoveInfo>, player: Bytes, i: int)
    requires 0 <= i < |evals|
  {
    && evals[i].player == player && evals[i].drop > 0.0
    && (forall k :: 0 <= k < |evals| && evals[k].player == player ==> evals[k].drop <= evals[i].drop)
    && (forall k :: 0 <= k < i && evals[k].player == player ==> evals[k].drop < evals[i].drop)
  }

  /** The loop's result is the worst move in that sense. */
  lemma {:induction false} WorstSoFarIsWorst(evals: seq<MoveInfo>, player: Bytes)
    ensures IsWorstMove(evals, player, WorstSoFar(evals, player))
    ensures WorstSoFar(evals, player) == NoMove || WorstSoFar(evals, player).drop > 0.0
    decreases |evals|
  {
    if evals != [] {
      var init := evals[..|evals| - 1];
      var n := |evals| - 1;
      var m := evals[n];
      WorstSoFarIsWorst(init, player);
      var w := WorstSoFar(init, player);
      assert forall k :: 0 <= k < n ==> init[k] == evals[k];
      if forall k :: 0 <= k < n && init[k].player == player ==> init[k].drop <= 0.0 {
        if m.player == player && m.drop > 0.0 {
          LastIsLargest(evals, player);
        }
      } else {
        var i :| 0 <= i < n && init[i] == w && IsEarliestLargest(init, player, i);
        if m.player == player && m.drop > w.drop {
          LastIsLargest(evals, player);
        } else {
          EarlierStaysLargest(evals, player, i);
        }
      }
    }
  }

  /** A last move that beats every earlier drop of its player is the worst move. */
  lemma LastIsLargest(evals: seq<MoveInfo>, player: Bytes)
    requires evals != [] && evals[|evals| - 1].player == player && evals[|evals| - 1].drop > 0.0
    requires forall k :: 0 <= k < |evals| - 1 && evals[k].player == player ==> evals[k].drop < evals[|evals| - 1].drop
    ensures IsEarliestLargest(evals, player, |evals| - 1)
  {
  }

  /** A last move that does not beat the worst earlier move leaves it the worst. */
  lemma EarlierStaysLargest(evals: seq<MoveInfo>, player: Bytes, i: int)
    requires 0 <= i < |evals| - 1 && IsEarliestLargest(evals[..|evals| - 1], player, i)
    requires !(evals[|evals| - 1].player == player && evals[|evals| - 1].drop > evals[i].drop)
    ensures IsEarliestLargest(evals, player, i)
  {
    assert forall k :: 0 <= k < |evals| - 1 ==> evals[..|evals| - 1][k] == evals[k];
  }

  /** Only one value meets the description, so it pins the result down. */
  lemma WorstMoveUnique(evals: seq<MoveInfo>, player: Bytes, v: MoveInfo, w: MoveInfo)
    requires IsWorstMove(evals, player, v) && IsWorstMove(evals, player, w)
    ensures v == w
  {
    if !(forall k :: 0 <= k < |evals| && evals[k].player == player ==> evals[k].drop <= 0.0) {
      var i :| 0 <= i < |evals| && evals[i] == v && IsEarliestLargest(evals, player, i);
      var j :| 0 <= j < |evals| && evals[j] == w && IsEarliestLargest(evals, player, j);
      assert !(i < j) && !(j < i);
    }
  }

  /** A move of another player, inserted anywhere, does not change the result. */
  lemma {:induction false} OtherPlayerIrrelevant(xs: seq<MoveInfo>, m: MoveInfo, ys: seq<MoveInfo>, player: Bytes)
    requires m.player != player
    ensures WorstSoFar(xs + [m] + ys, player) == WorstSoFar(xs + ys, player)
    decreases |ys|
  {
    if ys == [] {
      assert xs + [m] + ys == xs + [m];
      assert (xs + [m])[..|xs|] == xs;
      assert xs + ys == xs;
    } else {
      var init := ys[..|ys| - 1];
      OtherPlayerIrrelevant(xs, m, init, player);
      assert (xs + [m] + ys)[..|xs + [m] + ys| - 1] == xs + [m] + init;
      assert (xs + ys)[..|xs + ys| - 1] == xs + init;
    }
  }

  /** findWorstMove: strictly larger drops of player replace the current worst, starting from a drop of 0. */
  method FindWorstMove(moveEvaluations: seq<MoveInfo>, player: Bytes) returns (worstMove: MoveInfo)
    ensures worstMove == WorstSoFar(moveEvaluations, player)
    ensures IsWorstMove(moveEvaluations, player, worstMove)
  {
    worstMove := NoMove;
    var worstDrop := 0.0;
    for i := 0 to |moveEvaluations|
      invariant worstMove == WorstSoFar(moveEvaluations[..i], player)
      invariant worstDrop == worstMove.drop
    {
      var moveInfo := moveEvaluations[i];
      assert moveEvaluations[..i + 1][..i] == moveEvaluations[..i];
      if moveInfo.player == player && moveInfo.drop > worstDrop {
        worstMove := moveInfo;
        worstDrop := moveInfo.drop;
      }
    }
    assert moveEvaluations[..|moveEvaluations|] == moveEvaluations;
    WorstSoFarIsWorst(moveEvaluations, player);
  }
}
