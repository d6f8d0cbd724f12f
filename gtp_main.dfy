/**
 * The conversion tool (gtp/main.go): it walks a whole SGF tree and reports,
 * for every node, its B and W moves next to their GTP vertices.  The
 * printed lines are returned as a sequence.
 */
module GtpMain {
  import opened GoBytes
  import opened SgfTree
  import OldMain

  /**
   * convertToGTP, repeated here as in old/main.go: "" is a pass, otherwise
   * two bytes in uint8 arithmetic with the I column skipped and no checks.
   */
  function ConvertToGTP(sgfCoord: Bytes): (r: Bytes)
    requires |sgfCoord| != 1
    ensures sgfCoord == [] ==> r == "pass"
    ensures r == OldMain.ConvertToGTP(sgfCoord)
  {
    if sgfCoord == [] then "pass"
    else
      var col0 := Sub8(Ord(sgfCoord[0]), Ord('a'));
      var row := Sub8(19, Sub8(Ord(sgfCoord[1]), Ord('a')));
      var col := if col0 >= 8 then Add8(col0, 1) else col0;
      RuneBytes(Add8(col, Ord('A'))) + Decimal(row)
  }

  /** One printed line: "Player: %s, Move: %s, GTP: %s". */
  datatype Line = Line(player: Bytes, move: Bytes, gtp: Bytes)

  /** The node's own B and W values, and those of every node below it, can be converted. */
  predicate TreeConvertible(n: Node)
    decreases n
  {
    && OldMain.MovesConvertible(n)
    && forall i :: 0 <= i < |n.children| ==> TreeConvertible(n.children[i])
  }

  /** The lines for one node: B first, then W, each only if the node has that key. */
  function OwnLines(n: Node): (r: seq<Line>)
    requires OldMain.MovesConvertible(n)
    ensures |r| == (if GetValue(n, "B").1 then 1 else 0) + (if GetValue(n, "W").1 then 1 else 0)
    ensures GetValue(n, "B").1 ==> r[0] == Line("B", GetValue(n, "B").0, ConvertToGTP(GetValue(n, "B").0))
    ensures GetValue(n, "W").1 ==> r[|r| - 1] == Line("W", GetValue(n, "W").0, ConvertToGTP(GetValue(n, "W").0))
  {
    var (b, hasB) := GetValue(n, "B");
    var (w, hasW) := GetValue(n, "W");
    (if hasB then [Line("B", b, ConvertToGTP(b))] else [])
    + (if hasW then [Line("W", w, ConvertToGTP(w))] else [])
  }

  /** A line reports a B or W move and the vertex convertToGTP gives for it. */
  predicate WellFormed(l: Line) {
    OldMain.IsPlayer(l.player) && |l.move| != 1 && l.gtp == ConvertToGTP(l.move)
  }

  /** traverseAndConvert: the node's own lines, then those of each child's subtree in order. */
  function Traverse(n: Node): seq<Line>
    requires TreeConvertible(n)
    decreases n
  {
    OwnLines(n) + TraverseFrom(n, 0)
  }

  /** The lines of the subtrees of n's children from index i on. */
  function TraverseFrom(n: Node, i: nat): seq<Line>
    requires TreeConvertible(n) && i <= |n.children|
    decreases n, |n.children| - i
  {
    if i == |n.children| then [] else Traverse(n.children[i]) + TraverseFrom(n, i + 1)
  }

  /** All lines are well formed: every line of the walk reports a B or W move and its vertex. */
  predicate AllWellFormed(lines: seq<Line>) {
    forall k :: 0 <= k < |lines| ==> WellFormed(lines[k])
  }

  lemma AllWellFormedAppend(a: seq<Line>, b: seq<Line>)
    requires AllWellFormed(a) && AllWellFormed(b)
    ensures AllWellFormed(a + b)
  {
    assert forall k :: 0 <= k < |a + b| ==> (a + b)[k] == if k < |a| then a[k] else b[k - |a|];
  }

  /** Every line traverseAndConvert prints for a tree is well formed. */
  lemma {:induction false} TraverseWellFormed(n: Node)
    requires TreeConvertible(n)
    ensures AllWellFormed(Traverse(n))
    decreases n, |n.children| + 1
  {
    TraverseFromWellFormed(n, 0);
    AllWellFormedAppend(OwnLines(n), TraverseFrom(n, 0));
  }

  /** So is every line printed for the subtrees of n's children from index i on. */
  lemma {:induction false} TraverseFromWellFormed(n: Node, i: nat)
    requires TreeConvertible(n) && i <= |n.children|
    ensures AllWellFormed(TraverseFrom(n, i))
    decreases n, |n.children| - i
  {
    if i < |n.children| {
      TraverseWellFormed(n.children[i]);
      TraverseFromWellFormed(n, i + 1);
      AllWellFormedAppend(Traverse(n.children[i]), TraverseFrom(n, i + 1));
    }
  }

  /** A node's own lines come before any line of a node below it. */
  lemma OwnLinesFirst(n: Node)
    requires TreeConvertible(n)
    ensures |OwnLines(n)| <= |Traverse(n)| && Traverse(n)[..|OwnLines(n)|] == OwnLines(n)
  {
    assert Traverse(n) == OwnLines(n) + TraverseFrom(n, 0);
  }

  /** small occurs in big as one contiguous block. */
  ghost predicate Contains(big: seq<Line>, small: seq<Line>) {
    exists pre, post :: big == pre + small + post
  }

  lemma ContainsTransitive(a: seq<Line>, b: seq<Line>, c: seq<Line>)
    requires Contains(a, b) && Contains(b, c)
    ensures Contains(a, c)
  {
    var p1, q1 :| a == p1 + b + q1;
    var p2, q2 :| b == p2 + c + q2;
    assert a == (p1 + p2) + c + (q2 + q1);
  }

  /** The lines of the subtrees of n's children i up to, not including, j. */
  function TraverseRange(n: Node, i: nat, j: nat): seq<Line>
    requires TreeConvertible(n) && i <= j <= |n.children|
    decreases j - i
  {
    if i == j then [] else Traverse(n.children[i]) + TraverseRange(n, i + 1, j)
  }

  /** The children's subtrees are reported one after another, in child order. */
  lemma {:induction false} TraverseFromSplit(n: Node, i: nat, c: nat)
    requires TreeConvertible(n) && i <= c <= |n.children|
    ensures TraverseFrom(n, i) == TraverseRange(n, i, c) + TraverseFrom(n, c)
    decreases c - i
  {
    if i < c {
      TraverseFromSplit(n, i + 1, c);
    }
  }

  /**
   * Each child's subtree is reported inside its parent's: after the
   * parent's own lines and the earlier children's subtrees, and before the
   * later ones.
   */
  lemma ChildReported(n: Node, c: nat)
    requires TreeConvertible(n) && c < |n.children|
    ensures Traverse(n) == OwnLines(n) + TraverseRange(n, 0, c) + Traverse(n.children[c]) + TraverseFrom(n, c + 1)
  {
    TraverseFromSplit(n, 0, c);
  }

  /** The node reached from n by following child indices, if the path exists. */
  function Descendant(n: Node, path: seq<nat>): Option<Node>
    decreases |path|
  {
    if path == [] then Some(n)
    else if path[0] < |n.children| then Descendant(n.children[path[0]], path[1..])
    else None
  }

  lemma {:induction false} DescendantConvertible(n: Node, path: seq<nat>)
    requires TreeConvertible(n) && Descendant(n, path).Some?
    ensures TreeConvertible(Descendant(n, path).value)
    decreases |path|
  {
    if path != [] {
      DescendantConvertible(n.children[path[0]], path[1..]);
    }
  }

  /**
   * Every variation is covered: for every node of the tree, its whole
   * subtree's lines appear, as one block, among the lines of the root.
   */
  lemma {:induction false} EveryNodeReported(n: Node, path: seq<nat>)
    requires TreeConvertible(n) && Descendant(n, path).Some?
    ensures TreeConvertible(Descendant(n, path).value)
    ensures Contains(Traverse(n), Traverse(Descendant(n, path).value))
    decreases |path|
  {
    DescendantConvertible(n, path);
    var m := Descendant(n, path).value;
    if path == [] {
      assert Traverse(n) == [] + Traverse(n) + [];
    } else {
      var child := n.children[path[0]];
      assert Descendant(child, path[1..]) == Descendant(n, path);
      EveryNodeReported(child, path[1..]);
      ChildReported(n, path[0]);
      assert Traverse(n) == (OwnLines(n) + TraverseRange(n, 0, path[0])) + Traverse(child) + TraverseFrom(n, path[0] + 1);
      ContainsTransitive(Traverse(n), Traverse(child), Traverse(m));
    }
  }

  // ---------------------------------------------------------------------
  // Compared with extractMoves of old/main.go

  /** The (player, vertex) part of the lines. */
  function Moves(lines: seq<Line>): (r: seq<Pair>)
    ensures |r| == |lines|
    ensures forall k :: 0 <= k < |lines| ==> r[k] == Pair(lines[k].player, lines[k].gtp)
    decreases |lines|
  {
    if lines == [] then [] else Moves(lines[..|lines| - 1]) + [Pair(lines[|lines| - 1].player, lines[|lines| - 1].gtp)]
  }

  lemma MovesAppend(a: seq<Line>, b: seq<Line>)
    ensures Moves(a + b) == Moves(a) + Moves(b)
  {
    assert forall k :: 0 <= k < |a + b| ==> (a + b)[k] == if k < |a| then a[k] else b[k - |a|];
  }

  /** The (player, vertex) part of a node's lines is what extractMoves takes from that node. */
  lemma OwnMoves(c: Node)
    requires OldMain.MovesConvertible(c)
    ensures Moves(OwnLines(c)) == OldMain.NodeMoves(c)
  {
  }

  lemma LeafLines(c: Node)
    requires TreeConvertible(c) && c.children == []
    ensures Traverse(c) == OwnLines(c)
  {
    assert TraverseFrom(c, 0) == [];
  }

  lemma SingleChildMoves(c: Node)
    requires OldMain.MovesConvertible(c)
    ensures OldMain.AllMovesConvertible([c])
    ensures OldMain.ChildMoves([c]) == OldMain.NodeMoves(c)
  {
    assert [c][..0] == [];
  }

  /** Moves(TraverseFrom(n, k)) is what extractMoves collects from the children from index k on. */
  lemma {:induction false} FlatChildren(n: Node, k: nat)
    requires TreeConvertible(n) && k <= |n.children|
    requires forall i :: 0 <= i < |n.children| ==> n.children[i].children == []
    ensures OldMain.AllMovesConvertible(n.children[k..])
    ensures Moves(TraverseFrom(n, k)) == OldMain.ChildMoves(n.children[k..])
    decreases |n.children| - k
  {
    if k == |n.children| {
      assert n.children[k..] == [];
    } else {
      FlatChildren(n, k + 1);
      FlatChildStep(n, k);
    }
  }

  /** One child without children of its own adds its own moves in front of the later children's. */
  lemma FlatChildStep(n: Node, k: nat)
    requires TreeConvertible(n) && k < |n.children| && n.children[k].children == []
    requires OldMain.AllMovesConvertible(n.children[k + 1..])
    requires Moves(TraverseFrom(n, k + 1)) == OldMain.ChildMoves(n.children[k + 1..])
    ensures OldMain.AllMovesConvertible(n.children[k..])
    ensures Moves(TraverseFrom(n, k)) == OldMain.ChildMoves(n.children[k..])
  {
    var cs := n.children;
    var c := cs[k];
    assert TreeConvertible(c);
    LeafLines(c);
    OwnMoves(c);
    SingleChildMoves(c);
    MovesAppend(Traverse(c), TraverseFrom(n, k + 1));
    assert cs[k..] == [c] + cs[k + 1..];
    OldMain.ChildMovesAppend([c], cs[k + 1..]);
  }

  /** A tree of depth one without moves at the root: both tools report the same moves. */
  lemma AgreesOnFlatTrees(n: Node)
    requires TreeConvertible(n)
    requires !GetValue(n, "B").1 && !GetValue(n, "W").1
    requires forall i :: 0 <= i < |n.children| ==> n.children[i].children == []
    ensures OldMain.AllMovesConvertible(n.children)
    ensures Moves(Traverse(n)) == OldMain.ChildMoves(n.children)
  {
    assert OwnLines(n) == [];
    FlatChildren(n, 0);
    assert n.children[0..] == n.children;
  }

  /** A move one level further down is printed by traverseAndConvert but never collected by extractMoves. */
  lemma GrandchildMoveMissed(b: Bytes)
    requires b == "dp"
    ensures var leaf := Node(map["W" := [b]], []);
            var root := Node(map[], [Node(map[], [leaf])]);
            && TreeConvertible(root)
            && OldMain.ExtractableRoot(root)
            && Traverse(root) == [Line("W", b, OldMain.ConvertToGTP(b))]
            && OldMain.ChildMoves(root.children) == []
  {
    var leaf := Node(map["W" := [b]], []);
    var mid := Node(map[], [leaf]);
    var root := Node(map[], [mid]);
    assert GetValue(leaf, "W") == (b, true);
    assert !GetValue(leaf, "B").1 && !GetValue(mid, "B").1 && !GetValue(mid, "W").1;
    assert !GetValue(root, "B").1 && !GetValue(root, "W").1;
    assert TreeConvertible(leaf);
    assert TreeConvertible(mid);
    assert Traverse(leaf) == [Line("W", b, ConvertToGTP(b))];
    assert Traverse(mid) == Traverse(leaf) by {
      assert TraverseFrom(mid, 1) == [];
    }
    assert Traverse(root) == Traverse(mid) by {
      assert TraverseFrom(root, 1) == [];
    }
    assert root.children[..0] == [];
  }
}
