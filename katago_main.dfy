/**
 * The analysis-engine client (katago/main.go), reduced to printTopMoves:
 * it sorts the engine's move list in place by descending winrate and
 * reports the first three entries.  The printed lines are returned.
 */
module KataGo {
  import opened GoBytes

  /** One entry of a response's moveInfos. */
  datatype MoveCandidate = MoveCandidate(move: Bytes, winrate: real, visits: int)

  /** The printed lines; a move line carries the winrate as a percentage (winrate * 100). */
  datatype ReportLine =
    | NoMoveInformation                                  // "No move information available."
    | TopMovesHeader                                     // "Top 3 moves:"
    | MoveLine(move: Bytes, percent: real, visits: int)  // "Move: %s, Winrate: %.2f%%, Visits: %d"

  /** Winrates do not increase along s. */
  predicate Descending(s: seq<MoveCandidate>) {
    forall i, j :: 0 <= i < j < |s| ==> s[i].winrate >= s[j].winrate
  }

  function Min(a: int, b: int): int { if a <= b then a else b }

  function LineOf(m: MoveCandidate): ReportLine {
    MoveLine(m.move, m.winrate * 100.0, m.visits)
  }

  /** The lines of the first k entries of s. */
  function TopLines(s: seq<MoveCandidate>, k: nat): (r: seq<ReportLine>)
    requires k <= |s|
    ensures |r| == k
    ensures forall i :: 0 <= i < k ==> r[i] == LineOf(s[i])
    decreases k
  {
    if k == 0 then [] else TopLines(s, k - 1) + [LineOf(s[k - 1])]
  }

  /** What printTopMoves prints for the list s, as it stands after sorting. */
  function Report(s: seq<MoveCandidate>): (r: seq<ReportLine>)
    ensures |s| == 0 ==> r == [NoMoveInformation]
    ensures |s| > 0 ==> |r| == 1 + Min(3, |s|) && r[0] == TopMovesHeader
    ensures |s| > 0 ==> forall i :: 0 <= i < Min(3, |s|) ==> r[i + 1] == LineOf(s[i])
  {
    if |s| == 0 then [NoMoveInformation] else [TopMovesHeader] + TopLines(s, Min(3, |s|))
  }

  /** A non-empty list gets the header and exactly min(3, n) move lines, one per leading entry. */
  lemma ReportShape(s: seq<MoveCandidate>)
    requires |s| > 0
    ensures |Report(s)| == 1 + Min(3, |s|)
    ensures Report(s)[0] == TopMovesHeader
    ensures forall i :: 0 <= i < Min(3, |s|) ==> Report(s)[i + 1] == LineOf(s[i])
    ensures NoMoveInformation !in Report(s)
  {
    var r := Report(s);
    assert r == [TopMovesHeader] + TopLines(s, Min(3, |s|));
    forall i | 0 <= i < |r| ensures r[i] != NoMoveInformation {
      if i > 0 { assert r[i] == LineOf(s[i - 1]); }
    }
  }

  /** On a sorted list, every reported entry has a winrate at least that of every entry left out. */
  lemma ReportedDominate(s: seq<MoveCandidate>, k: nat, j: nat)
    requires Descending(s)
    requires k < Min(3, |s|) <= j < |s|
    ensures s[k].winrate >= s[j].winrate
  {
  }

  /** Removing one entry keeps a list sorted. */
  lemma RemoveKeepsDescending(t: seq<MoveCandidate>, j: nat)
    requires Descending(t) && j < |t|
    ensures Descending(t[..j] + t[j + 1..])
  {
    var u := t[..j] + t[j + 1..];
    forall a, b | 0 <= a < b < |u| ensures u[a].winrate >= u[b].winrate {
      var a' := if a < j then a else a + 1;
      var b' := if b < j then b else b + 1;
      assert u[a] == t[a'] && u[b] == t[b'];
    }
  }

  /** Taking the same entry out of two arrangements of one multiset leaves arrangements of one multiset. */
  lemma RemoveSameEntry(s: seq<MoveCandidate>, t: seq<MoveCandidate>, j: nat)
    requires |s| > 0 && j < |t| && t[j] == s[0] && multiset(s) == multiset(t)
    ensures multiset(s[1..]) == multiset(t[..j] + t[j + 1..])
  {
    assert s == [s[0]] + s[1..];
    assert multiset(s) == multiset{s[0]} + multiset(s[1..]);
    assert t == t[..j] + [t[j]] + t[j + 1..];
    assert multiset(t) == multiset(t[..j]) + multiset{t[j]} + multiset(t[j + 1..]);
    assert multiset(t[..j] + t[j + 1..]) == multiset(t[..j]) + multiset(t[j + 1..]);
    assert multiset(s[1..]) == multiset(s) - multiset{s[0]};
    assert multiset(t[..j] + t[j + 1..]) == multiset(t) - multiset{t[j]};
  }

  /**
   * sort.Slice is not stable, so ties may come out in any order; but any two
   * sorted arrangements of the same entries agree on every winrate, so the
   * winrates printTopMoves reports do not depend on how ties fall.
   */
  lemma {:induction false} SortedWinratesUnique(s: seq<MoveCandidate>, t: seq<MoveCandidate>)
    requires Descending(s) && Descending(t) && multiset(s) == multiset(t)
    ensures |s| == |t|
    ensures forall i :: 0 <= i < |s| ==> s[i].winrate == t[i].winrate
    decreases |s|
  {
    assert |s| == |multiset(s)| == |multiset(t)| == |t|;
    if |s| > 0 {
      // s[0] occurs in t, there at position j
      assert s[0] in multiset(t) by { assert s[0] in multiset(s); }
      var j :| 0 <= j < |t| && t[j] == s[0];
      assert t[0] in multiset(s) by { assert t[0] in multiset(t); }
      var i0 :| 0 <= i0 < |s| && s[i0] == t[0];
      var top := s[0].winrate;
      assert t[0].winrate >= top && top >= t[0].winrate;
      var u := t[..j] + t[j + 1..];
      RemoveSameEntry(s, t, j);
      RemoveKeepsDescending(t, j);
      RemoveKeepsDescending(s, 0);
      assert s[..0] + s[1..] == s[1..];
      SortedWinratesUnique(s[1..], u);
      AlignAfterRemoval(s, t, j);
    }
  }

  /**
   * If the rest of s agrees with t less its entry j, and that entry, like
   * t[0], carries s[0]'s winrate, then s and t agree everywhere.
   */
  lemma AlignAfterRemoval(s: seq<MoveCandidate>, t: seq<MoveCandidate>, j: nat)
    requires Descending(t) && 0 < |s| == |t| && j < |t|
    requires t[j].winrate == s[0].winrate == t[0].winrate
    requires forall i :: 0 <= i < |s| - 1 ==> s[1..][i].winrate == (t[..j] + t[j + 1..])[i].winrate
    ensures forall i :: 0 <= i < |s| ==> s[i].winrate == t[i].winrate
  {
    var u := t[..j] + t[j + 1..];
    forall i | 0 < i < |s| ensures s[i].winrate == t[i].winrate {
      assert s[i] == s[1..][i - 1];
      if i - 1 < j {
        // entries of t up to j all carry the top winrate
        assert u[i - 1] == t[i - 1];
        assert t[i - 1].winrate >= t[i].winrate >= t[j].winrate;
      } else {
        assert u[i - 1] == t[i];
      }
    }
  }

  /** Two lists that agree on every winrate yield reports with the same percentages. */
  lemma ReportedPercentsAgree(s: seq<MoveCandidate>, t: seq<MoveCandidate>, i: nat)
    requires Descending(s) && Descending(t) && multiset(s) == multiset(t)
    requires i < Min(3, |s|)
    ensures |t| == |s| && Report(s)[i + 1].percent == Report(t)[i + 1].percent
  {
    SortedWinratesUnique(s, t);
    ReportShape(s);
    ReportShape(t);
  }

  /** Swaps two entries of the array. */
  method Swap(a: array<MoveCandidate>, i: nat, j: nat)
    requires i < a.Length && j < a.Length
    modifies a
    ensures a[..] == old(a[..])[i := old(a[j])][j := old(a[i])]
    ensures multiset(a[..]) == multiset(old(a[..]))
  {
    a[i], a[j] := a[j], a[i];
  }

  /** sort.Slice(moveInfos, winrate[i] > winrate[j]): reorders the entries so that winrates descend. */
  method SortByWinrate(a: array<MoveCandidate>)
    modifies a
    ensures Descending(a[..])
    ensures multiset(a[..]) == multiset(old(a[..]))
  {
    for i := 0 to a.Length
      invariant Descending(a[..i])
      invariant multiset(a[..]) == multiset(old(a[..]))
    {
      InsertInto(a, i);
    }
  }

  /** Moves a[i] down into the sorted prefix a[..i], leaving a[..i + 1] sorted. */
  method InsertInto(a: array<MoveCandidate>, i: nat)
    requires i < a.Length && Descending(a[..i])
    modifies a
    ensures Descending(a[..i + 1])
    ensures multiset(a[..]) == multiset(old(a[..]))
    ensures a[i + 1..] == old(a[i + 1..])
  {
    var j := i;
    while j > 0 && a[j - 1].winrate < a[j].winrate
      invariant 0 <= j <= i
      invariant multiset(a[..]) == multiset(old(a[..]))
      invariant a[i + 1..] == old(a[i + 1..])
      invariant forall p, q :: 0 <= p < q <= i && q != j ==> a[p].winrate >= a[q].winrate
      invariant forall p, q :: 0 <= p < j && j < q <= i ==> a[p].winrate >= a[q].winrate
    {
      Swap(a, j - 1, j);
      j := j - 1;
    }
  }

  /**
   * printTopMoves: with no entries, the one "no information" line and
   * nothing else; otherwise the entries are sorted in place and the
   * header and the first min(3, n) of them are reported.
   */
  method PrintTopMoves(moveInfos: array<MoveCandidate>) returns (lines: seq<ReportLine>)
    modifies moveInfos
    ensures moveInfos.Length == 0 ==> lines == [NoMoveInformation]
    ensures multiset(moveInfos[..]) == multiset(old(moveInfos[..]))
    ensures Descending(moveInfos[..])
    ensures lines == Report(moveInfos[..])
  {
    if moveInfos.Length == 0 {
      return [NoMoveInformation];
    }
    SortByWinrate(moveInfos);
    lines := [TopMovesHeader];
    var i := 0;
    while i < 3 && i < moveInfos.Length
      invariant 0 <= i <= Min(3, moveInfos.Length)
      invariant lines == [TopMovesHeader] + TopLines(moveInfos[..], i)
    {
      var moveInfo := moveInfos[i];
      lines := lines + [MoveLine(moveInfo.move, moveInfo.winrate * 100.0, moveInfo.visits)];
      i := i + 1;
    }
  }
}
