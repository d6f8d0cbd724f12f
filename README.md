# top3 SGF-to-GTP core in Dafny

top3 is a small Go toolset. It reads Go game records in SGF (FF[4]) and
writes their moves as GTP vertices. A GTP vertex is a column letter A..T
without I, followed by a row number counted from the bottom. The vertices
are then fed to an analysis engine. This project models the parts that
convert and select. It proves what they do.

- `go_bytes.dfy` (module `GoBytes`) holds the Go string and library
  behaviour the core relies on:
  - byte strings, and uint8 wrap-around;
  - `fmt`'s `%c` and `%d` output;
  - `strings.TrimSpace`, `HasPrefix`, `TrimPrefix` and `TrimSuffix`;
  - `fmt.Sscanf`'s `%d`.
- `sgf_parser.dfy` covers `sgf_parser.go`. Module `SgfParser` holds:
  - the validating `convertToGTP`, in uint8 arithmetic;
  - `extractPositions`, the `\[([a-z]{2})\]` scanner;
  - `handleSGFProperty`, with its four pointer arguments as in/out values;
  - the node scanner `;([^;()]+)`;
  - `parseSGF`, split into the wrapper check and the loop over matches.

  Module `SgfParserProperties` states what a parse returns, independently
  of the loop. It also works through the package's own examples.
- `sgf_tree.dfy` (module `SgfTree`) is the part of the sgf library's `Node`
  the tools read: a key-to-values map and the list of children.
- `old_main.dfy` (module `OldMain`) covers `old/main.go`:
  - the unchecked, pass-aware `convertToGTP`;
  - `extractMoves`, which reads the root and then its direct children only;
  - `findWorstMove`.
- `gtp_main.dfy` (module `GtpMain`) covers `gtp/main.go`:
  - its copy of `convertToGTP`, proved equal to the `old/main.go` one;
  - `traverseAndConvert`, a pre-order walk whose printed lines are returned
    as a sequence.
- `katago_main.dfy` (module `KataGo`) covers `printTopMoves`. It sorts its
  array in place by descending winrate, then reports the first `min(3, n)`
  entries.

What the code does where it departs from usual SGF handling:

- Variations are flattened in document order.
- Only a node's leading property is dispatched.
- An `AB`/`AW` node takes every bracketed two-letter value anywhere in the
  node, including values of later keys.
- A bad move coordinate aborts the parse. A bad setup coordinate is dropped
  silently.

Where the repository's tests and the code disagree, the model follows the
code. `sgf_parser_test.go:14` and `:70` expect `sq` to become `S17`, but
the validating `convertToGTP` rejects column `s`. The shifted index 19
fails `col >= 19`, so the long test game ends in "invalid SGF position".
`SgfParser.LastColumnRejected` and
`SgfParserProperties.LastColumnMoveAborts` state this.

## Model

| member | source | states |
|---|---|---|
| GoBytes.Add8 | sgf_parser.go:105 | uint8 addition: the sum modulo 256 |
| GoBytes.Sub8 | sgf_parser.go:103-107 | uint8 subtraction: the difference modulo 256, never negative |
| GoBytes.Decimal | sgf_parser.go:111 | `%d` of a natural number: only digits, at least one, leading zero exactly for 0, one digit exactly below 10 |
| GoBytes.DecimalRoundTrip | sgf_parser.go:111 | reading the printed digits back gives the number |
| GoBytes.DecimalInjective | sgf_parser.go:111 | different numbers print differently |
| GoBytes.RuneBytes | old/main.go:97 | `%c` of a byte value: the value itself below 128, otherwise a two-byte UTF-8 sequence encoding it |
| GoBytes.TrimPrefix | sgf_parser.go:65 | strings.TrimPrefix: removes the prefix exactly when the text has it, otherwise returns the text |
| GoBytes.TrimSuffix | sgf_parser.go:65 | strings.TrimSuffix: removes the suffix exactly when the text has it, otherwise returns the text |
| GoBytes.TrimSpace | sgf_parser.go:24 | strings.TrimSpace: the result is a slice s[i..j] of the text with only Unicode space runes before i and after j; it starts and ends with no Unicode space rune, and a text that does neither is left as it is |
| GoBytes.TrimLeftSpace | sgf_parser.go:24 | the removed front is space runes only, and the rest starts with none |
| GoBytes.TrimRightSpace | sgf_parser.go:24 | the removed end is space runes only, and the rest ends with none |
| GoBytes.LeftSpaceRun | sgf_parser.go:24 | the leading run TrimSpace cuts is made of space runes only, and what follows it does not start with one |
| GoBytes.RightSpaceRun | sgf_parser.go:24 | the trailing run TrimSpace cuts is made of space runes only, and what precedes it does not end with one |
| GoBytes.ScanInt | sgf_parser.go:61 | Sscanf `%d`: a value that is read fits in int64 and comes from a text holding a digit or sign |
| GoBytes.ScanIntDecimal | sgf_parser.go:61 | `%d` reads back the decimal text of every int64 up to the first non-digit |
| GoBytes.ScanIntNegative | sgf_parser.go:61 | a '-' in front of the digits gives the negated value, down to the least int64 |
| GoBytes.ScanIntSkipsSpace | sgf_parser.go:61 | a leading space rune other than a newline is skipped before the number |
| GoBytes.ScanIntNewline | sgf_parser.go:61 | a newline where the number should start makes the scan fail |
| GoBytes.ScanIntNoNumber | sgf_parser.go:61 | an ASCII first byte that is neither space, digit nor sign makes the scan fail |
| SgfParser.ConvertToGTP | sgf_parser.go:99-112 | accepts exactly when the length is 2, the row byte is in a..s and the column byte is in a..r or is the wrapping '`'; on success the vertex has column index c - 'a' (I skipped) and row 19 - (r - 'a'), and on failure the text is "" |
| SgfParser.LastColumnRejected | sgf_parser.go:103-110 | column 's' is rejected on every row |
| SgfParser.NeverColumnIOrT | sgf_parser.go:103-111 | no accepted coordinate gives column I or T |
| SgfParser.BacktickAliasesColumnA | sgf_parser.go:103-106 | '`' wraps round to the same vertex as 'a' |
| SgfParser.FromGTP | sgf_parser.go:103-111 | the inverse conversion, GTP vertex back to SGF coordinate, gives only on-board two-letter coordinates |
| SgfParser.ConvertRoundTrip | sgf_parser.go:103-111 | every accepted coordinate except '`' comes back from its vertex |
| SgfParser.FromGTPRoundTrip | sgf_parser.go:103-111 | every vertex the inverse reads, column T aside, is what convertToGTP makes of the coordinate it gives |
| SgfParser.ConvertInjective | sgf_parser.go:103-111 | on the board's own letters, different coordinates give different vertices |
| SgfParser.BracketPairs | sgf_parser.go:87-88 | every submatch of `\[([a-z]{2})\]` is two lowercase letters |
| SgfParser.BracketPairsMembers | sgf_parser.go:87-88 | a value is among the matches exactly when it stands in brackets somewhere in the text |
| SgfParser.BracketPairsCons | sgf_parser.go:87-88 | a bracketed pair at the front is the first match |
| SgfParser.NoBracketPrefix | sgf_parser.go:87-88 | bytes without '[' in front of a text add no match |
| SgfParser.BracketedPairs | sgf_parser.go:87-95 | a run of bracketed two-letter values is read back value by value, in order |
| SgfParser.ThreeSetupPairs | sgf_parser_test.go:29-39 | an AB node with three bracketed values yields exactly those three, in order |
| SgfParser.ExtractPositions | sgf_parser.go:86-96 | the slice filled by index equals the list of submatches |
| SgfParser.SetupStones | sgf_parser.go:68-73 | at most one stone per position, each of the given colour |
| SgfParser.SetupStonesMembers | sgf_parser.go:68-73 | a stone is placed at a vertex exactly when some position converts to it |
| SgfParser.SetupStonesAllInvalid | sgf_parser.go:69-72 | positions that never convert place no stone, so no error comes from them |
| SgfParser.HandleProperty | sgf_parser.go:58-83 | an AB or AW node appends its converted pairs of the matching colour and changes nothing else; RU sets the text after `RU[`, without a final ']'; SZ sets the board size to the `%d` read after `SZ[` and keeps it when that scan fails; KM records the scan on the prior komi; rules, komi and board size change only under their own prefix; stones change only under AB/AW |
| SgfParser.HandleSGFProperty | sgf_parser.go:58-83 | the four pointer targets end up as HandleProperty says |
| SgfParser.AppendStones | sgf_parser.go:68-73 | the AB/AW loop appends exactly the converted positions, in order |
| SgfParser.RunLength | sgf_parser.go:30 | the longest run of bytes other than ';', '(' and ')' |
| SgfParser.NodeTexts | sgf_parser.go:30-31 | the matches of `;([^;()]+)`: each takes at least two bytes of the text, its ';' and a byte of the match |
| SgfParser.NodeTextsWellFormed | sgf_parser.go:30-31 | every node match is non-empty and holds no ';', '(' or ')' |
| SgfParser.NodeTextsAppend | sgf_parser.go:30-31 | texts that meet at a delimiter are scanned separately, so nesting is ignored and variations come out in document order |
| SgfParser.NodeTextsCons | sgf_parser.go:30-31 | ';' followed by a node text that ends at a delimiter is one match |
| SgfParser.MoveOf | sgf_parser.go:41-48 | a move node succeeds exactly when it has coordinate bytes 2..3 and they convert; the player is its first byte (B or W); a short node gives the out-of-range error and a bad coordinate the invalid-position error |
| SgfParser.ParseNodes | sgf_parser.go:39-52 | the loop over the matches: on success the moves found so far are kept as a prefix and at most one move is added per node; a failure is an invalid-position or out-of-range error |
| SgfParser.WrappedLength | sgf_parser.go:25-29 | a text that passes the parenthesis check has at least two bytes, so the inner slice exists |
| SgfParser.Parse | sgf_parser.go:23-55 | a trimmed text without the outer '(' and ')' gives "invalid SGF format"; a wrapped one can fail only with an invalid-position or out-of-range error; a success has no more moves than the inner text has bytes |
| SgfParser.ParseMatches | sgf_parser.go:33-54 | the loop with its five result variables returns what the node-by-node definition gives |
| SgfParser.ParseSGF | sgf_parser.go:23-55 | parseSGF returns the error or the five results that Parse defines |
| SgfParserProperties.MoveList | sgf_parser.go:39-48 | no more moves than nodes, and each move's player is B or W |
| SgfParserProperties.FirstError | sgf_parser.go:44-47 | the first failing move node gives an invalid-position or out-of-range error |
| SgfParserProperties.ParseNodesOutcome | sgf_parser.go:39-54 | if every move node is valid, the loop returns one move per move node in order plus the setup of the other nodes; otherwise it returns the first bad move node's error |
| SgfParserProperties.ParseFormatError | sgf_parser.go:24-27 | "invalid SGF format" exactly when the trimmed text is empty or lacks the outer '(' and ')' |
| SgfParserProperties.ParseOutcome | sgf_parser.go:23-55 | a wrapped record parses exactly when every move node is valid; the moves are then the move nodes' moves in document order, otherwise the error is the first bad one's |
| SgfParserProperties.SetupDefaults | sgf_parser.go:59-65 | rules, komi and board size keep their values unless some node starts with RU[, KM[ or SZ[ |
| SgfParserProperties.ParseDefaults | sgf_parser.go:35-37 | with no such node, a successful parse has rules "tromp-taylor", komi the default 7.5 and board size 19 |
| SgfParserProperties.SetupAfterAppend | sgf_parser.go:39-52 | the property handler is applied node after node |
| SgfParserProperties.RulesNode | sgf_parser.go:64-65 | an RU node is not a move and sets the rules to its text after `RU[`, without a final ']' |
| SgfParserProperties.SizeNode | sgf_parser.go:60-61 | an SZ node whose value is the decimal text of an int64 sets the board size to that number |
| SgfParserProperties.LastRulesWin | sgf_parser.go:64-65 | the last RU node decides the rules |
| SgfParserProperties.SuccessSetup | sgf_parser.go:33-54 | a successful parse's setup is what the non-move nodes make of the defaults |
| SgfParserProperties.SetupStonesAccumulate | sgf_parser.go:66-81 | the setup stones are those of every AB and AW node, in document order |
| SgfParserProperties.VertexExamples | sgf_parser.go:111 | the vertex texts Q16, D16, D4, A19 and B18 |
| SgfParserProperties.ConvertTestVertices | sgf_parser_test.go:15-56 | "pd" converts to Q16, "dd" to D16 and "dp" to D4, as the tests expect |
| SgfParserProperties.ConvertA19B18 | sgf_parser_test.go:13 | "aa" converts to A19 and "bb" to B18 |
| SgfParserProperties.ParseWrapped | sgf_parser.go:24-31 | "(" + body + ")" is parsed as the matches of body |
| SgfParserProperties.NodeTextsOfOne | sgf_parser.go:30-31 | ";" + node text is one match |
| SgfParserProperties.NodeTextsOfTwo | sgf_parser.go:30-31 | two nodes in a row are two matches, in order |
| SgfParserProperties.ParseTwoNodes | sgf_parser.go:24-31 | a two-node record is parsed as its two node texts |
| SgfParserProperties.TwoMoves | sgf_parser.go:39-48 | two valid move nodes give both moves, in order, and leave the defaults alone |
| SgfParserProperties.MoveNodeOf | sgf_parser.go:41-48 | a node "P[cr..." with P B or W is a move node whose move is (P, the vertex of cr) |
| SgfParserProperties.MovesQ16D4 | sgf_parser_test.go:43-51 | the nodes B[pd], W[dp] give Black Q16 and then White D4 |
| SgfParserProperties.ParseTwoMoves | sgf_parser_test.go:43-51 | (;B[pd];W[dp]) parses to Black Q16, White D4, with the defaults |
| SgfParserProperties.MovesQ16ThenSqRefused | sgf_parser.go:44-47 | after B[pd], the node W[sq] aborts the loop with the invalid position "sq" |
| SgfParserProperties.LastColumnMoveAborts | sgf_parser_test.go:43-70 | (;B[pd];W[sq]) gives "invalid SGF position", where the test expects S17 |
| SgfParserProperties.ShortMoveNode | sgf_parser.go:43 | a move node shorter than four bytes stops the loop with the out-of-range slice |
| SgfParserProperties.PassMovePanics | sgf_parser.go:41-43 | a pass written B[] ends the parse in the out-of-range slice |
| SgfParserProperties.MissingCloseRejected | sgf_parser.go:25-27 | a record missing its closing ')' is refused |
| SgfParserProperties.VariationNodes | sgf_parser.go:30-31 | a variation (;X) gives its one node |
| SgfParserProperties.VariationsFlattened | sgf_parser.go:30-31 | (;B[pd](;W[dp])(;W[dd])) gives the nodes of both branches, in document order |
| SgfParserProperties.SetupNodePairs | sgf_parser.go:87-88 | an AB node with three values and then a W value yields all four values |
| SgfParserProperties.SetupNodeAbsorbsAll | sgf_parser.go:66-73 | AB[aa][zz][sa]W[bb] places Black A19 and B18: the W value is taken as Black, and zz and sa are dropped |
| SgfParserProperties.SetupStonesExample | sgf_parser.go:68-73 | of aa, zz, sa and bb only aa and bb place stones |
| SgfTree.GetValue | old/main.go:71 | Node.GetValue: the first value of the key and true, or "" and false when the key has none |
| SgfTree.AllValues | old/main.go:60 | Node.AllValues: the key's values in order, none for an absent key |
| OldMain.ConvertToGTP | old/main.go:81-99 | "" gives "pass" |
| OldMain.OnBoardIsVertex | old/main.go:86-97 | on the a..s board the result is the GTP vertex: column c - 'a' with I skipped, row 19 - (r - 'a') |
| OldMain.ReadsTwoBytes | old/main.go:86-87 | only the first two bytes are read |
| OldMain.AlwaysAVertex | old/main.go:89-97 | there is no failure path: every coordinate gives a one- or two-byte column and then 1..3 digits whose value is the uint8 row 19 - (r - 'a') |
| OldMain.AgreesWithValidating | old/main.go:89-97 | on every coordinate the validating convertToGTP of sgf_parser.go accepts, the result is the same vertex |
| OldMain.OffBoardText | old/main.go:89-97 | an off-board coordinate gives off-board text: "zz" becomes "[250" |
| OldMain.OnBoardNeverI | old/main.go:92-95 | no on-board coordinate gives column I |
| OldMain.Converted | old/main.go:60-66 | one pair (player, converted value) per value, in order |
| OldMain.NodeMoves | old/main.go:70-74 | a child's moves: its B value first, then its W value, each only if present |
| OldMain.ChildMoves | old/main.go:69-75 | at most two moves per child |
| OldMain.ChildMovesPlayers | old/main.go:70-74 | every collected move is a B or a W move |
| OldMain.ChildMovesAppend | old/main.go:69-75 | the moves follow child order |
| OldMain.OnlyChildPropsMatter | old/main.go:69-75 | only the children's own properties matter; grandchildren are never read |
| OldMain.AppendValues | old/main.go:60-66 | the inner setup loop appends every value, converted, in order |
| OldMain.AppendNodeMoves | old/main.go:70-74 | the inner move loop appends the B and then the W move of one child |
| OldMain.ExtractMoves | old/main.go:55-78 | the setup stones are all AB values (Black) and then all AW values (White), each in value order; the moves are those of the root's direct children, in child order |
| OldMain.WorstSoFar | old/main.go:229-241 | the selected move is the zero MoveInfo or one of the evaluations |
| OldMain.WorstSoFarIsWorst | old/main.go:229-241 | the result is the zero MoveInfo when no move of the player has a drop above 0, and otherwise the earliest of that player's moves with the largest drop |
| OldMain.LastIsLargest | old/main.go:233-238 | a last move of the player that beats every earlier drop is the worst move |
| OldMain.EarlierStaysLargest | old/main.go:233-238 | a last move that does not strictly beat the current worst leaves it in place |
| OldMain.WorstMoveUnique | old/main.go:229-241 | that description fixes a single move |
| OldMain.OtherPlayerIrrelevant | old/main.go:234 | a move of another player, inserted anywhere, does not change the result |
| OldMain.FindWorstMove | old/main.go:229-241 | the loop's result is the worst move in the sense above |
| GtpMain.ConvertToGTP | gtp/main.go:11-29 | "" gives "pass", and on every input the result equals old/main.go's convertToGTP |
| GtpMain.OwnLines | gtp/main.go:44-49 | a node's own lines: B first, then W, each only if the node has a value for it |
| GtpMain.TraverseWellFormed | gtp/main.go:43-53 | every printed line has player B or W, a move that is not one byte long and the GTP vertex convertToGTP gives for it |
| GtpMain.TraverseFromWellFormed | gtp/main.go:51-53 | the same for the lines of the children's subtrees from index i on |
| GtpMain.OwnLinesFirst | gtp/main.go:43-53 | a node's own lines come before any line of a node below it |
| GtpMain.TraverseFromSplit | gtp/main.go:51-53 | the children's subtrees are reported one after another, in child order |
| GtpMain.ChildReported | gtp/main.go:43-53 | each child's subtree is reported after its parent's own lines and the earlier children's subtrees, and before the later ones |
| GtpMain.EveryNodeReported | gtp/main.go:51-53 | every node of the tree, at any depth and in any variation, has its whole subtree's lines among the root's lines as one block |
| GtpMain.OwnMoves | gtp/main.go:44-49 | a node's lines carry the same (player, vertex) pairs that extractMoves takes from it |
| GtpMain.LeafLines | gtp/main.go:43-53 | a childless node reports only its own lines |
| GtpMain.FlatChildren | gtp/main.go:43-53 | on children without children, the walk's moves are extractMoves' moves |
| GtpMain.FlatChildStep | gtp/main.go:43-53 | a child without children adds its own moves, as extractMoves collects them, in front of the later children's |
| GtpMain.AgreesOnFlatTrees | gtp/main.go:43-53 | on a one-level tree with no move at the root, both tools report the same moves |
| GtpMain.GrandchildMoveMissed | gtp/main.go:51-53 | a move two levels down is printed by the walk but never collected by extractMoves |
| KataGo.TopLines | katago/main.go:149-152 | one line per leading entry, in order |
| KataGo.Report | katago/main.go:138-152 | an empty list gives only "No move information available."; otherwise the header and then one line per leading entry, min(3, n) of them |
| KataGo.ReportShape | katago/main.go:148-152 | a non-empty list gets the header and exactly min(3, n) move lines, line i for entry i, and no "no information" line |
| KataGo.ReportedDominate | katago/main.go:144-152 | after sorting, every reported entry's winrate is at least that of every unreported entry |
| KataGo.SortedWinratesUnique | katago/main.go:144-146 | sort.Slice is not stable, but any two sorted arrangements of the same entries agree on every winrate |
| KataGo.ReportedPercentsAgree | katago/main.go:144-152 | so the reported percentages do not depend on how ties fall |
| KataGo.SortByWinrate | katago/main.go:144-146 | the array ends up holding a permutation of its entries, with winrates non-increasing |
| KataGo.InsertInto | katago/main.go:144-146 | one insertion step extends the sorted prefix by one entry, keeps the array a permutation and leaves the entries past it untouched |
| KataGo.PrintTopMoves | katago/main.go:133-153 | an empty list prints "No move information available." and nothing else; otherwise the caller's array becomes a descending permutation of itself, and the output is the header and the first min(3, n) entries |

## Left out

- LoadSGF (sgf_parser.go:13-20, old/main.go:46-52): file I/O. The model starts from the record's text, or from the already-loaded tree.
- analyzeMoves, sendGTPCommand and extractWinrate (old/main.go:102-226): process I/O with an engine, and float parsing.
- Every `main` (main.go, old/main.go, gtp/main.go, katago/main.go:39-131) and asciiboard/main.go: command-line, process and JSON plumbing, and printing done by the sgf library.
- The sgf library's own parsing, legality and capture logic: a `Node` is only its property map and its children.
- KM: `fmt.Sscanf("%f")` is float parsing. Komi is an opaque value: the default 7.5, or what a KM node leaves when scanned on the komi before it.
- Text formatting: errors are values (`InvalidFormat`, `InvalidPosition(pos)`, `SliceOutOfRange(props)`), not messages. Report lines are records holding the move, `winrate * 100` as a real, and the visits. The `%.2f` rounding is not modelled.
- On an error, parseSGF's nil slices, "" rules and zero komi and size are not modelled: `Failure` carries only the error.
- Winrates and drops are reals, so NaN and float rounding are not modelled.
- SgfParser.MoveOf: a move node shorter than four bytes panics in Go (`props[2:4]` out of range). The model gives the `SliceOutOfRange` error value in its place.
- OldMain.ConvertToGTP: a one-byte coordinate makes Go index out of range. Its precondition excludes that input (length 0 or at least 2), and so do the `Convertible` preconditions of ExtractMoves and of the lines of traverseAndConvert.
- KataGo.SortByWinrate: sort.Slice's own algorithm (pattern-defeating quicksort) is not modelled. The model sorts with insertion sort, which picks one order for tied winrates. The contract (a descending permutation) and SortedWinratesUnique hold for every order sort.Slice may choose.
- GtpMain.Traverse: the printed lines are returned in order instead of written to standard output.
