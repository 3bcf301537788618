# Sudoku step-by-step engine: a Dafny model

This project models the core of SudokuStepByStepWPF. The application is a Sudoku trainer. It explains the next logical deduction on a board of candidates, and it can also solve a puzzle outright by backtracking. The model covers:

- **Board helpers.** Placement safety, candidate computation, and the bookkeeping after a square is solved (`Logic/Helpers/RulesHelper.cs`). Grid copies and resets (`Logic/Helpers/GridHelper.cs`).
- **The older candidate board of the hint rules** (`Common/RulesHelper.cs`). This includes the small parser that `RemoveCandidates` applies to its candidate key.
- **The combinations iterator** (`Common/Extensions.cs`). The group rules use it.
- **The step rules.** Each reads a board and returns a `SolveStep`:
  - naked single;
  - hidden single and its twin "only in one place";
  - naked pairs, triples and quads;
  - hidden pairs and triples;
  - pointing pairs;
  - X-wing.
- **The rules engine.** It returns the first step that solves a square or removes candidates.
- **The older mutating hint rules of `SolvingRules.cs`:** `OnlyValue`, `NakedPairs` and `ApplyPointingPairs`.
- **The two backtracking solvers.**

Each rule is modelled in two ways, with lemmas connecting them:

- **As the C# loops compute it.** Every (unit, digit), (unit, group) or (box, digit) probe is tried in the source's loop order, and the first probe that fires decides the step.
- **As a definition of the pattern the rule looks for.** Examples: "p is the only square of u that can take d", "k squares of u whose candidates together are k digits", "two lines with the same two spots".

Each rule's contract states both directions: the step reports something exactly when the pattern is on the board. It also states that the step describes the first such pattern in scan order.

The C# code mutates arrays of squares in place. Here every operation is a pure function that returns the board as the call leaves it. "Returns false, board unchanged" becomes `!r.found ==> r.board == g`. The solvers return their verdict together with the grid. A square is a `Cell(number, candidates)`; both square classes of the application have this shape. Candidate sets are `set<int>`.

Module layout:

| file | module | models |
|---|---|---|
| wrappers.dfy | Wrappers | `Option`, `Result` |
| grid.dfy | Grid | positions, units, scan orders, 9x9 matrices |
| text.dfy | Text | `int.ToString`, `int.TryParse`, `Trim`, `Split`, `Join` |
| combinatorics.dfy | Combinatorics | `Common/Extensions.cs` |
| steps.dfy | Steps | the square record, the board, the rule tags, `SolveStep` |
| board_helpers.dfy | BoardHelpers | `Logic/Helpers/RulesHelper.cs`, `Logic/Helpers/GridHelper.cs` |
| candidate_board.dfy | CandidateBoard | `Common/RulesHelper.cs` |
| unit_scan.dfy | UnitScan | the unit-by-unit scan shared by the group rules |
| naked_single.dfy | NakedSingleRule | `Logic/Rule/NakedSingle.cs` |
| hidden_single.dfy | HiddenSingleRule | `Logic/Rule/HiddenSingle.cs`, `Logic/Rule/OnlyInOnePlace.cs` |
| naked_group.dfy | NakedGroupRule | `Logic/Rule/NakedGroup.cs` and its three size instances |
| hidden_group.dfy | HiddenGroupRule | `Logic/Rule/HiddenPairs.cs`, `Logic/Rule/HiddenTriples.cs` |
| pointing_pairs.dfy | PointingPairsRule | `Logic/Rule/PointingPairs.cs` |
| x_wing.dfy | XWingRule | `Logic/Rule/XWing.cs` |
| rules_engine.dfy | RulesEngine | `Logic/RulesEngine.cs` |
| hints.dfy | Hints | what the three rules of `SolvingRules.cs` share |
| only_value.dfy | OnlyValueHint | `SolvingRules.OnlyValue` |
| naked_pairs_hint.dfy | NakedPairsHint | `SolvingRules.NakedPairs` |
| pointing_hint.dfy | PointingHint | `SolvingRules.ApplyPointingPairs` |
| solver.dfy | Solver | `SudokuSolver.cs`, `Logic/SudokuSolver.cs` |

## Model

| member | source | states |
|---|---|---|
| Grid.BandOfIsDivision | Logic/Helpers/RulesHelper.cs:72-73 | The first row or column of a position's box, computed as `i - i % 3`, is three times the band the position lies in, and that band is `i / 3`. |
| Grid.FirstHit | Logic/Rule/NakedSingle.cs:22-41 | The "return on the first match" shape of every rule loop: the index it gives fires, and no earlier index fires. |
| BoardHelpers.GetNumbers | Logic/Helpers/GridHelper.cs:9-22 | The number grid holds every square's placed number at the same position. |
| BoardHelpers.ClearSquares | Logic/Helpers/GridHelper.cs:25-35 | After the reset every square is empty (number 0) and has no candidates. |
| BoardHelpers.ClearSquaresNewPuzzle | Logic/Helpers/GridHelper.cs:38-41 | The new-puzzle reset leaves every square empty, with no candidates. |
| BoardHelpers.ClearSquaresForgets | Logic/Helpers/GridHelper.cs:38-41 | The new-puzzle reset has exactly the effect of the plain reset. Any two boards reset to the same board, and that board is not solved. |
| BoardHelpers.GetPossibleNumbersGrid | Logic/Helpers/GridHelper.cs:43-57 | The copy is a 9x9 grid whose every entry equals that square's candidate set. |
| BoardHelpers.IsSafe | Logic/Helpers/RulesHelper.cs:10-35 | Placing n at p is safe exactly when no square of p's row, column or box holds n as its number. p itself is included. |
| BoardHelpers.NumberNotInRowColumnBox | Logic/Helpers/RulesHelper.cs:118-145 | The number grid has n nowhere in p's row, column or box. |
| BoardHelpers.GetPossibleNumbers | Logic/Helpers/RulesHelper.cs:100-113 | The result holds exactly the digits 1..9 that appear nowhere in p's row, column or box. |
| BoardHelpers.SetPossibleNumbers | Logic/Helpers/RulesHelper.cs:41-64 | Numbers do not change. A filled square ends with no candidates. An empty square ends with exactly the digits its peers leave open, judged by the numbers before the call. |
| BoardHelpers.CandidatesAreSafePlacements | Logic/Helpers/RulesHelper.cs:41-64 | After recomputation, d is a candidate of p exactly when p is empty and placing d there is safe. This ties SetPossibleNumbers to IsSafe. |
| BoardHelpers.SetPossibleNumbersIdempotent | Logic/Helpers/RulesHelper.cs:41-64 | Recomputing the candidates of a recomputed board changes nothing. |
| BoardHelpers.RemovePossibleNumbersFromGridAfterSquareSolved | Logic/Helpers/RulesHelper.cs:66-95 | The solved square loses every candidate. Each other square of its row, column or box loses the solved number. Every other square, and every number, is unchanged. |
| BoardHelpers.PuzzleSolved | Logic/Helpers/RulesHelper.cs:150-153 | A board is solved exactly when no square is empty. |
| BoardHelpers.RemovePossibleNumber | Logic/Helpers/RulesHelper.cs:158-164 | Removes exactly n from the candidates and keeps the number. When n is absent the square is unchanged. |
| BoardHelpers.RemovePossibleNumberIdempotent | Logic/Helpers/RulesHelper.cs:158-164 | Removing the same number twice is removing it once. |
| BoardHelpers.RemoveOtherNumbers | Logic/Helpers/RulesHelper.cs:169-184 | Gives exactly the digits 1..9 outside the kept numbers, strictly ascending, so with no repeats. |
| BoardHelpers.RemoveOtherNumbersFrom | Logic/Helpers/RulesHelper.cs:175-181 | The loop from a given digit on yields exactly the unkept digits from there to 9, strictly ascending. |
| Text.NatToStringRoundTrip | Common/RulesHelper.cs:137 | Reading back the decimal rendering of a natural number gives the number. |
| Text.IntToStringParses | Common/RulesHelper.cs:137 | Every 32-bit integer, rendered by `ToString`, parses back to itself by `int.TryParse`. |
| Text.TryParseInt | Common/RulesHelper.cs:137 | A successful parse gives a 32-bit value, from a string that starts with a digit or a sign. |
| Text.DigitsParse | Common/RulesHelper.cs:137 | A string of digits whose value fits in 32 bits parses to that value. |
| Text.DigitsParseNegated | Common/RulesHelper.cs:137 | A minus sign followed by digits parses to the negated value when it fits. |
| Text.TrimStart | Common/RulesHelper.cs:133 | The result is a suffix of the input, and it does not start with a trimmed character. |
| Text.TrimEnd | Common/RulesHelper.cs:133 | The result is a prefix of the input, and it does not end with a trimmed character. |
| Text.TrimNoOp | Common/RulesHelper.cs:133 | A string whose end characters are not trimmed is left alone. |
| Text.Split | Common/RulesHelper.cs:135 | There is always at least one piece, and no piece contains the separator. |
| Text.SplitJoin | Common/RulesHelper.cs:135 | Splitting a join on a separator that no piece contains gives the pieces back. |
| Text.JoinSplit | Common/RulesHelper.cs:135 | Joining the pieces of a split with the separator gives the string back. |
| CandidateBoard.IsSafe | Common/RulesHelper.cs:5-66 | n may go at p exactly when no other square of p's row, column or box is the singleton {n}. Null squares and empty sets never conflict. |
| CandidateBoard.InitialGivensSafe | Common/RulesHelper.cs:5-66 | On a freshly initialised board a given is safe where it stands exactly when no peer holds the same given. |
| CandidateBoard.NumberOnlyInOnePlaceOn | Common/RulesHelper.cs:69-110 | True exactly when some square of the row, column or box is the singleton {n}. |
| CandidateBoard.GetPossibleNumbers | Common/RulesHelper.cs:112-123 | A null square gives the empty list. Otherwise the list holds exactly the square's candidates, once each. |
| CandidateBoard.ParsedParts | Common/RulesHelper.cs:135-141 | The numbers kept are exactly those of the parts that parse after trimming white space. |
| CandidateBoard.RemoveCandidates | Common/RulesHelper.cs:125-142 | Under a guard (null or empty key, null square, last candidate) the board is unchanged. Otherwise the square loses exactly those of its candidates that the key names. No other square changes. |
| CandidateBoard.RemoveAll | Common/RulesHelper.cs:135-141 | The removal loop keeps exactly the members not named. |
| CandidateBoard.RemoveOneNumber | Common/RulesHelper.cs:125-142 | A key that is one number's `ToString` removes exactly that number when no guard holds. |
| CandidateBoard.KeyOfOneNumber | Common/RulesHelper.cs:133-141 | The key parser reads a rendered 32-bit number back as that number alone. |
| CandidateBoard.RemoveListedNumbers | Common/RulesHelper.cs:125-142 | A key in the documented list form "[2, 5]" removes exactly the listed numbers when no guard holds. |
| CandidateBoard.ListKeyNumbers | Common/RulesHelper.cs:127-141 | Parsing a list key gives back its numbers in order: the parser inverts the list format. |
| CandidateBoard.BracketsTrimmed | Common/RulesHelper.cs:133 | Trimming brackets and spaces off "[s]" gives s back when s starts and ends with other characters. |
| CandidateBoard.PiecesParse | Common/RulesHelper.cs:135-141 | The comma-separated pieces of a list, leading space included, parse back to their numbers in order. |
| CandidateBoard.SetCell | Common/RulesHelper.cs:145 | The square becomes the singleton {value}, and no other square changes. |
| CandidateBoard.InitializeBoard | Common/RulesHelper.cs:148-167 | An empty square gets {1..9}, and a given v gets {v}. |
| Combinatorics.Combinations | Common/Extensions.cs:8-31 | k = 0 yields one empty list, and a list shorter than k yields nothing. |
| Combinatorics.HeadLoopUnfold | Common/Extensions.cs:20-30 | Each turn of the head loop yields its head followed by every combination of the tail, then the later heads. |
| Combinatorics.CombinationsCount | Common/Extensions.cs:8-31 | The iterator yields C(n, k) lists. |
| Combinatorics.CombinationsShape | Common/Extensions.cs:20-30 | Every yielded list has k elements, taken from the input in their original order. |
| Combinatorics.CombinationsComplete | Common/Extensions.cs:8-31 | Every k-element order-preserving subsequence of the input is yielded. |
| Combinatorics.CombinationsDistinct | Common/Extensions.cs:20-30 | On a strictly increasing input, such as the index list 0..n-1, no selection is yielded twice. |
| Combinatorics.CombinationsNoRepeats | Common/Extensions.cs:20-30 | On any input without repeats, such as a unit's eligible squares or a list of digits, no selection is yielded twice. |
| Combinatorics.CombinationsOrdered | Common/Extensions.cs:20-30 | On a strictly increasing input the lists come out in strictly increasing lexicographic order. |
| Combinatorics.BinomialTooMany | Common/Extensions.cs:17 | Helper for the count: choosing more elements than there are gives zero combinations. |
| Combinatorics.SelectionIsCombination | Common/Extensions.cs:8-31 | Any k elements of a list without repeats, taken in the list's order, are among the list's k-combinations. |
| UnitScan.ProbesMembers | Logic/Rule/NakedGroup.cs:21-92 | A (unit, group) probe is tried exactly when the group is one the rule proposes for that unit. |
| UnitScan.ProbesFromSorted | Logic/Rule/NakedGroup.cs:21-92 | Probes come unit by unit: rows, then columns, then boxes. |
| UnitScan.EarliestUnit | Logic/Rule/NakedGroup.cs:21-92 | If any proposed group fires, the scan stops at a firing probe in the same unit or an earlier one. |
| NakedSingleRule.Run | Logic/Rule/NakedSingle.cs:12-44 | A step is solved exactly when some square has a single candidate. It reports the first such square in row-major order, with that candidate and its explanation, with no highlights, removed squares or removed numbers, and never removes candidates. Otherwise only the tag is set. |
| HiddenSingleRule.Holders | Logic/Rule/HiddenSingle.cs:26-37 | The squares collected are exactly those of the unit whose candidates hold the digit, each once. |
| HiddenSingleRule.HoldersSingle | Logic/Rule/HiddenSingle.cs:39 | One collected square means the digit has exactly one possible square in the unit, in both directions. |
| HiddenSingleRule.ProbeOrder | Logic/Rule/HiddenSingle.cs:22-24 | The probe list follows the scan order: rows, then columns, then boxes, with digits ascending in each unit. |
| HiddenSingleRule.ProbeAtIndex | Logic/Rule/HiddenSingle.cs:22-24 | Each probe's place in the scan is found again from the probe. |
| HiddenSingleRule.Scan | Logic/Rule/HiddenSingle.cs:12-158 | Solved exactly when some unit has a digit with a single possible square. It reports that square and digit for the first such (unit, digit) in scan order. The highlights are the other squares of that unit, and the explanation names the unit. Otherwise only the tag is set. |
| HiddenSingleRule.Hit | Logic/Rule/HiddenSingle.cs:39-57 | The step for the first firing probe solves the square with the digit, highlights the rest of the unit and comes before any other hidden single. |
| HiddenSingleRule.EarlierProbesMiss | Logic/Rule/HiddenSingle.cs:12-158 | A probe reached by the scan has no hidden single before it. |
| HiddenSingleRule.NoProbeFires | Logic/Rule/HiddenSingle.cs:157 | A scan with no hit means there is no hidden single on the board. |
| HiddenSingleRule.Run | Logic/Rule/HiddenSingle.cs:12-158 | HiddenSingle.Run is solved exactly when a hidden single exists. It then highlights eight squares, not the solved one. |
| HiddenSingleRule.OnlyInOnePlace | Logic/Rule/OnlyInOnePlace.cs:12-157 | OnlyInOnePlace.Run is solved exactly when a hidden single exists, under its own tag. |
| HiddenSingleRule.OnlyInOnePlaceIsHiddenSingle | Logic/Rule/OnlyInOnePlace.cs:12-157 | On every board the twin agrees with HiddenSingle.Run in every field except the tag. |
| NakedGroupRule.Eligible | Logic/Rule/NakedGroup.cs:23-25 | The squares collected are exactly those of the unit with between 2 and k candidates, each once. |
| NakedGroupRule.GroupCands | Logic/Rule/NakedGroup.cs:135-138 | The group's candidate union holds exactly the digits some square of the group may take. |
| NakedGroupRule.GroupDigits | Logic/Rule/NakedGroup.cs:135-138 | `groupCandidates` in enumeration order lists the group's union once each, so it has as many entries as the union has digits. |
| NakedGroupRule.GroupDigitsOrder | Logic/Rule/NakedGroup.cs:135-138 | The digits come in first-met order along the group: a digit whose first holder is an earlier square comes first, and digits first met in the same square are ascending. |
| NakedGroupRule.RemovalSquares | Logic/Rule/NakedGroup.cs:143-149 | The removed squares are exactly the unit's squares outside the group that hold a group digit. |
| NakedGroupRule.AddFound | Logic/Rule/NakedGroup.cs:145-153 | The inner loop appends exactly the group digits the square holds, and keeps the list free of repeats. |
| NakedGroupRule.CollectNumbers | Logic/Rule/NakedGroup.cs:143-155 | The outer loop lists, once each, exactly the group digits found in the squares it visits. |
| NakedGroupRule.RemovedNumbers | Logic/Rule/NakedGroup.cs:143-155 | The removed numbers are, once each, exactly the group digits held by some removed square. |
| NakedGroupRule.RemovedNumbersOrder | Logic/Rule/NakedGroup.cs:143-155 | The removed numbers come in the order the loops meet them. A digit whose first holder outside the group comes earlier in the unit is listed first. Two digits first held by the same square keep their `groupCandidates` order. |
| NakedGroupRule.FormatCandidates | Logic/Rule/NakedGroup.cs:174-183 | Formatting the digits in `groupCandidates` order succeeds exactly for two, three or four digits; any other count throws. |
| NakedGroupRule.Report | Logic/Rule/NakedGroup.cs:140-171 | A firing group is a naked group with eliminations. The step throws exactly when k > 4. Otherwise it sets only the non-highlighted removal flag and describes the group: removed squares, highlights that partition the unit with them, removed numbers, and an explanation that names the digits in `groupCandidates` order. |
| NakedGroupRule.GroupStepDescribes | Logic/Rule/NakedGroup.cs:157-169 | The step built for a firing group describes that group. |
| NakedGroupRule.SplitUnit | Logic/Rule/NakedGroup.cs:97-125 | Highlights (the unit minus the removed squares) and removed squares are disjoint and together make up the unit. |
| NakedGroupRule.NumbersOfGroup | Logic/Rule/NakedGroup.cs:143-155 | The removed numbers are the digits of the group's union held by some removed square. |
| NakedGroupRule.Run | Logic/Rule/NakedGroup.cs:10-95 | Reports (or throws, for k > 4) exactly when a naked group with eliminations exists. The step describes one tried combination, whose squares are in loop order, with no such group in an earlier unit. With nothing to report only the tag is set. The step never solves a square. |
| NakedGroupRule.GroupSound | Logic/Rule/NakedGroup.cs:27-29 | A tried group is k distinct eligible squares of its unit, and its union and removal squares are those of the definition. |
| NakedGroupRule.FiringGroupIsNaked | Logic/Rule/NakedGroup.cs:140-160 | A group passing the count test with something to remove is a naked group with eliminations. |
| NakedGroupRule.UnionOfList | Logic/Rule/NakedGroup.cs:135-138 | The union built by the loop equals the union of the group's squares as a set. |
| NakedGroupRule.GroupFound | Logic/Rule/NakedGroup.cs:21-92 | Every naked group with eliminations is found by the scan, in its own unit or an earlier one. |
| NakedGroupRule.FiringSelection | Logic/Rule/NakedGroup.cs:27-29 | A naked group's squares, listed in loop order, are a tried combination that fires. |
| NakedGroupRule.TriedSelection | Logic/Rule/NakedGroup.cs:27-29 | A naked group's squares, listed in loop order, are one of the combinations tried in its unit. |
| NakedGroupRule.NoGroupFires | Logic/Rule/NakedGroup.cs:94 | A scan with no hit means there is no naked group with eliminations. |
| NakedGroupRule.EarlierUnitsQuiet | Logic/Rule/NakedGroup.cs:21-92 | No unit before the reported one holds a naked group with eliminations. |
| NakedGroupRule.NakedPairs | Logic/Rule/NakedPairs.cs:8-11 | NakedPairs.Run is NakedGroup.Run at size 2 under its own tag, and it never throws. It removes exactly when a naked pair with eliminations exists. |
| NakedGroupRule.NakedTriples | Logic/Rule/NakedTriples.cs:8-11 | The size-3 instance, under its own tag: it removes exactly when a naked triple with eliminations exists. |
| NakedGroupRule.NakedQuads | Logic/Rule/NakedQuads.cs:8-11 | The size-4 instance, under its own tag: it removes exactly when a naked quad with eliminations exists. |
| HiddenGroupRule.Holders | Logic/Rule/HiddenPairs.cs:32-42 | The squares collected are exactly those of the unit that hold every digit of the group, each once. |
| HiddenGroupRule.OnlyInHolders | Logic/Rule/HiddenPairs.cs:47-61 | The check passes exactly when no square outside the collected ones holds any digit of the group. |
| HiddenGroupRule.AllLarger | Logic/Rule/HiddenPairs.cs:63 | The check passes exactly when every collected square has more than k candidates. |
| HiddenGroupRule.Scan | Logic/Rule/HiddenPairs.cs:14-248 | Removes from highlighted squares exactly when a hidden group of size k exists. The step reports one, with no such group in an earlier unit: the k squares as both highlighted and removed squares, and the 9 - k other digits ascending as removed numbers. With nothing to report only the tag is set. |
| HiddenGroupRule.HitFound | Logic/Rule/HiddenPairs.cs:63-87 | The first firing probe is a hidden group, and the step built for it reports it. |
| HiddenGroupRule.HiddenPairs | Logic/Rule/HiddenPairs.cs:14-248 | HiddenPairs.Run removes exactly when a hidden pair exists. It then highlights two squares and removes seven numbers. |
| HiddenGroupRule.HiddenTriples | Logic/Rule/HiddenTriples.cs:14-263 | HiddenTriples.Run removes exactly when a hidden triple exists. It then highlights three squares and removes six numbers. |
| HiddenGroupRule.DigitGroupShape | Logic/Rule/HiddenPairs.cs:28-30 | A tried digit group is k distinct digits 1..9 in ascending order. |
| HiddenGroupRule.FiringGroupIsHidden | Logic/Rule/HiddenPairs.cs:44-63 | A probe that passes the three checks is a hidden group. |
| HiddenGroupRule.GroupStepDescribes | Logic/Rule/HiddenPairs.cs:65-85 | The step built for a firing probe describes its group. |
| HiddenGroupRule.HoldersAreCellsHolding | Logic/Rule/HiddenPairs.cs:32-42 | The collected squares, as a set, are the squares of the definition. |
| HiddenGroupRule.HoldsAsSets | Logic/Rule/HiddenPairs.cs:38 | The "contains every digit" and "contains none" list tests are set inclusion and empty intersection. |
| HiddenGroupRule.GroupFound | Logic/Rule/HiddenTriples.cs:14-263 | Every hidden group is found by the scan, in its own unit or an earlier one. |
| HiddenGroupRule.NoGroupFires | Logic/Rule/HiddenPairs.cs:247 | A scan with no hit means there is no hidden group. |
| HiddenGroupRule.EarlierUnitsQuiet | Logic/Rule/HiddenPairs.cs:14-248 | No unit before the reported one holds a hidden group. |
| HiddenGroupRule.ReportedCounts | Logic/Rule/HiddenTriples.cs:90 | A reported step highlights k squares and removes the 9 - k digits outside the group. |
| PointingPairsRule.Holders | Logic/Rule/PointingPairs.cs:36-50 | Each candidate table entry is exactly the squares of the unit that hold the digit, in loop order, once each. |
| PointingPairsRule.ProbeOrder | Logic/Rule/PointingPairs.cs:53-224 | The probe list follows the scan order. The box phase comes first: box by box, digits ascending, the row test before the column test. Then, for each digit, every row and after them every column. |
| PointingPairsRule.ProbeAtIndex | Logic/Rule/PointingPairs.cs:53-224 | Each probe's place in the scan is found again from the probe. |
| PointingPairsRule.Eliminations | Logic/Rule/PointingPairs.cs:68-82 | The eliminations are exactly the squares of the target unit, outside the pattern, that hold the digit. |
| PointingPairsRule.PointingDisjoint | Logic/Rule/PointingPairs.cs:73-75 | The squares a pattern clears hold the digit and are never among the highlighted candidate squares. |
| PointingPairsRule.FiresIsPointing | Logic/Rule/PointingPairs.cs:59-93 | A probe that fires shows a pointing pattern with its candidate squares and eliminations. |
| PointingPairsRule.BoxToRowPattern | Logic/Rule/PointingPairs.cs:64-82 | For a box whose candidate squares share a row, the eliminations are that row's squares outside the box's columns that hold the digit. |
| PointingPairsRule.BoxToColumnPattern | Logic/Rule/PointingPairs.cs:96-114 | For a box whose candidate squares share a column, the eliminations are that column's squares outside the box's rows that hold the digit. |
| PointingPairsRule.LineToBoxPattern | Logic/Rule/PointingPairs.cs:138-163 | For a line whose two candidate squares share a box, the eliminations are that box's other squares that hold the digit. |
| PointingPairsRule.PointingFires | Logic/Rule/PointingPairs.cs:53-224 | A pointing pattern makes its probe fire. |
| PointingPairsRule.Run | Logic/Rule/PointingPairs.cs:12-227 | Throws exactly when a candidate lies outside 1..9. Otherwise it removes from non-highlighted squares exactly when some probe shows a pointing pattern, and reports the first one in scan order: candidate squares highlighted, eliminations removed (disjoint from them), the digit as the removed number. With nothing to report only the tag is set. |
| PointingPairsRule.Hit | Logic/Rule/PointingPairs.cs:84-92 | The step for the first firing probe reports its pattern. |
| PointingPairsRule.EarlierProbesMiss | Logic/Rule/PointingPairs.cs:53-224 | A probe reached by the scan has no pointing pattern before it. |
| PointingPairsRule.NoProbeFires | Logic/Rule/PointingPairs.cs:226 | A scan with no hit means there is no pointing pattern. |
| XWingRule.Spots | Logic/Rule/XWing.cs:27-35 | The cols list of a row is exactly the columns where the row can take the digit, ascending. |
| XWingRule.ProbeOrder | Logic/Rule/XWing.cs:21-94 | The probe list follows the scan order: rows before columns, then digit, then the pair of lines lexicographically. |
| XWingRule.ProbeAtIndex | Logic/Rule/XWing.cs:21-94 | Each probe's place in the scan is found again from the probe. |
| XWingRule.Removals | Logic/Rule/XWing.cs:62-76 | The removals are exactly the squares on the two cross lines, off the wing's two lines, that hold the digit. |
| XWingRule.WingDisjoint | Logic/Rule/XWing.cs:55-76 | The four corners hold the digit and are never among the removed squares. |
| XWingRule.FiresIsXWing | Logic/Rule/XWing.cs:37-78 | Two lines with the same two-spot list and something to remove form an X-wing, with the corners and removals the code records. |
| XWingRule.TwoSpots | Logic/Rule/XWing.cs:37-40 | A line with a two-entry list can take the digit at exactly those two cross indices. |
| XWingRule.RemovalsMatch | Logic/Rule/XWing.cs:62-76 | The removals list equals the definition's removal set. |
| XWingRule.XWingFires | Logic/Rule/XWing.cs:44-85 | An X-wing with removals makes its probe fire. |
| XWingRule.SameSpots | Logic/Rule/XWing.cs:48 | Two lines that can take the digit at the same two places have equal two-entry lists. |
| XWingRule.SpotsAre | Logic/Rule/XWing.cs:27-35 | The list of a line holds exactly the cross indices of its spot set. |
| XWingRule.Run | Logic/Rule/XWing.cs:11-167 | Removes from non-highlighted squares exactly when an X-wing with removals exists, and reports the first in scan order: corners highlighted, removals disjoint from them, the digit as number and removed number. With nothing to report only the tag is set. |
| XWingRule.Hit | Logic/Rule/XWing.cs:78-85 | The step for the first firing probe reports its wing. |
| XWingRule.EarlierProbesMiss | Logic/Rule/XWing.cs:21-164 | A probe reached by the scan has no X-wing before it. |
| XWingRule.NoProbeFires | Logic/Rule/XWing.cs:166 | A scan with no hit means there is no X-wing with removals. |
| RulesEngine.Dispatch | Logic/RulesEngine.cs:13-25 | Each handled tag runs its rule and keeps its tag. The dispatch throws exactly for the two tags without a switch arm (OnlyInOnePlace and PointingTriples) or when PointingPairs meets an out-of-range candidate. |
| RulesEngine.DispatchEffective | Logic/RulesEngine.cs:27 | A dispatched step solves or removes something exactly when the rule's pattern is on the board. |
| RulesEngine.CalculateNextStep | Logic/RulesEngine.cs:9-35 | A returned step comes from the first tag in the order whose step is effective, after every earlier tag ran without effect. Null means every tag ran without effect, which cannot happen once a tag without an arm is reached. An exception comes from the first tag that threw. |
| RulesEngine.NextStepApplies | Logic/RulesEngine.cs:9-35 | When no tag throws, the engine answers null exactly when no rule's pattern is present. Otherwise it answers with the first rule in the order whose pattern is. |
| RulesEngine.NextStepAppend | Logic/RulesEngine.cs:11-31 | Over two orders in turn, the second runs only when the first ran every tag without effect. |
| RulesEngine.UnhandledNeverNull | Logic/RulesEngine.cs:11-34 | With a tag without an arm in the order (as `Enum.GetValues` always yields, OnlyInOnePlace and PointingTriples), the engine never answers null. It answers as the tags before that tag do, or throws for it when they all ran without effect. |
| RulesEngine.UnhandledOrderApplies | Logic/RulesEngine.cs:11-34 | For such an order with no exception before the unhandled tag: the engine throws exactly when no rule before that tag finds its pattern. Otherwise it answers with the first rule in the order that does. |
| RulesEngine.NoFault | Logic/RulesEngine.cs:24 | Without the two unhandled tags, and with in-range candidates whenever PointingPairs is tried, the engine does not throw. |
| Hints.GroupTypeOf | Common/Enums.cs:11-16 | The CellGroupType a hint names: Row exactly for a row, Column exactly for a column and Grid exactly for a box. |
| Hints.StrikeSquare | SolvingRules.cs:152-158 | The inner removal loop changes only its square. It strikes it of the values (never emptying it). It records a removal exactly when the square held one of them, and leaves the board untouched otherwise. |
| Hints.StrikeStep | SolvingRules.cs:152-158 | Striking one value and then the rest strikes all of them. |
| Hints.Strike | SolvingRules.cs:147-160 | The outer removal loop changes only its squares, strikes each of them, and records a removal exactly when one of them held a value. With no removal the board is untouched. |
| Hints.StruckOne | SolvingRules.cs:330-334 | A square struck of one value loses exactly that value, unless it was its last candidate. |
| Hints.StruckClears | Common/RulesHelper.cs:128 | A square that kept a value outside those struck has lost every struck value: the last-candidate guard did not apply. |
| OnlyValueHint.Spots | SolvingRules.cs:24-29 | The squares counted are exactly those of the unit with a non-empty set holding the digit that pass the safety test. |
| OnlyValueHint.PossibleIsCanTake | SolvingRules.cs:26-28 | The source's three-part test is "the square lists n and no other square of its row, column or box is the placed value n". |
| OnlyValueHint.SpotsCanTake | SolvingRules.cs:24-29 | The squares counted are exactly the squares of the unit that may take the digit by the definition. |
| OnlyValueHint.SpotsSingle | SolvingRules.cs:31 | One counted square means the digit has exactly one possible square in the unit, in both directions. |
| OnlyValueHint.OnlyValue | SolvingRules.cs:7-105 | True exactly when some unit has a digit with a single possible square. It names the square, the digit and the kind of unit of the first in scan order. On false the out-parameters keep their initial values (0, -1, -1, null). The board is only read. |
| OnlyValueHint.Hit | SolvingRules.cs:31-38 | The hint for the first firing pair names its square, digit and kind of unit, and no earlier pair has an only square. |
| OnlyValueHint.EarlierProbesMiss | SolvingRules.cs:20-102 | A pair reached by the scan has no only square before it. |
| OnlyValueHint.NoProbeFires | SolvingRules.cs:104 | A scan with no hit means no unit has a digit with a single possible square. |
| OnlyValueHint.Quiet | SolvingRules.cs:31 | A pair the scan passes over has no only square. |
| NakedPairsHint.Twins | SolvingRules.cs:121-131 | The squares grouped under a pair of candidates are exactly the unit's squares with exactly those two candidates. |
| NakedPairsHint.Others | SolvingRules.cs:147-150 | The squares struck are exactly the unit's squares other than the pair. |
| NakedPairsHint.PairValues | SolvingRules.cs:152 | The values struck are exactly the pair's candidates. |
| NakedPairsHint.HeadIsPair | SolvingRules.cs:130-131 | A group of exactly two squares is a naked pair. |
| NakedPairsHint.TwinsOfPair | SolvingRules.cs:130-131 | The squares carrying a naked pair's candidates are the pair itself. |
| NakedPairsHint.TwinsAre | SolvingRules.cs:121-131 | A square carries a naked pair's two candidates exactly when it is one of the pair. |
| NakedPairsHint.PairHasHead | SolvingRules.cs:130-131 | Every naked pair is one of the groups the loop visits. |
| NakedPairsHint.TryPair | SolvingRules.cs:133-168 | A pair that gives no hint leaves the board and the out-parameters as they were. |
| NakedPairsHint.TryPairSound | SolvingRules.cs:139-168 | A hint from one pair is a naked pair not shown before with a digit to strike, and the hint reports it. |
| NakedPairsHint.TryPairComplete | SolvingRules.cs:139-168 | A naked pair not shown before, with a digit to strike, makes the loop body report. |
| NakedPairsHint.AppliesAtHead | SolvingRules.cs:133 | A reportable pair, named either way round, is reported by the square that opens its group. |
| NakedPairsHint.NakedPairs | SolvingRules.cs:107-284 | True exactly when some unit has a naked pair, not among the shown groups, with another square holding one of its digits. The hint reports such a pair, with no such pair in an earlier unit. On false the board and out-parameters are untouched. |
| NakedPairsHint.PairFires | SolvingRules.cs:133-168 | Any reportable pair puts a firing probe in its unit. |
| NakedPairsHint.EarlierUnitsMiss | SolvingRules.cs:118-281 | No unit before the reported one has a reportable pair. |
| NakedPairsHint.NoPairFires | SolvingRules.cs:283 | A scan with no hit means there is no reportable pair. |
| NakedPairsHint.ReportedWithoutRemoval | SolvingRules.cs:152-168 | A hint is given even when RemoveCandidates refuses every removal because each affected square is down to one candidate. The board then comes back unchanged. |
| PointingHint.Holders | SolvingRules.cs:303-315 | The squares collected are exactly those of the box whose set holds the digit, each once, in row-major order. |
| PointingHint.RowOutside | SolvingRules.cs:326-328 | The squares visited are exactly those of the row outside the box's columns. |
| PointingHint.ColumnOutside | SolvingRules.cs:353-355 | The squares visited are exactly those of the column outside the box's rows. |
| PointingHint.ProbeOrder | SolvingRules.cs:297-301 | The probe list follows the loops: box row, then box column, then digit. |
| PointingHint.ProbeAtIndex | SolvingRules.cs:297-301 | Each probe's place in the scan is found again from the probe. |
| PointingHint.Try | SolvingRules.cs:303-372 | A box and digit that give no hint leave the board and the out-parameters as they were. |
| PointingHint.LineHit | SolvingRules.cs:320-344 | A strike along a line that holds every candidate square of the box, and that meets the digit, is a pointing pattern, and the hint built from it reports it. |
| PointingHint.TrySound | SolvingRules.cs:317-372 | A hint from one box and digit is a pointing pattern, and the hint reports it. |
| PointingHint.TwoHolders | SolvingRules.cs:317-318 | A pointing pattern has at least two candidate squares in the box. |
| PointingHint.TryComplete | SolvingRules.cs:317-372 | A pointing pattern makes its box and digit report. |
| PointingHint.ApplyPointingPairs | SolvingRules.cs:286-378 | True exactly when some box has a pointing pattern along a row or column. The hint reports the first in scan order: the digit, the box's candidate squares in row-major order, the kind of line, and the line struck of the digit outside the box. On false the board and the out-parameters are untouched. |
| PointingHint.EarlierProbesMiss | SolvingRules.cs:297-375 | A probe reached by the scan has no pointing pattern before it. |
| PointingHint.NoProbeFires | SolvingRules.cs:377 | A scan with no hit means there is no pointing pattern. |
| Solver.FirstZero | SudokuSolver.cs:7-11 | Finds the first empty square in row-major order, and finds none exactly when the grid is full. |
| Solver.IsSafe | SudokuSolver.cs:36-71 | Safe exactly when n is in none of p's row, column and box, p itself included. |
| Solver.FewerZeros | SudokuSolver.cs:17-19 | Filling an empty square leaves fewer empty squares, which is why the recursion ends. |
| Solver.ResetRestores | SudokuSolver.cs:24 | Resetting a filled square to 0 gives back the grid it was filled in. |
| Solver.Solve | SudokuSolver.cs:5-34 | On true the grid is full. On false it is exactly the input. Givens are never changed, and every square it writes holds a digit. A full grid returns true unchanged, without a consistency check. |
| Solver.TryFrom | SudokuSolver.cs:13-28 | The digit loop: on success the grid is full, on failure it is exactly the input, givens are kept and written squares hold digits. |
| Solver.LogicSolve | Logic/SudokuSolver.cs:7-35 | The twin solver: on true the grid is full, on false it is exactly the input, givens are kept, and a full grid returns true unchanged. |
| Solver.SolveFits | SudokuSolver.cs:13-19 | When Solve succeeds, every square it filled differs from every other square of its row, column and box. |
| Solver.TryFromFits | SudokuSolver.cs:13-28 | When the digit loop succeeds, every square it filled fits its row, column and box. |
| Solver.PlacedStep | SudokuSolver.cs:15-19 | A digit placed safely, with the rest filled so that every later placement fits, fits as well. |
| Solver.SolvedIsValid | SudokuSolver.cs:5-34 | With givens that do not clash, a successful solve is a valid Sudoku containing the givens. |
| Solver.SolveComplete | SudokuSolver.cs:5-34 | When the grid can be completed to a valid Sudoku, Solve succeeds: the search misses no completion. |
| Solver.TryFromComplete | SudokuSolver.cs:13-28 | The digit loop started at or below a completion's digit succeeds. |
| Solver.TryFromHit | SudokuSolver.cs:15-21 | At the completion's own digit the search places it and succeeds. |
| Solver.ExtendsPlaced | SudokuSolver.cs:17 | A completion of the grid still completes it after one of its own digits is placed. |
| Solver.TryFromMiss | SudokuSolver.cs:13-26 | Below the completion's digit the loop succeeds at once or goes on to the next digit, and succeeds. |
| Solver.PlaceSucceeds | SudokuSolver.cs:15-22 | A safe digit whose placement can be solved ends the loop with success. |
| Solver.NextDigit | SudokuSolver.cs:13-26 | One turn of the digit loop succeeds, or the loop goes on from the next digit with the grid as it was. |
| Solver.CompletionIsSafe | SudokuSolver.cs:36-71 | The digit a valid completion puts at an empty square passes the safety test there. |
| Solver.SolveDecides | SudokuSolver.cs:5-34 | For givens that do not clash, Solve returns true exactly when a valid completion exists. |

## Left out

- The WPF user interface: MainWindow, the view models, the converters and SudokuCell. It holds popups, colours, the dispatcher, `double` border thicknesses and the hint-tracking lists.
- The square classes as classes. Property-change notification, read-only flags and colours are presentation. Only the number and the candidate set are kept, as `Cell`.
- Models/SolveStep.cs: an older, incompatible shape. `SolveStep` is modelled from the fields the rule files set. A null explanation is the empty string.
- Logic/Rule/OnlyValue.cs is entirely commented out. Logic/Rule/PointingTriples.cs and Logic/Rule/NakedPair.cs are stubs with no logic. The PointingTriples tag is kept, since the engine's switch has no arm for it.
- The order of `Enums.SolvingRule`. The enum that drives the engine's loop is not part of this model, so `RulesEngine.CalculateNextStep` takes the order of tags as a parameter. `Enum.GetValues` yields every tag, OnlyInOnePlace and PointingTriples among them, so for the real program `RulesEngine.UnhandledNeverNull` and `RulesEngine.UnhandledOrderApplies` apply, and `RulesEngine.NextStepApplies` and `RulesEngine.NoFault` describe orders that leave both tags out.
- `GridHelper.IsSafe`. The safety test that Logic/SudokuSolver.cs calls is not part of this model, so `Solver.LogicSolve` takes it as a parameter. Its contract holds for any test.
- HashSet enumeration order. A .NET `HashSet<int>` that nothing is removed from enumerates in insertion order. This is how the implementation behaves, not a documented guarantee, and the model relies on it. The `groupCandidates` set of Logic/Rule/NakedGroup.cs only grows, so `NakedGroupRule.GroupDigits` lists it in first-met order along the group's squares. A square's candidate list counts as ascending, because `SetPossibleNumbers` fills it from digits added 1 to 9 in turn and later writers only remove. `NakedGroupRule.FormatCandidates` and `NakedGroupRule.RemovedNumbers` use that order. The candidate sets of Common/RulesHelper.cs start ascending and only lose members, so `CandidateBoard.GetPossibleNumbers` and `NakedPairsHint.PairValues` list digits ascending. The `string.Join` grouping key of `SolvingRules.NakedPairs` is modelled as equality of the candidate sets. The order of `pairCells` is the loop order.
- Candidates as lists. In the source a square's candidates are an `ObservableCollection<int>` (Models/SudokuSquare.cs:31), and the rules branch on its `Count`. Here they are a `set<int>`. The two agree because no writer of the core puts a digit in twice. `SetPossibleNumbers` (Logic/Helpers/RulesHelper.cs:51-59) clears the list and refills it from a HashSet of digits. The other writers only remove digits.
- `Environment.NewLine` is the constant "\r\n" of Windows, where the application runs.
- `int.TryParse` is modelled as an optional sign and decimal digits within 32 bits, with ASCII white space trimmed. Culture-specific signs and digits, thousands separators and other Unicode white space are not modelled.
- `Common.RulesHelper.IsSafe` compares square objects by reference. The model compares positions; the boards built by `InitializeBoard` give every square its own set, so the two agree there.
- In-place mutation and `OnPropertyChanged` notifications. Every mutating operation returns the new board instead. The engine and the rules are pure functions, so repeated calls on one board give one result by construction.
- Exceptions are modelled as `Failure` results:
  - `NakedGroupRule.Report` and `NakedGroupRule.Run` fail for a group of more than four digits, which `FormatCandidates` rejects;
  - `PointingPairsRule.Run` fails for a candidate outside 1..9, whose table index `number - 1` is out of range;
  - `RulesEngine.Dispatch` fails for the two tags without a switch arm, OnlyInOnePlace and PointingTriples.
- Index-out-of-range exceptions from positions outside the board. `BoardHelpers.RemovePossibleNumbersFromGridAfterSquareSolved` requires the step's row and column to lie on the board, where the C# indexer would otherwise throw.
- Hints.HintBoard: the three rules of SolvingRules.cs dereference every square without a null test, so they are modelled only for boards without null squares and with 32-bit candidates. A null square would raise a NullReferenceException.
- NakedPairsHint.NakedPairs: the contract says the reported pair comes from the first unit with a reportable pair, not which pair within that unit; the loop order within a unit follows the grouping order, which the model fixes by the first square of each group.
- NakedGroupRule.Run: the contract says the reported group lies in the first unit with a naked group with eliminations, not which combination within that unit is chosen.
- HiddenGroupRule.Scan: the contract says the reported group lies in the first unit with a hidden group, not which digit group within that unit is chosen.
- HiddenSingleRule.Run: the contract gives the size of the highlights only; the full description of the step is stated by `HiddenSingleRule.Scan`, which it calls.
- HiddenSingleRule.OnlyInOnePlace: the contract states the tag and the firing condition only; `HiddenSingleRule.OnlyInOnePlaceIsHiddenSingle` states that every other field equals HiddenSingle's.
- Combinatorics.Combinations: the iterator is modelled on lists, not lazily; callers pass a non-negative size, which `nat` enforces.

