# Diagonal Sudoku solver: a Dafny model

This project models the solving engine of a 9×9 diagonal Sudoku solver. A board holds
81 cells, named `A1` to `I9`. Each cell holds a set of candidate digits. The cells form
29 units: 9 rows, 9 columns, 9 squares and the two long diagonals. A solution places
one digit in every cell, and no unit repeats a digit.

The solver works in four stages:
- **Reading.** It reads a grid text: a digit is a given, and `.` is an unfilled cell.
- **Rules.** It shrinks candidate sets with three rules. *Elimination* removes a solved
  cell's digit from its peers. *Only choice* places a digit that fits in only one cell
  of a unit. *Naked twins* clears the two digits of a twin pair from the rest of their
  unit.
- **Propagation.** It repeats the rules in rounds until a round solves no new cell.
- **Search.** It searches depth-first, branching on the open cell with the fewest
  candidates.

Every change that leaves a cell with one digit is recorded in an assignment log.

In the model:
- A board is a length-81 sequence of digit sets, indexed row-major (`A1` is 0, `I9` is 80).
- A unit is given by index: rows 0–8, columns 9–17, squares 18–26, diagonals 27 and 28.
  Lemmas show that these units are exactly the source's name lists: built with `cross`, or,
  for the two diagonals, written out. A second lemma describes each unit by geometry
  (its row, column, 3×3 square or diagonal).
- The global assignment log is threaded explicitly, as `State(board, log)`.
- Every rule is a pure function from `State` to `State`.
- Propagation and search return `Outcome(result, log)`. The source's `False`
  (contradiction) and `None` (every branch failed) are both `None` here.
- `solve` returns `Failure` where the source's `assert` on the cell count fails.

The main results:
- **Rules.** Each rule only shrinks cells. Elimination and naked twins remove a digit
  only for the reason the rule gives: a solved peer holding it, or a peer holding it among
  exactly two candidates. Only choice places a digit exactly where it has one place in a
  unit, and a cell it changes ends as its digit's only place in one of its units. Each
  rule keeps every solution that agreed with its input.
- **Propagation.** It returns no board with an empty cell. A fully solved board it returns
  is valid.
- **Search.** Every board it returns is a valid solution that lies within its input.
  Search reports failure only when no solution agrees with the input.
- **Reading.** Reading a grid and writing it back are inverse.

## Model

| member | source | states |
|---|---|---|
| Board.Assign | solution.py:3-16 | the named cell gets the new value and every other cell keeps its value; an unchanged value leaves board and log as they were; the log grows by one snapshot, the new board, exactly when the value changed and has one digit |
| Board.AssignIdempotent | solution.py:10-11 | assigning the same value twice is assigning it once |
| Topology.Cross | solution.py:70-72 | the cross product of two strings has one name per pair |
| Topology.CrossIndex | solution.py:70-72 | entry `i * |b| + j` of `cross(a, b)` is `a[i]` followed by `b[j]` |
| Topology.Boxes | solution.py:74 | there are 81 cell names |
| Topology.BoxName | solution.py:74 | cell `9 * row + col` is named by the row letter and the column digit |
| Topology.UnitCell | solution.py:76-81 | the cell at position `i` of unit `k`; a definition with no contract of its own, whose meaning `UnitIsLine` states |
| Topology.Unit | solution.py:76-82 | unit `k` as its list of nine cells; a definition whose shape `UnitShape` and whose contents `UnitIsLine` state |
| Topology.UnitList | solution.py:82 | the 29 units in the source's order, rows, columns, squares, then diagonals; a definition whose shape `UnitShape` states |
| Topology.OnLine | solution.py:76-81 | the geometric description of unit `k`: same row, same column, same 3×3 square, row equal to column, or row plus column equal to 8 |
| Topology.UnitCellOnLine | solution.py:76-81 | every position of a unit lies on that unit's row, column, square or diagonal |
| Topology.LineCellHasSlot | solution.py:76-81 | every cell on a unit's row, column, square or diagonal sits at some position of the unit |
| Topology.UnitIsLine | solution.py:76-81 | a cell belongs to unit `k` exactly when it lies on that unit's row, column, square or diagonal |
| Topology.UnitShape | solution.py:76-82 | there are 29 units and each lists 9 distinct cells |
| Topology.RowUnitsAreCrosses | solution.py:76 | row unit `r` is `cross(rows[r], cols)` |
| Topology.ColumnUnitsAreCrosses | solution.py:77 | column unit `c` is `cross(rows, cols[c])` |
| Topology.SquareUnitsAreCrosses | solution.py:78 | each square unit is the cross of one row triple with one column triple |
| Topology.MainDiagonalIsListed | solution.py:80 | the first diagonal unit is A1, B2, …, I9 |
| Topology.AntiDiagonalIsListed | solution.py:81 | the second diagonal unit is A9, B8, …, I1 |
| Topology.UnitIdsOf | solution.py:83 | the units listed for a cell are exactly the units containing it |
| Topology.UnitsOf | solution.py:83 | the units holding a cell, in unit-list order; a definition whose contents `UnitIdsOf` and `PeersAreUnitsUnion` state |
| Topology.Peers | solution.py:84 | a cell's peers, defined as the other cells sharing a unit with it; `PeersAreUnitsUnion` proves this equals the source's union of `units[s]` less `s` |
| Topology.SharedUnitPeer | solution.py:84 | two different cells of one unit, given by membership, are peers; stated as an implication so that it applies to any two cells and unit |
| Topology.PeersAreUnitsUnion | solution.py:84 | a cell's peers are the cells of its units, less the cell itself |
| Topology.PeerInSomeUnit | solution.py:84 | every peer lies in one of the units holding the cell |
| Topology.UnitMemberIsPeer | solution.py:84 | every other cell of a unit holding the cell is a peer |
| Topology.PeersSymmetric | solution.py:84 | no cell is its own peer, and peerhood is symmetric |
| Topology.SlotsArePeers | solution.py:82-84 | the cells at two different positions of one unit are peers, and so differ |
| Topology.UnitMembersArePeers | solution.py:82-84 | any cell of a unit other than the one at a given position is that cell's peer |
| Grid.Cells | solution.py:96-102 | one value per digit or `.`: a digit gives that digit alone, `.` gives all nine |
| Grid.GridValues | solution.py:96-104 | a board exists exactly when the grid holds 81 cell symbols, and cell `c` is read from the `c`-th symbol |
| Grid.ParseEncode | solution.py:96-104 | reading the text of a board of givens and unfilled cells gives back the board |
| Grid.EncodeParse | solution.py:96-104 | a board read from text is made of givens and unfilled cells, and writing it gives the grid's symbols |
| Grid.IgnoresOtherChars | solution.py:98-102 | a character other than a digit or `.` does not change the board |
| EliminateRule.SolvedCells | solution.py:121 | the cells listed are exactly those solved on entry |
| EliminateRule.StripPeers | solution.py:124-125 | each listed cell loses the given digits, every other cell keeps its value, and the log only grows |
| EliminateRule.EliminateBox | solution.py:123-125 | every peer of the cell loses the cell's current value, and no other cell changes |
| EliminateRule.EliminateAll | solution.py:122-125 | cells only shrink, and each listed cell ends disjoint from each of its peers |
| EliminateRule.EliminateAllKeeps | solution.py:122-125 | a digit stays in a cell when no listed peer held it on entry |
| EliminateRule.Eliminate | solution.py:120-126 | cells only shrink, and every cell solved on entry ends disjoint from all its peers |
| EliminateRule.EliminateKeeps | solution.py:120-126 | elimination removes nothing else: a digit stays in a cell unless a peer solved on entry held it |
| EliminateRule.StripSolvedSound | solution.py:123-125 | removing a solved cell's digit from its peers keeps every solution that agrees with the board |
| EliminateRule.ShrinkKeepsApart | solution.py:122-125 | once the peers have lost the cell's value, the cell stays disjoint from them however the board shrinks later |
| EliminateRule.EliminateSound | solution.py:120-126 | a solution consistent with the board stays consistent after elimination |
| OnlyChoiceRule.Places | solution.py:131 | the places of a digit in a unit are exactly the unit's cells that allow it |
| OnlyChoiceRule.ChoiceStep | solution.py:131-133 | the digit's place becomes the digit alone when it has exactly one place in the unit, and every other cell keeps its value |
| OnlyChoiceRule.OnlyPlace | solution.py:131-133 | a cell holds just one digit, and no other cell of the unit allows that digit |
| OnlyChoiceRule.OnlyPlaceStays | solution.py:129-133 | such a placement survives the rest of the rule, since the cell keeps its digit and the other cells only shrink |
| OnlyChoiceRule.ChoiceStepPlaces | solution.py:131-133 | a cell one step changes holds the digit's only place in the unit |
| OnlyChoiceRule.ChoiceDigits | solution.py:130-133 | over the remaining digits of one unit, cells only shrink, and a changed cell ends with one digit |
| OnlyChoiceRule.ChoiceDigitsPlaces | solution.py:130-133 | a cell changed over the digits of one unit ends as some digit's only place in that unit |
| OnlyChoiceRule.ChoiceUnits | solution.py:129-133 | over the remaining units, cells only shrink, and a changed cell ends with one digit |
| OnlyChoiceRule.ChoiceUnitsPlaces | solution.py:129-133 | a cell changed over the remaining units ends as some digit's only place in one of them |
| OnlyChoiceRule.OnlyChoice | solution.py:128-134 | cells only shrink, and a changed cell ends with a single digit it allowed before |
| OnlyChoiceRule.OnlyChoicePlaces | solution.py:128-134 | only-choice changes nothing else: a cell it changes ends holding one digit that no other cell of one of its units allows |
| OnlyChoiceRule.OnlyChoiceSound | solution.py:128-134 | a solution consistent with the board stays consistent after only-choice |
| NakedTwinsRule.Twins | solution.py:57 | the twins are exactly the unit's cells whose value equals the cell's |
| NakedTwinsRule.StripDigits | solution.py:62-63 | the cell keeps exactly its digits not listed, no other cell changes, and the log only grows |
| NakedTwinsRule.StripCell | solution.py:62-63 | removing a value digit by digit leaves the set difference and touches no other cell |
| NakedTwinsRule.TwinStep | solution.py:55-63 | with exactly two twins, every other cell of the unit loses the twins' digits; the twins and the cells outside the unit are untouched |
| NakedTwinsRule.StripUnit | solution.py:60-63 | every listed cell that is not a twin loses the value, and every other cell keeps its value |
| NakedTwinsRule.TwinUnits | solution.py:55-63 | over the units of one cell, cells only shrink, and the log only grows |
| NakedTwinsRule.TwinUnitsKeeps | solution.py:55-63 | the units of `box` never change `box`, and a digit leaves another cell only when `box` held it and the cell lies in one of those units |
| NakedTwinsRule.TwinBoxes | solution.py:53-63 | over the listed cells, cells only shrink, and the log only grows |
| NakedTwinsRule.TwinBoxesKeeps | solution.py:53-63 | a digit stays in a cell when no listed peer held it on entry |
| NakedTwinsRule.PairCells | solution.py:52 | the cells listed are exactly those with two candidates |
| NakedTwinsRule.NakedTwins | solution.py:52-64 | cells only shrink |
| NakedTwinsRule.NakedTwinsKeeps | solution.py:52-64 | naked twins removes nothing else: a digit stays in a cell unless a peer with exactly two candidates on entry held it |
| NakedTwinsRule.TwinsHoldTheirDigits | solution.py:57-63 | when two cells of a unit hold the same two candidates, no other cell of the unit can hold either digit in any consistent solution |
| NakedTwinsRule.NakedTwinsSound | solution.py:52-64 | a solution consistent with the board stays consistent after naked twins |
| Propagation.Pass | solution.py:141-143 | a round only shrinks cells, and every cell solved before it ends disjoint from its peers |
| Propagation.PassSound | solution.py:141-143 | a round keeps every consistent solution |
| Board.SolvedCount | solution.py:140-144 | the number of solved cells, at most one per cell |
| Board.SolvedCountFull | solution.py:144-145 | the solved count equals the number of cells exactly when every cell is solved |
| Propagation.SolvedStaySolved | solution.py:140-146 | shrinking without emptying a cell never lowers the solved count |
| Propagation.StalledRoundSolves | solution.py:144-148 | a round that solves no new cell yet leaves every cell solved, after elimination set each solved cell apart from its peers, leaves a valid board |
| Propagation.Reduce | solution.py:136-148 | a returned board has no empty cell and lies within the input; a fully solved returned board is valid; the log only grows |
| Propagation.ReduceComplete | solution.py:136-148 | when some solution is consistent with the input, propagation returns a board still consistent with it |
| Solver.FirstOpen | solution.py:157-158 | the first open cell from a given position on, in row-major order |
| Solver.ScanBest | solution.py:159-161 | the scan ends on an open cell with no more candidates than any open cell, and strictly fewer than every earlier open cell |
| Board.InOrder | solution.py:163 | the digits of a cell, each once, in ascending order: the order of the source's candidate strings |
| Solver.BestCell | solution.py:157-161 | the chosen cell is open, has no more candidates than any open cell, and has strictly fewer than every earlier open cell |
| Solver.Search | solution.py:150-168 | a returned board is a valid solution whose every cell lies within the input cell |
| Solver.Branch | solution.py:163-168 | a returned board is valid and lies within the board being branched on |
| Solver.GuessShrinks | solution.py:164-166 | a guess shrinks the board and lowers its candidate total |
| Solver.SearchComplete | solution.py:150-168 | search finds a board whenever some solution is consistent with its input |
| Solver.BranchComplete | solution.py:163-168 | branching finds a board when the digits left to try include the solution's digit |
| Solver.SolvedBoardIsFixed | solution.py:150-155 | a solved board comes back from search unchanged |
| Solver.Solve | solution.py:170-179 | failure exactly when the grid does not hold 81 cells; a returned board is valid and lies within the grid's cells |
| Solver.SolveKeepsGivens | solution.py:170-179 | a returned board keeps every given digit |
| Solver.SolveComplete | solution.py:170-179 | solve finds a board whenever some solution agrees with the grid |
| Solver.DuplicateGivenUnsolvable | solution.py:170-179 | a grid giving the same digit to two peers yields no board |
| Board.SolvesIffSolution | solution.py:82 | a board of single digits is valid exactly when its digits form a solution |
| Board.SolvedUnitHasEveryDigit | solution.py:82 | every unit of a valid board holds each digit exactly once |
| Board.SolutionPeersDiffer | solution.py:84 | a solution gives peers different digits |

## Left out

- `display` (solution.py:106-118): it only formats and prints.
- The `__main__` block and the `visualize_assignments` call (solution.py:181-192): it is I/O into code outside this model.
- The commented-out first naked-twins technique (solution.py:34-46): it is not executed.
- The unused `solved_values` list in `reduce_puzzle` (solution.py:137): it has no effect.
- The order in which peers are visited: the source iterates a Python set, whose order is unspecified and, with Python's per-process string hashing, can differ from run to run; the model visits peers in row-major order. This changes the intermediate snapshots in the log, but not the board any rule returns: `EliminateBox` states its result, which does not depend on the order.
- The contents of the log beyond what `Assign` promises: the log is only observed, and its exact contents depend on iteration order.
- `False` and `None`: both source results are `None` here. `search` tests `reduced_sudoku == False` (solution.py:152) and `if resolved_sudoku` (solution.py:167), and neither test tells a dictionary apart from anything but `False` or `None`. The docstring of `solve` (solution.py:177) promises `False` when there is no solution, but `search` returns `None` once every branch has failed (solution.py:163-168) and `False` only when propagation rejects its input at the top level. The model does not reproduce that difference.
- Elimination subtracts a cell's current value from its peers. The source calls `replace` with that value, which matches the subtraction because the value is a single digit or empty (`replace('', '')` changes nothing). `EliminateAll` requires this of its cells, and `Eliminate` establishes it.
- Propagation.Reduce: the claim that it returns `False` exactly when a cell became empty is stated through `ReduceComplete`. No solution agrees with an input that propagation rejects. The model does not separately name the round that emptied a cell.
- Propagation.Pass: states no frame of its own. A round is `NakedTwins(OnlyChoice(Eliminate(st)))`, and each stage carries its frame: `EliminateKeeps`, `OnlyChoicePlaces` and `NakedTwinsKeeps`. Only choice may set a cell to one of its digits for a reason that no single peer explains, so a frame for the whole round would have to name the intermediate boards.
