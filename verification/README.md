# Sudoku solving engine in Dafny

This project models the solving engine of `Sudoku_game.py`. That engine is a
constraint-propagation and backtracking solver for 9x9 Sudoku. A board maps each of
the 81 cells `(row, col)` to its set of candidate values. The engine has five parts:

- **Topology** (`topology.dfy`): the cell list and the directed peer arcs.
- **Arc revision and AC-3** (`ac3.dfy`): `remove_inconsistent_values` and the
  queue-driven `infer_ac3`.
- **Uniqueness inference** (`uniqueness.dfy`): the column, row and box checks, and
  `infer_improved`. The latter alternates AC-3 with a pass that forces a cell to a
  value the checks accept.
- **Solved test and search** (`search.dfy`): `is_solved`, and `infer_with_guessing`.
  The search infers, then guesses each candidate of the first undecided cell. It
  keeps the first guess whose search ends solved and otherwise restores the board.
- **Shared notions** (`boards.dfy`, `set_order.dfy`):
  - a board is complete when it has every grid cell;
  - "shrinks" means every candidate set only loses members;
  - the size of a board is its total candidate count;
  - the order in which candidate sets are scanned.

Modelling choices:

- Every operation is a pure function from board to board. An immutable map is its
  own snapshot, so value semantics stand in for the source's in-place mutation and
  `copy.deepcopy`.
- The loops of the engine are recursive functions over the same sequences, in the same
  order, with the same early exits. The one exception is the cell list.
  `Topology.SudokuCells` is the closed form `seq(81, i => (i / 9, i % 9))`, not the
  nested loop of `sudoku_cells`. `Topology.RowCells` models that loop's inner loop, and
  `Topology.RowsFrom` shows that the list is `RowCells(0, 0) + ... + RowCells(8, 0)`:
  the rows in order, each from column 0 to 8.
- Termination follows from the size of the board: the total candidate count, then
  the queue length or the list position.
- Python iterates a set of small integers in an order fixed by hashing. The model
  scans candidate sets in ascending order (`SetOrder.Ascending`).
- Arc membership `(c1, c2) in ARCS` is decided by `Topology.IsPeer`. The contract of
  `Topology.SudokuArcs` proves that this is exactly membership in the arc list.
- The search is written against a propagation parameter `infer`. It requires only
  that `infer` accepts every complete board and only removes candidates.
  `Search.InferWithGuessing` is that search with `infer := InferImproved`, as
  `infer_with_guessing` calls `infer_improved`.
- When a forcing pass forces nothing, the board is left as it was. The model then
  returns the board that AC-3 produced in that round, which is what the source's
  `while additional_infer` loop leaves.

Three points where the code does less than its names and comments suggest. The model
follows the code in each case:

- **Box check.** The program's comment at Sudoku_game.py:120 says the loop "checks if
  the value is unique in 3x3 sub square". Lines 117-124 do something else. The scan
  starts at the box index (`cell[0] // 3`, `cell[1] // 3`) rather than the box origin.
  Each position other than `cell` then tests `self.board[(cell)]`, the cell's own
  candidates, rather than `self.board[(r, c)]`.
  - `Uniqueness.UniqueSquareCheck` models the check as written.
  - `Uniqueness.UniqueSquareCheckMeaning` proves that the check passes exactly when
    the value is not a candidate of the cell itself. It therefore never accepts a
    candidate of the cell.
  - `Uniqueness.SquareCheckMissesBoxUniqueness` exhibits a board where a value is
    unique in its box and the check still fails.
  - As a consequence, a forced value always passed the column check or the row check
    (`Uniqueness.ForcedValuePassesLineCheck`).
- **Empty sets.** Nothing in the code detects an emptied candidate set, and nothing in
  the model does. The solved test simply fails on an empty set, as it does on an
  undecided cell.
- **Solved test.** `is_solved` checks only that every cell is a singleton. Validity of
  a solved board is proved separately, for boards at the AC-3 fixed point
  (`Search.SolvedPeersDiffer`). Every result of `infer_improved` and of the search is
  at that fixed point.

## Model

| member | source | states |
|---|---|---|
| Topology.SudokuCells | Sudoku_game.py:13-19 | The cell list has 81 entries, each a grid cell. |
| Topology.CellIndices | Sudoku_game.py:13-19 | Row-major order: position `9*r + c` holds `(r, c)`. |
| Topology.CellsExactlyGrid | Sudoku_game.py:13-19 | A pair is in the list exactly when both coordinates are in [0,9), and the entries are pairwise distinct. |
| Topology.ArcsFromMembers | Sudoku_game.py:27-37 | The nested loop yields exactly the pairs of distinct listed cells that share a row, a column or a box (`r//3`, `c//3`). |
| Topology.SudokuArcs | Sudoku_game.py:22-39 | An arc is in the list exactly when its cells are peers (distinct and in the same row, column or box), and the arc list is symmetric. |
| Topology.ArcCounts | Sudoku_game.py:22-39 | Every cell is the first component of exactly 20 arcs, and there are 1620 arcs. |
| ArcConsistency.RemoveInconsistentValues | Sudoku_game.py:73-85 | Reports a change exactly when `(x, y)` is an arc, `y` is decided and its value is a candidate of `x`. Then only `x` changes, to `b[x] - b[y]`, and the size drops by one; otherwise the board is unchanged. Afterwards the arc is consistent. |
| ArcConsistency.ArcsInto | Sudoku_game.py:97-99 | The re-enqueued arcs are exactly the arcs of the list that end at the shrunken cell. |
| ArcConsistency.Ac3Loop | Sudoku_game.py:93-99 | The queue loop terminates (measure: size, then queue length) and never enlarges a candidate set. |
| ArcConsistency.ChangedKeepsInvariant | Sudoku_game.py:94-99 | After a removal and the re-enqueueing of the arcs into `x`, every arc outside the queue is still consistent. |
| ArcConsistency.UnchangedKeepsInvariant | Sudoku_game.py:94-96 | A revision that removes nothing leaves its arc consistent, so popping it keeps the invariant. |
| ArcConsistency.Ac3ReachesFixedPoint | Sudoku_game.py:93-99 | If every arc not in the queue is consistent, the loop ends with every arc consistent: a decided peer's value is never a candidate of the other cell. |
| ArcConsistency.InferAc3 | Sudoku_game.py:87-99 | AC-3 from the full arc list never enlarges a set and ends at the fixed point. |
| ArcConsistency.Ac3StableAtFixedPoint | Sudoku_game.py:93-99 | At the fixed point the loop changes nothing, whatever the queue. |
| ArcConsistency.InferAc3Idempotent | Sudoku_game.py:87-99 | A second run of AC-3 is a no-op. |
| Uniqueness.ColFromMeaning | Sudoku_game.py:103-105 | The column loop from row `k` passes exactly when no other cell of the column at row `k` or later holds the value. |
| Uniqueness.UniqueColCheckMeaning | Sudoku_game.py:101-106 | The column check is true exactly when no other cell of the column holds the value. |
| Uniqueness.RowFromMeaning | Sudoku_game.py:110-112 | The row loop from column `k` passes exactly when no other cell of the row at column `k` or later holds the value. |
| Uniqueness.UniqueRowCheckMeaning | Sudoku_game.py:108-113 | The row check is true exactly when no other cell of the row holds the value. |
| Uniqueness.SquareColsMeaning | Sudoku_game.py:122-125 | One row of the box scan passes exactly when the value is not a candidate of `cell`, or the scan is empty, or its only position is `cell` itself. |
| Uniqueness.SquareRowsMeaning | Sudoku_game.py:121-125 | The box scan over rows passes exactly when the value is not a candidate of `cell`, or no rows remain. |
| Uniqueness.UniqueSquareCheckMeaning | Sudoku_game.py:115-126 | The box check as written is true exactly when the value is not a candidate of `cell`, so it is false whenever `value` is in `board[cell]`. |
| Uniqueness.SquareCheckMissesBoxUniqueness | Sudoku_game.py:115-126 | On a concrete board, value 1 is a candidate of no other cell of the box of (0, 0), yet the check is false. |
| Uniqueness.FirstForceableIsFirst | Sudoku_game.py:139-148 | The value scan finds nothing exactly when no candidate passes a check. Otherwise it returns a passing candidate, and every candidate scanned before it fails. |
| Uniqueness.ForceCell | Sudoku_game.py:136-148 | A cell is forced exactly when it has more than one candidate and the scan finds one. A forced cell becomes exactly `{v}` for the value `v` the scan found, the size drops, and every other cell is unchanged; an unforced board is unchanged. |
| Uniqueness.ForcedValuePassesLineCheck | Sudoku_game.py:139-146 | A forced cell is fixed to one of its own candidates that no other cell of its column holds, or that no other cell of its row holds. |
| Uniqueness.ForcePass | Sudoku_game.py:135-148 | A pass never enlarges a set, and a pass that forces something lowers the size. |
| Uniqueness.ForcePassForcesUndecided | Sudoku_game.py:135-148 | A pass leaves each cell as it was, or turns a cell with more than one candidate into a singleton of its own candidates. |
| Uniqueness.ForcePassStable | Sudoku_game.py:135-148 | A pass that forces nothing leaves the board unchanged, and its scan found nothing at any undecided cell. |
| Uniqueness.InferImproved | Sudoku_game.py:128-148 | The improved inference terminates and never enlarges a set. On exit the board is at the AC-3 fixed point, and the scan finds nothing to force at any undecided cell. |
| Uniqueness.ForcingStableAt | Sudoku_game.py:128-148 | On the exit board the value scan of any undecided grid cell finds nothing. |
| Uniqueness.ScanFindsNothing | Sudoku_game.py:139-143 | When the scan of a cell finds nothing, each of its candidates is also a candidate of another cell of its column and of another cell of its row. |
| Uniqueness.DecidedCellKeepsValue | Sudoku_game.py:128-148 | A decided cell keeps its value or becomes empty; it never switches value. |
| Boards.Fix | Sudoku_game.py:166 | The guess sets the cell to `{v}` and leaves every other cell as it was. When the cell had more than one candidate, the size drops. |
| SetOrder.Ascending | Sudoku_game.py:162 | The scan order of a candidate set lists its members exactly, each once, in increasing order. |
| Search.AllDecidedMeaning | Sudoku_game.py:151-153 | The loop of the solved test passes exactly when every listed cell has exactly one candidate. |
| Search.IsSolvedMeaning | Sudoku_game.py:150-154 | The solved test holds exactly when every grid cell has exactly one candidate. |
| Search.SolvedPeersDiffer | Sudoku_game.py:150-154 | On a board at the AC-3 fixed point that passes the solved test, every cell is decided and any two peers hold different values. |
| Search.FirstUndecided | Sudoku_game.py:158-159 | The branching cell is a listed cell with more than one candidate. |
| Search.FirstUndecidedIsFirst | Sudoku_game.py:158-159 | There is no branching cell exactly when no cell has more than one candidate. Otherwise the branching cell is the first such cell in row-major order. |
| Search.Explore | Sudoku_game.py:156-175 | The search terminates and never enlarges a set. A result that is not solved is the board right after inference. |
| Search.GuessFirstUndecided | Sudoku_game.py:158-175 | Trying the candidates of the branching cell never enlarges a set. When it does not end solved, the post-inference board is restored. |
| Search.Guess | Sudoku_game.py:163-167 | A guess replaces the candidates of the cell with one of them and searches on. The cell ends with at most that value. |
| Search.TryValues | Sudoku_game.py:162-174 | The value loop never enlarges a set. When it does not end solved, it returns the snapshot it started from. |
| Search.TryValuesIsFirstSolved | Sudoku_game.py:162-174 | The value loop returns the result of the guess at the first solved position, or the snapshot when no guess ends solved. |
| Search.GuessesBeforeFirstSolvedFail | Sudoku_game.py:162-174 | Every guess before the first solved position ends unsolved. |
| Search.FirstSolvedGuessSolves | Sudoku_game.py:162-174 | The guess at the first solved position, when there is one, ends solved. |
| Search.TryValuesStopsAtFirstSolved | Sudoku_game.py:162-174 | The value loop ends solved exactly when some guess does. It stops at the first such guess and returns its result; earlier guesses fail; with no solved guess it returns the snapshot. |
| Search.ExploreArcConsistent | Sudoku_game.py:156-175 | When inference ends at the AC-3 fixed point, so does every board the search returns. |
| Search.InferWithGuessing | Sudoku_game.py:156-175 | `infer_with_guessing` terminates and never enlarges a set, and its result is at the AC-3 fixed point. When the result is not solved, it is the board `infer_improved` produced. |
| Search.SolvedResultIsSolution | Sudoku_game.py:156-175 | If the search result passes the solved test, any two peers hold different single values. |

## Left out

- `read_board` (Sudoku_game.py:42-58) is file input through `open` and `readlines`. Boards are parameters instead.
- `get_values` and the constructor (Sudoku_game.py:66-71) are plain accessors.
- The hash order of Python sets is not modelled. Candidate sets are scanned in ascending order, so the model fixes one of the orders the source may use.
- Object identity, aliasing and `copy.deepcopy` are replaced by value semantics. The snapshot is the board value itself.
- `queue.pop(0)`, the linear membership test in `ARCS` and the full scan of `ARCS` when re-enqueueing are modelled by their results:
  - an arc is popped from the front of a sequence;
  - membership is `IsPeer`;
  - re-enqueueing appends `ArcsInto(Arcs, x)` in list order.
- Search.SolvedPeersDiffer: states that peers differ, not that each unit holds each of 1 to 9 exactly once. That stronger claim needs the input's candidates to be drawn from 1 to 9, and the pigeonhole step is not modelled.
- Search.Explore: the search is proved for any inference that accepts every complete board and only removes candidates. Its results are related to `infer_improved` only through `Search.InferWithGuessing`.
