/** The row, column and box "sole position" checks, and the improved inference
    that alternates AC-3 with forcing such values until nothing changes. */
module Uniqueness {
  import opened Topology
  import opened Boards
  import opened SetOrder
  import opened ArcConsistency

  /** The loop of the column check from row k on. */
  function ColFrom(b: Board, value: int, row: int, col: int, k: int): bool
    requires Complete(b) && 0 <= col < 9 && 0 <= k <= 9
    decreases 9 - k
  {
    if k == 9 then true
    else if k != row && value in b[(k, col)] then false
    else ColFrom(b, value, row, col, k + 1)
  }

  /** Whether value is a candidate of no other cell of column col. */
  function UniqueColCheck(b: Board, value: int, row: int, col: int): bool
    requires Complete(b) && 0 <= col < 9
  {
    ColFrom(b, value, row, col, 0)
  }

  lemma {:induction false} ColFromMeaning(b: Board, value: int, row: int, col: int, k: int)
    requires Complete(b) && 0 <= col < 9 && 0 <= k <= 9
    ensures ColFrom(b, value, row, col, k) <==> forall rr :: k <= rr < 9 && rr != row ==> value !in b[(rr, col)]
    decreases 9 - k
  {
    if k < 9 {
      ColFromMeaning(b, value, row, col, k + 1);
    }
  }

  /** The column check holds exactly when no other cell of the column holds value. */
  lemma UniqueColCheckMeaning(b: Board, value: int, row: int, col: int)
    requires Complete(b) && 0 <= col < 9
    ensures UniqueColCheck(b, value, row, col) <==> forall rr :: 0 <= rr < 9 && rr != row ==> value !in b[(rr, col)]
  {
    ColFromMeaning(b, value, row, col, 0);
  }

  /** The loop of the row check from column k on. */
  function RowFrom(b: Board, value: int, row: int, col: int, k: int): bool
    requires Complete(b) && 0 <= row < 9 && 0 <= k <= 9
    decreases 9 - k
  {
    if k == 9 then true
    else if k != col && value in b[(row, k)] then false
    else RowFrom(b, value, row, col, k + 1)
  }

  /** Whether value is a candidate of no other cell of row `row`. */
  function UniqueRowCheck(b: Board, value: int, row: int, col: int): bool
    requires Complete(b) && 0 <= row < 9
  {
    RowFrom(b, value, row, col, 0)
  }

  lemma {:induction false} RowFromMeaning(b: Board, value: int, row: int, col: int, k: int)
    requires Complete(b) && 0 <= row < 9 && 0 <= k <= 9
    ensures RowFrom(b, value, row, col, k) <==> forall cc :: k <= cc < 9 && cc != col ==> value !in b[(row, cc)]
    decreases 9 - k
  {
    if k < 9 {
      RowFromMeaning(b, value, row, col, k + 1);
    }
  }

  /** The row check holds exactly when no other cell of the row holds value. */
  lemma UniqueRowCheckMeaning(b: Board, value: int, row: int, col: int)
    requires Complete(b) && 0 <= row < 9
    ensures UniqueRowCheck(b, value, row, col) <==> forall cc :: 0 <= cc < 9 && cc != col ==> value !in b[(row, cc)]
  {
    RowFromMeaning(b, value, row, col, 0);
  }

  /** The inner loop of the box check, over columns c..cEnd-1 of row rr. As in the
      source, every position other than `cell` tests the candidates of `cell` itself. */
  function SquareCols(b: Board, value: int, cell: Cell, rr: int, c: int, cEnd: int): bool
    requires Complete(b) && InGrid(cell) && c <= cEnd
    decreases cEnd - c
  {
    if c == cEnd then true
    else if (rr != cell.0 || c != cell.1) && value in b[cell] then false
    else SquareCols(b, value, cell, rr, c + 1, cEnd)
  }

  /** The outer loop of the box check, over rows rr..rEnd-1. */
  function SquareRows(b: Board, value: int, cell: Cell, rr: int, rEnd: int, cStart: int): bool
    requires Complete(b) && InGrid(cell) && rr <= rEnd
    decreases rEnd - rr
  {
    if rr == rEnd then true
    else if !SquareCols(b, value, cell, rr, cStart, cStart + 3) then false
    else SquareRows(b, value, cell, rr + 1, rEnd, cStart)
  }

  /** The box check as written: it starts from the box index rather than the box
      origin, and it tests the candidates of `cell` rather than those of (r, c). */
  function UniqueSquareCheck(b: Board, value: int, cell: Cell): bool
    requires Complete(b) && InGrid(cell)
  {
    var rowStart := cell.0 / 3;
    var colStart := cell.1 / 3;
    SquareRows(b, value, cell, rowStart, rowStart + 3, colStart)
  }

  /** The positions of one row of the box scan are distinct, so at most the last
      one can be `cell`: the scan passes only when value is not a candidate of `cell`. */
  lemma {:induction false} SquareColsMeaning(b: Board, value: int, cell: Cell, rr: int, c: int, cEnd: int)
    requires Complete(b) && InGrid(cell) && c <= cEnd
    ensures SquareCols(b, value, cell, rr, c, cEnd) <==> value !in b[cell] || c == cEnd || (c + 1 == cEnd && (rr, c) == cell)
    decreases cEnd - c
  {
    if c < cEnd {
      SquareColsMeaning(b, value, cell, rr, c + 1, cEnd);
      if (rr, c) == cell {
        assert (rr, c + 1) != cell;
      }
    }
  }

  lemma {:induction false} SquareRowsMeaning(b: Board, value: int, cell: Cell, rr: int, rEnd: int, cStart: int)
    requires Complete(b) && InGrid(cell) && rr <= rEnd
    ensures SquareRows(b, value, cell, rr, rEnd, cStart) <==> value !in b[cell] || rr == rEnd
    decreases rEnd - rr
  {
    if rr < rEnd {
      SquareColsMeaning(b, value, cell, rr, cStart, cStart + 3);
      SquareRowsMeaning(b, value, cell, rr + 1, rEnd, cStart);
    }
  }

  /** The box check holds exactly when value is not a candidate of `cell` itself:
      its nine positions are never all equal to `cell`. */
  lemma UniqueSquareCheckMeaning(b: Board, value: int, cell: Cell)
    requires Complete(b) && InGrid(cell)
    ensures UniqueSquareCheck(b, value, cell) <==> value !in b[cell]
  {
    var rowStart := cell.0 / 3;
    SquareRowsMeaning(b, value, cell, rowStart, rowStart + 3, cell.1 / 3);
  }

  /** No other cell of cell's 3x3 box holds value: what a box check is meant to test. */
  ghost predicate UniqueInBox(b: Board, value: int, cell: Cell)
    requires Complete(b)
  {
    forall d :: InGrid(d) && d != cell && d.0 / 3 == cell.0 / 3 && d.1 / 3 == cell.1 / 3 ==> value !in b[d]
  }

  /** A board on which v is a candidate of (0, 0) only, and every cell holds w. */
  function LoneValueBoard(v: int, w: int): (b: Board)
    ensures Complete(b)
  {
    CellsExactlyGrid();
    map c | c in SudokuCells() :: if c == (0, 0) then {v, w} else {w}
  }

  /** The box check misses a value that is unique in its box. */
  lemma SquareCheckMissesBoxUniqueness()
    ensures UniqueInBox(LoneValueBoard(1, 2), 1, (0, 0))
    ensures !UniqueSquareCheck(LoneValueBoard(1, 2), 1, (0, 0))
  {
    UniqueSquareCheckMeaning(LoneValueBoard(1, 2), 1, (0, 0));
  }

  /** The test infer_improved applies to a candidate of a cell. */
  function Forceable(b: Board, value: int, cell: Cell): bool
    requires Complete(b) && InGrid(cell)
  {
    UniqueColCheck(b, value, cell.0, cell.1)
    || UniqueRowCheck(b, value, cell.0, cell.1)
    || UniqueSquareCheck(b, value, cell)
  }

  /** The scan of a cell's candidates: the first of `values` that passes a check. */
  function FirstForceable(b: Board, cell: Cell, values: seq<int>): (r: Option<int>)
    requires Complete(b) && InGrid(cell)
    ensures r.Some? ==> r.value in values
  {
    if values == [] then None
    else if Forceable(b, values[0], cell) then Some(values[0])
    else FirstForceable(b, cell, values[1..])
  }

  /** No value of `values` passes a check. */
  ghost predicate NoneForceable(b: Board, cell: Cell, values: seq<int>)
    requires Complete(b) && InGrid(cell)
  {
    forall i :: 0 <= i < |values| ==> !Forceable(b, values[i], cell)
  }

  /** The scan finds nothing exactly when no value passes, and otherwise it finds
      a value that passes and that every value before it fails. */
  lemma {:induction false} FirstForceableIsFirst(b: Board, cell: Cell, values: seq<int>)
    requires Complete(b) && InGrid(cell)
    ensures FirstForceable(b, cell, values).None? <==> NoneForceable(b, cell, values)
    ensures var r := FirstForceable(b, cell, values);
            r.Some? ==> exists i :: 0 <= i < |values| && values[i] == r.value && Forceable(b, r.value, cell)
                                    && NoneForceable(b, cell, values[..i])
  {
    if values == [] {
    } else if Forceable(b, values[0], cell) {
      assert values[..0] == [];
      assert !NoneForceable(b, cell, values);
    } else {
      var tail := values[1..];
      FirstForceableIsFirst(b, cell, tail);
      assert NoneForceable(b, cell, values) <==> NoneForceable(b, cell, tail) by {
        assert forall i :: 1 <= i < |values| ==> tail[i - 1] == values[i];
      }
      var r := FirstForceable(b, cell, values);
      if r.Some? {
        var i :| 0 <= i < |tail| && tail[i] == r.value && Forceable(b, r.value, cell) && NoneForceable(b, cell, tail[..i]);
        assert values[..i + 1] == [values[0]] + tail[..i];
        assert values[i + 1] == r.value;
      }
    }
  }

  /** The body of the forcing loop for one cell: a cell with more than one candidate
      is fixed to the first of its candidates that passes a check, if any. */
  function ForceCell(b: Board, c: Cell): (r: Revision)
    requires Complete(b) && InGrid(c)
    ensures Shrinks(b, r.board)
    ensures r.changed <==> |b[c]| > 1 && FirstForceable(b, c, Ascending(b[c])).Some?
    ensures r.changed ==> |r.board[c]| == 1 && r.board[c] <= b[c] && Size(r.board) < Size(b)
    ensures r.changed ==> r.board[c] == {FirstForceable(b, c, Ascending(b[c])).value}
    ensures r.changed ==> forall d :: d in b && d != c ==> d in r.board && r.board[d] == b[d]
    ensures !r.changed ==> r.board == b
  {
    if |b[c]| > 1 then
      match FirstForceable(b, c, Ascending(b[c]))
      case Some(v) => Revision(true, Fix(b, c, v))
      case None => Revision(false, b)
    else Revision(false, b)
  }

  /** A forced cell is fixed to one of its own candidates that no other cell of its
      column, or no other cell of its row, holds: the box check as written never passes. */
  lemma ForcedValuePassesLineCheck(b: Board, c: Cell)
    requires Complete(b) && InGrid(c)
    ensures var r := ForceCell(b, c);
            r.changed ==> exists v :: v in b[c] && r.board[c] == {v}
                                      && (!ElsewhereInColumn(b, c, v) || !ElsewhereInRow(b, c, v))
  {
    var r := ForceCell(b, c);
    if r.changed {
      var values := Ascending(b[c]);
      FirstForceableIsFirst(b, c, values);
      var v := FirstForceable(b, c, values).value;
      assert Forceable(b, v, c);
      UniqueSquareCheckMeaning(b, v, c);
      UniqueColCheckMeaning(b, v, c.0, c.1);
      UniqueRowCheckMeaning(b, v, c.0, c.1);
      assert v in b[c] && r.board[c] == {v};
    }
  }

  /** One pass of the forcing loop over `cells`; `changed` records whether any cell was forced. */
  function ForcePass(b: Board, cells: seq<Cell>): (r: Revision)
    requires Complete(b) && forall i :: 0 <= i < |cells| ==> InGrid(cells[i])
    ensures Shrinks(b, r.board)
    ensures r.changed ==> Size(r.board) < Size(b)
    decreases |cells|
  {
    if cells == [] then Revision(false, b)
    else
      var step := ForceCell(b, cells[0]);
      var rest := ForcePass(step.board, cells[1..]);
      SizeShrinks(step.board, rest.board, cells[0]);
      ShrinksTransitive(b, step.board, rest.board);
      Revision(step.changed || rest.changed, rest.board)
  }

  /** A pass forces only cells with more than one candidate, each to a single one of its own candidates. */
  lemma {:induction false} ForcePassForcesUndecided(b: Board, cells: seq<Cell>, d: Cell)
    requires Complete(b) && InGrid(d) && forall i :: 0 <= i < |cells| ==> InGrid(cells[i])
    ensures var r := ForcePass(b, cells).board;
            r[d] == b[d] || (|b[d]| > 1 && |r[d]| == 1 && r[d] <= b[d])
    decreases |cells|
  {
    if cells != [] {
      var step := ForceCell(b, cells[0]);
      ForcePassForcesUndecided(step.board, cells[1..], d);
    }
  }

  /** Every undecided cell among `cells` has no candidate that passes a check. */
  ghost predicate NothingForceable(b: Board, cells: seq<Cell>)
    requires Complete(b) && forall i :: 0 <= i < |cells| ==> InGrid(cells[i])
  {
    forall i :: 0 <= i < |cells| && |b[cells[i]]| > 1 ==> FirstForceable(b, cells[i], Ascending(b[cells[i]])).None?
  }

  /** A pass that forces nothing leaves the board as it was. */
  lemma {:induction false} ForcePassKeepsBoard(b: Board, cells: seq<Cell>)
    requires Complete(b) && forall i :: 0 <= i < |cells| ==> InGrid(cells[i])
    requires !ForcePass(b, cells).changed
    ensures ForcePass(b, cells).board == b
    decreases |cells|
  {
    if cells != [] {
      assert ForceCell(b, cells[0]).board == b;
      ForcePassKeepsBoard(b, cells[1..]);
    }
  }

  /** When a pass forces nothing, its first cell was not forced and neither was
      any cell of the rest of the pass. */
  lemma ForcePassUnchangedHead(b: Board, cells: seq<Cell>)
    requires Complete(b) && forall i :: 0 <= i < |cells| ==> InGrid(cells[i])
    requires cells != [] && !ForcePass(b, cells).changed
    ensures |b[cells[0]]| > 1 ==> FirstForceable(b, cells[0], Ascending(b[cells[0]])).None?
    ensures !ForcePass(b, cells[1..]).changed
  {
  }

  /** A pass that forces nothing found nothing to force. */
  lemma {:induction false} ForcePassFindsNothing(b: Board, cells: seq<Cell>)
    requires Complete(b) && forall i :: 0 <= i < |cells| ==> InGrid(cells[i])
    requires !ForcePass(b, cells).changed
    ensures NothingForceable(b, cells)
    decreases |cells|
  {
    if cells != [] {
      ForcePassUnchangedHead(b, cells);
      ForcePassFindsNothing(b, cells[1..]);
      assert forall i :: 1 <= i < |cells| ==> cells[1..][i - 1] == cells[i];
    }
  }

  /** A pass that forces nothing leaves the board as it was and found nothing to force. */
  lemma {:induction false} ForcePassStable(b: Board, cells: seq<Cell>)
    requires Complete(b) && forall i :: 0 <= i < |cells| ==> InGrid(cells[i])
    requires !ForcePass(b, cells).changed
    ensures ForcePass(b, cells).board == b
    ensures NothingForceable(b, cells)
  {
    ForcePassKeepsBoard(b, cells);
    ForcePassFindsNothing(b, cells);
  }

  /** No undecided cell of the grid has a candidate that the forcing scan would pick. */
  ghost predicate ForcingStable(b: Board) {
    Complete(b) && NothingForceable(b, SudokuCells())
  }

  /** On a forcing-stable board the scan of any undecided grid cell finds nothing. */
  lemma ForcingStableAt(b: Board, c: Cell)
    requires ForcingStable(b) && InGrid(c) && |b[c]| > 1
    ensures FirstForceable(b, c, Ascending(b[c])).None?
  {
    var cells := SudokuCells();
    var i := 9 * c.0 + c.1;
    DivModNine(c.0, c.1);
    assert cells[i] == (i / 9, i % 9);
    assert cells[i] == c;
  }

  /** The improved inference: AC-3, then a forcing pass, repeated until a pass forces nothing. */
  function InferImproved(b: Board): (r: Board)
    requires Complete(b)
    ensures Shrinks(b, r)
    ensures ArcConsistent(r)
    ensures ForcingStable(r)
    decreases Size(b)
  {
    var a := InferAc3(b);
    var pass := ForcePass(a, SudokuCells());
    SizeShrinks(b, a, (0, 0));
    if pass.changed then InferImproved(pass.board)
    else
      ForcePassStable(a, SudokuCells());
      a
  }

  /** A decided cell keeps its value or is emptied: the improved inference never
      moves it to another value. */
  lemma DecidedCellKeepsValue(b: Board, c: Cell)
    requires Complete(b) && InGrid(c) && |b[c]| == 1
    ensures var r := InferImproved(b);
            r[c] == b[c] || r[c] == {}
  {
    var r := InferImproved(b);
    SingletonMember(b[c]);
    var v :| b[c] == {v};
    assert r[c] <= {v};
    if v in r[c] {
      assert r[c] == {v};
    } else {
      assert r[c] == {};
    }
  }

  /** Value v is a candidate of some other cell of c's column. */
  ghost predicate ElsewhereInColumn(b: Board, c: Cell, v: int)
    requires Complete(b) && InGrid(c)
  {
    exists rr :: 0 <= rr < 9 && rr != c.0 && v in b[(rr, c.1)]
  }

  /** Value v is a candidate of some other cell of c's row. */
  ghost predicate ElsewhereInRow(b: Board, c: Cell, v: int)
    requires Complete(b) && InGrid(c)
  {
    exists cc :: 0 <= cc < 9 && cc != c.1 && v in b[(c.0, cc)]
  }

  /** When the scan of a cell finds nothing, each of its candidates also appears
      elsewhere in the cell's column and elsewhere in its row. */
  lemma ScanFindsNothing(b: Board, c: Cell, v: int)
    requires Complete(b) && InGrid(c) && v in b[c]
    requires FirstForceable(b, c, Ascending(b[c])).None?
    ensures ElsewhereInColumn(b, c, v) && ElsewhereInRow(b, c, v)
  {
    var values := Ascending(b[c]);
    FirstForceableIsFirst(b, c, values);
    var i :| 0 <= i < |values| && values[i] == v;
    assert !Forceable(b, v, c);
    UniqueColCheckMeaning(b, v, c.0, c.1);
    UniqueRowCheckMeaning(b, v, c.0, c.1);
  }
}
