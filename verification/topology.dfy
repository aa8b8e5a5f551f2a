/** The fixed constraint graph of a 9x9 Sudoku: its 81 cells and the directed
    "peer" arcs between distinct cells that share a row, a column or a 3x3 box. */
module Topology {

  /** A cell is a (row, column) pair. */
  type Cell = (int, int)

  /** A directed arc (x, y): the candidates of x are revised against y. */
  type Arc = (Cell, Cell)

  predicate InGrid(c: Cell) {
    0 <= c.0 < 9 && 0 <= c.1 < 9
  }

  /** Same row, same column, or same 3x3 box (box index = coordinate / 3). */
  predicate SharesUnit(x: Cell, y: Cell) {
    x.0 == y.0 || x.1 == y.1 || (x.0 / 3 == y.0 / 3 && x.1 / 3 == y.1 / 3)
  }

  /** x and y are distinct grid cells constrained to hold different values. */
  predicate IsPeer(x: Cell, y: Cell) {
    InGrid(x) && InGrid(y) && x != y && SharesUnit(x, y)
  }

  /** The inner loop of the cell enumeration: (row, col), ..., (row, 8). */
  function RowCells(row: int, col: int): (r: seq<Cell>)
    requires 0 <= col <= 9
    ensures |r| == 9 - col
    ensures forall i :: 0 <= i < |r| ==> r[i] == (row, col + i)
    decreases 9 - col
  {
    if col == 9 then [] else [(row, col)] + RowCells(row, col + 1)
  }

  /** All 81 cells of the grid in row-major order: the nested row and column
      loops put cell (row, col) at index 9 * row + col. */
  function SudokuCells(): (cells: seq<Cell>)
    ensures |cells| == 81
    ensures forall i :: 0 <= i < |cells| ==> InGrid(cells[i])
  {
    seq(81, i requires 0 <= i < 81 => (i / 9, i % 9))
  }

  lemma DivModNine(r: int, c: int)
    requires 0 <= r < 9 && 0 <= c < 9
    ensures (9 * r + c) / 9 == r && (9 * r + c) % 9 == c
  {
  }

  lemma DivModId(i: int)
    requires 0 <= i
    ensures i == 9 * (i / 9) + i % 9
  {
  }

  /** Cell (r, c) of the grid sits at index 9 * r + c of the enumeration. */
  lemma CellIndices()
    ensures forall c :: InGrid(c) ==> SudokuCells()[9 * c.0 + c.1] == c
  {
    forall c | InGrid(c)
      ensures SudokuCells()[9 * c.0 + c.1] == c
    {
      var i := 9 * c.0 + c.1;
      DivModNine(c.0, c.1);
      assert SudokuCells()[i] == (i / 9, i % 9);
    }
  }

  /** The enumeration lists exactly the grid cells, each of them once. */
  lemma CellsExactlyGrid()
    ensures forall c :: c in SudokuCells() <==> InGrid(c)
    ensures forall i, j :: 0 <= i < j < |SudokuCells()| ==> SudokuCells()[i] != SudokuCells()[j]
  {
    var cells := SudokuCells();
    CellIndices();
    forall i, j | 0 <= i < j < |cells|
      ensures cells[i] != cells[j]
    {
      DivModId(i);
      DivModId(j);
    }
  }

  /** The cells from row k on are row k followed by the cells from row k + 1 on. */
  lemma RowsFrom(k: int)
    requires 0 <= k < 9
    ensures SudokuCells()[9 * k..] == RowCells(k, 0) + SudokuCells()[9 * (k + 1)..]
  {
    var cells := SudokuCells();
    var s, t := cells[9 * k..], RowCells(k, 0) + cells[9 * (k + 1)..];
    assert |s| == |t|;
    forall i | 0 <= i < |s|
      ensures s[i] == t[i]
    {
      if i < 9 {
        DivModNine(k, i);
        assert s[i] == (k, i);
      } else {
        assert s[i] == cells[9 * (k + 1) + (i - 9)];
      }
    }
  }

  /** The inner loop of the arc enumeration: arcs from x to every cell of
      `cells` that is distinct from x and shares a unit with it, in order. */
  function PeerArcs(x: Cell, cells: seq<Cell>): seq<Arc>
  {
    if cells == [] then []
    else
      var head := if x != cells[0] && SharesUnit(x, cells[0]) then [(x, cells[0])] else [];
      head + PeerArcs(x, cells[1..])
  }

  /** The outer loop of the arc enumeration: the peer arcs of each cell of `xs`. */
  function ArcsFrom(xs: seq<Cell>, cells: seq<Cell>): seq<Arc>
  {
    if xs == [] then [] else PeerArcs(xs[0], cells) + ArcsFrom(xs[1..], cells)
  }

  lemma {:induction false} PeerArcsMembers(x: Cell, cells: seq<Cell>)
    ensures forall a :: a in PeerArcs(x, cells) <==> a.0 == x && a.1 in cells && x != a.1 && SharesUnit(x, a.1)
  {
    if cells != [] {
      PeerArcsMembers(x, cells[1..]);
      assert forall c :: c in cells <==> c == cells[0] || c in cells[1..];
    }
  }

  lemma {:induction false} ArcsFromMembers(xs: seq<Cell>, cells: seq<Cell>)
    ensures forall a :: a in ArcsFrom(xs, cells) <==> a.0 in xs && a.1 in cells && a.0 != a.1 && SharesUnit(a.0, a.1)
  {
    if xs != [] {
      PeerArcsMembers(xs[0], cells);
      ArcsFromMembers(xs[1..], cells);
      assert forall c :: c in xs <==> c == xs[0] || c in xs[1..];
    }
  }

  /** The arc list: an arc joins exactly the pairs of peers, so it is symmetric. */
  function SudokuArcs(): (arcs: seq<Arc>)
    ensures forall a :: a in arcs <==> IsPeer(a.0, a.1)
    ensures forall x, y :: (x, y) in arcs ==> (y, x) in arcs
  {
    CellsExactlyGrid();
    ArcsFromMembers(SudokuCells(), SudokuCells());
    ArcsFrom(SudokuCells(), SudokuCells())
  }

  /** The number of arcs of `arcs` that leave x. */
  function OutDegree(arcs: seq<Arc>, x: Cell): nat
  {
    if arcs == [] then 0 else (if arcs[0].0 == x then 1 else 0) + OutDegree(arcs[1..], x)
  }

  /** Number of columns in [k, 9) inside the same box column as col (also rows in a band). */
  function BoxLinesFrom(col: int, k: int): int
  {
    var lo := col / 3 * 3;
    if k <= lo then 3 else if k < lo + 3 then lo + 3 - k else 0
  }

  lemma BoxLinesStep(r: int, k: int)
    requires 0 <= r < 9 && 0 <= k < 9
    ensures BoxLinesFrom(r, k) - BoxLinesFrom(r, k + 1) == if k / 3 == r / 3 then 1 else 0
    ensures BoxLinesFrom(r, 0) == 3
    ensures BoxLinesFrom(r, 9) == 0
  {
  }

  /** Prepending one cell adds an arc exactly when that cell is a peer of x. */
  lemma PeerArcsPrepend(x: Cell, c: Cell, rest: seq<Cell>)
    ensures |PeerArcs(x, [c] + rest)| == (if x != c && SharesUnit(x, c) then 1 else 0) + |PeerArcs(x, rest)|
  {
    var cells := [c] + rest;
    assert cells[0] == c && cells[1..] == rest;
  }

  lemma {:induction false} PeerArcsAppend(x: Cell, a: seq<Cell>, b: seq<Cell>)
    ensures |PeerArcs(x, a + b)| == |PeerArcs(x, a)| + |PeerArcs(x, b)|
  {
    if a == [] {
      assert a + b == b;
    } else {
      var c, rest := a[0], a[1..];
      assert a == [c] + rest;
      assert a + b == [c] + (rest + b);
      PeerArcsPrepend(x, c, rest + b);
      PeerArcsPrepend(x, c, rest);
      PeerArcsAppend(x, rest, b);
    }
  }

  /** The number of peers of x among the cells of row rr from column k on. */
  function RowPeers(x: Cell, rr: int, k: int): int
  {
    if rr == x.0 then (9 - k) - (if k <= x.1 then 1 else 0)
    else if rr / 3 == x.0 / 3 then BoxLinesFrom(x.1, k)
    else if k <= x.1 then 1 else 0
  }

  /** The arithmetic of one column step of RowPeerCount. */
  lemma RowPeersStep(x: Cell, rr: int, k: int)
    requires InGrid(x) && 0 <= rr < 9 && 0 <= k < 9
    ensures RowPeers(x, rr, k) == (if x != (rr, k) && SharesUnit(x, (rr, k)) then 1 else 0) + RowPeers(x, rr, k + 1)
  {
    BoxLinesStep(x.1, k);
    var peer := x != (rr, k) && SharesUnit(x, (rr, k));
    if rr == x.0 {
      assert peer == (k != x.1);
    } else if rr / 3 == x.0 / 3 {
      assert peer == (k / 3 == x.1 / 3);
    } else {
      assert peer == (k == x.1);
    }
  }

  lemma RowCellsCons(rr: int, k: int)
    requires 0 <= k < 9
    ensures RowCells(rr, k) == [(rr, k)] + RowCells(rr, k + 1)
  {
  }

  /** How many cells of row rr, from column k on, are peers of x. */
  lemma {:induction false} RowPeerCount(x: Cell, rr: int, k: int)
    requires InGrid(x) && 0 <= rr < 9 && 0 <= k <= 9
    ensures |PeerArcs(x, RowCells(rr, k))| == RowPeers(x, rr, k)
    decreases 9 - k
  {
    if k < 9 {
      RowCellsCons(rr, k);
      PeerArcsPrepend(x, (rr, k), RowCells(rr, k + 1));
      RowPeerCount(x, rr, k + 1);
      RowPeersStep(x, rr, k);
    } else {
      BoxLinesStep(x.1, 8);
    }
  }

  /** How many cells of rows k..8 are peers of x. */
  lemma {:induction false} GridPeerCount(x: Cell, k: int)
    requires InGrid(x) && 0 <= k <= 9
    ensures |PeerArcs(x, SudokuCells()[9 * k..])|
            == (9 - k) + 7 * (if k <= x.0 then 1 else 0)
               + 2 * (BoxLinesFrom(x.0, k) - (if k <= x.0 then 1 else 0))
    decreases 9 - k
  {
    if k < 9 {
      RowsFrom(k);
      PeerArcsAppend(x, RowCells(k, 0), SudokuCells()[9 * (k + 1)..]);
      RowPeerCount(x, k, 0);
      BoxLinesStep(x.1, 0);
      GridPeerCount(x, k + 1);
      GridCountStep(x.0, k, |PeerArcs(x, RowCells(k, 0))|, |PeerArcs(x, SudokuCells()[9 * (k + 1)..])|);
    } else {
      assert SudokuCells()[81..] == [];
      BoxLinesStep(x.0, 8);
    }
  }

  /** The arithmetic of one row step of GridPeerCount. */
  lemma GridCountStep(r: int, k: int, here: int, rest: int)
    requires 0 <= r < 9 && 0 <= k < 9
    requires here == if k == r then 8 else if k / 3 == r / 3 then 3 else 1
    requires rest == (9 - (k + 1)) + 7 * (if k + 1 <= r then 1 else 0)
                     + 2 * (BoxLinesFrom(r, k + 1) - (if k + 1 <= r then 1 else 0))
    ensures here + rest == (9 - k) + 7 * (if k <= r then 1 else 0)
                           + 2 * (BoxLinesFrom(r, k) - (if k <= r then 1 else 0))
  {
    BoxLinesStep(r, k);
  }

  /** Every cell has exactly 20 peers: 8 in its row, 8 in its column, 4 more in its box. */
  lemma PeerCount(x: Cell)
    requires InGrid(x)
    ensures |PeerArcs(x, SudokuCells())| == 20
  {
    GridPeerCount(x, 0);
    assert SudokuCells()[0..] == SudokuCells();
  }

  lemma OutDegreePrepend(a: Arc, rest: seq<Arc>, x: Cell)
    ensures OutDegree([a] + rest, x) == (if a.0 == x then 1 else 0) + OutDegree(rest, x)
  {
    var arcs := [a] + rest;
    assert arcs[0] == a && arcs[1..] == rest;
  }

  lemma {:induction false} OutDegreeAppend(a: seq<Arc>, b: seq<Arc>, x: Cell)
    ensures OutDegree(a + b, x) == OutDegree(a, x) + OutDegree(b, x)
  {
    if a == [] {
      assert a + b == b;
    } else {
      var c, rest := a[0], a[1..];
      assert a == [c] + rest;
      assert a + b == [c] + (rest + b);
      OutDegreePrepend(c, rest + b, x);
      OutDegreePrepend(c, rest, x);
      OutDegreeAppend(rest, b, x);
    }
  }

  lemma {:induction false} OutDegreeOfPeerArcs(y: Cell, cells: seq<Cell>, x: Cell)
    ensures OutDegree(PeerArcs(y, cells), x) == if x == y then |PeerArcs(y, cells)| else 0
  {
    if cells != [] {
      var head := if y != cells[0] && SharesUnit(y, cells[0]) then [(y, cells[0])] else [];
      OutDegreeAppend(head, PeerArcs(y, cells[1..]), x);
      OutDegreeOfPeerArcs(y, cells[1..], x);
    }
  }

  lemma {:induction false} OutDegreeOfArcsFrom(xs: seq<Cell>, cells: seq<Cell>, x: Cell)
    requires forall i, j :: 0 <= i < j < |xs| ==> xs[i] != xs[j]
    ensures OutDegree(ArcsFrom(xs, cells), x) == if x in xs then |PeerArcs(x, cells)| else 0
  {
    if xs != [] {
      OutDegreeAppend(PeerArcs(xs[0], cells), ArcsFrom(xs[1..], cells), x);
      OutDegreeOfPeerArcs(xs[0], cells, x);
      OutDegreeOfArcsFrom(xs[1..], cells, x);
      assert x in xs <==> x == xs[0] || x in xs[1..];
      if x == xs[0] {
        assert x !in xs[1..] by {
          forall j | 0 <= j < |xs[1..]|
            ensures xs[1..][j] != x
          {
            assert xs[1..][j] == xs[j + 1];
          }
        }
      }
    }
  }

  lemma {:induction false} ArcsFromLength(xs: seq<Cell>)
    requires forall i :: 0 <= i < |xs| ==> InGrid(xs[i])
    ensures |ArcsFrom(xs, SudokuCells())| == 20 * |xs|
  {
    if xs != [] {
      PeerCount(xs[0]);
      ArcsFromLength(xs[1..]);
    }
  }

  /** Each grid cell is the source of exactly 20 arcs, and there are 81 * 20 = 1620 arcs. */
  lemma ArcCounts(x: Cell)
    requires InGrid(x)
    ensures OutDegree(SudokuArcs(), x) == 20
    ensures |SudokuArcs()| == 1620
  {
    CellsExactlyGrid();
    OutDegreeOfArcsFrom(SudokuCells(), SudokuCells(), x);
    PeerCount(x);
    ArcsFromLength(SudokuCells());
  }
}
