/** Candidate boards: each cell maps to the set of values still possible for it.
    A board is a value, so a copy of it is a snapshot that later updates cannot touch. */
module Boards {
  import opened Topology

  datatype Option<T> = None | Some(value: T)

  type Board = map<Cell, set<int>>

  /** Every grid cell has a candidate set, as the solver reads all 81 of them. */
  ghost predicate Complete(b: Board) {
    forall c :: InGrid(c) ==> c in b
  }

  /** b2 arises from b1 by deleting candidates: no candidate set ever grows. */
  ghost predicate Shrinks(b1: Board, b2: Board) {
    Complete(b1) && Complete(b2) && forall c :: InGrid(c) ==> b2[c] <= b1[c]
  }

  lemma ShrinksTransitive(b1: Board, b2: Board, b3: Board)
    requires Shrinks(b1, b2) && Shrinks(b2, b3)
    ensures Shrinks(b1, b3)
  {
  }

  /** Sum of the candidate counts of `cells`. */
  function SizeOf(b: Board, cells: seq<Cell>): nat
    requires forall i :: 0 <= i < |cells| ==> cells[i] in b
  {
    if cells == [] then 0 else |b[cells[0]]| + SizeOf(b, cells[1..])
  }

  /** The total number of candidates on the board: the measure every solving step decreases. */
  function Size(b: Board): nat
    requires Complete(b)
  {
    CellsExactlyGrid();
    SizeOf(b, SudokuCells())
  }

  /** The board with cell c fixed to the single value v. */
  function Fix(b: Board, c: Cell, v: int): (r: Board)
    requires Complete(b) && InGrid(c) && v in b[c]
    ensures Shrinks(b, r)
    ensures r[c] == {v} && forall d :: d in b && d != c ==> d in r && r[d] == b[d]
    ensures |b[c]| > 1 ==> Size(r) < Size(b)
  {
    var r := b[c := {v}];
    SizeUpdate(b, c, {v});
    r
  }

  lemma {:induction false} SizeOfMono(b1: Board, b2: Board, cells: seq<Cell>)
    requires forall i :: 0 <= i < |cells| ==> cells[i] in b1 && cells[i] in b2 && b2[cells[i]] <= b1[cells[i]]
    ensures SizeOf(b2, cells) <= SizeOf(b1, cells)
    ensures (exists i :: 0 <= i < |cells| && b2[cells[i]] < b1[cells[i]]) ==> SizeOf(b2, cells) < SizeOf(b1, cells)
  {
    if cells != [] {
      SubsetCard(b2[cells[0]], b1[cells[0]]);
      SizeOfMono(b1, b2, cells[1..]);
      if exists i :: 0 <= i < |cells| && b2[cells[i]] < b1[cells[i]] {
        var i :| 0 <= i < |cells| && b2[cells[i]] < b1[cells[i]];
        if i > 0 {
          assert cells[1..][i - 1] == cells[i];
        }
      }
    }
  }

  lemma SubsetCard(a: set<int>, b: set<int>)
    requires a <= b
    ensures |a| <= |b|
    ensures a < b ==> |a| < |b|
  {
    var d := b - a;
    assert b == a + d && a !! d;
    if a < b {
      assert d != {};
    }
  }

  /** Shrinking never increases the size, and shrinking some cell strictly decreases it. */
  lemma SizeShrinks(b1: Board, b2: Board, c: Cell)
    requires Shrinks(b1, b2)
    ensures Size(b2) <= Size(b1)
    ensures InGrid(c) && b2[c] < b1[c] ==> Size(b2) < Size(b1)
  {
    CellsExactlyGrid();
    var cells := SudokuCells();
    SizeOfMono(b1, b2, cells);
    if InGrid(c) && b2[c] < b1[c] {
      var i := 9 * c.0 + c.1;
      DivModNine(c.0, c.1);
      assert cells[i] == c;
    }
  }

  lemma {:induction false} SizeOfUpdate(b: Board, c: Cell, s: set<int>, cells: seq<Cell>)
    requires forall i :: 0 <= i < |cells| ==> cells[i] in b
    requires forall i, j :: 0 <= i < j < |cells| ==> cells[i] != cells[j]
    ensures SizeOf(b[c := s], cells) == SizeOf(b, cells) + if c in cells then |s| - |b[c]| else 0
  {
    if cells != [] {
      SizeOfUpdate(b, c, s, cells[1..]);
      assert c in cells <==> c == cells[0] || c in cells[1..];
      if c == cells[0] {
        assert c !in cells[1..] by {
          forall j | 0 <= j < |cells[1..]|
            ensures cells[1..][j] != c
          {
            assert cells[1..][j] == cells[j + 1];
          }
        }
      }
    }
  }

  /** Replacing one cell's set changes the size by the difference of the two counts. */
  lemma SizeUpdate(b: Board, c: Cell, s: set<int>)
    requires Complete(b) && InGrid(c)
    ensures Size(b[c := s]) == Size(b) - |b[c]| + |s|
  {
    CellsExactlyGrid();
    SizeOfUpdate(b, c, s, SudokuCells());
  }

  /** A set with one member is the singleton of that member. */
  lemma SingletonMember(s: set<int>)
    requires |s| == 1
    ensures exists v :: s == {v}
  {
    assert (forall v :: v !in s) ==> s == {};
    var v :| v in s;
    assert |s - {v}| == 0;
    assert s - {v} == {};
    assert s == {v};
  }

  /** A decided set lies inside another set exactly when the two meet. */
  lemma DecidedOverlap(s: set<int>, a: set<int>)
    ensures |s| == 1 ==> (s <= a <==> !(s !! a))
  {
    if |s| == 1 {
      SingletonMember(s);
    }
  }
}
