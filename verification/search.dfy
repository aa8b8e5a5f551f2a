/** The solved test and the backtracking search: propagate, then guess each
    candidate of the first undecided cell until a guess leads to a solved board. */
module Search {
  import opened Topology
  import opened Boards
  import opened SetOrder
  import opened ArcConsistency
  import opened Uniqueness

  /** Every grid cell holds exactly one candidate. */
  ghost predicate Solved(b: Board)
    requires Complete(b)
  {
    forall c :: InGrid(c) ==> |b[c]| == 1
  }

  /** The loop of the solved test over `cells`: false at the first cell whose count is not one. */
  function AllDecided(b: Board, cells: seq<Cell>): bool
    requires forall i :: 0 <= i < |cells| ==> cells[i] in b
  {
    if cells == [] then true
    else if |b[cells[0]]| != 1 then false
    else AllDecided(b, cells[1..])
  }

  /** The solved test: every cell of the enumeration has exactly one candidate. */
  function IsSolved(b: Board): bool
    requires Complete(b)
  {
    CellsExactlyGrid();
    AllDecided(b, SudokuCells())
  }

  lemma {:induction false} AllDecidedMeaning(b: Board, cells: seq<Cell>)
    requires forall i :: 0 <= i < |cells| ==> cells[i] in b
    ensures AllDecided(b, cells) <==> forall i :: 0 <= i < |cells| ==> |b[cells[i]]| == 1
  {
    if cells != [] {
      AllDecidedMeaning(b, cells[1..]);
      assert forall i :: 1 <= i < |cells| ==> cells[1..][i - 1] == cells[i];
    }
  }

  /** The solved test holds exactly when every grid cell is decided; an empty
      candidate set makes it fail like an undecided one. */
  lemma IsSolvedMeaning(b: Board)
    requires Complete(b)
    ensures IsSolved(b) <==> Solved(b)
  {
    var cells := SudokuCells();
    CellsExactlyGrid();
    AllDecidedMeaning(b, cells);
    if AllDecided(b, cells) {
      forall c | InGrid(c)
        ensures |b[c]| == 1
      {
        var i := 9 * c.0 + c.1;
        DivModNine(c.0, c.1);
        assert cells[i] == (i / 9, i % 9);
      }
    }
  }

  /** On a board at the AC-3 fixed point that passes the solved test, every cell is
      decided and peers hold different values: the board is a Sudoku solution. */
  lemma SolvedPeersDiffer(b: Board)
    requires Complete(b) && ArcConsistent(b)
    ensures IsSolved(b) ==> forall x, y :: IsPeer(x, y) ==> |b[x]| == 1 && b[x] != b[y]
  {
    if IsSolved(b) {
      IsSolvedMeaning(b);
      forall x, y | IsPeer(x, y)
        ensures |b[x]| == 1 && b[x] != b[y]
      {
        assert Consistent(b, x, y);
        assert |b[x]| == 1;
      }
    }
  }

  /** The cell the search branches on: the first of `cells` with more than one candidate. */
  function FirstUndecided(b: Board, cells: seq<Cell>): (r: Option<Cell>)
    requires forall i :: 0 <= i < |cells| ==> cells[i] in b
    ensures r.Some? ==> r.value in cells && |b[r.value]| > 1
  {
    if cells == [] then None
    else if |b[cells[0]]| > 1 then Some(cells[0])
    else FirstUndecided(b, cells[1..])
  }

  /** No cell before position n of `cells` has more than one candidate. */
  ghost predicate DecidedBefore(b: Board, cells: seq<Cell>, n: int)
    requires forall i :: 0 <= i < |cells| ==> cells[i] in b
  {
    forall j :: 0 <= j < n && j < |cells| ==> |b[cells[j]]| <= 1
  }

  /** The branching cell is the first undecided one in enumeration order, and there is
      none exactly when no cell has more than one candidate. */
  lemma {:induction false} FirstUndecidedIsFirst(b: Board, cells: seq<Cell>)
    requires forall i :: 0 <= i < |cells| ==> cells[i] in b
    ensures FirstUndecided(b, cells).None? <==> DecidedBefore(b, cells, |cells|)
    ensures FirstUndecided(b, cells).Some? ==>
              exists i :: 0 <= i < |cells| && cells[i] == FirstUndecided(b, cells).value && DecidedBefore(b, cells, i)
  {
    if cells != [] && |b[cells[0]]| <= 1 {
      var tail := cells[1..];
      FirstUndecidedIsFirst(b, tail);
      assert forall j :: 1 <= j < |cells| ==> tail[j - 1] == cells[j];
      if FirstUndecided(b, cells).Some? {
        var i :| 0 <= i < |tail| && tail[i] == FirstUndecided(b, cells).value && DecidedBefore(b, tail, i);
        assert cells[i + 1] == tail[i];
      }
    } else if cells != [] {
      assert !DecidedBefore(b, cells, |cells|);
    }
  }

  /** What the search needs of the inference it runs before guessing: it accepts
      every complete board and only removes candidates. */
  ghost predicate Propagation(infer: Board --> Board) {
    && (forall b :: Complete(b) ==> infer.requires(b))
    && (forall b {:trigger infer(b)} :: Complete(b) ==> Shrinks(b, infer(b)))
  }

  /** The inference leaves every board at the AC-3 fixed point. */
  ghost predicate EndsArcConsistent(infer: Board --> Board)
    requires Propagation(infer)
  {
    forall b {:trigger infer(b)} :: Complete(b) ==> ArcConsistent(infer(b))
  }

  /** The search with inference `infer`: infer, then guess on the first undecided cell.
      A result that is not solved is the inferred board itself. */
  function Explore(infer: Board --> Board, b: Board): (r: Board)
    requires Propagation(infer) && Complete(b)
    ensures Shrinks(b, r)
    ensures !IsSolved(r) ==> r == infer(b)
    decreases Size(b), 2, 0
  {
    var p := infer(b);
    SizeShrinks(b, p, (0, 0));
    var r := GuessFirstUndecided(infer, p);
    ShrinksTransitive(b, p, r);
    r
  }

  /** The cell loop after inference: it stops at the first cell with more than one
      candidate and tries that cell's candidates in turn; with no such cell p stands. */
  function GuessFirstUndecided(infer: Board --> Board, p: Board): (r: Board)
    requires Propagation(infer) && Complete(p)
    ensures Shrinks(p, r)
    ensures !IsSolved(r) ==> r == p
    decreases Size(p), 1, 0
  {
    CellsExactlyGrid();
    match FirstUndecided(p, SudokuCells())
    case None => p
    case Some(c) => TryValues(infer, p, c, Ascending(p[c]))
  }

  /** One guess: fix cell c of p to v and search from there. */
  function Guess(infer: Board --> Board, p: Board, c: Cell, v: int): (r: Board)
    requires Propagation(infer) && Complete(p) && InGrid(c) && |p[c]| > 1 && v in p[c]
    ensures Shrinks(p, r)
    ensures r[c] <= {v}
    decreases Size(p), 0, 0
  {
    var g := Fix(p, c, v);
    var r := Explore(infer, g);
    ShrinksTransitive(p, g, r);
    r
  }

  /** The value loop: the first guess that ends solved is kept; a guess that does not
      is dropped and the next one starts again from the copy p; when all fail the result is p. */
  function TryValues(infer: Board --> Board, p: Board, c: Cell, values: seq<int>): (r: Board)
    requires Propagation(infer) && Complete(p) && InGrid(c) && |p[c]| > 1
    requires forall i :: 0 <= i < |values| ==> values[i] in p[c]
    ensures Shrinks(p, r)
    ensures !IsSolved(r) ==> r == p
    decreases Size(p), 0, |values|
  {
    if values == [] then p
    else
      var g := Guess(infer, p, c, values[0]);
      if IsSolved(g) then g
      else TryValues(infer, p, c, values[1..])
  }

  /** When the inference ends at the AC-3 fixed point, so does every board the search returns. */
  lemma ExploreArcConsistent(infer: Board --> Board, b: Board)
    requires Propagation(infer) && EndsArcConsistent(infer) && Complete(b)
    ensures ArcConsistent(Explore(infer, b))
    decreases Size(b), 2, 0
  {
    var p := infer(b);
    SizeShrinks(b, p, (0, 0));
    GuessFirstUndecidedArcConsistent(infer, p);
  }

  lemma GuessFirstUndecidedArcConsistent(infer: Board --> Board, p: Board)
    requires Propagation(infer) && EndsArcConsistent(infer) && Complete(p) && ArcConsistent(p)
    ensures ArcConsistent(GuessFirstUndecided(infer, p))
    decreases Size(p), 1, 0
  {
    CellsExactlyGrid();
    match FirstUndecided(p, SudokuCells())
    case None =>
    case Some(c) => TryValuesArcConsistent(infer, p, c, Ascending(p[c]));
  }

  lemma {:induction false} TryValuesArcConsistent(infer: Board --> Board, p: Board, c: Cell, values: seq<int>)
    requires Propagation(infer) && EndsArcConsistent(infer)
    requires Complete(p) && InGrid(c) && |p[c]| > 1 && ArcConsistent(p)
    requires forall i :: 0 <= i < |values| ==> values[i] in p[c]
    ensures ArcConsistent(TryValues(infer, p, c, values))
    decreases Size(p), 0, |values|
  {
    if values != [] {
      var g := Fix(p, c, values[0]);
      ExploreArcConsistent(infer, g);
      TryValuesArcConsistent(infer, p, c, values[1..]);
    }
  }

  /** No guess among the first n values ends solved. */
  ghost predicate NoSolvedGuess(infer: Board --> Board, p: Board, c: Cell, values: seq<int>, n: int)
    requires Propagation(infer) && Complete(p) && InGrid(c) && |p[c]| > 1
    requires forall i :: 0 <= i < |values| ==> values[i] in p[c]
  {
    forall j :: 0 <= j < n && j < |values| ==> !IsSolved(Guess(infer, p, c, values[j]))
  }

  /** The position of the first value whose guess ends solved, or |values| when there is none. */
  ghost function FirstSolvedAt(infer: Board --> Board, p: Board, c: Cell, values: seq<int>): (k: nat)
    requires Propagation(infer) && Complete(p) && InGrid(c) && |p[c]| > 1
    requires forall i :: 0 <= i < |values| ==> values[i] in p[c]
    ensures k <= |values|
  {
    if values == [] then 0
    else if IsSolved(Guess(infer, p, c, values[0])) then 0
    else 1 + FirstSolvedAt(infer, p, c, values[1..])
  }

  /** The value loop returns the guess at the first solved position, or p when there is none. */
  lemma {:induction false} TryValuesIsFirstSolved(infer: Board --> Board, p: Board, c: Cell, values: seq<int>)
    requires Propagation(infer) && Complete(p) && InGrid(c) && |p[c]| > 1
    requires forall i :: 0 <= i < |values| ==> values[i] in p[c]
    ensures var k := FirstSolvedAt(infer, p, c, values);
            TryValues(infer, p, c, values) == if k < |values| then Guess(infer, p, c, values[k]) else p
  {
    if values != [] && !IsSolved(Guess(infer, p, c, values[0])) {
      var tail := values[1..];
      TryValuesIsFirstSolved(infer, p, c, tail);
      var k := FirstSolvedAt(infer, p, c, tail);
      if k < |tail| {
        assert tail[k] == values[k + 1];
      }
    }
  }

  /** Every guess before the first solved position fails. */
  lemma {:induction false} GuessesBeforeFirstSolvedFail(infer: Board --> Board, p: Board, c: Cell, values: seq<int>)
    requires Propagation(infer) && Complete(p) && InGrid(c) && |p[c]| > 1
    requires forall i :: 0 <= i < |values| ==> values[i] in p[c]
    ensures NoSolvedGuess(infer, p, c, values, FirstSolvedAt(infer, p, c, values))
  {
    if values != [] && !IsSolved(Guess(infer, p, c, values[0])) {
      var tail := values[1..];
      GuessesBeforeFirstSolvedFail(infer, p, c, tail);
      forall j | 0 <= j < FirstSolvedAt(infer, p, c, values) && j < |values|
        ensures !IsSolved(Guess(infer, p, c, values[j]))
      {
        if j > 0 {
          assert values[j] == tail[j - 1];
        }
      }
    }
  }

  /** The guess at the first solved position, when there is one, ends solved. */
  lemma {:induction false} FirstSolvedGuessSolves(infer: Board --> Board, p: Board, c: Cell, values: seq<int>)
    requires Propagation(infer) && Complete(p) && InGrid(c) && |p[c]| > 1
    requires forall i :: 0 <= i < |values| ==> values[i] in p[c]
    ensures var k := FirstSolvedAt(infer, p, c, values);
            k < |values| ==> IsSolved(Guess(infer, p, c, values[k]))
  {
    if values != [] && !IsSolved(Guess(infer, p, c, values[0])) {
      var tail := values[1..];
      var k := FirstSolvedAt(infer, p, c, tail);
      FirstSolvedGuessSolves(infer, p, c, tail);
      if k < |tail| {
        assert tail[k] == values[k + 1];
      }
    }
  }

  /** The value loop ends solved exactly when some guess does, and then it returns
      the outcome of the first such guess; when none does it returns p. */
  lemma TryValuesStopsAtFirstSolved(infer: Board --> Board, p: Board, c: Cell, values: seq<int>)
    requires Propagation(infer) && Complete(p) && InGrid(c) && |p[c]| > 1
    requires forall i :: 0 <= i < |values| ==> values[i] in p[c]
    ensures IsSolved(TryValues(infer, p, c, values)) <==> !NoSolvedGuess(infer, p, c, values, |values|)
    ensures var k := FirstSolvedAt(infer, p, c, values);
            && NoSolvedGuess(infer, p, c, values, k)
            && (k < |values| ==> IsSolved(Guess(infer, p, c, values[k])) && TryValues(infer, p, c, values) == Guess(infer, p, c, values[k]))
            && (k == |values| ==> TryValues(infer, p, c, values) == p)
  {
    TryValuesIsFirstSolved(infer, p, c, values);
    GuessesBeforeFirstSolvedFail(infer, p, c, values);
    FirstSolvedGuessSolves(infer, p, c, values);
    IsSolvedMeaning(p);
  }

  /** The improved inference meets what the search needs of its inference. */
  lemma ImprovedIsPropagation()
    ensures Propagation(InferImproved) && EndsArcConsistent(InferImproved)
  {
  }

  /** infer_with_guessing: the search whose inference is the improved one. Its result
      only removes candidates, sits at the AC-3 fixed point, and when it is not solved
      it is the board the improved inference left. */
  function InferWithGuessing(b: Board): (r: Board)
    requires Complete(b)
    ensures Shrinks(b, r)
    ensures ArcConsistent(r)
    ensures !IsSolved(r) ==> r == InferImproved(b)
  {
    ImprovedIsPropagation();
    ExploreArcConsistent(InferImproved, b);
    Explore(InferImproved, b)
  }

  /** A solved search result is a Sudoku solution: peers hold different single values. */
  lemma SolvedResultIsSolution(b: Board)
    requires Complete(b)
    ensures var r := InferWithGuessing(b);
            IsSolved(r) ==> forall x, y :: IsPeer(x, y) ==> |r[x]| == 1 && r[x] != r[y]
  {
    SolvedPeersDiffer(InferWithGuessing(b));
  }
}
