/** Arc revision and the queue-driven AC-3 loop of the solver. */
module ArcConsistency {
  import opened Topology
  import opened Boards

  /** The solver's precomputed arc list. */
  const Arcs: seq<Arc> := SudokuArcs()

  /** The outcome of one revision: whether the board changed, and the board. */
  datatype Revision = Revision(changed: bool, board: Board)

  /** Arc (x, y) is consistent when y is undecided or its single value is not a candidate of x. */
  ghost predicate Consistent(b: Board, x: Cell, y: Cell) {
    x in b && y in b && (|b[y]| == 1 ==> b[y] !! b[x])
  }

  /** The AC-3 fixed point: every arc of the grid is consistent. */
  ghost predicate ArcConsistent(b: Board) {
    forall x, y :: IsPeer(x, y) ==> Consistent(b, x, y)
  }

  /** Revises x against y: when (x, y) is an arc (membership in `Arcs` is
      decided by `IsPeer`, which the contract of SudokuArcs shows equivalent) and y is decided with a value
      that x still holds, that value leaves x's candidates and nothing else moves. */
  function RemoveInconsistentValues(b: Board, x: Cell, y: Cell): (r: Revision)
    requires Complete(b)
    ensures r.changed <==> IsPeer(x, y) && !Consistent(b, x, y)
    ensures r.changed ==> r.board == b[x := b[x] - b[y]] && |b[y]| == 1 && Size(r.board) == Size(b) - 1
    ensures !r.changed ==> r.board == b
    ensures IsPeer(x, y) ==> Consistent(r.board, x, y)
    ensures Shrinks(b, r.board)
  {
    if !IsPeer(x, y) then Revision(false, b)
    else
      DecidedOverlap(b[y], b[x]);
      if |b[y]| == 1 && b[y] <= b[x] then
        var r := b[x := b[x] - b[y]];
        SizeUpdate(b, x, b[x] - b[y]);
        RemoveOne(b[x], b[y]);
        Revision(true, r)
      else
        Revision(false, b)
  }

  lemma RemoveOne(a: set<int>, s: set<int>)
    requires |s| == 1 && s <= a
    ensures |a - s| == |a| - 1
  {
    assert a == (a - s) + s && (a - s) !! s;
  }

  /** The arcs of `arcs` that end at c, in order: those to recheck once c shrinks. */
  function ArcsInto(arcs: seq<Arc>, c: Cell): (r: seq<Arc>)
    ensures forall a :: a in r <==> a in arcs && a.1 == c
  {
    if arcs == [] then []
    else
      assert forall a :: a in arcs <==> a == arcs[0] || a in arcs[1..];
      (if arcs[0].1 == c then [arcs[0]] else []) + ArcsInto(arcs[1..], c)
  }

  /** The while loop of AC-3: pop the first arc, revise it, and on a change
      enqueue every arc that ends at the shrunken cell. */
  function Ac3Loop(b: Board, queue: seq<Arc>): (r: Board)
    requires Complete(b)
    ensures Shrinks(b, r)
    decreases Size(b), |queue|
  {
    if queue == [] then b
    else
      var rev := RemoveInconsistentValues(b, queue[0].0, queue[0].1);
      if rev.changed then Ac3Loop(rev.board, queue[1..] + ArcsInto(Arcs, queue[0].0))
      else Ac3Loop(b, queue[1..])
  }

  /** AC-3 starting from a queue that holds every arc. */
  function InferAc3(b: Board): (r: Board)
    requires Complete(b)
    ensures Shrinks(b, r)
    ensures ArcConsistent(r)
  {
    Ac3ReachesFixedPoint(b, Arcs);
    Ac3Loop(b, Arcs)
  }

  /** The loop invariant of AC-3: every arc not waiting in the queue is consistent. */
  ghost predicate QueueInvariant(b: Board, queue: seq<Arc>) {
    forall x, y :: IsPeer(x, y) && (x, y) !in queue ==> Consistent(b, x, y)
  }

  /** Shrinking the candidates of x keeps every consistent arc that does not end at x consistent. */
  lemma ShrinkKeepsArc(b: Board, x: Cell, s: set<int>, u: Cell, v: Cell)
    requires Complete(b) && InGrid(x) && s <= b[x]
    requires IsPeer(u, v) && v != x && Consistent(b, u, v)
    ensures Consistent(b[x := s], u, v)
  {
  }

  /** A revision that removes values keeps the invariant once the arcs into x are re-enqueued. */
  lemma ChangedKeepsInvariant(b: Board, x: Cell, y: Cell, rest: seq<Arc>)
    requires Complete(b) && QueueInvariant(b, [(x, y)] + rest)
    requires RemoveInconsistentValues(b, x, y).changed
    ensures QueueInvariant(RemoveInconsistentValues(b, x, y).board, rest + ArcsInto(Arcs, x))
  {
    var rev := RemoveInconsistentValues(b, x, y);
    var next := rest + ArcsInto(Arcs, x);
    forall u, v | IsPeer(u, v) && (u, v) !in next
      ensures Consistent(rev.board, u, v)
    {
      if (u, v) != (x, y) {
        assert (u, v) !in [(x, y)] + rest;
        assert (u, v) in Arcs;
        assert v != x;
        ShrinkKeepsArc(b, x, b[x] - b[y], u, v);
      }
    }
  }

  /** A revision that removes nothing leaves the revised arc consistent, so dropping it keeps the invariant. */
  lemma UnchangedKeepsInvariant(b: Board, x: Cell, y: Cell, rest: seq<Arc>)
    requires Complete(b) && QueueInvariant(b, [(x, y)] + rest)
    requires !RemoveInconsistentValues(b, x, y).changed
    ensures QueueInvariant(b, rest)
  {
    forall u, v | IsPeer(u, v) && (u, v) !in rest
      ensures Consistent(b, u, v)
    {
      if (u, v) != (x, y) {
        assert (u, v) !in [(x, y)] + rest;
      }
    }
  }

  /** From a state satisfying the invariant, the loop ends at the AC-3 fixed point. */
  lemma {:induction false} Ac3ReachesFixedPoint(b: Board, queue: seq<Arc>)
    requires Complete(b) && QueueInvariant(b, queue)
    ensures ArcConsistent(Ac3Loop(b, queue))
    decreases Size(b), |queue|
  {
    if queue != [] {
      var x, y, rest := queue[0].0, queue[0].1, queue[1..];
      assert queue == [(x, y)] + rest;
      var rev := RemoveInconsistentValues(b, x, y);
      if rev.changed {
        ChangedKeepsInvariant(b, x, y, rest);
        Ac3ReachesFixedPoint(rev.board, rest + ArcsInto(Arcs, x));
      } else {
        UnchangedKeepsInvariant(b, x, y, rest);
        Ac3ReachesFixedPoint(b, rest);
      }
    }
  }

  /** At the fixed point no revision changes anything, whatever the queue. */
  lemma {:induction false} Ac3StableAtFixedPoint(b: Board, queue: seq<Arc>)
    requires Complete(b) && ArcConsistent(b)
    ensures Ac3Loop(b, queue) == b
    decreases |queue|
  {
    if queue != [] {
      Ac3StableAtFixedPoint(b, queue[1..]);
    }
  }

  /** Running AC-3 a second time is a no-op. */
  lemma InferAc3Idempotent(b: Board)
    requires Complete(b)
    ensures InferAc3(InferAc3(b)) == InferAc3(b)
  {
    Ac3StableAtFixedPoint(InferAc3(b), Arcs);
  }
}
