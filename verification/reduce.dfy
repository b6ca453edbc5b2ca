/**
 * Constraint propagation: the three rules applied in rounds until a round solves no
 * new cell, or until some cell runs out of candidates.
 */
module Propagation {
  import opened Wrappers
  import opened Topology
  import opened Board
  import opened EliminateRule
  import opened OnlyChoiceRule
  import opened NakedTwinsRule

  /**
   * What propagation and search give back: a board, or `None` for the source's
   * `False` (a contradiction) and `None` (no branch succeeded), with the assignment log.
   */
  datatype Outcome = Outcome(result: Option<Board>, log: seq<Board>)

  /** One round: elimination, then only-choice, then naked twins. */
  function Pass(st: State): (r: State)
    ensures Within(r.board, st.board)
    ensures forall s: Cell, p: Cell :: |st.board[s]| == 1 && p in Peers(s) ==> r.board[p] !! r.board[s]
    ensures st.log <= r.log
  {
    var e := Eliminate(st);
    var o := OnlyChoice(e);
    var r := NakedTwins(o);
    WithinTrans(r.board, o.board, e.board);
    WithinTrans(r.board, e.board, st.board);
    forall s: Cell, p: Cell | |st.board[s]| == 1 && p in Peers(s)
      ensures r.board[p] !! r.board[s]
    {
      assert e.board[p] !! e.board[s];
      assert r.board[p] <= e.board[p] && r.board[s] <= e.board[s];
    }
    r
  }

  /** A solution consistent with the board stays consistent through a round. */
  lemma PassSound(st: State, sol: seq<Digit>)
    requires IsSolution(sol) && Consistent(sol, st.board)
    ensures Consistent(sol, Pass(st).board)
  {
    var e := Eliminate(st);
    EliminateSound(st, sol);
    OnlyChoiceSound(e, sol);
    NakedTwinsSound(OnlyChoice(e), sol);
  }

  /** Shrinking a board without emptying a cell keeps every solved cell solved. */
  lemma SolvedStaySolved(a: Board, b: Board)
    requires Within(b, a) && !HasEmpty(b)
    ensures SolvedCount(a) <= SolvedCount(b)
  {
    forall i | 0 <= i < 81 && |a[i]| == 1
      ensures |b[i]| == 1
    {
      SubsetCard(b[i], a[i]);
    }
    SolvedCountGrows(a, b);
  }

  /**
   * A round that solves no new cell and leaves every cell solved started from a solved
   * board, so the elimination inside it has already set every pair of peers apart.
   */
  lemma StalledRoundSolves(a: Board, b: Board)
    requires forall s: Cell, p: Cell :: |a[s]| == 1 && p in Peers(s) ==> b[p] !! b[s]
    requires AllSolved(b) && SolvedCount(a) == SolvedCount(b)
    ensures Solves(b)
  {
    SolvedCountFull(b);
    SolvedCountFull(a);
    forall k: UnitId, i: Slot, j: Slot | i != j
      ensures b[UnitCell(k, i)] != b[UnitCell(k, j)]
    {
      var x, p := UnitCell(k, i), UnitCell(k, j);
      SlotsArePeers(k, i, j);
      assert |a[x]| == 1;
      assert b[p] !! b[x];
    }
  }

  /** The source's `reduce_puzzle`. */
  function Reduce(st: State): (r: Outcome)
    ensures r.result.Some? ==> !HasEmpty(r.result.value) && Within(r.result.value, st.board)
    ensures r.result.Some? && AllSolved(r.result.value) ==> Solves(r.result.value)
    ensures st.log <= r.log
    decreases 81 - SolvedCount(st.board)
  {
    var next := Pass(st);
    if HasEmpty(next.board) then Outcome(None, next.log)
    else if SolvedCount(st.board) == SolvedCount(next.board) then
      if AllSolved(next.board) then
        StalledRoundSolves(st.board, next.board);
        Outcome(Some(next.board), next.log)
      else Outcome(Some(next.board), next.log)
    else
      SolvedStaySolved(st.board, next.board);
      Reduce(next)
  }

  /** Propagation keeps every solution consistent with its input, so it never reports a contradiction then. */
  lemma {:induction false} ReduceComplete(st: State, sol: seq<Digit>)
    requires IsSolution(sol) && Consistent(sol, st.board)
    ensures Reduce(st).result.Some?
    ensures Consistent(sol, Reduce(st).result.value)
    decreases 81 - SolvedCount(st.board)
  {
    var next := Pass(st);
    PassSound(st, sol);
    assert !HasEmpty(next.board) by {
      forall c: Cell
        ensures next.board[c] != {}
      {
        assert sol[c] in next.board[c];
      }
    }
    if SolvedCount(st.board) != SolvedCount(next.board) {
      SolvedStaySolved(st.board, next.board);
      ReduceComplete(next, sol);
    }
  }
}
