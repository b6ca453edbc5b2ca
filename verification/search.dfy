/**
 * Depth-first search: propagate, then branch on the open cell with the fewest
 * candidates, trying its digits in ascending order.
 */
module Solver {
  import opened Wrappers
  import opened Topology
  import opened Board
  import opened Grid
  import opened Propagation

  /** The first cell from `i` on, in row-major order, with more than one candidate. */
  function FirstOpen(b: Board, i: Cell): (c: Cell)
    requires exists x: Cell :: i <= x && |b[x]| > 1
    ensures i <= c && |b[c]| > 1
    ensures forall x: Cell :: i <= x < c ==> |b[x]| <= 1
    decreases 81 - i
  {
    if |b[i]| > 1 then i else FirstOpen(b, i + 1)
  }

  /**
   * The scan over cells `i` to 80 that keeps `best` unless a later open cell is strictly
   * smaller.  The requirements are what the cells before `i` have already established.
   */
  function ScanBest(b: Board, i: int, best: Cell): (c: Cell)
    requires best < i <= 81 && |b[best]| > 1
    requires forall x: Cell :: x < i && |b[x]| > 1 ==> |b[best]| <= |b[x]|
    requires forall x: Cell :: x < best && |b[x]| > 1 ==> |b[best]| < |b[x]|
    ensures |b[c]| > 1
    ensures forall x: Cell :: |b[x]| > 1 ==> |b[c]| <= |b[x]|
    ensures forall x: Cell :: x < c && |b[x]| > 1 ==> |b[c]| < |b[x]|
    decreases 81 - i
  {
    if i == 81 then best
    else if |b[i]| > 1 && |b[i]| < |b[best]| then ScanBest(b, i + 1, i)
    else ScanBest(b, i + 1, best)
  }

  /**
   * The source's `best_box`: among the open cells, one with the fewest candidates, and of
   * those the first in row-major order.
   */
  function BestCell(b: Board): (c: Cell)
    requires exists x: Cell :: |b[x]| > 1
    ensures |b[c]| > 1
    ensures forall x: Cell :: |b[x]| > 1 ==> |b[c]| <= |b[x]|
    ensures forall x: Cell :: x < c && |b[x]| > 1 ==> |b[c]| < |b[x]|
  {
    var first := FirstOpen(b, 0);
    ScanBest(b, first + 1, first)
  }

  /** A board with no empty cell that is not fully solved has an open cell. */
  lemma OpenCellExists(b: Board)
    requires !HasEmpty(b) && !AllSolved(b)
    ensures exists x: Cell :: |b[x]| > 1
  {
    var x: Cell :| |b[x]| != 1;
    assert b[x] != {};
  }

  /** The source's `search`. */
  function Search(st: State): (r: Outcome)
    ensures r.result.Some? ==> Solves(r.result.value) && Within(r.result.value, st.board)
    ensures st.log <= r.log
    decreases Total(st.board), 1, 0
  {
    var red := Reduce(st);
    if red.result.None? then red
    else
      var b := red.result.value;
      if AllSolved(b) then red
      else
        OpenCellExists(b);
        var best := BestCell(b);
        WithinTotal(b, st.board);
        var r := Branch(b, best, InOrder(b[best]), red.log);
        FoundWithin(r.result, b, st.board);
        r
  }

  /** Tries the digits `ds` for cell `best` in turn, returning the first search that succeeds. */
  function Branch(b: Board, best: Cell, ds: seq<Digit>, log: seq<Board>): (r: Outcome)
    requires |b[best]| > 1
    requires forall d :: d in ds ==> d in b[best]
    ensures r.result.Some? ==> Solves(r.result.value) && Within(r.result.value, b)
    ensures log <= r.log
    decreases Total(b), 0, |ds|
  {
    if |ds| == 0 then Outcome(None, log)
    else
      var next := Assign(State(b, log), best, {ds[0]});
      GuessShrinks(b, log, best, ds[0]);
      var res := Search(next);
      FoundWithin(res.result, next.board, b);
      if res.result.Some? then res
      else Branch(b, best, ds[1..], res.log)
  }

  /** Guessing a digit of an open cell shrinks the board and lowers its candidate total. */
  lemma GuessShrinks(b: Board, log: seq<Board>, best: Cell, d: Digit)
    requires |b[best]| > 1 && d in b[best]
    ensures Within(Assign(State(b, log), best, {d}).board, b)
    ensures Total(Assign(State(b, log), best, {d}).board) < Total(b)
  {
    var next := Assign(State(b, log), best, {d}).board;
    TotalUpdate(b, best, {d});
    assert next == b[best := {d}];
  }

  /** When propagation leaves open cells, search is the branching on the best of them. */
  lemma SearchBranches(st: State) returns (b: Board, best: Cell)
    ensures Reduce(st).result.Some? && !AllSolved(Reduce(st).result.value) ==>
              b == Reduce(st).result.value && Within(b, st.board) &&
              |b[best]| > 1 && Total(b) <= Total(st.board) &&
              Search(st) == Branch(b, best, InOrder(b[best]), Reduce(st).log)
  {
    b, best := st.board, 0;
    if Reduce(st).result.Some? && !AllSolved(Reduce(st).result.value) {
      b := Reduce(st).result.value;
      OpenCellExists(b);
      best := BestCell(b);
      WithinTotal(b, st.board);
    }
  }

  /** Search finds a board whenever some solution is consistent with its input. */
  lemma {:induction false} SearchComplete(st: State, sol: seq<Digit>)
    requires IsSolution(sol) && Consistent(sol, st.board)
    ensures Search(st).result.Some?
    decreases Total(st.board), 1, 0
  {
    ReduceComplete(st, sol);
    if !AllSolved(Reduce(st).result.value) {
      var b, best := SearchBranches(st);
      assert sol[best] in b[best];
      BranchComplete(b, best, InOrder(b[best]), Reduce(st).log, sol);
    }
  }

  /** Branching finds a board when the digits still to try include the solution's digit. */
  lemma {:induction false} BranchComplete(b: Board, best: Cell, ds: seq<Digit>, log: seq<Board>, sol: seq<Digit>)
    requires |b[best]| > 1
    requires forall d :: d in ds ==> d in b[best]
    requires IsSolution(sol) && Consistent(sol, b) && sol[best] in ds
    ensures Branch(b, best, ds, log).result.Some?
    decreases Total(b), 0, |ds|
  {
    var next := Assign(State(b, log), best, {ds[0]});
    GuessShrinks(b, log, best, ds[0]);
    if ds[0] == sol[best] {
      SearchComplete(next, sol);
    } else {
      var res := Search(next);
      if res.result.None? {
        assert sol[best] in ds[1..];
        BranchComplete(b, best, ds[1..], res.log, sol);
      }
    }
  }

  /** A board within a solved board that still admits its digits is that board. */
  lemma WithinSolved(r: Board, b: Board, sol: seq<Digit>)
    requires Within(r, b) && Consistent(sol, r)
    requires |sol| == 81 && forall c: Cell :: b[c] == {sol[c]}
    ensures r == b
  {
    forall c: Cell
      ensures r[c] == b[c]
    {
      assert sol[c] in r[c] && r[c] <= {sol[c]};
    }
  }

  /** A board that is already solved comes back from search unchanged. */
  lemma SolvedBoardIsFixed(b: Board, log: seq<Board>)
    requires Solves(b)
    ensures Search(State(b, log)).result == Some(b)
  {
    var st := State(b, log);
    var sol := Values(b);
    SolvesIffSolution(b);
    SolvedBoardConsistent(b, sol);
    ReduceComplete(st, sol);
    WithinSolved(Reduce(st).result.value, b, sol);
  }

  /** The source's `solve`: read the grid, then search; a grid without 81 cell symbols fails. */
  function Solve(grid: string, log: seq<Board>): (r: Result<Outcome>)
    ensures r.Failure? <==> GridValues(grid).None?
    ensures r.Success? ==> log <= r.value.log
    ensures r.Success? && r.value.result.Some? ==>
              Solves(r.value.result.value) && Within(r.value.result.value, GridValues(grid).value)
  {
    match GridValues(grid)
    case None => Failure("the grid does not hold exactly 81 cells")
    case Some(b) => Success(Search(State(b, log)))
  }

  /** A solved board keeps every digit the grid gives. */
  lemma SolveKeepsGivens(grid: string, log: seq<Board>, c: Cell)
    requires |Symbols(grid)| == 81 && IsDigitChar(Symbols(grid)[c])
    ensures Solve(grid, log).Success?
    ensures Solve(grid, log).value.result.Some? ==>
              Solve(grid, log).value.result.value[c] == CandsOf(Symbols(grid)[c])
  {
    var b := GridValues(grid).value;
    if Solve(grid, log).value.result.Some? {
      var r := Solve(grid, log).value.result.value;
      assert b[c] == CandsOf(Symbols(grid)[c]);
      assert r[c] <= b[c] && |r[c]| == 1;
      SubsetCard(r[c], b[c]);
    }
  }

  /** Solve reports no board only when no solution agrees with the grid's givens. */
  lemma SolveComplete(grid: string, log: seq<Board>, sol: seq<Digit>)
    requires GridValues(grid).Some?
    requires IsSolution(sol) && Consistent(sol, GridValues(grid).value)
    ensures Solve(grid, log).Success? && Solve(grid, log).value.result.Some?
  {
    SearchComplete(State(GridValues(grid).value, log), sol);
  }

  /** A grid giving the same digit to two peers has no solution, and solve finds none. */
  lemma DuplicateGivenUnsolvable(grid: string, log: seq<Board>, a: Cell, p: Cell)
    requires GridValues(grid).Some?
    requires p in Peers(a) && |GridValues(grid).value[a]| == 1
    requires GridValues(grid).value[p] == GridValues(grid).value[a]
    ensures Solve(grid, log).Success? && Solve(grid, log).value.result.None?
  {
    var b := GridValues(grid).value;
    var r := Solve(grid, log).value.result;
    if r.Some? {
      var x := r.value;
      assert x[a] <= b[a] && x[p] <= b[p] && |x[a]| == 1 && |x[p]| == 1;
      SubsetCard(x[a], b[a]);
      SubsetCard(x[p], b[p]);
      SolvesPeersDiffer(x, a, p);
      assert false;
    }
  }
}
