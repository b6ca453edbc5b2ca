/**
 * The board: one candidate set per cell, changed only through `Assign`, which also
 * keeps the log of board snapshots taken each time a cell is narrowed to one digit.
 */
module Board {
  import opened Wrappers
  import opened Lists
  import opened Topology

  /** A Sudoku digit. */
  type Digit = d: int | 1 <= d <= 9 witness 1

  /** The digits a cell may still hold; the empty set marks a contradiction. */
  type Cands = set<Digit>

  /** One candidate set per cell, in row-major order. */
  type Board = b: seq<Cands> | |b| == 81 witness seq(81, c => {})

  /** The candidates of an unfilled cell, `'123456789'` in the source. */
  const AllDigits: Cands := {1, 2, 3, 4, 5, 6, 7, 8, 9}

  /** A board together with the assignment log (the source's global `assignments`). */
  datatype State = State(board: Board, log: seq<Board>)

  /**
   * Sets the candidates of cell `c` to `v`. Setting a cell to what it already holds
   * changes nothing; otherwise only cell `c` changes, and a snapshot of the new board
   * is logged exactly when `v` has one digit.
   */
  function Assign(st: State, c: Cell, v: Cands): (r: State)
    ensures r.board[c] == v
    ensures forall x: Cell :: x != c ==> r.board[x] == st.board[x]
    ensures st.board[c] == v ==> r == st
    ensures st.log <= r.log
    ensures |r.log| == |st.log| + (if st.board[c] != v && |v| == 1 then 1 else 0)
    ensures |r.log| > |st.log| ==> r.log[|st.log|] == r.board
  {
    if st.board[c] == v then st
    else
      var b := st.board[c := v];
      State(b, if |v| == 1 then st.log + [b] else st.log)
  }

  /** Assigning the same value twice is the same as assigning it once. */
  lemma AssignIdempotent(st: State, c: Cell, v: Cands)
    ensures Assign(Assign(st, c, v), c, v) == Assign(st, c, v)
  {
  }

  /** Every cell of `a` is a subset of the same cell of `b`. */
  predicate Within(a: Board, b: Board) {
    forall c: Cell :: a[c] <= b[c]
  }

  /** Shrinking twice is shrinking. */
  lemma WithinTrans(a: Board, b: Board, c: Board)
    requires Within(a, b) && Within(b, c)
    ensures Within(a, c)
  {
    forall x: Cell
      ensures a[x] <= c[x]
    {
      assert a[x] <= b[x] && b[x] <= c[x];
    }
  }

  /** A board found within `b`, when any, is within everything `b` is within. */
  lemma FoundWithin(r: Option<Board>, b: Board, c: Board)
    requires Within(b, c)
    requires r.Some? ==> Within(r.value, b)
    ensures r.Some? ==> Within(r.value, c)
  {
    if r.Some? {
      WithinTrans(r.value, b, c);
    }
  }

  /** Shrinking a board never raises its total number of candidates. */
  lemma WithinTotal(a: Board, b: Board)
    requires Within(a, b)
    ensures Total(a) <= Total(b)
  {
    TotalWithin(a, b);
  }

  /** Cells of `cells` holding at most `n` digits still do after shrinking. */
  lemma ShrinkKeepsSmall(a: Board, b: Board, cells: seq<Cell>, n: nat)
    requires Within(b, a)
    requires forall s :: s in cells ==> |a[s]| <= n
    ensures forall s :: s in cells ==> |b[s]| <= n
  {
    forall s | s in cells
      ensures |b[s]| <= n
    {
      SubsetCard(b[s], a[s]);
    }
  }

  /** Some cell has no candidate left. */
  predicate HasEmpty(b: Board) {
    exists c: Cell :: b[c] == {}
  }

  /** Every cell holds exactly one candidate. */
  predicate AllSolved(b: Board) {
    forall c: Cell :: |b[c]| == 1
  }

  /** The number of cells holding exactly one candidate. */
  function SolvedCount(b: seq<Cands>): (n: nat)
    ensures n <= |b|
  {
    if |b| == 0 then 0 else (if |b[0]| == 1 then 1 else 0) + SolvedCount(b[1..])
  }

  /** The total number of candidates over all cells. */
  function Total(b: seq<Cands>): nat {
    if |b| == 0 then 0 else |b[0]| + Total(b[1..])
  }

  /** A subset has no more members than its superset. */
  lemma SubsetCard<T>(a: set<T>, b: set<T>)
    requires a <= b
    ensures |a| <= |b|
    ensures |a| == |b| ==> a == b
  {
    assert b == a + (b - a);
    assert a * (b - a) == {};
    if |a| == |b| {
      assert |b - a| == 0;
    }
  }

  /** A one-element set holding `d` is `{d}`. */
  lemma Singleton<T>(v: set<T>, d: T)
    requires |v| == 1 && d in v
    ensures v == {d}
  {
    SubsetCard({d}, v);
  }

  /** When every solved cell of `a` stays solved in `b`, `b` has at least as many solved cells. */
  lemma {:induction false} SolvedCountGrows(a: seq<Cands>, b: seq<Cands>)
    requires |a| == |b|
    requires forall i :: 0 <= i < |a| && |a[i]| == 1 ==> |b[i]| == 1
    ensures SolvedCount(a) <= SolvedCount(b)
  {
    if |a| > 0 {
      SolvedCountGrows(a[1..], b[1..]);
    }
  }

  /** The solved count equals the length exactly when every cell is solved. */
  lemma {:induction false} SolvedCountFull(b: seq<Cands>)
    ensures SolvedCount(b) == |b| <==> forall i :: 0 <= i < |b| ==> |b[i]| == 1
  {
    if |b| > 0 {
      SolvedCountFull(b[1..]);
      assert forall i :: 1 <= i < |b| ==> b[i] == b[1..][i - 1];
    }
  }

  /** Shrinking cells never raises the total number of candidates. */
  lemma {:induction false} TotalWithin(a: seq<Cands>, b: seq<Cands>)
    requires |a| == |b|
    requires forall i :: 0 <= i < |a| ==> a[i] <= b[i]
    ensures Total(a) <= Total(b)
  {
    if |a| > 0 {
      SubsetCard(a[0], b[0]);
      TotalWithin(a[1..], b[1..]);
    }
  }

  /** Replacing one cell changes the total by the change in that cell's size. */
  lemma {:induction false} TotalUpdate(b: seq<Cands>, i: int, v: Cands)
    requires 0 <= i < |b|
    ensures Total(b[i := v]) == Total(b) - |b[i]| + |v|
  {
    if i > 0 {
      assert b[i := v][1..] == b[1..][i - 1 := v];
      TotalUpdate(b[1..], i - 1, v);
    } else {
      assert b[i := v][1..] == b[1..];
    }
  }

  /** The digits of `v` in increasing order: the order of the source's candidate strings. */
  function InOrder(v: Cands): (r: seq<Digit>)
    ensures forall d: Digit :: d in r <==> d in v
    ensures forall i :: 0 <= i < |r| ==> r[i] in v
    ensures forall i, j :: 0 <= i < j < |r| ==> r[i] < r[j]
  {
    InOrderFrom(v, 1)
  }

  /** The digits of `v` that are at least `d`, in increasing order. */
  function InOrderFrom(v: Cands, d: int): (r: seq<Digit>)
    requires 1 <= d <= 10
    ensures forall x: Digit :: x in r <==> x in v && x >= d
    ensures forall i :: 0 <= i < |r| ==> r[i] >= d
    ensures forall i, j :: 0 <= i < j < |r| ==> r[i] < r[j]
    decreases 10 - d
  {
    if d == 10 then []
    else (if d in v then [d as Digit] else []) + InOrderFrom(v, d + 1)
  }

  /** A full grid of digits in which no unit repeats a digit. */
  ghost predicate IsSolution(s: seq<Digit>) {
    |s| == 81 &&
    forall k: UnitId, i: Slot, j: Slot :: i != j ==> s[UnitCell(k, i)] != s[UnitCell(k, j)]
  }

  /** Every digit of the grid `s` is still a candidate of its cell in `b`. */
  ghost predicate Consistent(s: seq<Digit>, b: Board) {
    |s| == 81 && forall c: Cell :: s[c] in b[c]
  }

  /** A solved board: every cell holds one digit and no unit holds the same digit twice. */
  predicate Solves(b: Board) {
    AllSolved(b) &&
    forall k: UnitId, i: Slot, j: Slot :: i != j ==> b[UnitCell(k, i)] != b[UnitCell(k, j)]
  }

  /** The one digit of a solved cell. */
  ghost function TheDigit(v: Cands): (d: Digit)
    requires |v| == 1
    ensures v == {d}
  {
    var d :| d in v;
    Singleton(v, d);
    d
  }

  /** The grid of digits of a board whose cells are all solved. */
  ghost function Values(b: Board): (s: seq<Digit>)
    requires AllSolved(b)
    ensures |s| == 81 && forall c: Cell :: b[c] == {s[c]}
  {
    seq(81, c requires 0 <= c < 81 => TheDigit(b[c]))
  }

  /** A board solves the puzzle exactly when its digits form a solution. */
  lemma SolvesIffSolution(b: Board)
    requires AllSolved(b)
    ensures Solves(b) <==> IsSolution(Values(b))
  {
    var s := Values(b);
    if Solves(b) {
      forall k: UnitId, i: Slot, j: Slot | i != j
        ensures s[UnitCell(k, i)] != s[UnitCell(k, j)]
      {
        assert b[UnitCell(k, i)] == {s[UnitCell(k, i)]};
      }
    }
    if IsSolution(s) {
      forall k: UnitId, i: Slot, j: Slot | i != j
        ensures b[UnitCell(k, i)] != b[UnitCell(k, j)]
      {
        assert s[UnitCell(k, i)] in b[UnitCell(k, i)];
      }
    }
  }

  /** The only solution consistent with a solved board is its own grid of digits. */
  lemma SolvedBoardConsistent(b: Board, s: seq<Digit>)
    requires AllSolved(b)
    ensures Consistent(s, b) <==> s == Values(b)
  {
    var t := Values(b);
    if Consistent(s, b) {
      forall c: Cell
        ensures s[c] == t[c]
      {
        assert s[c] in b[c];
      }
      assert forall c :: 0 <= c < 81 ==> s[c] == t[c];
    }
  }

  /** Two cells that are peers hold different digits in a solution. */
  lemma SolutionPeersDiffer(s: seq<Digit>, a: Cell, p: Cell)
    requires IsSolution(s)
    requires p in Peers(a)
    ensures s[a] != s[p]
  {
    var k: UnitId :| a in Unit(k) && p in Unit(k);
    var i :| 0 <= i < 9 && Unit(k)[i] == a;
    var j :| 0 <= j < 9 && Unit(k)[j] == p;
    assert UnitCell(k, i) == a && UnitCell(k, j) == p;
  }

  /** Nine pairwise different elements of a sequence make a nine-element set. */
  lemma {:induction false} DistinctCard<T>(s: seq<T>)
    requires Distinct(s)
    ensures |set x | x in s| == |s|
  {
    if |s| > 0 {
      var rest := set x | x in s[1..];
      DistinctCard(s[1..]);
      assert (set x | x in s) == {s[0]} + rest;
      assert s[0] !in rest;
    }
  }

  /** Nine different digits include every digit. */
  lemma NineDistinctDigits(row: seq<Digit>, d: Digit)
    requires |row| == 9 && Distinct(row)
    ensures d in row
  {
    DistinctCard(row);
    var seen := set x | x in row;
    assert |AllDigits| == 9;
    SubsetCard(seen, AllDigits);
    assert d in seen;
  }

  /** The digits a grid puts in unit `k`, in unit order. */
  function UnitDigits(s: seq<Digit>, k: UnitId): (row: seq<Digit>)
    requires |s| == 81
    ensures |row| == 9 && forall i: Slot :: row[i] == s[UnitCell(k, i)]
  {
    seq(9, i requires 0 <= i < 9 => s[UnitCell(k, i)])
  }

  /** Every unit of a solution holds each digit. */
  lemma SolutionUnitHasEveryDigit(s: seq<Digit>, k: UnitId, d: Digit)
    requires IsSolution(s)
    ensures exists i: Slot :: s[UnitCell(k, i)] == d
  {
    var row := UnitDigits(s, k);
    assert Distinct(row);
    NineDistinctDigits(row, d);
    var i :| 0 <= i < 9 && row[i] == d;
  }

  /** Every unit of a solved board holds each digit exactly once. */
  lemma SolvedUnitHasEveryDigit(b: Board, k: UnitId, d: Digit)
    requires Solves(b)
    ensures exists i: Slot :: b[UnitCell(k, i)] == {d}
    ensures forall i: Slot, j: Slot :: b[UnitCell(k, i)] == {d} && b[UnitCell(k, j)] == {d} ==> i == j
  {
    SolvesIffSolution(b);
    var s := Values(b);
    SolutionUnitHasEveryDigit(s, k, d);
    var i: Slot :| s[UnitCell(k, i)] == d;
    assert b[UnitCell(k, i)] == {d};
  }

  /** On a solved board peers hold different digits. */
  lemma SolvesPeersDiffer(b: Board, a: Cell, p: Cell)
    requires Solves(b) && p in Peers(a)
    ensures b[a] != b[p]
  {
    SolvesIffSolution(b);
    SolutionPeersDiffer(Values(b), a, p);
  }
}
