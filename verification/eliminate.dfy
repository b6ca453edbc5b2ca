/**
 * The elimination rule: the digit of every solved cell is removed from each of its peers.
 */
module EliminateRule {
  import opened Lists
  import opened Topology
  import opened Board

  /** The cells solved on entry, in row-major order. */
  function SolvedCells(b: Board): (r: seq<Cell>)
    ensures forall c: Cell :: c in r <==> |b[c]| == 1
  {
    var r := Filter(AllCells(), (c: Cell) => |b[c]| == 1);
    forall c: Cell
      ensures c in r <==> |b[c]| == 1
    {
      assert c in AllCells();
    }
    r
  }

  /** Removes `d` from each cell of `ps` in turn, recording every change. */
  function StripPeers(st: State, ps: seq<Cell>, d: Cands): (r: State)
    ensures Within(r.board, st.board)
    ensures forall c: Cell :: r.board[c] == if c in ps then st.board[c] - d else st.board[c]
    ensures st.log <= r.log
    decreases |ps|
  {
    if |ps| == 0 then st
    else
      var mid := Assign(st, ps[0], st.board[ps[0]] - d);
      var r := StripPeers(mid, ps[1..], d);
      assert forall c: Cell :: c in ps <==> c == ps[0] || c in ps[1..];
      assert (st.board[ps[0]] - d) - d == st.board[ps[0]] - d;
      r
  }

  /** One solved cell: its current value is removed from every peer. */
  function EliminateBox(st: State, s: Cell): (r: State)
    ensures Within(r.board, st.board)
    ensures forall c: Cell :: r.board[c] == if c in Peers(s) then st.board[c] - st.board[s] else st.board[c]
    ensures st.log <= r.log
  {
    var ps := PeerList(s);
    var r := StripPeers(st, ps, st.board[s]);
    forall c: Cell
      ensures r.board[c] == if c in Peers(s) then st.board[c] - st.board[s] else st.board[c]
    {
      assert c in ps <==> c in Peers(s);
    }
    r
  }

  /**
   * Every cell of `boxes`, in order.  Each holds at most one digit when it is reached,
   * since the cells were solved when listed and elimination only shrinks cells.
   */
  function EliminateAll(st: State, boxes: seq<Cell>): (r: State)
    requires forall s :: s in boxes ==> |st.board[s]| <= 1
    ensures Within(r.board, st.board)
    ensures forall s: Cell, p: Cell :: s in boxes && p in Peers(s) ==> r.board[p] !! r.board[s]
    ensures st.log <= r.log
    decreases |boxes|
  {
    if |boxes| == 0 then st
    else
      var mid := EliminateBox(st, boxes[0]);
      ShrinkKeepsSmall(st.board, mid.board, boxes[1..], 1);
      var r := EliminateAll(mid, boxes[1..]);
      ShrinkKeepsApart(st.board, mid.board, r.board, boxes[0]);
      forall s: Cell, p: Cell | s in boxes && p in Peers(s)
        ensures r.board[p] !! r.board[s]
      {
        if s != boxes[0] {
          assert s in boxes[1..];
        }
      }
      r
  }

  /**
   * Once every peer of `s` has lost the value of `s`, the cell stays apart from its
   * peers however the board shrinks afterwards.
   */
  lemma ShrinkKeepsApart(a: Board, mid: Board, b: Board, s: Cell)
    requires forall c: Cell :: mid[c] == if c in Peers(s) then a[c] - a[s] else a[c]
    requires Within(b, mid)
    ensures forall p: Cell :: p in Peers(s) ==> b[p] !! b[s]
  {
    PeersSymmetric(s, s);
    forall p: Cell | p in Peers(s)
      ensures b[p] !! b[s]
    {
      assert mid[p] !! mid[s];
      assert b[p] <= mid[p] && b[s] <= mid[s];
    }
  }

  /** The source's `eliminate`: each solved cell's digit is removed from its peers. */
  function Eliminate(st: State): (r: State)
    ensures Within(r.board, st.board)
    ensures forall s: Cell, p: Cell :: |st.board[s]| == 1 && p in Peers(s) ==> r.board[p] !! r.board[s]
    ensures st.log <= r.log
  {
    EliminateAll(st, SolvedCells(st.board))
  }

  /** A digit that no listed peer held on entry stays in its cell. */
  lemma {:induction false} EliminateAllKeeps(st: State, boxes: seq<Cell>, c: Cell, x: Digit)
    requires forall s :: s in boxes ==> |st.board[s]| <= 1
    requires x in st.board[c]
    requires forall s: Cell :: s in boxes && c in Peers(s) ==> x !in st.board[s]
    ensures x in EliminateAll(st, boxes).board[c]
    decreases |boxes|
  {
    if |boxes| > 0 {
      var mid := EliminateBox(st, boxes[0]);
      assert x in mid.board[c];
      ShrinkKeepsSmall(st.board, mid.board, boxes[1..], 1);
      forall s: Cell | s in boxes[1..] && c in Peers(s)
        ensures x !in mid.board[s]
      {
        assert s in boxes;
      }
      EliminateAllKeeps(mid, boxes[1..], c, x);
    }
  }

  /**
   * Elimination removes nothing else: a digit leaves a cell only when a peer solved on
   * entry held it.
   */
  lemma EliminateKeeps(st: State, c: Cell, x: Digit)
    requires x in st.board[c]
    requires forall s: Cell :: |st.board[s]| == 1 && c in Peers(s) ==> x !in st.board[s]
    ensures x in Eliminate(st).board[c]
  {
    var boxes := SolvedCells(st.board);
    forall s: Cell | s in boxes && c in Peers(s)
      ensures x !in st.board[s]
    {
    }
    EliminateAllKeeps(st, boxes, c, x);
  }

  /**
   * Removing the value of a solved cell `s` from its peers keeps every solution that
   * agrees with the board.
   */
  lemma StripSolvedSound(a: Board, mid: Board, s: Cell, sol: seq<Digit>)
    requires IsSolution(sol) && Consistent(sol, a)
    requires |a[s]| <= 1
    requires forall c: Cell :: mid[c] == if c in Peers(s) then a[c] - a[s] else a[c]
    ensures Consistent(sol, mid)
  {
    assert sol[s] in a[s];
    Singleton(a[s], sol[s]);
    forall c: Cell
      ensures sol[c] in mid[c]
    {
      assert sol[c] in a[c];
      if c in Peers(s) {
        SolutionPeersDiffer(sol, s, c);
        assert sol[c] !in a[s];
      }
    }
  }

  /** A solution consistent with the board before elimination stays consistent after it. */
  lemma EliminateBoxSound(st: State, s: Cell, sol: seq<Digit>)
    requires IsSolution(sol) && Consistent(sol, st.board)
    requires |st.board[s]| <= 1
    ensures Consistent(sol, EliminateBox(st, s).board)
  {
    StripSolvedSound(st.board, EliminateBox(st, s).board, s, sol);
  }

  /** Soundness of a run over several solved cells. */
  lemma {:induction false} EliminateAllSound(st: State, boxes: seq<Cell>, sol: seq<Digit>)
    requires IsSolution(sol) && Consistent(sol, st.board)
    requires forall s :: s in boxes ==> |st.board[s]| <= 1
    ensures Consistent(sol, EliminateAll(st, boxes).board)
    decreases |boxes|
  {
    if |boxes| > 0 {
      var mid := EliminateBox(st, boxes[0]);
      EliminateBoxSound(st, boxes[0], sol);
      ShrinkKeepsSmall(st.board, mid.board, boxes[1..], 1);
      EliminateAllSound(mid, boxes[1..], sol);
    }
  }

  /** Elimination never removes the digit any solution consistent with the board puts in a cell. */
  lemma EliminateSound(st: State, sol: seq<Digit>)
    requires IsSolution(sol) && Consistent(sol, st.board)
    ensures Consistent(sol, Eliminate(st).board)
  {
    EliminateAllSound(st, SolvedCells(st.board), sol);
  }
}
