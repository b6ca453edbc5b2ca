/**
 * The naked-twins rule: when exactly two cells of a unit hold the same two candidates,
 * those candidates are removed from every other cell of the unit.
 */
module NakedTwinsRule {
  import opened Lists
  import opened Topology
  import opened Board

  /** The cells of unit `k` whose value is exactly `v`, in unit order (the source's `twins`). */
  function Twins(b: Board, k: UnitId, v: Cands): (r: seq<Cell>)
    ensures forall c: Cell :: c in r <==> c in Unit(k) && b[c] == v
    ensures Distinct(r)
  {
    UnitShape(k);
    assert UnitList()[k] == Unit(k);
    Filter(Unit(k), (c: Cell) => b[c] == v)
  }

  /** Removes the digits `ds` from cell `q` one at a time, recording every change. */
  function StripDigits(st: State, q: Cell, ds: seq<Digit>): (r: State)
    ensures Within(r.board, st.board)
    ensures forall x: Digit :: x in r.board[q] <==> x in st.board[q] && x !in ds
    ensures forall c: Cell :: c != q ==> r.board[c] == st.board[c]
    ensures st.log <= r.log
    decreases |ds|
  {
    if |ds| == 0 then st
    else StripDigits(Assign(st, q, st.board[q] - {ds[0]}), q, ds[1..])
  }

  /** Removes the digits of `v` from one cell, in ascending order. */
  function StripCell(st: State, q: Cell, v: Cands): (r: State)
    ensures Within(r.board, st.board)
    ensures r.board[q] == st.board[q] - v
    ensures forall c: Cell :: c != q ==> r.board[c] == st.board[c]
    ensures st.log <= r.log
  {
    var ds := InOrder(v);
    var r := StripDigits(st, q, ds);
    assert forall x: Digit :: x in r.board[q] <==> x in st.board[q] - v;
    r
  }

  /** Removes `v` from every cell of `cells` that is not one of the twins. */
  function StripUnit(st: State, cells: seq<Cell>, twins: seq<Cell>, v: Cands): (r: State)
    ensures Within(r.board, st.board)
    ensures forall c: Cell :: r.board[c] == if c in cells && c !in twins then st.board[c] - v else st.board[c]
    ensures st.log <= r.log
    decreases |cells|
  {
    if |cells| == 0 then st
    else
      var q := cells[0];
      var mid := if q in twins then st else StripCell(st, q, v);
      var r := StripUnit(mid, cells[1..], twins, v);
      assert forall c: Cell :: c in cells <==> c == q || c in cells[1..];
      assert (st.board[q] - v) - v == st.board[q] - v;
      r
  }

  /** One cell and one of its units: when exactly two cells of the unit equal the cell, strip the others. */
  function TwinStep(st: State, box: Cell, k: UnitId): (r: State)
    ensures Within(r.board, st.board)
    ensures forall c: Cell ::
              r.board[c] == if |Twins(st.board, k, st.board[box])| == 2 && c in Unit(k) && st.board[c] != st.board[box]
                            then st.board[c] - st.board[box] else st.board[c]
    ensures st.log <= r.log
  {
    var v := st.board[box];
    var tw := Twins(st.board, k, v);
    if |tw| == 2 then StripUnit(st, Unit(k), tw, v) else st
  }

  /** The units `ks` of `box`, in turn. */
  function TwinUnits(st: State, box: Cell, ks: seq<UnitId>): (r: State)
    ensures Within(r.board, st.board)
    ensures st.log <= r.log
    decreases |ks|
  {
    if |ks| == 0 then st
    else TwinUnits(TwinStep(st, box, ks[0]), box, ks[1..])
  }

  /** The cells `boxes`, in turn, each with every unit holding it. */
  function TwinBoxes(st: State, boxes: seq<Cell>): (r: State)
    ensures Within(r.board, st.board)
    ensures st.log <= r.log
    decreases |boxes|
  {
    if |boxes| == 0 then st
    else TwinBoxes(TwinUnits(st, boxes[0], UnitIdsOf(boxes[0])), boxes[1..])
  }

  /** The cells with exactly two candidates on entry, in row-major order (the source's `boxes_2`). */
  function PairCells(b: Board): (r: seq<Cell>)
    ensures forall c: Cell :: c in r <==> |b[c]| == 2
  {
    var r := Filter(AllCells(), (c: Cell) => |b[c]| == 2);
    forall c: Cell
      ensures c in r <==> |b[c]| == 2
    {
      assert c in AllCells();
    }
    r
  }

  /** The source's `naked_twins`. */
  function NakedTwins(st: State): (r: State)
    ensures Within(r.board, st.board)
    ensures st.log <= r.log
  {
    TwinBoxes(st, PairCells(st.board))
  }

  /**
   * Working through the units of `box` never changes `box`, and removes a digit from
   * another cell only when `box` held it and the cell shares one of those units.
   */
  lemma {:induction false} TwinUnitsKeeps(st: State, box: Cell, ks: seq<UnitId>, c: Cell, x: Digit)
    requires x in st.board[c]
    requires c == box || x !in st.board[box] || forall k :: k in ks ==> c !in Unit(k)
    ensures x in TwinUnits(st, box, ks).board[c]
    decreases |ks|
  {
    if |ks| > 0 {
      var mid := TwinStep(st, box, ks[0]);
      assert mid.board[box] == st.board[box];
      assert x in mid.board[c];
      TwinUnitsKeeps(mid, box, ks[1..], c, x);
    }
  }

  /** A digit that no listed peer held on entry stays in its cell. */
  lemma {:induction false} TwinBoxesKeeps(st: State, boxes: seq<Cell>, c: Cell, x: Digit)
    requires x in st.board[c]
    requires forall t: Cell :: t in boxes && t in Peers(c) ==> x !in st.board[t]
    ensures x in TwinBoxes(st, boxes).board[c]
    decreases |boxes|
  {
    if |boxes| > 0 {
      var b0 := boxes[0];
      var ks := UnitIdsOf(b0);
      if c != b0 && x in st.board[b0] {
        assert b0 !in Peers(c);
        forall k | k in ks
          ensures c !in Unit(k)
        {
          SharedUnitPeer(c, b0, k);
        }
      }
      TwinUnitsKeeps(st, b0, ks, c, x);
      var mid := TwinUnits(st, b0, ks);
      forall t: Cell | t in boxes[1..] && t in Peers(c)
        ensures x !in mid.board[t]
      {
        assert t in boxes;
      }
      TwinBoxesKeeps(mid, boxes[1..], c, x);
    }
  }

  /**
   * Naked twins removes nothing else: a digit leaves a cell only when a peer held it
   * among exactly two candidates on entry.
   */
  lemma NakedTwinsKeeps(st: State, c: Cell, x: Digit)
    requires x in st.board[c]
    requires forall t: Cell :: |st.board[t]| == 2 && t in Peers(c) ==> x !in st.board[t]
    ensures x in NakedTwins(st).board[c]
  {
    var boxes := PairCells(st.board);
    forall t: Cell | t in boxes && t in Peers(c)
      ensures x !in st.board[t]
    {
    }
    TwinBoxesKeeps(st, boxes, c, x);
  }

  /** Two cells of a unit holding the same two candidates hold a solution's two digits there. */
  lemma TwinsHoldTheirDigits(b: Board, k: UnitId, v: Cands, sol: seq<Digit>)
    requires IsSolution(sol) && Consistent(sol, b)
    requires |v| <= 2 && |Twins(b, k, v)| == 2
    ensures forall c: Cell :: c in Unit(k) && b[c] != v ==> sol[c] !in v
  {
    var tw := Twins(b, k, v);
    var t0, t1 := tw[0], tw[1];
    assert t0 in tw && t1 in tw;
    var i0 :| 0 <= i0 < 9 && Unit(k)[i0] == t0;
    var i1 :| 0 <= i1 < 9 && Unit(k)[i1] == t1;
    UnitMembersArePeers(k, i0, t1);
    SolutionPeersDiffer(sol, t0, t1);
    var pair := {sol[t0], sol[t1]};
    assert |pair| == 2;
    SubsetCard(pair, v);
    forall c: Cell | c in Unit(k) && b[c] != v
      ensures sol[c] !in v
    {
      UnitMembersArePeers(k, i0, c);
      UnitMembersArePeers(k, i1, c);
      SolutionPeersDiffer(sol, t0, c);
      SolutionPeersDiffer(sol, t1, c);
    }
  }

  /** A solution consistent with the board still is after one twin step, when the cell holds at most two digits. */
  lemma TwinStepSound(st: State, box: Cell, k: UnitId, sol: seq<Digit>)
    requires IsSolution(sol) && Consistent(sol, st.board)
    requires |st.board[box]| <= 2
    ensures Consistent(sol, TwinStep(st, box, k).board)
  {
    var v := st.board[box];
    if |Twins(st.board, k, v)| == 2 {
      TwinsHoldTheirDigits(st.board, k, v, sol);
    }
  }

  /** Soundness over several units of one cell. */
  lemma {:induction false} TwinUnitsSound(st: State, box: Cell, ks: seq<UnitId>, sol: seq<Digit>)
    requires IsSolution(sol) && Consistent(sol, st.board)
    requires |st.board[box]| <= 2
    ensures Consistent(sol, TwinUnits(st, box, ks).board)
    decreases |ks|
  {
    if |ks| > 0 {
      var mid := TwinStep(st, box, ks[0]);
      TwinStepSound(st, box, ks[0], sol);
      SubsetCard(mid.board[box], st.board[box]);
      TwinUnitsSound(mid, box, ks[1..], sol);
    }
  }

  /** Soundness over several cells, each holding at most two digits when listed. */
  lemma {:induction false} TwinBoxesSound(st: State, boxes: seq<Cell>, sol: seq<Digit>)
    requires IsSolution(sol) && Consistent(sol, st.board)
    requires forall b :: b in boxes ==> |st.board[b]| <= 2
    ensures Consistent(sol, TwinBoxes(st, boxes).board)
    decreases |boxes|
  {
    if |boxes| > 0 {
      var mid := TwinUnits(st, boxes[0], UnitIdsOf(boxes[0]));
      TwinUnitsSound(st, boxes[0], UnitIdsOf(boxes[0]), sol);
      ShrinkKeepsSmall(st.board, mid.board, boxes[1..], 2);
      TwinBoxesSound(mid, boxes[1..], sol);
    }
  }

  /** Naked twins never removes the digit any solution consistent with the board puts in a cell. */
  lemma NakedTwinsSound(st: State, sol: seq<Digit>)
    requires IsSolution(sol) && Consistent(sol, st.board)
    ensures Consistent(sol, NakedTwins(st).board)
  {
    TwinBoxesSound(st, PairCells(st.board), sol);
  }
}
