/**
 * The only-choice rule: a digit that fits in just one cell of a unit is placed there.
 */
module OnlyChoiceRule {
  import opened Lists
  import opened Topology
  import opened Board

  /** The cells of unit `k` that still allow digit `d`, in unit order (the source's `dplaces`). */
  function Places(b: Board, k: UnitId, d: Digit): (r: seq<Cell>)
    ensures forall c: Cell :: c in r <==> c in Unit(k) && d in b[c]
    ensures Distinct(r)
  {
    UnitShape(k);
    assert UnitList()[k] == Unit(k);
    Filter(Unit(k), (c: Cell) => d in b[c])
  }

  /** One unit and one digit: if exactly one cell allows `d`, that cell becomes `{d}`. */
  function ChoiceStep(st: State, k: UnitId, d: Digit): (r: State)
    ensures Within(r.board, st.board)
    ensures forall c: Cell :: r.board[c] == if Places(st.board, k, d) == [c] then {d} else st.board[c]
    ensures st.log <= r.log
  {
    var ps := Places(st.board, k, d);
    if |ps| == 1 then
      assert ps[0] in ps;
      Assign(st, ps[0], {d})
    else st
  }

  /** The digits `d` to 9, in turn, for unit `k`. */
  function ChoiceDigits(st: State, k: UnitId, d: int): (r: State)
    requires 1 <= d <= 10
    ensures Within(r.board, st.board)
    ensures forall c: Cell :: r.board[c] == st.board[c] || |r.board[c]| == 1
    ensures st.log <= r.log
    decreases 10 - d
  {
    if d == 10 then st
    else
      var mid := ChoiceStep(st, k, d);
      var r := ChoiceDigits(mid, k, d + 1);
      assert forall c: Cell :: mid.board[c] == st.board[c] || |mid.board[c]| == 1;
      r
  }

  /** The units `k` to 28, in unit-list order, each with every digit. */
  function ChoiceUnits(st: State, k: int): (r: State)
    requires 0 <= k <= 29
    ensures Within(r.board, st.board)
    ensures forall c: Cell :: r.board[c] == st.board[c] || |r.board[c]| == 1
    ensures st.log <= r.log
    decreases 29 - k
  {
    if k == 29 then st
    else ChoiceUnits(ChoiceDigits(st, k, 1), k + 1)
  }

  /** The source's `only_choice`: every cell it changes ends with a single digit it allowed before. */
  function OnlyChoice(st: State): (r: State)
    ensures Within(r.board, st.board)
    ensures forall c: Cell :: r.board[c] == st.board[c] || |r.board[c]| == 1
    ensures st.log <= r.log
  {
    ChoiceUnits(st, 0)
  }

  /** Cell `c` holds just `d`, and no other cell of unit `k` allows `d`. */
  predicate OnlyPlace(b: Board, c: Cell, k: UnitId, d: Digit) {
    b[c] == {d} && c in Unit(k) && forall x: Cell :: x in Unit(k) && x != c ==> d !in b[x]
  }

  /**
   * A placement survives a later stretch of the rule: the cell keeps its one digit, and the
   * other cells of the unit only shrink.
   */
  lemma OnlyPlaceStays(a: Board, b: Board, c: Cell, k: UnitId, d: Digit)
    requires Within(b, a)
    requires forall x: Cell :: b[x] == a[x] || |b[x]| == 1
    requires OnlyPlace(a, c, k, d)
    ensures OnlyPlace(b, c, k, d)
  {
    assert b[c] <= {d};
    forall x: Cell | x in Unit(k) && x != c
      ensures d !in b[x]
    {
      assert b[x] <= a[x];
    }
  }

  /** A cell one placement changes holds the digit's only place in the unit. */
  lemma ChoiceStepPlaces(st: State, k: UnitId, d: Digit, c: Cell)
    ensures ChoiceStep(st, k, d).board[c] != st.board[c] ==> OnlyPlace(ChoiceStep(st, k, d).board, c, k, d)
  {
    var r := ChoiceStep(st, k, d);
    var ps := Places(st.board, k, d);
    if r.board[c] != st.board[c] {
      assert ps == [c];
      forall x: Cell | x in Unit(k) && x != c
        ensures d !in r.board[x]
      {
        assert x !in ps;
      }
    }
  }

  /** A cell changed over the remaining digits of a unit ends as a digit's only place there. */
  lemma {:induction false} ChoiceDigitsPlaces(st: State, k: UnitId, d: int, c: Cell)
    requires 1 <= d <= 10
    ensures ChoiceDigits(st, k, d).board[c] != st.board[c] ==>
              exists e: Digit :: OnlyPlace(ChoiceDigits(st, k, d).board, c, k, e)
    decreases 10 - d
  {
    if d < 10 {
      var mid := ChoiceStep(st, k, d);
      var r := ChoiceDigits(mid, k, d + 1);
      if mid.board[c] != st.board[c] {
        ChoiceStepPlaces(st, k, d, c);
        OnlyPlaceStays(mid.board, r.board, c, k, d);
      } else {
        ChoiceDigitsPlaces(mid, k, d + 1, c);
      }
    }
  }

  /** A cell changed over the remaining units ends as a digit's only place in one of them. */
  lemma {:induction false} ChoiceUnitsPlaces(st: State, k: int, c: Cell)
    requires 0 <= k <= 29
    ensures ChoiceUnits(st, k).board[c] != st.board[c] ==>
              exists u: UnitId, e: Digit :: OnlyPlace(ChoiceUnits(st, k).board, c, u, e)
    decreases 29 - k
  {
    if k < 29 {
      var mid := ChoiceDigits(st, k, 1);
      var r := ChoiceUnits(mid, k + 1);
      if mid.board[c] != st.board[c] {
        ChoiceDigitsPlaces(st, k, 1, c);
        var e: Digit :| OnlyPlace(mid.board, c, k, e);
        OnlyPlaceStays(mid.board, r.board, c, k, e);
      } else {
        ChoiceUnitsPlaces(mid, k + 1, c);
      }
    }
  }

  /**
   * Only-choice changes nothing else: a cell it changes ends holding a single digit that no
   * other cell of one of its units allows.
   */
  lemma OnlyChoicePlaces(st: State, c: Cell)
    ensures OnlyChoice(st).board[c] != st.board[c] ==>
              exists u: UnitId, e: Digit :: OnlyPlace(OnlyChoice(st).board, c, u, e)
  {
    ChoiceUnitsPlaces(st, 0, c);
  }

  /** A solution consistent with the board still is after one placement. */
  lemma ChoiceStepSound(st: State, k: UnitId, d: Digit, sol: seq<Digit>)
    requires IsSolution(sol) && Consistent(sol, st.board)
    ensures Consistent(sol, ChoiceStep(st, k, d).board)
  {
    var ps := Places(st.board, k, d);
    if |ps| == 1 {
      SolutionUnitHasEveryDigit(sol, k, d);
      var i: Slot :| sol[UnitCell(k, i)] == d;
      var c := UnitCell(k, i);
      assert Unit(k)[i] == c;
      assert c in ps;
      assert ps[0] == c;
    }
  }

  /** Soundness over the remaining digits of one unit. */
  lemma {:induction false} ChoiceDigitsSound(st: State, k: UnitId, d: int, sol: seq<Digit>)
    requires 1 <= d <= 10
    requires IsSolution(sol) && Consistent(sol, st.board)
    ensures Consistent(sol, ChoiceDigits(st, k, d).board)
    decreases 10 - d
  {
    if d < 10 {
      ChoiceStepSound(st, k, d, sol);
      ChoiceDigitsSound(ChoiceStep(st, k, d), k, d + 1, sol);
    }
  }

  /** Soundness over the remaining units. */
  lemma {:induction false} ChoiceUnitsSound(st: State, k: int, sol: seq<Digit>)
    requires 0 <= k <= 29
    requires IsSolution(sol) && Consistent(sol, st.board)
    ensures Consistent(sol, ChoiceUnits(st, k).board)
    decreases 29 - k
  {
    if k < 29 {
      ChoiceDigitsSound(st, k, 1, sol);
      ChoiceUnitsSound(ChoiceDigits(st, k, 1), k + 1, sol);
    }
  }

  /** Only-choice never removes the digit any solution consistent with the board puts in a cell. */
  lemma OnlyChoiceSound(st: State, sol: seq<Digit>)
    requires IsSolution(sol) && Consistent(sol, st.board)
    ensures Consistent(sol, OnlyChoice(st).board)
  {
    ChoiceUnitsSound(st, 0, sol);
  }
}
