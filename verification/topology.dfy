/**
 * The fixed layout of a diagonal Sudoku: 81 cells named A1..I9, 29 units (9 rows,
 * 9 columns, 9 squares, 2 diagonals), the units holding each cell and each cell's peers.
 * Cells are numbered row-major, so cell 9 * r + c is row r, column c.
 */
module Topology {
  import opened Lists

  /** Row letters and column digits; a cell's name is its row letter then its column digit. */
  const Rows: string := "ABCDEFGHI"
  const Cols: string := "123456789"

  /** A cell, numbered row-major: A1 is 0, A9 is 8, I9 is 80. */
  type Cell = c: int | 0 <= c < 81

  /** A unit's place in the unit list: rows 0-8, columns 9-17, squares 18-26, diagonals 27-28. */
  type UnitId = k: int | 0 <= k < 29

  /** The position of a cell inside a unit. */
  type Slot = i: int | 0 <= i < 9

  /** Every pairing of an element of `a` with an element of `b`, `a` varying slowest. */
  function Cross(a: string, b: string): (r: seq<string>)
    ensures |r| == |a| * |b|
    decreases |a|
  {
    if |a| == 0 then []
    else
      var tail := Cross(a[1..], b);
      assert |b| + |tail| == |a| * |b|;
      seq(|b|, j requires 0 <= j < |b| => [a[0], b[j]]) + tail
  }

  /** Index arithmetic for row `i`, column `j` of an `m` by `n` grid. */
  lemma GridIndex(i: int, j: int, m: int, n: int)
    requires 0 <= i < m && 0 <= j < n
    ensures 0 <= i * n + j < m * n
    ensures i * n + j == n + ((i - 1) * n + j)
  {
    assert (m - (i + 1)) * n >= 0;
    assert m * n == (m - (i + 1)) * n + i * n + n;
  }

  /** Entry `i * |b| + j` of the cross product pairs `a[i]` with `b[j]`. */
  lemma {:induction false} CrossIndex(a: string, b: string, i: int, j: int)
    requires 0 <= i < |a| && 0 <= j < |b|
    ensures 0 <= i * |b| + j < |Cross(a, b)|
    ensures Cross(a, b)[i * |b| + j] == [a[i], b[j]]
    decreases |a|
  {
    GridIndex(i, j, |a|, |b|);
    var head := seq(|b|, j requires 0 <= j < |b| => [a[0], b[j]]);
    var tail := Cross(a[1..], b);
    assert Cross(a, b) == head + tail;
    if i > 0 {
      CrossIndex(a[1..], b, i - 1, j);
    }
  }

  /** The cell names in row-major order (the source's `boxes`). */
  function Boxes(): (r: seq<string>)
    ensures |r| == 81
  {
    Cross(Rows, Cols)
  }

  /** Cell `9 * row + col` is named by its row letter and column digit. */
  lemma BoxName(row: int, col: int)
    requires 0 <= row < 9 && 0 <= col < 9
    ensures Boxes()[9 * row + col] == [Rows[row], Cols[col]]
  {
    CrossIndex(Rows, Cols, row, col);
  }

  /** The cell at position `i` of unit `k`. */
  function UnitCell(k: UnitId, i: Slot): Cell {
    if k < 9 then 9 * k + i
    else if k < 18 then 9 * i + (k - 9)
    else if k < 27 then 9 * (3 * ((k - 18) / 3) + i / 3) + 3 * ((k - 18) % 3) + i % 3
    else if k == 27 then 10 * i
    else 8 * i + 8
  }

  /** Unit `k` as the list of its cells. */
  function Unit(k: UnitId): seq<Cell> {
    seq(9, i requires 0 <= i < 9 => UnitCell(k, i))
  }

  /** All units: rows, then columns, then squares, then the two diagonals. */
  function UnitList(): seq<seq<Cell>> {
    seq(29, k requires 0 <= k < 29 => Unit(k))
  }

  /**
   * Unit `k` described by geometry rather than by position: its row, its column, its
   * 3 by 3 square, the main diagonal (row equals column) or the anti-diagonal.
   */
  predicate OnLine(k: UnitId, c: Cell) {
    if k < 9 then c / 9 == k
    else if k < 18 then c % 9 == k - 9
    else if k < 27 then (c / 9) / 3 == (k - 18) / 3 && (c % 9) / 3 == (k - 18) % 3
    else if k == 27 then c / 9 == c % 9
    else c / 9 + c % 9 == 8
  }

  /** Every position of a unit lies on the unit's line. */
  lemma UnitCellOnLine(k: UnitId, i: Slot)
    ensures OnLine(k, UnitCell(k, i))
  {
    var c := UnitCell(k, i);
    if 18 <= k < 27 {
      var q, m := (k - 18) / 3, (k - 18) % 3;
      assert c == 9 * (3 * q + i / 3) + (3 * m + i % 3);
      assert c / 9 == 3 * q + i / 3 && c % 9 == 3 * m + i % 3;
    } else if k == 28 {
      assert c == 9 * i + (8 - i);
    }
  }

  /** A cell of a square sits at the position given by its row and column inside the square. */
  lemma SquareSlot(k: UnitId, c: Cell) returns (i: Slot)
    requires 18 <= k < 27 && OnLine(k, c)
    ensures UnitCell(k, i) == c
  {
    var row, col := c / 9, c % 9;
    var q, m := (k - 18) / 3, (k - 18) % 3;
    i := 3 * (row % 3) + col % 3;
    assert i / 3 == row % 3 && i % 3 == col % 3;
    assert row == 3 * q + row % 3;
    assert col == 3 * m + col % 3;
    assert UnitCell(k, i) == 9 * (3 * q + row % 3) + 3 * m + col % 3;
  }

  /** Every cell on a unit's line sits at some position of the unit. */
  lemma LineCellHasSlot(k: UnitId, c: Cell) returns (i: Slot)
    requires OnLine(k, c)
    ensures UnitCell(k, i) == c
  {
    var row, col := c / 9, c % 9;
    assert c == 9 * row + col;
    if k < 9 {
      i := col;
    } else if k < 18 {
      i := row;
    } else if k < 27 {
      i := SquareSlot(k, c);
    } else {
      i := row;
    }
  }

  /** Unit `k` holds exactly the cells of its row, column, square or diagonal. */
  lemma UnitIsLine(k: UnitId, c: Cell)
    ensures c in Unit(k) <==> OnLine(k, c)
  {
    if c in Unit(k) {
      var i :| 0 <= i < 9 && Unit(k)[i] == c;
      UnitCellOnLine(k, i);
    }
    if OnLine(k, c) {
      var i := LineCellHasSlot(k, c);
      assert Unit(k)[i] == c;
    }
  }

  /** Every cell, in row-major order. */
  function AllCells(): (r: seq<Cell>)
    ensures |r| == 81 && forall c: Cell :: r[c] == c
    ensures forall c: Cell :: c in r
  {
    var cs := seq(81, c requires 0 <= c < 81 => c);
    forall c: Cell
      ensures c in cs
    {
      assert cs[c] == c;
    }
    cs
  }

  /** Every unit index, in unit-list order. */
  function AllUnitIds(): (r: seq<UnitId>)
    ensures |r| == 29 && forall k: UnitId :: r[k] == k
    ensures forall k: UnitId :: k in r
  {
    var ks := seq(29, k requires 0 <= k < 29 => k);
    forall k: UnitId
      ensures k in ks
    {
      assert ks[k] == k;
    }
    ks
  }

  /** Two cells lie together in some unit. */
  predicate SharesUnit(a: Cell, b: Cell) {
    exists k: UnitId :: a in Unit(k) && b in Unit(k)
  }

  /** Indices of the units holding `s`, in unit-list order. */
  function UnitIdsOf(s: Cell): (r: seq<UnitId>)
    ensures forall k: UnitId :: k in r <==> s in Unit(k)
  {
    Filter(AllUnitIds(), (k: UnitId) => s in Unit(k))
  }

  /** The units with indices `ids`, in that order. */
  function UnitsFor(ids: seq<UnitId>): seq<seq<Cell>> {
    seq(|ids|, n requires 0 <= n < |ids| => Unit(ids[n]))
  }

  /** The units holding `s`, in unit-list order (the source's `units[s]`). */
  function UnitsOf(s: Cell): seq<seq<Cell>> {
    UnitsFor(UnitIdsOf(s))
  }

  /** The cells that share a unit with `s`, other than `s` itself (the source's `peers[s]`). */
  function Peers(s: Cell): set<Cell> {
    set c: Cell | 0 <= c < 81 && c != s && SharesUnit(s, c)
  }

  /** A peer lies in one of the units holding `s`. */
  lemma PeerInSomeUnit(s: Cell, c: Cell) returns (n: nat)
    requires c in Peers(s)
    ensures n < |UnitsOf(s)| && c in UnitsOf(s)[n]
  {
    var ids := UnitIdsOf(s);
    var k: UnitId :| s in Unit(k) && c in Unit(k);
    assert k in ids;
    n :| 0 <= n < |ids| && ids[n] == k;
    assert c in UnitsOf(s)[n];
  }

  /** Every other cell of a unit holding `s` is a peer of `s`. */
  lemma UnitMemberIsPeer(s: Cell, c: Cell, n: nat)
    requires c != s && n < |UnitIdsOf(s)| && c in Unit(UnitIdsOf(s)[n])
    ensures c in Peers(s)
  {
    var k := UnitIdsOf(s)[n];
    assert s in Unit(k);
    assert SharesUnit(s, c);
  }

  /** `Peers(s)` is the union of the units holding `s`, less `s` itself. */
  lemma PeersAreUnitsUnion(s: Cell, c: Cell)
    ensures c in Peers(s) <==> c != s && exists n :: 0 <= n < |UnitsOf(s)| && c in UnitsOf(s)[n]
  {
    if c in Peers(s) {
      var n := PeerInSomeUnit(s, c);
    }
    if c != s && exists n :: 0 <= n < |UnitsOf(s)| && c in UnitsOf(s)[n] {
      var n :| 0 <= n < |UnitsOf(s)| && c in UnitsOf(s)[n];
      assert c in Unit(UnitIdsOf(s)[n]);
      UnitMemberIsPeer(s, c, n);
    }
  }

  /** Two different cells of one unit are peers. */
  lemma SharedUnitPeer(a: Cell, b: Cell, k: UnitId)
    ensures a != b && a in Unit(k) && b in Unit(k) ==> b in Peers(a)
  {
    if a != b && a in Unit(k) && b in Unit(k) {
      assert SharesUnit(a, b);
    }
  }

  /** The peers of `s` in row-major order. */
  function PeerList(s: Cell): (r: seq<Cell>)
    ensures forall c: Cell :: c in r <==> c in Peers(s)
  {
    Filter(AllCells(), (c: Cell) => c in Peers(s))
  }

  /** No cell is its own peer, and the peer relation is symmetric. */
  lemma PeersSymmetric(a: Cell, b: Cell)
    ensures a !in Peers(a)
    ensures a in Peers(b) <==> b in Peers(a)
  {
    if SharesUnit(a, b) {
      var k: UnitId :| a in Unit(k) && b in Unit(k);
      assert b in Unit(k) && a in Unit(k);
    }
    if SharesUnit(b, a) {
      var k: UnitId :| b in Unit(k) && a in Unit(k);
      assert a in Unit(k) && b in Unit(k);
    }
  }

  /** Distinct positions of a unit hold distinct cells. */
  lemma UnitCellInjective(k: UnitId, i: Slot, j: Slot)
    requires i != j
    ensures UnitCell(k, i) != UnitCell(k, j)
  {
    if 18 <= k < 27 {
      assert i == 3 * (i / 3) + i % 3;
      assert j == 3 * (j / 3) + j % 3;
    }
  }

  /** There are 29 units and each one lists 9 distinct cells. */
  lemma UnitShape(k: UnitId)
    ensures |UnitList()| == 29 && |UnitList()[k]| == 9
    ensures Distinct(UnitList()[k])
  {
    forall i, j | 0 <= i < j < 9
      ensures Unit(k)[i] != Unit(k)[j]
    {
      UnitCellInjective(k, i, j);
    }
  }

  /** Two different positions of one unit hold peers. */
  lemma SlotsArePeers(k: UnitId, i: Slot, j: Slot)
    requires i != j
    ensures UnitCell(k, j) in Peers(UnitCell(k, i))
  {
    UnitCellInjective(k, i, j);
    assert Unit(k)[i] == UnitCell(k, i) && Unit(k)[j] == UnitCell(k, j);
    assert SharesUnit(UnitCell(k, i), UnitCell(k, j));
  }

  /** Two peers in a cell's unit: a cell of the unit other than `UnitCell(k, i)` is its peer. */
  lemma UnitMembersArePeers(k: UnitId, i: Slot, c: Cell)
    requires c in Unit(k) && c != UnitCell(k, i)
    ensures c in Peers(UnitCell(k, i))
  {
    assert Unit(k)[i] == UnitCell(k, i);
    assert SharesUnit(UnitCell(k, i), c);
  }

  /** The names of the cells of unit `k`. */
  function UnitNames(k: UnitId): seq<string> {
    seq(9, i requires 0 <= i < 9 => Boxes()[UnitCell(k, i)])
  }

  /** The row units are `cross(r, cols)` for each row letter `r`. */
  lemma RowUnitsAreCrosses(r: int)
    requires 0 <= r < 9
    ensures UnitNames(r) == Cross(Rows[r..r + 1], Cols)
  {
    var x := Cross(Rows[r..r + 1], Cols);
    forall j | 0 <= j < 9
      ensures UnitNames(r)[j] == x[j]
    {
      CrossIndex(Rows[r..r + 1], Cols, 0, j);
      BoxName(r, j);
    }
  }

  /** The column units are `cross(rows, c)` for each column digit `c`. */
  lemma ColumnUnitsAreCrosses(c: int)
    requires 0 <= c < 9
    ensures UnitNames(9 + c) == Cross(Rows, Cols[c..c + 1])
  {
    var x := Cross(Rows, Cols[c..c + 1]);
    forall i | 0 <= i < 9
      ensures UnitNames(9 + c)[i] == x[i]
    {
      CrossIndex(Rows, Cols[c..c + 1], i, 0);
      BoxName(i, c);
    }
  }

  /** Position `3 * i + j` of square unit `18 + 3 * a + b` is row `3 * a + i`, column `3 * b + j`. */
  lemma SquareCell(a: int, b: int, i: int, j: int)
    requires 0 <= a < 3 && 0 <= b < 3 && 0 <= i < 3 && 0 <= j < 3
    ensures UnitCell(18 + 3 * a + b, 3 * i + j) == 9 * (3 * a + i) + (3 * b + j)
  {
    assert (3 * a + b) / 3 == a && (3 * a + b) % 3 == b;
    assert (3 * i + j) / 3 == i && (3 * i + j) % 3 == j;
  }

  /** Entry `3 * i + j` of the cross product of the a-th row triple and the b-th column triple. */
  lemma SquareCrossEntry(a: int, b: int, i: int, j: int)
    requires 0 <= a < 3 && 0 <= b < 3 && 0 <= i < 3 && 0 <= j < 3
    ensures |Cross(Rows[3 * a..3 * a + 3], Cols[3 * b..3 * b + 3])| == 9
    ensures Cross(Rows[3 * a..3 * a + 3], Cols[3 * b..3 * b + 3])[3 * i + j] == [Rows[3 * a + i], Cols[3 * b + j]]
  {
    var rs, cs := Rows[3 * a..3 * a + 3], Cols[3 * b..3 * b + 3];
    assert |rs| == 3 && |cs| == 3;
    CrossIndex(rs, cs, i, j);
    assert rs[i] == Rows[3 * a + i] && cs[j] == Cols[3 * b + j];
  }

  /** Position `3 * i + j` of square unit `18 + 3 * a + b` is named by its row letter and column digit. */
  lemma SquareNameEntry(a: int, b: int, i: int, j: int)
    requires 0 <= a < 3 && 0 <= b < 3 && 0 <= i < 3 && 0 <= j < 3
    ensures UnitNames(18 + 3 * a + b)[3 * i + j] == [Rows[3 * a + i], Cols[3 * b + j]]
  {
    SquareCell(a, b, i, j);
    BoxName(3 * a + i, 3 * b + j);
  }

  /** Position `n` of square unit `18 + 3 * a + b` is entry `n` of the matching cross product. */
  lemma SquareEntry(a: int, b: int, n: int)
    requires 0 <= a < 3 && 0 <= b < 3 && 0 <= n < 9
    ensures |Cross(Rows[3 * a..3 * a + 3], Cols[3 * b..3 * b + 3])| == 9
    ensures UnitNames(18 + 3 * a + b)[n] == Cross(Rows[3 * a..3 * a + 3], Cols[3 * b..3 * b + 3])[n]
  {
    var i, j := n / 3, n % 3;
    assert n == 3 * i + j;
    SquareCrossEntry(a, b, i, j);
    SquareNameEntry(a, b, i, j);
  }

  /** Square unit `18 + 3 * a + b` is `cross(rs, cs)` for the a-th row triple and the b-th column triple. */
  lemma SquareUnitsAreCrosses(a: int, b: int)
    requires 0 <= a < 3 && 0 <= b < 3
    ensures UnitNames(18 + 3 * a + b) == Cross(Rows[3 * a..3 * a + 3], Cols[3 * b..3 * b + 3])
  {
    var names, x := UnitNames(18 + 3 * a + b), Cross(Rows[3 * a..3 * a + 3], Cols[3 * b..3 * b + 3]);
    forall n | 0 <= n < 9
      ensures names[n] == x[n]
    {
      SquareEntry(a, b, n);
    }
    SquareEntry(a, b, 0);
  }

  /** The first diagonal unit runs from A1 to I9. */
  lemma MainDiagonalIsListed()
    ensures UnitNames(27) == ["A1", "B2", "C3", "D4", "E5", "F6", "G7", "H8", "I9"]
  {
    var d := UnitNames(27);
    BoxName(0, 0); BoxName(1, 1); BoxName(2, 2); BoxName(3, 3); BoxName(4, 4);
    BoxName(5, 5); BoxName(6, 6); BoxName(7, 7); BoxName(8, 8);
    assert d[0] == "A1" && d[1] == "B2" && d[2] == "C3";
    assert d[3] == "D4" && d[4] == "E5" && d[5] == "F6";
    assert d[6] == "G7" && d[7] == "H8" && d[8] == "I9";
  }

  /** The second diagonal unit runs from A9 to I1. */
  lemma AntiDiagonalIsListed()
    ensures UnitNames(28) == ["A9", "B8", "C7", "D6", "E5", "F4", "G3", "H2", "I1"]
  {
    var e := UnitNames(28);
    BoxName(0, 8); BoxName(1, 7); BoxName(2, 6); BoxName(3, 5); BoxName(4, 4);
    BoxName(5, 3); BoxName(6, 2); BoxName(7, 1); BoxName(8, 0);
    assert e[0] == "A9" && e[1] == "B8" && e[2] == "C7";
    assert e[3] == "D6" && e[4] == "E5" && e[5] == "F4";
    assert e[6] == "G3" && e[7] == "H2" && e[8] == "I1";
  }
}
