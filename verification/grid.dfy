/**
 * Reading a puzzle from text: each digit gives a solved cell, each `.` an unfilled
 * cell, every other character is skipped, and exactly 81 cells must result.
 */
module Grid {
  import opened Wrappers
  import opened Lists
  import opened Topology
  import opened Board

  /** A given digit, `'1'` to `'9'`. */
  predicate IsDigitChar(ch: char) {
    '1' <= ch <= '9'
  }

  /** A character that stands for a cell. */
  predicate IsSymbol(ch: char) {
    IsDigitChar(ch) || ch == '.'
  }

  /** The candidates a cell symbol stands for. */
  function CandsOf(ch: char): Cands
    requires IsSymbol(ch)
  {
    if ch == '.' then AllDigits else {ch as int - '0' as int}
  }

  /** The cell symbols of `grid`, in order. */
  function Symbols(grid: string): string {
    Filter(grid, IsSymbol)
  }

  /** The cells read from `grid`, one per symbol (the source's `chars` list). */
  function Cells(grid: string): (r: seq<Cands>)
    ensures |r| == |Symbols(grid)|
    ensures forall i :: 0 <= i < |r| ==> r[i] == CandsOf(Symbols(grid)[i])
  {
    if |grid| == 0 then []
    else
      var ch := grid[0];
      (if IsDigitChar(ch) then [{ch as int - '0' as int}] else [])
      + (if ch == '.' then [AllDigits] else [])
      + Cells(grid[1..])
  }

  /** The board a grid text describes, or `None` unless it holds exactly 81 cell symbols. */
  function GridValues(grid: string): (r: Option<Board>)
    ensures r.Some? <==> |Symbols(grid)| == 81
    ensures r.Some? ==> forall c: Cell :: r.value[c] == CandsOf(Symbols(grid)[c])
  {
    var cells := Cells(grid);
    if |cells| == 81 then Some(cells) else None
  }

  /** A board every cell of which is either a given digit or unfilled. */
  predicate GridLike(b: Board) {
    forall c: Cell :: |b[c]| == 1 || b[c] == AllDigits
  }

  /** The one digit of a solved cell heads its ascending listing. */
  lemma SingleDigit(v: Cands)
    requires |v| == 1
    ensures |InOrder(v)| > 0 && v == {InOrder(v)[0]}
  {
    var r := InOrder(v);
    var d :| d in v;
    Singleton(v, d);
    assert d in r;
    assert r[0] in r;
  }

  /** The symbol for a given or unfilled cell. */
  function SymbolOf(v: Cands): (ch: char)
    requires |v| == 1 || v == AllDigits
    ensures IsSymbol(ch) && CandsOf(ch) == v
  {
    if v == AllDigits then '.'
    else
      SingleDigit(v);
      ('0' as int + InOrder(v)[0]) as char
  }

  /** The grid text of a board of givens and unfilled cells, one symbol per cell. */
  function Encode(b: Board): (g: string)
    requires GridLike(b)
    ensures |g| == 81
  {
    seq(81, c requires 0 <= c < 81 => SymbolOf(b[c]))
  }

  /** Reading back the text of a board gives the board. */
  lemma ParseEncode(b: Board)
    requires GridLike(b)
    ensures GridValues(Encode(b)) == Some(b)
  {
    var g := Encode(b);
    FilterAll(g, IsSymbol);
    var r := GridValues(g);
    assert r.Some?;
    forall c: Cell
      ensures r.value[c] == b[c]
    {
      assert g[c] == SymbolOf(b[c]);
    }
    assert r.value == b;
  }

  /** A board read from text is made of givens and unfilled cells, and its text is the grid's symbols. */
  lemma EncodeParse(grid: string)
    requires GridValues(grid).Some?
    ensures GridLike(GridValues(grid).value)
    ensures Encode(GridValues(grid).value) == Symbols(grid)
  {
    var b := GridValues(grid).value;
    var sy := Symbols(grid);
    forall c: Cell
      ensures |b[c]| == 1 || b[c] == AllDigits
    {
      assert b[c] == CandsOf(sy[c]);
    }
    var g := Encode(b);
    forall c: Cell
      ensures g[c] == sy[c]
    {
      assert b[c] == CandsOf(sy[c]);
      assert CandsOf(g[c]) == b[c];
      if sy[c] != '.' {
        assert sy[c] as int - '0' as int in CandsOf(g[c]);
      }
    }
  }

  /** The board depends on the grid only through its cell symbols. */
  lemma SameSymbols(g1: string, g2: string)
    requires Symbols(g1) == Symbols(g2)
    ensures GridValues(g1) == GridValues(g2)
  {
    var c1, c2 := Cells(g1), Cells(g2);
    assert c1 == c2;
  }

  /** A character that is not a cell symbol drops out of the symbols. */
  lemma SkipSymbol(before: string, ch: char, after: string)
    requires !IsSymbol(ch)
    ensures Symbols(before + [ch] + after) == Symbols(before + after)
  {
    FilterSkip(before, ch, after, IsSymbol);
  }

  /** Characters other than digits and `.` do not affect the board. */
  lemma IgnoresOtherChars(before: string, ch: char, after: string)
    requires !IsSymbol(ch)
    ensures GridValues(before + [ch] + after) == GridValues(before + after)
  {
    SkipSymbol(before, ch, after);
    SameSymbols(before + [ch] + after, before + after);
  }
}
