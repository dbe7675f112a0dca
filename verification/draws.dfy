// How one update of the digital-rain grid turns random draws into a new top
// row.  Each call of the C library's rand() is replaced by the next element of
// an explicit sequence of non-negative integers, read from a position that
// only moves forward, so the row is a deterministic left-to-right fold over
// that sequence.

module Draws {

  /** A cell left empty. */
  const Blank: char := ' '

  /** Symbols are the 94 printable ASCII characters '!' (33) through '~' (126). */
  predicate IsSymbol(c: char) {
    33 <= c as int <= 126
  }

  /** Everything a cell of the grid can ever hold. */
  predicate InAlphabet(c: char) {
    c == Blank || IsSymbol(c)
  }

  predicate AllInAlphabet(row: seq<char>) {
    forall j :: 0 <= j < |row| ==> InAlphabet(row[j])
  }

  /** A value produced from the draws, with the number of draws it consumed. */
  datatype Drawn<T> = Drawn(value: T, used: nat)

  /** Number of non-blank cells in a row. */
  function Symbols(row: seq<char>): (n: nat)
    ensures n <= |row|
  {
    if row == [] then 0
    else Symbols(row[..|row| - 1]) + (if row[|row| - 1] == Blank then 0 else 1)
  }

  /** The draws at position `at` are enough for one cell, whichever way it goes. */
  predicate CellAvailable(draws: seq<nat>, at: nat) {
    at < |draws| && (draws[at] % 2 == 1 ==> at + 1 < |draws|)
  }

  /**
   * One cell of the new top row, drawn from position `at`.  The first draw is
   * tested for oddness; only when it is odd is a second draw taken, reduced
   * modulo 94 and moved into the printable range.  The conditional evaluates
   * one branch only, so a blank consumes one draw and a symbol two.
   */
  function Cell(draws: seq<nat>, at: nat): (r: Drawn<char>)
    requires CellAvailable(draws, at)
    ensures InAlphabet(r.value)
    ensures r.value == Blank <==> draws[at] % 2 == 0
    ensures r.used == if r.value == Blank then 1 else 2
    ensures r.value != Blank ==> r.value as int - 33 == draws[at + 1] % 94
  {
    if draws[at] % 2 == 1 then Drawn((draws[at + 1] % 94 + 33) as char, 2)
    else Drawn(Blank, 1)
  }

  /**
   * The first `width` cells of a row, left to right: cell 0 starts at the
   * first draw and cell j takes its draws where cell j - 1 stopped.
   */
  function Row(draws: seq<nat>, width: nat): (r: Drawn<seq<char>>)
    requires 2 * width <= |draws|
    ensures |r.value| == width
    ensures width <= r.used <= 2 * width
    decreases width
  {
    if width == 0 then Drawn([], 0)
    else
      var prefix := Row(draws, width - 1);
      var c := Cell(draws, prefix.used);
      Drawn(prefix.value + [c.value], prefix.used + c.used)
  }

  /**
   * Every cell of a row is a blank or a printable symbol, and the row uses
   * one draw per cell plus one more per symbol.
   */
  lemma {:induction false} RowCells(draws: seq<nat>, width: nat)
    requires 2 * width <= |draws|
    ensures AllInAlphabet(Row(draws, width).value)
    ensures Row(draws, width).used == width + Symbols(Row(draws, width).value)
    decreases width
  {
    if width > 0 {
      var prefix := Row(draws, width - 1);
      RowCells(draws, width - 1);
      var c := Cell(draws, prefix.used);
      var r := Row(draws, width).value;
      assert r == prefix.value + [c.value];
      assert r[..width - 1] == prefix.value;
      assert Symbols(r) == Symbols(prefix.value) + (if c.value == Blank then 0 else 1);
    }
  }

  /** Extending a row by one cell draws that cell where the row stopped. */
  lemma RowExtend(draws: seq<nat>, width: nat)
    requires 2 * (width + 1) <= |draws|
    ensures CellAvailable(draws, Row(draws, width).used)
    ensures var u := Row(draws, width).used;
            Row(draws, width + 1) ==
            Drawn(Row(draws, width).value + [Cell(draws, u).value], u + Cell(draws, u).used)
  {
  }

  /** A shorter row is a prefix of a longer one drawn from the same draws. */
  lemma {:induction false} RowPrefix(draws: seq<nat>, j: nat, width: nat)
    requires j <= width && 2 * width <= |draws|
    ensures Row(draws, j).value == Row(draws, width).value[..j]
    ensures Row(draws, j).used <= Row(draws, width).used
    decreases width
  {
    if j < width {
      RowPrefix(draws, j, width - 1);
      RowExtend(draws, width - 1);
      var shorter := Row(draws, width - 1).value;
      assert Row(draws, width).value[..width - 1] == shorter;
      assert shorter[..j] == Row(draws, width).value[..j];
    } else {
      assert Row(draws, width).value[..width] == Row(draws, width).value;
    }
  }

  /**
   * Cell j of a row is the cell drawn at the position where cells 0 .. j - 1
   * stopped: blank when the draw there is even, otherwise the symbol given by
   * the draw after it.
   */
  lemma RowCellAt(draws: seq<nat>, j: nat, width: nat)
    requires j < width && 2 * width <= |draws|
    ensures CellAvailable(draws, Row(draws, j).used)
    ensures Row(draws, width).value[j] == Cell(draws, Row(draws, j).used).value
  {
    RowPrefix(draws, j + 1, width);
    RowExtend(draws, j);
    assert Row(draws, j + 1).value[j] == Row(draws, width).value[j];
  }

  /**
   * Only the draws a row uses are read: draws that agree on them give the
   * same row, consuming the same number.
   */
  lemma {:induction false} RowLocal(draws: seq<nat>, other: seq<nat>, width: nat)
    requires 2 * width <= |draws| && 2 * width <= |other|
    requires forall k :: 0 <= k < Row(draws, width).used ==> other[k] == draws[k]
    ensures Row(other, width) == Row(draws, width)
    decreases width
  {
    if width > 0 {
      var prefix := Row(draws, width - 1);
      RowLocal(draws, other, width - 1);
      var at := prefix.used;
      assert other[at] == draws[at];
      if draws[at] % 2 == 1 {
        assert other[at + 1] == draws[at + 1];
      }
    }
  }
}
