/**
 * The glyph table `LETTERS`: each supported character maps to a 7-row by
 * 5-column grid; row r is the r-th day of a calendar week and column c the
 * c-th week column of the glyph.  The table's bitmaps are not part of this
 * model: the table is a parameter.
 */
module Glyphs {

  const Rows := 7
  /** LETTER_WIDTH: every glyph is five week columns wide. */
  const Columns := 5

  /** `pattern[row][col]` is lit when true. */
  type Glyph = seq<seq<bool>>

  /** The glyph table, keyed by (upper-case) character. */
  type Letters = map<char, Glyph>

  predicate WellFormed(g: Glyph)
  {
    |g| == Rows && forall r :: 0 <= r < Rows ==> |g[r]| == Columns
  }

  predicate WellFormedLetters(letters: Letters)
  {
    forall c :: c in letters ==> WellFormed(letters[c])
  }

  /** The fallback `[[0]*5]*7`: no cell lit. */
  function Blank(): (g: Glyph)
    ensures WellFormed(g)
    ensures forall r, col :: 0 <= r < Rows && 0 <= col < Columns ==> !g[r][col]
  {
    seq(Rows, _ => seq(Columns, _ => false))
  }

  /** `LETTERS.get(c, [[0]*5]*7)`. */
  function Lookup(letters: Letters, c: char): (g: Glyph)
    requires WellFormedLetters(letters)
    ensures WellFormed(g)
    ensures c in letters ==> g == letters[c]
    ensures c !in letters ==> forall r, col :: 0 <= r < Rows && 0 <= col < Columns ==> !g[r][col]
  {
    if c in letters then letters[c] else Blank()
  }

  /** `I`, `!` and space are drawn from their middle column only. */
  predicate IsNarrow(c: char)
  {
    c == 'I' || c == '!' || c == ' '
  }

  /** The column the generator visits: every column, or only column 2 for a narrow character. */
  predicate IsVisited(c: char, col: int)
  {
    !IsNarrow(c) || col == 2
  }

  /** The glyph columns the generator draws for `c`. */
  function VisitedColumns(c: char): set<int>
  {
    set col | 0 <= col < Columns && IsVisited(c, col)
  }

  /** The number of week columns a character occupies. */
  function Width(c: char): nat
  {
    if IsNarrow(c) then 1 else Columns
  }

  /** A character occupies one week column per glyph column the generator draws. */
  lemma WidthCountsVisitedColumns(c: char)
    ensures Width(c) == |VisitedColumns(c)|
  {
    if IsNarrow(c) {
      assert VisitedColumns(c) == {2};
    } else {
      assert VisitedColumns(c) == {0, 1, 2, 3, 4};
    }
  }

  /** How many visited columns come before column `col`: the week offset of column `col` inside the glyph. */
  function VisitedBefore(c: char, col: int): (n: nat)
    requires 0 <= col <= Columns
    ensures n <= col && n <= Width(c)
    ensures col == Columns ==> n == Width(c)
  {
    if !IsNarrow(c) then col else if col > 2 then 1 else 0
  }

  /** The glyph column drawn in week `w` of the character's span (inverse of `VisitedBefore`). */
  function ColumnAtWeek(c: char, w: int): (col: int)
    requires 0 <= w < Width(c)
    ensures 0 <= col < Columns && IsVisited(c, col) && VisitedBefore(c, col) == w
  {
    if IsNarrow(c) then 2 else w
  }
}
