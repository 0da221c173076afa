/**
 * `generate_commit_dates`: the message is walked character by character,
 * each glyph column by column and each column row by row; every lit cell
 * becomes the date `start + 7 * week + row`, where `week` counts the week
 * columns used so far.  A narrow character (`I`, `!`, space) is drawn from
 * its middle column only and takes one week column; any other character
 * takes five; a blank spacer column follows every character but the last.
 */
module CommitDates {
  import opened Results
  import opened Text
  import opened Glyphs
  import opened Calendar

  predicate StrictlyIncreasing(s: seq<int>)
  {
    forall j, k :: 0 <= j < k < |s| ==> s[j] < s[k]
  }

  /** The dates of the lit cells among the first `rows` rows of glyph column `col`, drawn in week `week`. */
  function ColumnDates(g: Glyph, col: nat, start: int, week: int, rows: nat): seq<int>
    requires WellFormed(g) && col < Columns && rows <= Rows
  {
    if rows == 0 then []
    else
      ColumnDates(g, col, start, week, rows - 1) +
      (if g[rows - 1][col] then [start + 7 * week + rows - 1] else [])
  }

  /** The dates of character `c`'s first `cols` glyph columns, its first visited column drawn in week `week`. */
  function GlyphDates(c: char, g: Glyph, start: int, week: int, cols: nat): seq<int>
    requires WellFormed(g) && cols <= Columns
  {
    if cols == 0 then []
    else
      GlyphDates(c, g, start, week, cols - 1) +
      (if IsVisited(c, cols - 1) then ColumnDates(g, cols - 1, start, week + VisitedBefore(c, cols - 1), Rows) else [])
  }

  /** The week column where character `i` of the message begins. */
  function StartWeek(msg: string, i: nat): nat
    requires i <= |msg|
  {
    if i == 0 then 0 else StartWeek(msg, i - 1) + Width(msg[i - 1]) + 1
  }

  /** The dates of the first `i` characters of the (upper-cased) message. */
  function MessageDates(msg: string, letters: Letters, start: int, i: nat): seq<int>
    requires WellFormedLetters(letters) && i <= |msg|
  {
    if i == 0 then []
    else
      MessageDates(msg, letters, start, i - 1) +
      GlyphDates(msg[i - 1], Lookup(letters, msg[i - 1]), start, StartWeek(msg, i - 1), Columns)
  }

  /** The list `generate_commit_dates(word, start)` returns, over unbounded day numbers. */
  function CommitDates(word: string, letters: Letters, start: int): seq<int>
    requires WellFormedLetters(letters)
  {
    var msg := Upper(word);
    MessageDates(msg, letters, start, |msg|)
  }

  // ---------------------------------------------------------------------
  // An independent description: which dates are lit

  /**
   * Date `d` falls in character `i`'s span of week columns, on a lit cell:
   * its week inside the span picks the glyph column, its day of the week
   * (counted from `start`) the row.
   */
  predicate LitFor(msg: string, letters: Letters, start: int, i: int, d: int)
    requires WellFormedLetters(letters) && 0 <= i < |msg|
  {
    var off := d - start - 7 * StartWeek(msg, i);
    0 <= off < 7 * Width(msg[i]) &&
    Lookup(letters, msg[i])[off % 7][ColumnAtWeek(msg[i], off / 7)]
  }

  /** `d` is the date of some lit cell of the message. */
  predicate IsLitDate(msg: string, letters: Letters, start: int, d: int)
    requires WellFormedLetters(letters)
  {
    exists i :: 0 <= i < |msg| && LitFor(msg, letters, start, i, d)
  }

  // ---------------------------------------------------------------------
  // Lemmas

  lemma ConcatIncreasing(a: seq<int>, b: seq<int>)
    requires StrictlyIncreasing(a) && StrictlyIncreasing(b)
    requires forall x, y :: x in a && y in b ==> x < y
    ensures StrictlyIncreasing(a + b)
  {
    forall j, k | 0 <= j < k < |a + b|
      ensures (a + b)[j] < (a + b)[k]
    {
      if j < |a| && k >= |a| {
        assert (a + b)[j] in a && (a + b)[k] in b;
      }
    }
  }

  /** One column's dates are its lit rows, in order, within its week. */
  lemma {:induction false} ColumnDatesSpec(g: Glyph, col: nat, start: int, week: int, rows: nat)
    requires WellFormed(g) && col < Columns && rows <= Rows
    ensures forall x :: x in ColumnDates(g, col, start, week, rows) <==>
      start + 7 * week <= x < start + 7 * week + rows && g[x - start - 7 * week][col]
    ensures StrictlyIncreasing(ColumnDates(g, col, start, week, rows))
  {
    if rows > 0 {
      ColumnDatesSpec(g, col, start, week, rows - 1);
      var tail := if g[rows - 1][col] then [start + 7 * week + rows - 1] else [];
      ConcatIncreasing(ColumnDates(g, col, start, week, rows - 1), tail);
    }
  }

  /**
   * `x` lies within the first `weeks` week columns of character `c`'s span,
   * which begins on day `base`, on a lit cell of glyph `g`.
   */
  predicate LitInSpan(c: char, g: Glyph, base: int, weeks: int, x: int)
    requires WellFormed(g) && weeks <= Width(c)
  {
    var off := x - base;
    0 <= off < 7 * weeks && g[off % 7][ColumnAtWeek(c, off / 7)]
  }

  /** Widening a span by one visited column adds exactly that column's lit cells, in its own week. */
  lemma SpanStep(c: char, g: Glyph, start: int, week: int, col: nat, x: int)
    requires WellFormed(g) && col < Columns && IsVisited(c, col)
    ensures var v := VisitedBefore(c, col); var w := week + v;
      LitInSpan(c, g, start + 7 * week, v + 1, x) <==>
        LitInSpan(c, g, start + 7 * week, v, x) ||
        (start + 7 * w <= x < start + 7 * w + Rows && g[x - start - 7 * w][col])
  {
    var v := VisitedBefore(c, col);
    var off := x - start - 7 * week;
    if 7 * v <= off < 7 * v + 7 {
      assert off / 7 == v && off % 7 == off - 7 * v;
      assert ColumnAtWeek(c, v) == col;
    }
  }

  /** The lit cells of a span widened by one column are the old span's, then the column's, all later. */
  lemma GlyphStepMembers(c: char, g: Glyph, start: int, week: int, col: nat, before: seq<int>, column: seq<int>)
    requires WellFormed(g) && col < Columns && IsVisited(c, col)
    requires forall x :: x in before <==> LitInSpan(c, g, start + 7 * week, VisitedBefore(c, col), x)
    requires var w := week + VisitedBefore(c, col);
      forall x :: x in column <==> start + 7 * w <= x < start + 7 * w + Rows && g[x - start - 7 * w][col]
    ensures forall x :: x in before + column <==> LitInSpan(c, g, start + 7 * week, VisitedBefore(c, col) + 1, x)
    ensures forall x, y :: x in before && y in column ==> x < y
  {
    forall x
      ensures x in before + column <==> LitInSpan(c, g, start + 7 * week, VisitedBefore(c, col) + 1, x)
    {
      SpanStep(c, g, start, week, col, x);
    }
  }

  /** A character's dates are the lit cells of its visited columns, in order, within its span. */
  lemma {:induction false} GlyphDatesSpec(c: char, g: Glyph, start: int, week: int, cols: nat)
    requires WellFormed(g) && cols <= Columns
    ensures forall x :: x in GlyphDates(c, g, start, week, cols) <==>
      LitInSpan(c, g, start + 7 * week, VisitedBefore(c, cols), x)
    ensures StrictlyIncreasing(GlyphDates(c, g, start, week, cols))
  {
    if cols > 0 {
      var col := cols - 1;
      var base := start + 7 * week;
      GlyphDatesSpec(c, g, start, week, col);
      var before := GlyphDates(c, g, start, week, col);
      var v := VisitedBefore(c, col);
      if IsVisited(c, col) {
        assert VisitedBefore(c, cols) == v + 1;
        var w := week + v;
        ColumnDatesSpec(g, col, start, w, Rows);
        var column := ColumnDates(g, col, start, w, Rows);
        assert GlyphDates(c, g, start, week, cols) == before + column;
        GlyphStepMembers(c, g, start, week, col, before, column);
        ConcatIncreasing(before, column);
      } else {
        assert VisitedBefore(c, cols) == v;
        assert GlyphDates(c, g, start, week, cols) == before;
      }
    }
  }

  /** The first `i` characters' dates are their lit cells, in order, before character `i`'s span. */
  lemma {:induction false} MessageDatesSpec(msg: string, letters: Letters, start: int, i: nat)
    requires WellFormedLetters(letters) && i <= |msg|
    ensures forall x :: x in MessageDates(msg, letters, start, i) <==>
      exists j :: 0 <= j < i && LitFor(msg, letters, start, j, x)
    ensures forall x :: x in MessageDates(msg, letters, start, i) ==> start <= x < start + 7 * StartWeek(msg, i)
    ensures StrictlyIncreasing(MessageDates(msg, letters, start, i))
  {
    if i > 0 {
      MessageDatesSpec(msg, letters, start, i - 1);
      var c := msg[i - 1];
      var sw := StartWeek(msg, i - 1);
      GlyphDatesSpec(c, Lookup(letters, c), start, sw, Columns);
      var before := MessageDates(msg, letters, start, i - 1);
      var glyph := GlyphDates(c, Lookup(letters, c), start, sw, Columns);
      MessageStepMembers(msg, letters, start, i, before, glyph);
      ConcatIncreasing(before, glyph);
    }
  }

  /** One more character: its glyph's dates are exactly the dates lit for it, all after the earlier ones. */
  lemma MessageStepMembers(msg: string, letters: Letters, start: int, i: nat, before: seq<int>, glyph: seq<int>)
    requires WellFormedLetters(letters) && 0 < i <= |msg|
    requires forall x :: x in before <==> exists j :: 0 <= j < i - 1 && LitFor(msg, letters, start, j, x)
    requires forall x :: x in before ==> start <= x < start + 7 * StartWeek(msg, i - 1)
    requires forall x :: x in glyph <==>
      LitInSpan(msg[i - 1], Lookup(letters, msg[i - 1]), start + 7 * StartWeek(msg, i - 1), VisitedBefore(msg[i - 1], Columns), x)
    ensures forall x :: x in before + glyph <==> exists j :: 0 <= j < i && LitFor(msg, letters, start, j, x)
    ensures forall x :: x in before + glyph ==> start <= x < start + 7 * StartWeek(msg, i)
    ensures forall x, y :: x in before && y in glyph ==> x < y
  {
    assert forall x :: x in glyph <==> LitFor(msg, letters, start, i - 1, x);
    forall x | x in before + glyph
      ensures exists j :: 0 <= j < i && LitFor(msg, letters, start, j, x)
    {
      if x in glyph {
        assert LitFor(msg, letters, start, i - 1, x);
      }
    }
    forall x | exists j :: 0 <= j < i && LitFor(msg, letters, start, j, x)
      ensures x in before + glyph
    {
      var j :| 0 <= j < i && LitFor(msg, letters, start, j, x);
      if j == i - 1 {
        assert x in glyph;
      } else {
        assert x in before;
      }
    }
  }

  /** The generator produces exactly the dates of the lit cells of the upper-cased message. */
  lemma CommitDatesAreLitDates(word: string, letters: Letters, start: int)
    requires WellFormedLetters(letters)
    ensures forall d :: d in CommitDates(word, letters, start) <==> IsLitDate(Upper(word), letters, start, d)
  {
    var msg := Upper(word);
    MessageDatesSpec(msg, letters, start, |msg|);
  }

  /** The dates come out strictly increasing. */
  lemma CommitDatesIncreasing(word: string, letters: Letters, start: int)
    requires WellFormedLetters(letters)
    ensures StrictlyIncreasing(CommitDates(word, letters, start))
  {
    var msg := Upper(word);
    MessageDatesSpec(msg, letters, start, |msg|);
  }

  lemma {:induction false} IncreasingWithSameElements(a: seq<int>, b: seq<int>)
    requires StrictlyIncreasing(a) && StrictlyIncreasing(b)
    requires forall x :: x in a <==> x in b
    ensures a == b
    decreases |a|
  {
    if a == [] {
      NoMembersMeansEmpty(b);
    } else if b == [] {
      NoMembersMeansEmpty(a);
    } else {
      assert a[0] == b[0] by {
        assert a[0] in a && b[0] in b;
        assert a[0] in b && b[0] in a;
      }
      forall x
        ensures x in a[1..] <==> x in b[1..]
      {
        if x in a[1..] {
          TailMember(a, x);
          assert x in b;
          TailOrHead(b, x);
        }
        if x in b[1..] {
          TailMember(b, x);
          assert x in a;
          TailOrHead(a, x);
        }
      }
      IncreasingWithSameElements(a[1..], b[1..]);
      assert a == [a[0]] + a[1..] && b == [b[0]] + b[1..];
    }
  }

  lemma TailMember(s: seq<int>, x: int)
    requires StrictlyIncreasing(s) && s != [] && x in s[1..]
    ensures x in s && x > s[0]
  {
    var k :| 0 <= k < |s[1..]| && s[1..][k] == x;
    assert s[k + 1] == x;
  }

  lemma TailOrHead(s: seq<int>, x: int)
    requires s != [] && x in s && x != s[0]
    ensures x in s[1..]
  {
    var k :| 0 <= k < |s| && s[k] == x;
    assert s[1..][k - 1] == x;
  }

  lemma SomeElement(s: seq<int>) returns (y: int)
    requires s != []
    ensures y in s
  {
    y := s[0];
  }

  lemma NoMembersMeansEmpty(s: seq<int>)
    requires forall x :: x !in s
    ensures s == []
  {
    if s != [] {
      var y := SomeElement(s);
      assert false;
    }
  }

  /**
   * The commit-date list is determined by the lit cells alone: it is the one
   * strictly increasing list of exactly the lit dates.
   */
  lemma CommitDatesDetermined(word: string, letters: Letters, start: int, ds: seq<int>)
    requires WellFormedLetters(letters)
    requires StrictlyIncreasing(ds)
    requires forall d :: d in ds <==> IsLitDate(Upper(word), letters, start, d)
    ensures ds == CommitDates(word, letters, start)
  {
    CommitDatesAreLitDates(word, letters, start);
    CommitDatesIncreasing(word, letters, start);
    IncreasingWithSameElements(ds, CommitDates(word, letters, start));
  }

  /**
   * Every commit date lies on or after the start.  It is drawn from a lit
   * cell of some character whose row is the date's distance from the start
   * modulo 7, and whose column is the week within that character's span; so
   * its weekday is the start's shifted by that row, and when the start is a
   * Sunday, row 0 is Sunday and row 6 Saturday.
   */
  lemma CommitDateWeekday(word: string, letters: Letters, start: int, d: int)
    requires WellFormedLetters(letters)
    requires d in CommitDates(word, letters, start)
    ensures start <= d
    ensures exists i ::
      0 <= i < |word| && LitFor(Upper(word), letters, start, i, d) &&
      LitCell(Upper(word), letters, i, (d - start) % 7, (d - start) / 7 - StartWeek(Upper(word), i))
    ensures Weekday(d) == (Weekday(start) + (d - start) % 7) % 7
    ensures IsSunday(start) ==> Weekday(d) == ((d - start) % 7 + 6) % 7
  {
    var msg := Upper(word);
    CommitDatesAreLitDates(word, letters, start);
    var i :| 0 <= i < |msg| && LitFor(msg, letters, start, i, d);
    LitForCell(msg, letters, start, i, d);
    WeekdayOfRow(start, d);
  }

  /** A date's weekday is the start's, shifted by the date's row. */
  lemma WeekdayOfRow(start: int, d: int)
    ensures Weekday(d) == (Weekday(start) + (d - start) % 7) % 7
    ensures IsSunday(start) ==> Weekday(d) == ((d - start) % 7 + 6) % 7
  {
    WeekdayShift(start, (d - start) / 7, (d - start) % 7);
  }

  /** A date lit for character `i` comes from the cell its distance from the start picks. */
  lemma LitForCell(msg: string, letters: Letters, start: int, i: int, d: int)
    requires WellFormedLetters(letters) && 0 <= i < |msg|
    requires LitFor(msg, letters, start, i, d)
    ensures start <= d
    ensures LitCell(msg, letters, i, (d - start) % 7, (d - start) / 7 - StartWeek(msg, i))
  {
    var off := d - start - 7 * StartWeek(msg, i);
    assert off % 7 == (d - start) % 7 && off / 7 == (d - start) / 7 - StartWeek(msg, i);
  }

  /** The cell of character `i`'s glyph in row `row`, in the column drawn in week `w` of its span, is lit. */
  predicate LitCell(msg: string, letters: Letters, i: int, row: int, w: int)
    requires WellFormedLetters(letters) && 0 <= i < |msg|
  {
    0 <= row < Rows && 0 <= w < Width(msg[i]) && Lookup(letters, msg[i])[row][ColumnAtWeek(msg[i], w)]
  }

  /** A message none of whose (upper-cased) characters is in the table, the empty one included, yields no dates. */
  lemma UnknownCharactersYieldNothing(word: string, letters: Letters, start: int)
    requires WellFormedLetters(letters)
    requires forall k :: 0 <= k < |word| ==> Upper(word)[k] !in letters
    ensures CommitDates(word, letters, start) == []
  {
    var msg := Upper(word);
    CommitDatesAreLitDates(word, letters, start);
    forall i, d | 0 <= i < |msg|
      ensures !LitFor(msg, letters, start, i, d)
    {
      assert msg[i] !in letters;
    }
    NoMembersMeansEmpty(CommitDates(word, letters, start));
  }

  // ---------------------------------------------------------------------
  // Counting lit cells

  /** The number of lit cells among the first `rows` rows of column `col`. */
  function LitInColumn(g: Glyph, col: nat, rows: nat): nat
    requires WellFormed(g) && col < Columns && rows <= Rows
  {
    if rows == 0 then 0 else LitInColumn(g, col, rows - 1) + (if g[rows - 1][col] then 1 else 0)
  }

  /** The number of lit cells in the first `cols` columns of `c`'s glyph that are visited. */
  function LitInGlyph(c: char, g: Glyph, cols: nat): nat
    requires WellFormed(g) && cols <= Columns
  {
    if cols == 0 then 0
    else LitInGlyph(c, g, cols - 1) + (if IsVisited(c, cols - 1) then LitInColumn(g, cols - 1, Rows) else 0)
  }

  /** The number of lit, visited cells of the first `i` characters. */
  function LitInMessage(msg: string, letters: Letters, i: nat): nat
    requires WellFormedLetters(letters) && i <= |msg|
  {
    if i == 0 then 0
    else LitInMessage(msg, letters, i - 1) + LitInGlyph(msg[i - 1], Lookup(letters, msg[i - 1]), Columns)
  }

  lemma {:induction false} ColumnCount(g: Glyph, col: nat, start: int, week: int, rows: nat)
    requires WellFormed(g) && col < Columns && rows <= Rows
    ensures |ColumnDates(g, col, start, week, rows)| == LitInColumn(g, col, rows)
  {
    if rows > 0 {
      ColumnCount(g, col, start, week, rows - 1);
    }
  }

  lemma {:induction false} GlyphCount(c: char, g: Glyph, start: int, week: int, cols: nat)
    requires WellFormed(g) && cols <= Columns
    ensures |GlyphDates(c, g, start, week, cols)| == LitInGlyph(c, g, cols)
  {
    if cols > 0 {
      GlyphCount(c, g, start, week, cols - 1);
      if IsVisited(c, cols - 1) {
        ColumnCount(g, cols - 1, start, week + VisitedBefore(c, cols - 1), Rows);
      }
    }
  }

  lemma {:induction false} MessageCount(msg: string, letters: Letters, start: int, i: nat)
    requires WellFormedLetters(letters) && i <= |msg|
    ensures |MessageDates(msg, letters, start, i)| == LitInMessage(msg, letters, i)
  {
    if i > 0 {
      MessageCount(msg, letters, start, i - 1);
      GlyphCount(msg[i - 1], Lookup(letters, msg[i - 1]), start, StartWeek(msg, i - 1), Columns);
    }
  }

  /** One date per lit cell in the visited columns. */
  lemma CommitDatesCount(word: string, letters: Letters, start: int)
    requires WellFormedLetters(letters)
    ensures |CommitDates(word, letters, start)| == LitInMessage(Upper(word), letters, |word|)
  {
    MessageCount(Upper(word), letters, start, |word|);
  }

  // ---------------------------------------------------------------------
  // Week-column layout

  /** The number of narrow characters in `s`. */
  function NarrowCount(s: string): (n: nat)
    ensures n <= |s|
  {
    if s == [] then 0 else (if IsNarrow(s[0]) then 1 else 0) + NarrowCount(s[1..])
  }

  lemma {:induction false} NarrowCountAppend(s: string, c: char)
    ensures NarrowCount(s + [c]) == NarrowCount(s) + (if IsNarrow(c) then 1 else 0)
  {
    if s != [] {
      assert (s + [c])[1..] == s[1..] + [c];
      NarrowCountAppend(s[1..], c);
    }
  }

  /**
   * Character `i` begins after `i` characters and `i` spacers: six week
   * columns per character before it, four fewer for each narrow one.
   */
  lemma {:induction false} StartWeekLayout(msg: string, i: nat)
    requires i <= |msg|
    ensures StartWeek(msg, i) == 6 * i - 4 * NarrowCount(msg[..i])
  {
    if i > 0 {
      StartWeekLayout(msg, i - 1);
      assert msg[..i] == msg[..i - 1] + [msg[i - 1]];
      NarrowCountAppend(msg[..i - 1], msg[i - 1]);
    }
  }

  // ---------------------------------------------------------------------
  // The generator

  lemma IndexOf(s: seq<int>, x: int) returns (k: nat)
    requires x in s
    ensures k < |s| && s[k] == x
  {
    k :| 0 <= k < |s| && s[k] == x;
  }

  /** One more glyph column: a visited one adds its dates and a week, a skipped one neither. */
  lemma GlyphStep(c: char, g: Glyph, start: int, sw: int, col: nat)
    requires WellFormed(g) && col < Columns
    ensures IsVisited(c, col) ==>
      GlyphDates(c, g, start, sw, col + 1) ==
        GlyphDates(c, g, start, sw, col) + ColumnDates(g, col, start, sw + VisitedBefore(c, col), Rows)
    ensures IsVisited(c, col) ==> VisitedBefore(c, col + 1) == VisitedBefore(c, col) + 1
    ensures !IsVisited(c, col) ==> GlyphDates(c, g, start, sw, col + 1) == GlyphDates(c, g, start, sw, col)
    ensures !IsVisited(c, col) ==> VisitedBefore(c, col + 1) == VisitedBefore(c, col)
  {
  }

  /** All of `ds` is representable as a Python `date`. */
  predicate AllRepresentable(ds: seq<int>)
  {
    forall k :: 0 <= k < |ds| ==> ds[k] <= MaxOrdinal
  }

  /**
   * The row loop of `generate_commit_dates` for one visited column drawn in
   * week `week`: appends the date of every lit row, top to bottom, and raises
   * OverflowError at the first one past 9999-12-31.
   */
  method DrawColumn(dates: seq<int>, g: Glyph, col: nat, start: int, week: int)
    returns (r: Result<seq<int>, DateError>)
    requires WellFormed(g) && col < Columns
    ensures r.Success? <==> AllRepresentable(ColumnDates(g, col, start, week, Rows))
    ensures r.Success? ==> r.value == dates + ColumnDates(g, col, start, week, Rows)
    ensures r.Failure? ==> r.error == DateOverflow
  {
    var out := dates;
    for row := 0 to Rows
      invariant out == dates + ColumnDates(g, col, start, week, row)
      invariant AllRepresentable(ColumnDates(g, col, start, week, row))
    {
      if g[row][col] {
        var d := start + 7 * week + row;
        if d > MaxOrdinal {
          ColumnDatesSpec(g, col, start, week, Rows);
          ghost var k := IndexOf(ColumnDates(g, col, start, week, Rows), d);
          return Failure(DateOverflow);
        }
        out := out + [d];
      }
    }
    return Success(out);
  }

  /**
   * The column loop of `generate_commit_dates` for character `c` starting in
   * week `week`: a narrow character skips every column but the middle one,
   * and the week counter advances only past the columns drawn.
   */
  method DrawGlyph(dates: seq<int>, c: char, g: Glyph, start: int, week: int)
    returns (r: Result<seq<int>, DateError>, nextWeek: int)
    requires WellFormed(g)
    ensures r.Success? <==> AllRepresentable(GlyphDates(c, g, start, week, Columns))
    ensures r.Success? ==> r.value == dates + GlyphDates(c, g, start, week, Columns)
    ensures r.Success? ==> nextWeek == week + Width(c)
    ensures r.Failure? ==> r.error == DateOverflow
  {
    var out := dates;
    nextWeek := week;
    for col := 0 to Columns
      invariant nextWeek == week + VisitedBefore(c, col)
      invariant out == dates + GlyphDates(c, g, start, week, col)
      invariant AllRepresentable(GlyphDates(c, g, start, week, col))
    {
      GlyphStep(c, g, start, week, col);
      if IsNarrow(c) && col != 2 {
        continue;
      }
      var column := DrawColumn(out, g, col, start, nextWeek);
      if column.Failure? {
        OverflowInColumn(c, g, start, week, col);
        return Failure(DateOverflow), nextWeek;
      }
      ColumnAppended(dates, c, g, start, week, col, out);
      out := column.value;
      nextWeek := nextWeek + 1;
    }
    return Success(out), nextWeek;
  }

  /** Appending a visited, representable column extends the glyph's dates drawn so far by one column. */
  lemma ColumnAppended(dates: seq<int>, c: char, g: Glyph, start: int, week: int, col: nat, out: seq<int>)
    requires WellFormed(g) && col < Columns && IsVisited(c, col)
    requires out == dates + GlyphDates(c, g, start, week, col)
    requires AllRepresentable(GlyphDates(c, g, start, week, col))
    requires AllRepresentable(ColumnDates(g, col, start, week + VisitedBefore(c, col), Rows))
    ensures out + ColumnDates(g, col, start, week + VisitedBefore(c, col), Rows) ==
      dates + GlyphDates(c, g, start, week, col + 1)
    ensures AllRepresentable(GlyphDates(c, g, start, week, col + 1))
  {
    var drawn := GlyphDates(c, g, start, week, col);
    var added := ColumnDates(g, col, start, week + VisitedBefore(c, col), Rows);
    assert GlyphDates(c, g, start, week, col + 1) == drawn + added;
    assert (dates + drawn) + added == dates + (drawn + added);
  }

  /** A date of a visited column beyond 9999-12-31 is a date of the glyph beyond it. */
  lemma OverflowInColumn(c: char, g: Glyph, start: int, week: int, col: nat)
    requires WellFormed(g) && col < Columns && IsVisited(c, col)
    requires !AllRepresentable(ColumnDates(g, col, start, week + VisitedBefore(c, col), Rows))
    ensures !AllRepresentable(GlyphDates(c, g, start, week, Columns))
  {
    var column := ColumnDates(g, col, start, week + VisitedBefore(c, col), Rows);
    var k: nat :| k < |column| && column[k] > MaxOrdinal;
    assert column[k] in column;
    GlyphStep(c, g, start, week, col);
    GlyphPrefix(c, g, start, week, col + 1, Columns);
    var j := IndexOf(GlyphDates(c, g, start, week, Columns), column[k]);
  }

  lemma {:induction false} GlyphPrefix(c: char, g: Glyph, start: int, week: int, a: nat, b: nat)
    requires WellFormed(g) && a <= b <= Columns
    ensures forall x :: x in GlyphDates(c, g, start, week, a) ==> x in GlyphDates(c, g, start, week, b)
    decreases b
  {
    if a < b {
      GlyphPrefix(c, g, start, week, a, b - 1);
    }
  }

  /**
   * `generate_commit_dates(word, start_date, total_weeks)`: the character
   * loop.  `total_weeks` is never read.  Python's `date` stops at
   * 9999-12-31: the first lit cell whose date lies beyond it raises
   * OverflowError.
   */
  method GenerateCommitDates(word: string, letters: Letters, start: int, totalWeeks: int)
    returns (r: Result<seq<int>, DateError>)
    requires IsAscii(word)
    requires WellFormedLetters(letters)
    requires IsDate(start)
    ensures r.Success? <==> AllRepresentable(CommitDates(word, letters, start))
    ensures r.Success? ==> r.value == CommitDates(word, letters, start)
    ensures r.Failure? ==> r.error == DateOverflow
  {
    var msg := Upper(word);
    var dates: seq<int> := [];
    var week := 0;
    for i := 0 to |msg|
      invariant dates == MessageDates(msg, letters, start, i)
      invariant AllRepresentable(dates)
      invariant i < |msg| ==> week == StartWeek(msg, i)
    {
      var pattern := Lookup(letters, msg[i]);
      var drawn;
      drawn, week := DrawGlyph(dates, msg[i], pattern, start, week);
      if drawn.Failure? {
        ghost var k: nat :| k < |GlyphDates(msg[i], pattern, start, StartWeek(msg, i), Columns)| &&
          GlyphDates(msg[i], pattern, start, StartWeek(msg, i), Columns)[k] > MaxOrdinal;
        OverflowInGlyph(word, letters, start, i, k);
        return Failure(DateOverflow);
      }
      dates := drawn.value;
      if i < |word| - 1 {
        week := week + 1;
      }
    }
    return Success(dates);
  }

  /** A date of character `i` beyond 9999-12-31 is a commit date beyond it. */
  lemma OverflowInGlyph(word: string, letters: Letters, start: int, i: nat, k: nat)
    requires WellFormedLetters(letters) && i < |word|
    requires
      var msg := Upper(word);
      var gd := GlyphDates(msg[i], Lookup(letters, msg[i]), start, StartWeek(msg, i), Columns);
      k < |gd| && gd[k] > MaxOrdinal
    ensures !AllRepresentable(CommitDates(word, letters, start))
  {
    var msg := Upper(word);
    var gd := GlyphDates(msg[i], Lookup(letters, msg[i]), start, StartWeek(msg, i), Columns);
    assert gd[k] in gd;
    MessagePrefix(msg, letters, start, i + 1, |msg|);
    var j := IndexOf(CommitDates(word, letters, start), gd[k]);
  }

  lemma {:induction false} MessagePrefix(msg: string, letters: Letters, start: int, a: nat, b: nat)
    requires WellFormedLetters(letters) && a <= b <= |msg|
    ensures forall x :: x in MessageDates(msg, letters, start, a) ==> x in MessageDates(msg, letters, start, b)
    decreases b
  {
    if a < b {
      MessagePrefix(msg, letters, start, a, b - 1);
    }
  }
}
