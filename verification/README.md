# godspeed: contribution-graph drawing, modelled in Dafny

`scripts/godspeed.py` writes a message into a GitHub contribution graph. It
makes backdated commits whose dates light up cells of the calendar grid:

- one week per column;
- one day of the week per row;
- a 7 × 5 bitmap per character, from the `LETTERS` table.

This project models the parts of the script that decide *what* happens. It
leaves out the parts that run processes and print.

- **Calendar** (`calendar.dfy`): dates are day ordinals of the proleptic
  Gregorian calendar, as Python's `date.toordinal()` numbers them. It models:
  - the weekday;
  - the move forward to the next Sunday;
  - `get_first_sunday`;
  - `adjust_start_date`, including its error paths:
    - a year outside 1..9999 raises `ValueError`;
    - an unparsable date string gives an exit with an error;
    - a date past 9999-12-31 raises `OverflowError`.
- **Glyphs** (`glyphs.dfy`): the glyph table is a parameter of the model.
  - The lookup falls back to the all-blank grid.
  - `I`, `!` and space are narrow: only their middle column is drawn.
- **CommitDates** (`commit_dates.dfy`): `generate_commit_dates`.
  - The specification is written as functions that follow the three nested
    loops (character, column, row).
  - It is checked against an independent description: a date is produced
    exactly when it falls on a lit cell of some character's span of week
    columns.
  - The imperative generator is a method whose character loop calls two
    methods: `DrawGlyph` for the column loop and `DrawColumn` for the row
    loop. All three are proved equal to those functions.
- **OwnerDetection** (`owner.dfy`): the decision logic of `get_repo_owner`.
  The outputs of the probe commands are inputs of the model.
- **HistoryReset** (`history_reset.dfy`): the decision logic of
  `wipe_local_history`. The result of each git step is an input of the model.
- **Text** (`text.dfy`): the Python string operations the core relies on:
  - `strip`;
  - ASCII `lower` and `upper`;
  - substring `in`;
  - `split` on one character, with `join` as its inverse.
- **Results** (`results.dfy`): `Option` and `Result`.

The `continue` at `scripts/godspeed.py:207-208` also skips
`current_week += 1`. So a narrow character takes one week column, and the
next character starts two columns later (one for the character, one for the
spacer). `StartWeekLayout` states the resulting layout.

The dates come out strictly increasing, not merely non-decreasing. Within a
column the rows differ by a day, and every drawn column moves on by a week
(`CommitDatesIncreasing`).

## Model

| member | source | states |
|---|---|---|
| CommitDates.GenerateCommitDates | scripts/godspeed.py:198-223 | Succeeds exactly when every lit-cell date of the upper-cased word is at most 9999-12-31. It then returns exactly `CommitDates` of the word, with a spacer week only between characters. Otherwise it fails with `DateOverflow`, as the OverflowError of the first date past the limit. |
| CommitDates.DrawGlyph | scripts/godspeed.py:206-218 | One character: appends the dates of its visited columns in order. Narrow characters skip every column but column 2. Advances the week counter by the character's width, 1 or 5. Fails exactly when one of those dates overflows. |
| CommitDates.DrawColumn | scripts/godspeed.py:210-216 | One column: appends `start + 7*week + row` for each lit row, top to bottom. Fails exactly when one of them is past 9999-12-31. |
| CommitDates.ColumnDatesSpec | scripts/godspeed.py:210-216 | A column's dates are exactly its lit rows, inside its week, strictly increasing. |
| CommitDates.GlyphDatesSpec | scripts/godspeed.py:206-218 | A character's dates are exactly the lit cells of its visited columns. Each column falls in the week given by how many columns were visited before it. The dates are strictly increasing. |
| CommitDates.MessageDatesSpec | scripts/godspeed.py:203-221 | The dates of the first `i` characters are exactly those that are lit for one of them. They lie before character `i`'s span and strictly increase. |
| CommitDates.CommitDatesAreLitDates | scripts/godspeed.py:198-223 | A date is generated if and only if it is a lit-cell date of some character of the upper-cased word. |
| CommitDates.CommitDatesIncreasing | scripts/godspeed.py:198-223 | The generated dates are strictly increasing. |
| CommitDates.CommitDatesDetermined | scripts/godspeed.py:198-223 | Any strictly increasing list holding exactly the lit dates is the generated list. So the lit cells alone determine the output and its order. |
| CommitDates.CommitDatesCount | scripts/godspeed.py:198-223 | The number of dates equals the number of lit cells in the visited columns of the word's glyphs. |
| CommitDates.ColumnCount | scripts/godspeed.py:210-216 | A column yields one date per lit row. |
| CommitDates.GlyphCount | scripts/godspeed.py:206-218 | A character yields one date per lit cell of its visited columns. |
| CommitDates.MessageCount | scripts/godspeed.py:203-221 | The first `i` characters yield one date per lit, visited cell. |
| CommitDates.CommitDateWeekday | scripts/godspeed.py:203-216 | Every date is on or after the start. It comes from a lit glyph cell of some character: the cell's row is the date's distance from the start modulo 7, and its column is drawn in the date's week within that character's span. Its weekday is the start's shifted by that row; from a Sunday start, row 0 is Sunday. |
| CommitDates.LitForCell | scripts/godspeed.py:211-215 | A date lit for a character lies on or after the start, and its row and week select a lit cell of that character's glyph. |
| CommitDates.UnknownCharactersYieldNothing | scripts/godspeed.py:204 | A word none of whose upper-cased characters is in the table yields no dates. This includes the empty word. |
| CommitDates.StartWeekLayout | scripts/godspeed.py:201-221 | Character `i` starts at week `6*i - 4*(number of narrow characters before it)`. |
| CommitDates.GlyphStep | scripts/godspeed.py:206-218 | A visited column adds its column's dates and one week. A skipped column adds neither. |
| CommitDates.OverflowInColumn | scripts/godspeed.py:212-215 | A column date past 9999-12-31 is one of the character's dates. |
| CommitDates.OverflowInGlyph | scripts/godspeed.py:212-215 | A character's date past 9999-12-31 is one of the word's dates. |
| Glyphs.Lookup | scripts/godspeed.py:204 | The table's 7 × 5 grid for a known character. For an unknown character, a grid with no cell lit. |
| Glyphs.Blank | scripts/godspeed.py:204 | The fallback grid: 7 × 5 with no cell lit. |
| Glyphs.WidthCountsVisitedColumns | scripts/godspeed.py:206-218 | A character's width in week columns, 1 for a narrow character and 5 otherwise, is the number of glyph columns the loop draws rather than skipping with `continue`. |
| Glyphs.VisitedBefore | scripts/godspeed.py:206-218 | The number of visited columns before column `col`. It never exceeds `col` or the width, and over all five columns it is the width. |
| Glyphs.ColumnAtWeek | scripts/godspeed.py:206-218 | The inverse of `VisitedBefore`: the visited column drawn in week `w` of the character's span. |
| Calendar.Weekday | scripts/godspeed.py:178 | `date.weekday()` is in 0..6, with Monday = 0 and day 1 a Monday. |
| Calendar.WeekdayShift | scripts/godspeed.py:212-215 | Adding whole weeks and `row` days shifts the weekday by `row`, modulo 7. |
| Calendar.NextSunday | scripts/godspeed.py:190-191 | Adding `(6 - weekday) % 7` days gives the first Sunday on or after the date. It is at most 6 days later and leaves a Sunday unchanged. |
| Calendar.NextSundayIdempotent | scripts/godspeed.py:190-191 | Aligning an aligned date changes nothing. |
| Calendar.JanFirstCorrect | scripts/godspeed.py:177 | The closed-form ordinal of January 1 equals the count of 365- and 366-day years before it. |
| Calendar.JanFirstStep | scripts/godspeed.py:177 | Consecutive New Year's Days are one year length apart, leap years included. |
| Calendar.JanFirstMonotone | scripts/godspeed.py:177 | A later year starts later. |
| Calendar.FirstSunday | scripts/godspeed.py:173-179 | Fails with `YearOutOfRange` exactly when the year is outside 1..9999. Otherwise returns the first Sunday on or after January 1, within its first seven days. |
| Calendar.FirstSundayInFirstWeek | scripts/godspeed.py:173-179 | For every valid year the first Sunday exists and lies before the next January 1. |
| Calendar.AdjustStartDate | scripts/godspeed.py:181-196 | No date string: the first Sunday of the given year, or of the current year. An unparsable string: `InvalidDateFormat`. A parsed date: the next Sunday on or after it, or `DateOverflow` exactly when that Sunday is past 9999-12-31. Every success is a valid Sunday. |
| Calendar.LastDatesOverflow | scripts/godspeed.py:190-191 | 9999-12-31 is a Friday, so aligning any of its last five dates overflows. |
| OwnerDetection.DetectOwner | scripts/godspeed.py:97-125 | The first `gh` probe that succeeded with non-blank output gives the owner, stripped. Otherwise a github.com remote URL gives it, or fails as malformed. Otherwise an e-mail's local part gives it. Otherwise it fails with `OwnerNotDetected`. |
| OwnerDetection.OwnerFromRemote | scripts/godspeed.py:113-118 | An SSH URL (`git@…`) succeeds exactly when it has a `:`, and yields the text after the first `:` up to the next `:`, `/` or the end. Any other URL succeeds exactly when it has a `/`, and yields its second-to-last `/`-segment. Otherwise `MalformedRemote`, the IndexError. |
| OwnerDetection.SshOwner | scripts/godspeed.py:116 | `url.split(':')[1].split('/')[0]` is the text right after the first colon, up to the next `:` or `/`. |
| OwnerDetection.SecondToLastSegment | scripts/godspeed.py:118 | `url.split('/')[-2]` is a slash-free segment followed by a `/` and then by a last segment with no `/`. |
| OwnerDetection.EmailLocalPart | scripts/godspeed.py:122-123 | `email.split('@')[0]` is the prefix before the first `@`. |
| HistoryReset.WipeLocalHistory | scripts/godspeed.py:72-95 | Returns true exactly when no step failed fatally. A fatal failure is one with an error not mentioning "not found", or mentioning "not a git repository", case-insensitively. It stops right after the first fatal step, reports which step and why, and otherwise runs all six. |
| Text.Strip | scripts/godspeed.py:107-108 | The result is empty exactly when the text is all whitespace. Otherwise it begins and ends with non-whitespace. |
| Text.StripKeepsMiddle | scripts/godspeed.py:107-108 | The stripped text occurs in the original with only whitespace around it. |
| Text.StripIdempotent | scripts/godspeed.py:107-108 | Stripping twice is stripping once. |
| Text.Lower | scripts/godspeed.py:87-90 | Same length; each character lower-cased; no upper-case ASCII letter is left. |
| Text.LowerIgnoresCase | scripts/godspeed.py:87-90 | Lower-casing forgets case: an upper-cased or already lower-cased text lowers to the same text as the original. So the error tests match regardless of letter case. |
| Text.UpperIgnoresCase | scripts/godspeed.py:203 | Upper-casing forgets case the same way: a lower-cased or already upper-cased text upper-cases to the same text. |
| Text.Upper | scripts/godspeed.py:203 | Same length; each character upper-cased; no lower-case ASCII letter is left. |
| Text.Contains | scripts/godspeed.py:87-90 | `t in s` holds exactly when `t` occurs in `s` at some position. |
| Text.Split | scripts/godspeed.py:116-118 | At least one piece. No piece holds the separator. Joining the pieces gives the text back. There are two or more pieces exactly when the separator occurs. |
| Text.SplitJoin | scripts/godspeed.py:116-118 | Splitting a join of separator-free pieces gives the pieces back. |
| Text.SplitNoSeparator | scripts/godspeed.py:123 | Without the separator the text is one piece. |
| Text.SplitFirst | scripts/godspeed.py:116-123 | The first piece is the prefix before the first separator, or all of the text. |
| Text.SplitRest | scripts/godspeed.py:116 | After the first separator, the remaining pieces are the split of the remaining text. |

## Left out

- Running processes (`run_safe`), printing, colours, `argparse` and `main` are not modelled. Each probe's or step's `(success, output)` is an input instead.
- DetectOwner: the model takes all probe results up front. It does not capture that the source runs a later command only when the earlier ones did not settle the owner.
- WipeLocalHistory: the model reports how many steps ran (`ran`). It does not capture that the commands have effects on the repository.
- AdjustStartDate: `strptime` parsing is not modelled. The argument says whether the string parsed and, if so, to which date.
- AdjustStartDate: `datetime.now().year` is the parameter `currentYear`.
- AdjustStartDate: the exit on an unparsable string is the `InvalidDateFormat` result, not a process exit.
- Glyphs.Lookup: the bitmaps of `scripts/letters.py` are not part of this model. The table is a parameter, assumed to hold 7 × 5 grids.
- GenerateCommitDates: requires an ASCII word. Python's `upper()` can change the length of non-ASCII text, which the source pairs with `len(word)`; that case is not modelled.
- GenerateCommitDates: the parameter `total_weeks` is never read by the source, and the model ignores it too.
- Text.Lower: lower-cases ASCII letters only. For the two phrases searched for, this gives the same answers as Python's full `lower()`. Among non-ASCII characters, only U+0130 and U+212A lower-case to text with ASCII letters, namely "i" plus a combining dot, and "k". Neither can complete "not a git repository" or "not found".
- Text.Strip: whitespace is Python's `str.isspace` set, as individual code points.
- `repo_exists`, `set_repo_visibility`, `reset_remote_repo`, `make_commit` and the commit loop are not part of this model.
