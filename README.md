# Month calendar layout, modelled in Dafny

This project models `print_calendar` from `calendar.py`. The routine prints a text calendar for the
current month, or for a requested year and month. It starts from today's date. It replaces the
year if one is given, then the month if one is given, then sets the day to 1. It prints a title
line and a line of weekday names. Then it walks a running date through the month and lays the days
onto week rows of seven 4-column cells: blanks before the 1st, the day numbers, and blanks after
the last day. The date advances only when a day is printed.

The model has five modules:

- `Wrappers` (`wrappers.dfy`): `Option` (an omitted argument) and `Result` (a value or a raised exception).
- `Gregorian` (`gregorian.dfy`): the part of Python's `datetime.date` the routine uses. It covers
  leap years, month lengths, day ordinals (0001-01-01 is day 1), `weekday()` with Monday = 0, the
  constructor and `replace` with their range checks in the order year, month, day, and advancing by
  one day. The one-day step is written field by field and proved to move the ordinal by exactly one,
  which is how `date + timedelta(days=1)` is defined. It raises `OverflowError` only past 9999-12-31.
- `Layout` (`layout.dfy`): the month grid as a value. `Grid(w, n)` holds rows of seven `Blank | Day(d)`
  cells for a month of `n` days whose 1st falls on weekday `w`. The lemmas give the grid's shape.
- `Calendar` (`calendar.dfy`): the printer itself. `PrintCalendar` changes the running date and
  appends to the output step by step, as the source does. Its week loop (`MonthWeeks`) and header
  loop (`WeekdayHeader`) are separate methods only to keep each proof small. The printer is proved
  to emit `Expected(today, year, month)`. The lemmas about `Expected` state what the source promises
  about the printed output.
- `Format` (`format.dfy`): the printed text. It covers `'{:4d}'` / `'{:4s}'` cells, `'{:>4s}'`
  weekday names, the `'{:^28}'` title and a line break after every completed line. The month and
  weekday names come from a `Locale` table given as a parameter. Rendered cells and rows read back
  to the same values.

The printed stream is an `Output` value with three parts: the completed lines, the cells of a line
cut short by an exception, and that exception. Today's date is a parameter.

Two behaviours of `print_calendar` are easy to miss (the comments at calendar.py:42 and 46 mention
only the range checks); the model follows the code. First, printing fails not only for a year outside 1..9999 or a month outside 1..12. It also
fails when today's day of month does not exist after the year or month is replaced, because
`replace(day=1)` comes last (for example, today is 31 January and month 2 is requested). Second,
for December 9999 some output is produced before the error: day 31 is printed, and then advancing
the date raises `OverflowError`.

## Model

| member | source | states |
|---|---|---|
| `Gregorian.DaysInMonth` | calendar.py:65 | A month has 28 to 31 days. |
| `Gregorian.Weekday` | calendar.py:60 | `date.weekday()` is always in 0..6. |
| `Gregorian.NewDate` | calendar.py:42-48 | A date is built exactly when the fields form a valid date in 1..9999. Otherwise the error names the first bad field, checked in the order year, month, day. |
| `Gregorian.Replace` | calendar.py:42-48 | `replace` succeeds exactly when the new fields, with the rest kept, form a valid date, and it then returns that date. |
| `Gregorian.NextDay` | calendar.py:65 | Advancing gives a valid date. It raises `OverflowError` exactly at 9999-12-31. |
| `Gregorian.DaysBeforeYearStep` | calendar.py:65 | The leap-year count formula adds exactly the days of each year (365 or 366). |
| `Gregorian.DaysBeforeYearMonotone` | calendar.py:65 | Earlier years begin at earlier ordinals, and a whole year lies before any later year. |
| `Gregorian.DaysBeforeMonthMonotone` | calendar.py:65 | Within a year, each month's ordinals lie before those of any later month. |
| `Gregorian.OrdinalInYear` | calendar.py:65 | A date's ordinal lies within its own year's span of ordinals. |
| `Gregorian.OrdinalRange` | calendar.py:65 | Every valid date has an ordinal in 1..3652059. |
| `Gregorian.OrdinalInjective` | calendar.py:65 | Two valid dates with the same ordinal are equal. |
| `Gregorian.NextDayOrdinal` | calendar.py:65 | A successful one-day step raises the ordinal by exactly 1. |
| `Gregorian.NextDayIsSuccessor` | calendar.py:64-65 | The one-day step returns `e` if and only if `e`'s ordinal is one more. It fails if and only if the ordinal is the last one, which matches `date + timedelta(days=1)`. |
| `Gregorian.NextDayWeekday` | calendar.py:60-65 | After advancing, the weekday is the next one, with Sunday followed by Monday. |
| `Gregorian.WeekdayInMonth` | calendar.py:60 | Day k of a month falls k - 1 weekdays after day 1, mod 7. |
| `Gregorian.FirstWeekOfYearOne` | calendar.py:53-54 | 0001-01-01 .. 0001-01-07 are weekdays 0..6 (Monday..Sunday). |
| `Layout.GridShape` | calendar.py:58-66 | Every row has 7 cells. The row count R is the ceiling of (w + n) / 7, that is 7(R-1) < w + n <= 7R. |
| `Layout.EveryRowHasADay` | calendar.py:58-60 | No row of the grid is empty of days. |
| `Layout.FirstRow` | calendar.py:60 | The first row starts with exactly `w` blanks, followed by day 1. |
| `Layout.LastRow` | calendar.py:60-62 | The last day is in the last row, in column (w + n - 1) mod 7. Every later cell is blank. |
| `Layout.CellDecision` | calendar.py:60-64 | With k days placed and the running date on weekday (w + k) mod 7, the source's test makes cell c blank exactly when the grid's slot is blank, and otherwise prints day k + 1, the grid's slot. |
| `Layout.GridDayRange` | calendar.py:64 | Every day cell holds a day of the month, 1..n. |
| `Layout.FlattenIndex` | calendar.py:59-66 | Read row by row, cell 7r + c of the output is cell c of row r. |
| `Layout.GridCells` | calendar.py:58-66 | Read row by row, the grid is `w` blanks, then days 1..n, then blanks to the end of the last row. |
| `Layout.GridDaysInOrder` | calendar.py:60-65 | The non-blank cells, read in order, are exactly 1, 2, ..., n. |
| `Layout.AllDaysPlaced` | calendar.py:58 | Once all n days are placed before a row boundary, that boundary is the bottom of the grid. |
| `Calendar.WeekdayHeader` | calendar.py:53-55 | The header loop gives the weekdays of 0001-01-01 .. 0001-01-07, in order. |
| `Calendar.BlankCell` | calendar.py:60-62 | A cell before the running date's weekday, or after the month has ended, is the grid's blank, and the running date stays. |
| `Calendar.DayCell` | calendar.py:63-65 | Any other cell is the grid's cell for the running date's day. If advancing succeeds, the new date continues the month. If it fails, the month is 9999-12 and the cell is day 31 in the last row. |
| `Calendar.PrintWeek` | calendar.py:59-66 | One pass of the weekday loop prints exactly the grid's row. For 9999-12 it raises `OverflowError` on the last row, after that row's cells up to day 31. |
| `Calendar.MonthComplete` | calendar.py:58 | When the running date leaves the month after a full row, the rows printed are the whole grid. |
| `Calendar.MonthOverflow` | calendar.py:64-65 | An overflow in the last row leaves every earlier row and the printed part of the last. |
| `Calendar.MonthWeeks` | calendar.py:57-66 | The week loop terminates. It emits exactly the month grid, or, for 9999-12, all rows but the last and then the last row up to day 31 with `OverflowError`. |
| `Calendar.PrintCalendar` | calendar.py:29-66 | The whole routine's output equals `Expected(today, year, month)`. |
| `Calendar.NormaliseErrors` | calendar.py:40-48 | Which exception each bad input raises: the year, then today's day in the new year, then the month, then today's day in the new month. |
| `Calendar.NormaliseSucceeds` | calendar.py:38-48 | Normalisation succeeds if and only if the year and month are in range and today's day survives each replacement. It then gives day 1 of the requested month, with today's year and month standing in for omitted arguments. |
| `Calendar.RejectedBeforePrinting` | calendar.py:41-50 | A rejected request prints nothing and raises a `ValueError`-kind error. |
| `Calendar.ReplaceOrderExamples` | calendar.py:41-48 | Worked cases: 31 January with month 2 raises; 29 February 2024 with year 2023 raises; year 0, year 10000 and month 13 raise. |
| `Calendar.HeaderIsMondayToSunday` | calendar.py:53-55 | The header lists weekdays 0, 1, ..., 6 in order. |
| `Calendar.PrintedParts` | calendar.py:50-66 | An accepted request prints a title, the weekday line, and then week lines that are the grid's rows (all but the last for 9999-12). |
| `Calendar.PrintedHeader` | calendar.py:50-55 | The first two lines are the target month's title and the weekday names Monday..Sunday. |
| `Calendar.PrintedWeekShape` | calendar.py:58-66 | Each week line has 7 cells. Outside 9999-12 there is no error, and the number of week lines is the ceiling of (w + n) / 7. |
| `Calendar.PrintedWeekRow` | calendar.py:57-66 | Week line i of the output is row i - 2 of the month grid. |
| `Calendar.PrintedFirstWeek` | calendar.py:60 | The first week line has `weekday(y, m, 1)` blanks, then day 1. |
| `Calendar.PrintedLastWeek` | calendar.py:60-62 | Outside 9999-12, the last week line has day n in column `weekday(y, m, n)` and only blanks after it. |
| `Calendar.PrintedDaysInOrder` | calendar.py:60-65 | Across all printed cells, including a cut-short line, the days are exactly 1..n, each once, in increasing order. |
| `Calendar.MonthDaysInOrder` | calendar.py:60-65 | The week rows and the cut-short row of a month hold the days 1..n, each once, in order. |
| `Calendar.LastMonthOverflow` | calendar.py:64-65 | 9999-12 ends in `OverflowError`, after four full week lines and a cut-short fifth line holding days 27..31. |
| `Calendar.January2017` | calendar.py:58-66 | January 2017 begins with a week line of six blanks and then day 1 (a Sunday). |
| `Format.PadLeft` | calendar.py:54 | `'{:>4s}'`: the result has width max(len, 4), with the text as a suffix after spaces. |
| `Format.PadRight` | calendar.py:62 | `'{:4s}'`: the result has width max(len, 4), with the text as a prefix followed by spaces. |
| `Format.Center` | calendar.py:50 | `'{:^28}'`: the result has width max(len, 28), with the text centred and any odd padding column on the right. |
| `Format.DecimalText` | calendar.py:64 | A day number prints as a non-empty run of decimal digits. |
| `Format.DecimalRoundTrip` | calendar.py:64 | Reading the printed digits back gives the number. |
| `Format.DecimalLength` | calendar.py:64 | A number below 10^k has at most k digits. |
| `Format.RenderCell` | calendar.py:62-64 | Every blank cell and every day below 10000 is exactly 4 characters. A blank is all spaces. |
| `Format.CellRoundTrip` | calendar.py:62-64 | Reading a printed cell back gives the same cell. |
| `Format.RenderRowFields` | calendar.py:59-66 | A printed row is 4 characters per cell, and field i holds cell i. |
| `Format.RowRoundTrip` | calendar.py:59-66 | Reading a printed row back gives the same cells. |
| `Format.JoinFields` | calendar.py:53-55 | Side by side, 4-column fields put field i at columns 4i..4i+3. |
| `Format.HeaderFields` | calendar.py:53-55 | When each abbreviated name fits in 4 columns, the weekday line is 4-column right-aligned fields, one per weekday. |
| `Format.PrintedWeekText` | calendar.py:59-66 | Every printed week line is 28 characters, in seven 4-column fields. |
| `Format.TitleReadsBack` | calendar.py:50 | `strftime('%B %Y')` is the month's name, a space, and decimal digits that read back as the year. |
| `Format.CellChars` | calendar.py:62-64 | A printed cell holds only spaces and decimal digits. |
| `Format.RowChars` | calendar.py:59-66 | A printed row holds only spaces and decimal digits, so never a line break. |
| `Format.LinesEndInBreak` | calendar.py:50-66 | Each completed line is followed by the line break `print` adds, so the completed lines end in one. |
| `Format.CutShortText` | calendar.py:63-65 | After completed lines, a cut-short row's text comes right after a line break and ends the output, 4 columns per cell. |
| `Format.ExpectedPrintable` | calendar.py:50-66 | Every line the printer emits can be rendered with any complete locale. |
| `Format.PrintedText` | calendar.py:38-66 | The text written: empty for a rejected request; ending in a line break for an accepted one; for 9999-12, ending in the 20 columns of days 27..31 with no line break after them. |

## Left out

- Argument parsing and help output (`init_arg_parser`, the `__main__` block): these are command-line glue. The help text and the error message that `main` prints are not modelled.
- `datetime.datetime.now()`: the clock is replaced by the `today` parameter. Callers pass the current date.
- `locale.setlocale` and `strftime` names: the month and weekday names are a `Locale` parameter. The title's year is written as plain decimal digits with no zero padding. This matches glibc's `%Y`; platforms that zero-pad differ.
- Printing to standard output: the output is a returned `Output` value, and `Format.RenderOutput` gives its text.
- `Gregorian.Replace`: CPython raises `OverflowError` instead of `ValueError` for a year or month too large for a C `int`. The model reports such values as out of range, as for any other bad year or month.
- `Gregorian.NextDay`: it is defined field by field. `NextDayIsSuccessor` proves it equals the ordinal-plus-one definition of `date + timedelta(days=1)`.
