/**
 * The calendar printer: normalise the target date to the 1st of the
 * requested month, emit a title line and a weekday line, then walk a running
 * date through the month, laying the days onto week rows of seven cells.
 *
 * The printed stream is modelled as an Output value: the completed lines, the
 * cells of a line left unfinished when an exception interrupts printing, and
 * that exception, if any.
 */
module Calendar {
  import opened Wrappers
  import opened Gregorian
  import opened Layout

  datatype Line =
    | Title(month: int, year: int)       // the month name and year, centred
    | WeekdayNames(weekdays: seq<int>)   // the abbreviated names of these weekdays
    | Week(cells: seq<Cell>)             // one week row

  datatype Output = Output(lines: seq<Line>, partial: seq<Cell>, error: Option<DateError>)

  /**
   * The date the printer starts from: today with the year replaced (when
   * given), then the month replaced (when given), then the day set to 1, each
   * step raising as `date.replace` does.
   */
  function Normalise(today: Date, year: Option<int>, month: Option<int>): Result<Date, DateError> {
    var afterYear := if year.Some? then Replace(today, year, None, None) else Success(today);
    if afterYear.Failure? then afterYear
    else
      var afterMonth := if month.Some? then Replace(afterYear.value, None, month, None) else afterYear;
      if afterMonth.Failure? then afterMonth
      else Replace(afterMonth.value, None, None, Some(1))
  }

  /** The weekdays of 0001-01-01 .. 0001-01-07, whose names make up the header line. */
  function HeaderWeekdays(): seq<int> {
    seq(7, i => Weekday(Date(1, 1, i + 1)))
  }

  function Weeks(rows: seq<seq<Cell>>): seq<Line> {
    seq(|rows|, i requires 0 <= i < |rows| => Week(rows[i]))
  }

  /** December 9999, the month whose last day cannot be advanced past. */
  predicate IsLastMonth(first: Date) {
    first.year == MaxYear && first.month == 12
  }

  /** Every week row of the month that `first` starts, and the part printed of the last one. */
  ghost predicate MonthRows(first: Date, rows: seq<seq<Cell>>, partial: seq<Cell>, error: Option<DateError>)
    requires ValidDate(first)
  {
    var w := Weekday(first);
    var n := DaysInMonth(first.year, first.month);
    var g := Grid(w, n);
    if IsLastMonth(first) then
      |g| >= 1 && rows == g[..|g| - 1] && partial == g[|g| - 1][..(w + n - 1) % 7 + 1]
      && error == Some(DateOverflow)
    else
      rows == g && partial == [] && error == None
  }

  /**
   * What the printer emits: nothing but the error when normalisation fails;
   * otherwise the title, the weekday line and the month grid, where for
   * December 9999 the last row breaks off after day 31 with OverflowError.
   */
  function Expected(today: Date, year: Option<int>, month: Option<int>): Output {
    match Normalise(today, year, month)
    case Failure(e) => Output([], [], Some(e))
    case Success(first) =>
      var w := Weekday(first);
      var n := DaysInMonth(first.year, first.month);
      var g := Grid(w, n);
      var head := [Title(first.month, first.year), WeekdayNames(HeaderWeekdays())];
      if IsLastMonth(first) then
        Output(head + Weeks(g[..|g| - 1]), g[|g| - 1][..(w + n - 1) % 7 + 1], Some(DateOverflow))
      else
        Output(head + Weeks(g), [], None)
  }

  /** The header loop: the weekday of each of 0001-01-01 .. 0001-01-07, in order. */
  method WeekdayHeader() returns (names: seq<int>)
    ensures names == HeaderWeekdays()
  {
    names := [];
    for i := 1 to 8
      invariant names == seq(i - 1, j => Weekday(Date(1, 1, j + 1)))
    {
      names := names + [Weekday(Date(1, 1, i))];
    }
  }

  /**
   * The state of the week loop after `i` cells of month `m` of year `y`,
   * which has `n` days and starts on weekday `w`: while the month lasts, the
   * running date is the day after the DaysBefore(w, n, i) days printed so
   * far; once it has left the month, every day has been printed and the step
   * past the last day did not overflow.
   */
  ghost predicate Running(y: int, m: int, w: nat, n: nat, i: int, date: Date) {
    var k := DaysBefore(w, n, i);
    && ValidDate(date)
    && (date.month == m ==> date == Date(y, m, k + 1) && k < n)
    && (date.month != m ==> k == n && !IsLastMonth(Date(y, m, 1)))
  }

  /** While the month lasts, the running date falls `DaysBefore` weekdays after the 1st. */
  lemma RunningWeekday(y: int, m: int, w: nat, n: nat, i: int, date: Date)
    requires 1 <= m <= 12 && w == Weekday(Date(y, m, 1))
    requires Running(y, m, w, n, i, date) && date.month == m
    ensures Weekday(date) == (w + DaysBefore(w, n, i)) % 7
  {
    WeekdayInMonth(y, m, DaysBefore(w, n, i) + 1);
  }

  /** A blank cell leaves the running date alone. */
  lemma RunningBlank(y: int, m: int, w: nat, n: nat, i: int, date: Date)
    requires Running(y, m, w, n, i, date)
    requires DaysBefore(w, n, i + 1) == DaysBefore(w, n, i)
    ensures Running(y, m, w, n, i + 1, date)
  {
  }

  /** A day cell advances the running date by one day, and its weekday by one. */
  lemma RunningDay(y: int, m: int, w: nat, n: nat, i: int, date: Date)
    requires 1 <= m <= 12 && n == DaysInMonth(y, m)
    requires Running(y, m, w, n, i, date) && date.month == m
    requires DaysBefore(w, n, i + 1) == DaysBefore(w, n, i) + 1
    requires NextDay(date).Success?
    ensures Running(y, m, w, n, i + 1, NextDay(date).value)
  {
  }

  /** The step past a day overflows only at 9999-12-31, the last cell of the month's last row. */
  lemma RunningOverflow(y: int, m: int, w: nat, n: nat, r: nat, c: nat, date: Date)
    requires 1 <= m <= 12 && n == DaysInMonth(y, m) && c < 7
    requires Running(y, m, w, n, 7 * r + c, date) && date.month == m
    requires DaysBefore(w, n, 7 * r + c + 1) == DaysBefore(w, n, 7 * r + c) + 1
    requires NextDay(date).Failure?
    ensures IsLastMonth(Date(y, m, 1)) && r + 1 == RowCount(w, n) && (w + n - 1) % 7 == c
  {
  }

  /** A cell before the running date's weekday, or past the month's end, is the grid's blank. */
  lemma BlankCell(y: int, m: int, w: nat, n: nat, r: nat, c: nat, date: Date, line: seq<Cell>)
    requires 1 <= m <= 12 && w == Weekday(Date(y, m, 1))
    requires w < 7 && c < 7 && line == Row(w, n, r)[..c]
    requires Running(y, m, w, n, 7 * r + c, date)
    requires c < Weekday(date) || date.month != m
    ensures line + [Blank] == Row(w, n, r)[..c + 1] && Running(y, m, w, n, 7 * r + c + 1, date)
  {
    if date.month == m {
      RunningWeekday(y, m, w, n, 7 * r + c, date);
    }
    CellDecision(w, n, r, c, DaysBefore(w, n, 7 * r + c), Weekday(date), date.month == m);
    RowPrefixStep(w, n, r, c);
    RunningBlank(y, m, w, n, 7 * r + c, date);
  }

  /** Any other cell is the grid's cell for the running date's day. */
  lemma DayCell(y: int, m: int, w: nat, n: nat, r: nat, c: nat, date: Date, line: seq<Cell>)
    requires 1 <= m <= 12 && n == DaysInMonth(y, m) && w == Weekday(Date(y, m, 1))
    requires w < 7 && c < 7 && line == Row(w, n, r)[..c]
    requires Running(y, m, w, n, 7 * r + c, date)
    requires !(c < Weekday(date) || date.month != m)
    ensures line + [Day(date.day)] == Row(w, n, r)[..c + 1]
    ensures NextDay(date).Success? ==> Running(y, m, w, n, 7 * r + c + 1, NextDay(date).value)
    ensures NextDay(date).Failure? ==>
      IsLastMonth(Date(y, m, 1)) && r + 1 == RowCount(w, n) && (w + n - 1) % 7 == c
  {
    RunningWeekday(y, m, w, n, 7 * r + c, date);
    CellDecision(w, n, r, c, DaysBefore(w, n, 7 * r + c), Weekday(date), date.month == m);
    RowPrefixStep(w, n, r, c);
    if NextDay(date).Success? {
      RunningDay(y, m, w, n, 7 * r + c, date);
    } else {
      RunningOverflow(y, m, w, n, r, c, date);
    }
  }

  /**
   * One pass of the weekday loop, printing row `r` of month `month` of year
   * `y`: a cell is blank when it comes before the running date's weekday or
   * the month is over; otherwise it shows the running date's day, and the
   * date advances. Advancing past 9999-12-31 raises OverflowError after
   * day 31 is printed.
   */
  method PrintWeek(date: Date, month: int, ghost y: int, ghost w: nat, ghost n: nat, ghost r: nat)
    returns (line: seq<Cell>, date': Date, error: Option<DateError>)
    requires 1 <= month <= 12 && n == DaysInMonth(y, month) && w == Weekday(Date(y, month, 1))
    requires r < RowCount(w, n)
    requires Running(y, month, w, n, 7 * r, date)
    ensures error.None? ==> line == Row(w, n, r) && Running(y, month, w, n, 7 * r + 7, date')
    ensures error.Some? ==>
      error == Some(DateOverflow) && IsLastMonth(Date(y, month, 1)) && r + 1 == RowCount(w, n)
      && line == Row(w, n, r)[..(w + n - 1) % 7 + 1]
  {
    line, date' := [], date;
    for weekday := 0 to 7
      invariant line == Row(w, n, r)[..weekday]
      invariant Running(y, month, w, n, 7 * r + weekday, date')
    {
      if weekday < Weekday(date') || date'.month != month {
        BlankCell(y, month, w, n, r, weekday, date', line);
        line := line + [Blank];
      } else {
        DayCell(y, month, w, n, r, weekday, date', line);
        line := line + [Day(date'.day)];
        var next := NextDay(date');
        if next.Failure? {
          return line, date', Some(next.error);
        }
        date' := next.value;
      }
    }
    assert Row(w, n, r)[..7] == Row(w, n, r);
    error := None;
  }

  /**
   * The state of the week loop of the month that `first` starts: the rows
   * printed so far are the first rows of the grid, and the running date
   * stands where the next row begins.
   */
  ghost predicate WeekLoop(first: Date, rows: seq<seq<Cell>>, date: Date)
    requires ValidDate(first)
  {
    var w := Weekday(first);
    var n := DaysInMonth(first.year, first.month);
    && |rows| <= RowCount(w, n) && rows == Grid(w, n)[..|rows|]
    && Running(first.year, first.month, w, n, 7 * |rows|, date)
  }

  /** The week loop starts on the 1st with no row printed. */
  lemma WeekLoopStart(first: Date)
    requires ValidDate(first) && first.day == 1
    ensures WeekLoop(first, [], first)
  {
    var w := Weekday(first);
    assert DaysBefore(w, DaysInMonth(first.year, first.month), 0) == 0;
    assert (w + 0) % 7 == w;
  }

  /** While the running date is in the month, another row of the grid is due. */
  lemma WeekLoopRow(first: Date, rows: seq<seq<Cell>>, date: Date)
    requires ValidDate(first) && WeekLoop(first, rows, date) && date.month == first.month
    ensures |rows| < RowCount(Weekday(first), DaysInMonth(first.year, first.month))
    ensures Running(first.year, first.month, Weekday(first), DaysInMonth(first.year, first.month), 7 * |rows|, date)
    ensures rows == Grid(Weekday(first), DaysInMonth(first.year, first.month))[..|rows|]
  {
    var n := DaysInMonth(first.year, first.month);
    RowAdvance(Weekday(first), n, |rows|);
  }

  /** Printing the next row of the grid keeps the loop state and prints at least one more day. */
  lemma WeekLoopStep(first: Date, w: nat, n: nat, rows: seq<seq<Cell>>, date: Date, line: seq<Cell>, date': Date)
    requires ValidDate(first) && WeekLoop(first, rows, date) && date.month == first.month
    requires w == Weekday(first) && n == DaysInMonth(first.year, first.month)
    requires line == Row(w, n, |rows|)
    requires Running(first.year, first.month, w, n, 7 * |rows| + 7, date')
    ensures WeekLoop(first, rows + [line], date')
  {
    var r := |rows|;
    RowAdvance(w, n, r);
    GridPrefixStep(w, n, r);
    assert 7 * |rows + [line]| == 7 * r + 7;
  }

  /** Leaving the month after a full row means the whole grid has been printed. */
  lemma MonthComplete(first: Date, rows: seq<seq<Cell>>, date: Date)
    requires ValidDate(first) && first.day == 1
    requires WeekLoop(first, rows, date) && date.month != first.month
    ensures MonthRows(first, rows, [], None)
  {
    assert Date(first.year, first.month, 1) == first;
    AllDaysPlaced(Weekday(first), DaysInMonth(first.year, first.month), |rows|);
  }

  /** Overflow inside the last row leaves every earlier row and the printed part of the last. */
  lemma MonthOverflow(first: Date, w: nat, n: nat, rows: seq<seq<Cell>>, line: seq<Cell>)
    requires ValidDate(first) && first.day == 1 && IsLastMonth(first)
    requires w == Weekday(first) && n == DaysInMonth(first.year, first.month)
    requires |rows| + 1 == RowCount(w, n) && rows == Grid(w, n)[..|rows|]
    requires line == Row(w, n, |rows|)[..(w + n - 1) % 7 + 1]
    ensures MonthRows(first, rows, line, Some(DateOverflow))
  {
  }

  /**
   * The week loop: starting from the 1st of a month, print week rows while
   * the running date is still in that month.
   */
  method MonthWeeks(first: Date) returns (rows: seq<seq<Cell>>, partial: seq<Cell>, error: Option<DateError>)
    requires ValidDate(first) && first.day == 1
    ensures MonthRows(first, rows, partial, error)
  {
    var date := first;
    ghost var w: nat := Weekday(first);
    ghost var n: nat := DaysInMonth(first.year, first.month);
    var month := date.month;
    assert first == Date(first.year, month, 1);
    WeekLoopStart(first);
    rows := [];
    while date.month == month
      invariant WeekLoop(first, rows, date)
      decreases RowCount(w, n) - |rows|
    {
      WeekLoopRow(first, rows, date);
      var line, date', err := PrintWeek(date, month, first.year, w, n, |rows|);
      if err.Some? {
        MonthOverflow(first, w, n, rows, line);
        return rows, line, err;
      }
      WeekLoopStep(first, w, n, rows, date, line, date');
      rows, date := rows + [line], date';
    }
    MonthComplete(first, rows, date);
    partial, error := [], None;
  }

  /** `print_calendar(year, month)` with the current date passed in as `today`. */
  method PrintCalendar(today: Date, year: Option<int>, month: Option<int>) returns (out: Output)
    ensures out == Expected(today, year, month)
  {
    var date := today;
    if year.Some? {
      var r := Replace(date, year, None, None);
      if r.Failure? {
        return Output([], [], Some(r.error));
      }
      date := r.value;
    }
    if month.Some? {
      var r := Replace(date, None, month, None);
      if r.Failure? {
        return Output([], [], Some(r.error));
      }
      date := r.value;
    }
    var r := Replace(date, None, None, Some(1));
    if r.Failure? {
      return Output([], [], Some(r.error));
    }
    date := r.value;
    assert Normalise(today, year, month) == Success(date);

    var lines := [Title(date.month, date.year)];
    var names := WeekdayHeader();
    lines := lines + [WeekdayNames(names)];
    var rows, partial, error := MonthWeeks(date);
    out := Output(lines + Weeks(rows), partial, error);
    ExpectedPrinted(today, year, month, date, rows, partial, error);
  }

  lemma ExpectedPrinted(today: Date, year: Option<int>, month: Option<int>,
                        first: Date, rows: seq<seq<Cell>>, partial: seq<Cell>, error: Option<DateError>)
    requires Normalise(today, year, month) == Success(first)
    requires ValidDate(first) && MonthRows(first, rows, partial, error)
    ensures Expected(today, year, month)
         == Output([Title(first.month, first.year), WeekdayNames(HeaderWeekdays())] + Weeks(rows), partial, error)
  {
  }

  // ---------------------------------------------------------------------------
  // Normalisation
  // ---------------------------------------------------------------------------

  /**
   * The arguments are applied in the order year, month, day: each
   * replacement raises at once when its own value is out of range, or when
   * today's day of month does not exist in the date it would produce.
   */
  lemma NormaliseErrors(today: Date, year: Option<int>, month: Option<int>)
    requires ValidDate(today)
    ensures var y := year.GetOr(today.year);
      var m := month.GetOr(today.month);
      var yearStepOk := MinYear <= y <= MaxYear && today.day <= DaysInMonth(y, today.month);
      && (year.Some? && !(MinYear <= y <= MaxYear) ==> Normalise(today, year, month) == Failure(YearOutOfRange(y)))
      && (year.Some? && MinYear <= y <= MaxYear && !yearStepOk ==>
            Normalise(today, year, month) == Failure(DayOutOfRange(today.day)))
      && (yearStepOk && month.Some? && !(1 <= m <= 12) ==>
            Normalise(today, year, month) == Failure(MonthOutOfRange(m)))
      && (yearStepOk && 1 <= m <= 12 && today.day > DaysInMonth(y, m) ==>
            Normalise(today, year, month) == Failure(DayOutOfRange(today.day)))
  {
  }

  /**
   * Normalisation succeeds exactly when the year and month are in range and
   * today's day of month survives each replacement; it then yields day 1 of
   * the requested year and month, today's year and month standing in for
   * omitted arguments.
   */
  lemma NormaliseSucceeds(today: Date, year: Option<int>, month: Option<int>)
    requires ValidDate(today)
    ensures var y := year.GetOr(today.year);
      var m := month.GetOr(today.month);
      && (Normalise(today, year, month).Success? <==>
            MinYear <= y <= MaxYear && 1 <= m <= 12
            && (year.Some? ==> today.day <= DaysInMonth(y, today.month))
            && (month.Some? ==> today.day <= DaysInMonth(y, m)))
      && (Normalise(today, year, month).Success? ==> Normalise(today, year, month).value == Date(y, m, 1))
  {
  }

  /** A rejected request prints nothing at all: the exception comes before the title. */
  lemma RejectedBeforePrinting(today: Date, year: Option<int>, month: Option<int>)
    requires ValidDate(today)
    requires Normalise(today, year, month).Failure?
    ensures Expected(today, year, month).lines == [] && Expected(today, year, month).partial == []
    ensures Expected(today, year, month).error.Some?
    ensures Expected(today, year, month).error.value != DateOverflow
  {
  }

  /** Why the order of the replacements matters: valid arguments that still fail. */
  lemma ReplaceOrderExamples()
    ensures Normalise(Date(2017, 1, 31), None, Some(2)) == Failure(DayOutOfRange(31))
    ensures Normalise(Date(2024, 2, 29), Some(2023), Some(3)) == Failure(DayOutOfRange(29))
    ensures Normalise(Date(2024, 2, 29), Some(2023), None) == Failure(DayOutOfRange(29))
    ensures Normalise(Date(2017, 1, 31), Some(10000), Some(13)) == Failure(YearOutOfRange(10000))
    ensures Normalise(Date(2017, 1, 31), Some(0), None) == Failure(YearOutOfRange(0))
    ensures Normalise(Date(2017, 1, 31), None, Some(13)) == Failure(MonthOutOfRange(13))
  {
  }

  // ---------------------------------------------------------------------------
  // The printed month
  // ---------------------------------------------------------------------------

  /** The header loop lists Monday .. Sunday, weekdays 0 .. 6, in order. */
  lemma HeaderIsMondayToSunday()
    ensures HeaderWeekdays() == [0, 1, 2, 3, 4, 5, 6]
  {
    forall i | 1 <= i <= 7 {
      FirstWeekOfYearOne(i);
    }
  }

  /** The cells of the week lines among `lines`. */
  function WeekCells(lines: seq<Line>): seq<seq<Cell>> {
    seq(|lines|, i requires 0 <= i < |lines| => if lines[i].Week? then lines[i].cells else [])
  }

  /** The week lines printed for an accepted request, as rows of the month grid. */
  lemma PrintedParts(today: Date, year: Option<int>, month: Option<int>)
    requires Normalise(today, year, month).Success?
    ensures var first := Normalise(today, year, month).value;
      var out := Expected(today, year, month);
      var g := Grid(Weekday(first), DaysInMonth(first.year, first.month));
      && ValidDate(first)
      && |out.lines| >= 2
      && out.lines[..2] == [Title(first.month, first.year), WeekdayNames(HeaderWeekdays())]
      && (forall i :: 2 <= i < |out.lines| ==> out.lines[i].Week?)
      && |g| >= 4
      && (if IsLastMonth(first) then
            && WeekCells(out.lines[2..]) == g[..|g| - 1]
            && out.partial == g[|g| - 1][..(Weekday(first) + DaysInMonth(first.year, first.month) - 1) % 7 + 1]
            && out.error == Some(DateOverflow)
          else
            WeekCells(out.lines[2..]) == g && out.partial == [] && out.error == None)
  {
    var first := Normalise(today, year, month).value;
    var out := Expected(today, year, month);
    var w, n := Weekday(first), DaysInMonth(first.year, first.month);
    var g := Grid(w, n);
    var rows := if IsLastMonth(first) then g[..|g| - 1] else g;
    assert out.lines == [Title(first.month, first.year), WeekdayNames(HeaderWeekdays())] + Weeks(rows);
    assert out.lines[2..] == Weeks(rows);
    assert WeekCells(Weeks(rows)) == rows;
  }

  /** An accepted request prints the title, then the weekday names Monday .. Sunday. */
  lemma PrintedHeader(today: Date, year: Option<int>, month: Option<int>)
    requires Normalise(today, year, month).Success?
    ensures var first := Normalise(today, year, month).value;
      var out := Expected(today, year, month);
      |out.lines| >= 2 && out.lines[0] == Title(first.month, first.year)
      && out.lines[1] == WeekdayNames([0, 1, 2, 3, 4, 5, 6])
  {
    PrintedParts(today, year, month);
    HeaderIsMondayToSunday();
    var out := Expected(today, year, month);
    assert out.lines[0] == out.lines[..2][0] && out.lines[1] == out.lines[..2][1];
  }

  /**
   * Every week line has seven cells, and a month other than 9999-12 gets
   * exactly as many week lines as it takes to hold the blanks before the 1st
   * and all its days: the ceiling of (w + n) / 7.
   */
  lemma PrintedWeekShape(today: Date, year: Option<int>, month: Option<int>)
    requires Normalise(today, year, month).Success?
    ensures var first := Normalise(today, year, month).value;
      var out := Expected(today, year, month);
      var w, n := Weekday(first), DaysInMonth(first.year, first.month);
      var weeks := WeekCells(out.lines[2..]);
      && (forall i :: 0 <= i < |weeks| ==> |weeks[i]| == 7)
      && (!IsLastMonth(first) ==>
            out.error == None && out.partial == [] && 7 * (|weeks| - 1) < w + n <= 7 * |weeks|)
  {
    PrintedParts(today, year, month);
    var first := Normalise(today, year, month).value;
    GridShape(Weekday(first), DaysInMonth(first.year, first.month));
  }

  /** Week line `i` of an accepted request is row `i - 2` of the month grid. */
  lemma PrintedWeekRow(today: Date, year: Option<int>, month: Option<int>, i: int)
    requires Normalise(today, year, month).Success?
    requires 2 <= i < |Expected(today, year, month).lines|
    ensures var first := Normalise(today, year, month).value;
      var line := Expected(today, year, month).lines[i];
      var g := Grid(Weekday(first), DaysInMonth(first.year, first.month));
      line.Week? && i - 2 < |g| && line.cells == g[i - 2]
  {
    PrintedParts(today, year, month);
    var out := Expected(today, year, month);
    assert out.lines[i].cells == WeekCells(out.lines[2..])[i - 2];
  }

  /** The first week line opens with one blank per weekday before the 1st, then day 1. */
  lemma PrintedFirstWeek(today: Date, year: Option<int>, month: Option<int>)
    requires Normalise(today, year, month).Success?
    ensures var first := Normalise(today, year, month).value;
      var out := Expected(today, year, month);
      var w := Weekday(first);
      var weeks := WeekCells(out.lines[2..]);
      |weeks| >= 1 && weeks[0][..w] == Blanks(w) && weeks[0][w] == Day(1)
  {
    PrintedParts(today, year, month);
    var first := Normalise(today, year, month).value;
    FirstRow(Weekday(first), DaysInMonth(first.year, first.month));
  }

  /**
   * In a month other than 9999-12 the last week line holds the last day in
   * the column of its weekday, and only blanks after it.
   */
  lemma PrintedLastWeek(today: Date, year: Option<int>, month: Option<int>, c: int)
    requires Normalise(today, year, month).Success?
    requires !IsLastMonth(Normalise(today, year, month).value)
    requires var first := Normalise(today, year, month).value;
      Weekday(Date(first.year, first.month, DaysInMonth(first.year, first.month))) <= c < 7
    ensures var first := Normalise(today, year, month).value;
      var n := DaysInMonth(first.year, first.month);
      var weeks := WeekCells(Expected(today, year, month).lines[2..]);
      |weeks| >= 1
      && weeks[|weeks| - 1][c] == if c == Weekday(Date(first.year, first.month, n)) then Day(n) else Blank
  {
    PrintedParts(today, year, month);
    var first := Normalise(today, year, month).value;
    var w, n := Weekday(first), DaysInMonth(first.year, first.month);
    WeekdayInMonth(first.year, first.month, n);
    LastRow(w, n, c);
  }

  /**
   * Read top to bottom and left to right, including the cells of an
   * unfinished line, the days printed are exactly 1, 2, ..., n: each day of
   * the month once, in increasing order.
   */
  lemma PrintedDaysInOrder(today: Date, year: Option<int>, month: Option<int>)
    requires Normalise(today, year, month).Success?
    ensures var first := Normalise(today, year, month).value;
      var out := Expected(today, year, month);
      DaysOf(Flatten(WeekCells(out.lines[2..])) + out.partial) == Iota(DaysInMonth(first.year, first.month))
  {
    PrintedParts(today, year, month);
    var first := Normalise(today, year, month).value;
    var out := Expected(today, year, month);
    MonthDaysInOrder(first, WeekCells(out.lines[2..]), out.partial, out.error);
  }

  /** The week rows and the partial row of a month grid hold the days 1 .. n once each, in order. */
  lemma MonthDaysInOrder(first: Date, rows: seq<seq<Cell>>, partial: seq<Cell>, error: Option<DateError>)
    requires ValidDate(first) && MonthRows(first, rows, partial, error)
    ensures DaysOf(Flatten(rows) + partial) == Iota(DaysInMonth(first.year, first.month))
  {
    var w, n := Weekday(first), DaysInMonth(first.year, first.month);
    var g := Grid(w, n);
    if IsLastMonth(first) {
      CutGridDaysInOrder(w, n);
      assert rows == g[..|g| - 1] && partial == g[|g| - 1][..(w + n - 1) % 7 + 1];
    } else {
      GridDaysInOrder(w, n);
      assert Flatten(rows) + partial == Flatten(rows);
    }
  }

  /**
   * December 9999, whether from arguments or from today: day 31 is printed,
   * and advancing past 9999-12-31 raises OverflowError, leaving four full
   * week lines and an unfinished fifth one holding days 27 .. 31.
   */
  lemma LastMonthOverflow(today: Date, year: Option<int>, month: Option<int>)
    requires Normalise(today, year, month) == Success(Date(MaxYear, 12, 1))
    ensures var out := Expected(today, year, month);
      && out.error == Some(DateOverflow)
      && |out.lines| == 2 + 4
      && out.partial == [Day(27), Day(28), Day(29), Day(30), Day(31)]
  {
    var first := Date(MaxYear, 12, 1);
    assert Weekday(first) == 2;
    var g := Grid(2, 31);
    assert |g| == 5;
    var last := g[4];
    assert last == Row(2, 31, 4);
    forall c | 0 <= c < 5
      ensures last[..5][c] == [Day(27), Day(28), Day(29), Day(30), Day(31)][c]
    {
      assert last[c] == Slot(2, 31, 7 * 4 + c);
    }
  }

  /** January 2017 starts on a Sunday: the first week line is six blanks and then day 1. */
  lemma January2017(today: Date)
    requires Normalise(today, Some(2017), Some(1)).Success?
    ensures var out := Expected(today, Some(2017), Some(1));
      |out.lines| >= 3 && out.lines[2] == Week(Blanks(6) + [Day(1)])
  {
    assert Normalise(today, Some(2017), Some(1)).value == Date(2017, 1, 1);
    assert Weekday(Date(2017, 1, 1)) == 6;
    PrintedParts(today, Some(2017), Some(1));
    PrintedWeekRow(today, Some(2017), Some(1), 2);
    SundayStart();
  }

  /** A 31-day month whose 1st is a Sunday opens with six blanks and then day 1. */
  lemma SundayStart()
    ensures |Grid(6, 31)| >= 1 && Grid(6, 31)[0] == Blanks(6) + [Day(1)]
  {
    var row := Grid(6, 31)[0];
    assert row == Row(6, 31, 0);
    forall c | 0 <= c < 7
      ensures row[c] == (Blanks(6) + [Day(1)])[c]
    {
      assert row[c] == Slot(6, 31, 7 * 0 + c);
    }
  }
}
