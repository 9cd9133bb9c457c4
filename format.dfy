/**
 * The text the printer writes: Python's `str.format` field alignment for the
 * cells (`'{:4d}'` for a day, `'{:4s}'` for a blank), the weekday names
 * (`'{:>4s}'`) and the centred title (`'{:^28}'`), with a line break after
 * every completed line. Locale-dependent names come from a Locale table.
 */
module Format {
  import opened Wrappers
  import opened Layout
  import opened Gregorian
  import opened Calendar

  /** Field width of one cell. */
  const CellWidth := 4
  /** Field width of the title line. */
  const TitleWidth := 28

  function Spaces(k: nat): seq<char> {
    seq(k, _ => ' ')
  }

  /** `'{:>W}'.format(s)`: right-aligned in `width` columns; a longer text is kept whole. */
  function PadLeft(s: string, width: nat): (r: string)
    ensures |r| == if |s| < width then width else |s|
    ensures r[|r| - |s|..] == s
    ensures forall i :: 0 <= i < |r| - |s| ==> r[i] == ' '
  {
    if |s| < width then Spaces(width - |s|) + s else s
  }

  /** `'{:<W}'.format(s)`: left-aligned in `width` columns. */
  function PadRight(s: string, width: nat): (r: string)
    ensures |r| == if |s| < width then width else |s|
    ensures r[..|s|] == s
    ensures forall i :: |s| <= i < |r| ==> r[i] == ' '
  {
    if |s| < width then s + Spaces(width - |s|) else s
  }

  /** `'{:^W}'.format(s)`: centred in `width` columns, the odd padding column going to the right. */
  function Center(s: string, width: nat): (r: string)
    ensures |r| == if |s| < width then width else |s|
    ensures var left := (|r| - |s|) / 2;
      r[left..left + |s|] == s
      && (forall i :: 0 <= i < left ==> r[i] == ' ')
      && (forall i :: left + |s| <= i < |r| ==> r[i] == ' ')
      && left <= |r| - |s| - left <= left + 1
  {
    if |s| < width then
      var pad := width - |s|;
      Spaces(pad / 2) + s + Spaces(pad - pad / 2)
    else s
  }

  // ---------------------------------------------------------------------------
  // Decimal numbers
  // ---------------------------------------------------------------------------

  predicate IsDigit(ch: char) {
    '0' <= ch <= '9'
  }

  function DigitChar(d: int): (ch: char)
    requires 0 <= d < 10
    ensures IsDigit(ch)
  {
    ('0' as int + d) as char
  }

  /** The decimal digits of `n`, most significant first, without leading zeros. */
  function DecimalText(n: nat): (s: string)
    ensures |s| >= 1 && forall i :: 0 <= i < |s| ==> IsDigit(s[i])
  {
    if n < 10 then [DigitChar(n)] else DecimalText(n / 10) + [DigitChar(n % 10)]
  }

  function DigitValue(ch: char): (d: nat)
    requires IsDigit(ch)
    ensures d < 10
  {
    assert '0' as int <= ch as int;
    ch as int - '0' as int
  }

  /** The number a string of decimal digits denotes. */
  function DecimalValue(s: string): nat
    requires forall i :: 0 <= i < |s| ==> IsDigit(s[i])
  {
    if s == [] then 0
    else DecimalValue(s[..|s| - 1]) * 10 + DigitValue(s[|s| - 1])
  }

  lemma {:induction false} DecimalRoundTrip(n: nat)
    ensures DecimalValue(DecimalText(n)) == n
  {
    if n >= 10 {
      var s := DecimalText(n);
      assert s[..|s| - 1] == DecimalText(n / 10);
      DecimalRoundTrip(n / 10);
    }
  }

  /** A number below 10^k has at most k digits. */
  lemma {:induction false} DecimalLength(n: nat, k: nat, bound: nat)
    requires k >= 1 && bound == Pow10(k) && n < bound
    ensures |DecimalText(n)| <= k
  {
    if n >= 10 {
      assert Pow10(0) == 1 && Pow10(1) == 10;
      assert k >= 2;
      assert n / 10 < Pow10(k - 1);
      DecimalLength(n / 10, k - 1, Pow10(k - 1));
    }
  }

  function Pow10(k: nat): (p: nat)
    ensures p >= 1
  {
    if k == 0 then 1 else 10 * Pow10(k - 1)
  }

  // ---------------------------------------------------------------------------
  // Cells and week rows
  // ---------------------------------------------------------------------------

  /** A cell is printable in its 4-column field when it is blank or a day below 10000. */
  predicate Fits(c: Cell) {
    c.Day? ==> c.day < 10000
  }

  /** The four columns of a cell: `'{:4s}'.format(' ')` or `'{:4d}'.format(day)`. */
  function RenderCell(c: Cell): (s: string)
    ensures Fits(c) ==> |s| == CellWidth
    ensures c.Blank? ==> forall i :: 0 <= i < |s| ==> s[i] == ' '
  {
    match c
    case Blank => PadRight(" ", CellWidth)
    case Day(d) =>
      assert d < 10000 ==> |DecimalText(d)| <= CellWidth by {
        if d < 10000 { DecimalLength(d, 4, 10000); }
      }
      PadLeft(DecimalText(d), CellWidth)
  }

  function TrimLeft(s: string): string {
    if s != [] && s[0] == ' ' then TrimLeft(s[1..]) else s
  }

  /** Reads a 4-column cell back: all spaces is a blank, spaces then digits a day. */
  function ParseCell(s: string): Option<Cell> {
    if |s| != CellWidth then None
    else
      var t := TrimLeft(s);
      if t == [] then Some(Blank)
      else if forall i :: 0 <= i < |t| ==> IsDigit(t[i]) then Some(Day(DecimalValue(t)))
      else None
  }

  lemma {:induction false} TrimSpaces(k: nat, t: string)
    requires t == [] || t[0] != ' '
    ensures TrimLeft(Spaces(k) + t) == t
  {
    if k > 0 {
      assert (Spaces(k) + t)[1..] == Spaces(k - 1) + t;
      TrimSpaces(k - 1, t);
    } else {
      assert Spaces(k) + t == t;
    }
  }

  /** Rendering a printable cell and reading it back gives the same cell. */
  lemma CellRoundTrip(c: Cell)
    requires Fits(c)
    ensures ParseCell(RenderCell(c)) == Some(c)
  {
    match c
    case Blank =>
      assert RenderCell(c) == Spaces(4) + [];
      TrimSpaces(4, []);
    case Day(d) =>
      var t := DecimalText(d);
      DecimalLength(d, 4, 10000);
      assert RenderCell(c) == Spaces(4 - |t|) + t;
      TrimSpaces(4 - |t|, t);
      DecimalRoundTrip(d);
  }

  /** A week line: the cells' fields side by side. */
  function RenderRow(cells: seq<Cell>): string {
    if cells == [] then [] else RenderRow(cells[..|cells| - 1]) + RenderCell(cells[|cells| - 1])
  }

  /** Cuts a line into 4-column fields and reads each back. */
  function ParseRow(s: string): Option<seq<Cell>>
    decreases |s|
  {
    if s == [] then Some([])
    else if |s| < CellWidth then None
    else
      var front, last := ParseRow(s[..|s| - CellWidth]), ParseCell(s[|s| - CellWidth..]);
      if front.Some? && last.Some? then Some(front.value + [last.value]) else None
  }

  lemma {:induction false} RenderRowLength(cells: seq<Cell>)
    requires forall j :: 0 <= j < |cells| ==> Fits(cells[j])
    ensures |RenderRow(cells)| == 4 * |cells|
  {
    if cells != [] {
      RenderRowLength(cells[..|cells| - 1]);
    }
  }

  lemma SliceOfFront(a: string, b: string, lo: int, hi: int)
    requires 0 <= lo <= hi <= |a|
    ensures (a + b)[lo..hi] == a[lo..hi]
  {
  }

  /** Every field of a rendered row is four columns wide and holds its cell. */
  lemma {:induction false} RenderRowFields(cells: seq<Cell>, i: int)
    requires forall j :: 0 <= j < |cells| ==> Fits(cells[j])
    requires 0 <= i < |cells|
    ensures |RenderRow(cells)| == 4 * |cells|
    ensures RenderRow(cells)[4 * i..4 * i + 4] == RenderCell(cells[i])
  {
    RenderRowLength(cells);
    var front := cells[..|cells| - 1];
    var a, b := RenderRow(front), RenderCell(cells[|cells| - 1]);
    RenderRowLength(front);
    assert RenderRow(cells) == a + b;
    if i < |cells| - 1 {
      RenderRowFields(front, i);
      SliceOfFront(a, b, 4 * i, 4 * i + 4);
    } else {
      assert (a + b)[|a|..] == b;
    }
  }

  /** A rendered row of printable cells reads back as the same cells. */
  lemma {:induction false} RowRoundTrip(cells: seq<Cell>)
    requires forall j :: 0 <= j < |cells| ==> Fits(cells[j])
    ensures ParseRow(RenderRow(cells)) == Some(cells)
  {
    if cells != [] {
      var front, last := cells[..|cells| - 1], cells[|cells| - 1];
      RowSplit(cells);
      RowRoundTrip(front);
      CellRoundTrip(last);
      ParseRowStep(RenderRow(cells), front, last);
      DropLast(cells);
    }
  }

  /** A text whose front reads as a row and whose last four columns read as a cell reads as the longer row. */
  lemma ParseRowStep(s: string, front: seq<Cell>, c: Cell)
    requires |s| >= CellWidth
    requires ParseRow(s[..|s| - CellWidth]) == Some(front)
    requires ParseCell(s[|s| - CellWidth..]) == Some(c)
    ensures ParseRow(s) == Some(front + [c])
  {
  }

  lemma DropLast(cells: seq<Cell>)
    requires cells != []
    ensures cells[..|cells| - 1] + [cells[|cells| - 1]] == cells
  {
  }

  /** The last four columns of a rendered row are its last cell; the rest is the row before it. */
  lemma RowSplit(cells: seq<Cell>)
    requires forall j :: 0 <= j < |cells| ==> Fits(cells[j])
    requires cells != []
    ensures var s := RenderRow(cells);
      && |s| >= CellWidth
      && s[..|s| - CellWidth] == RenderRow(cells[..|cells| - 1])
      && s[|s| - CellWidth..] == RenderCell(cells[|cells| - 1])
  {
    var front, last := cells[..|cells| - 1], cells[|cells| - 1];
    var s := RenderRow(cells);
    assert s == RenderRow(front) + RenderCell(last);
    RenderRowLength(front);
    assert |RenderCell(last)| == CellWidth;
  }

  // ---------------------------------------------------------------------------
  // Lines and the whole output
  // ---------------------------------------------------------------------------

  /** The locale's names: `%B` for months 1..12 and `%a` for weekdays Monday..Sunday. */
  datatype Locale = Locale(monthNames: seq<string>, dayAbbr: seq<string>)

  predicate ValidLocale(loc: Locale) {
    |loc.monthNames| == 12 && |loc.dayAbbr| == 7
  }

  /** Fields side by side. */
  function Join(fields: seq<string>): string {
    if fields == [] then [] else Join(fields[..|fields| - 1]) + fields[|fields| - 1]
  }

  /** The weekday line: `'{:>4s}'` of the abbreviated name of each weekday listed, side by side. */
  function RenderHeader(loc: Locale, weekdays: seq<int>): string
    requires ValidLocale(loc)
    requires forall i :: 0 <= i < |weekdays| ==> 0 <= weekdays[i] < 7
  {
    Join(seq(|weekdays|, i requires 0 <= i < |weekdays| => PadLeft(loc.dayAbbr[weekdays[i]], CellWidth)))
  }

  /** `date.strftime('%B %Y')`: the month name, a space and the year. */
  function TitleText(loc: Locale, month: int, year: nat): string
    requires ValidLocale(loc) && 1 <= month <= 12
  {
    loc.monthNames[month - 1] + " " + DecimalText(year)
  }

  predicate Printable(loc: Locale, line: Line) {
    ValidLocale(loc) &&
    match line
    case Title(month, year) => 1 <= month <= 12 && year >= 0
    case WeekdayNames(weekdays) => forall i :: 0 <= i < |weekdays| ==> 0 <= weekdays[i] < 7
    case Week(cells) => true
  }

  function RenderLine(loc: Locale, line: Line): string
    requires Printable(loc, line)
  {
    match line
    case Title(month, year) => Center(TitleText(loc, month, year), TitleWidth)
    case WeekdayNames(weekdays) => RenderHeader(loc, weekdays)
    case Week(cells) => RenderRow(cells)
  }

  /** Every completed line followed by a line break, then the cells of an unfinished line. */
  function RenderOutput(loc: Locale, out: Output): string
    requires forall i :: 0 <= i < |out.lines| ==> Printable(loc, out.lines[i])
  {
    RenderLines(loc, out.lines) + RenderRow(out.partial)
  }

  function RenderLines(loc: Locale, lines: seq<Line>): string
    requires forall i :: 0 <= i < |lines| ==> Printable(loc, lines[i])
  {
    if lines == [] then []
    else RenderLines(loc, lines[..|lines| - 1]) + RenderLine(loc, lines[|lines| - 1]) + "\n"
  }

  lemma {:induction false} JoinLength(fields: seq<string>)
    requires forall j :: 0 <= j < |fields| ==> |fields[j]| == 4
    ensures |Join(fields)| == 4 * |fields|
  {
    if fields != [] {
      JoinLength(fields[..|fields| - 1]);
    }
  }

  /** Joining 4-column fields puts field `i` at columns 4i .. 4i+3. */
  lemma {:induction false} JoinFields(fields: seq<string>, i: int)
    requires forall j :: 0 <= j < |fields| ==> |fields[j]| == 4
    requires 0 <= i < |fields|
    ensures |Join(fields)| == 4 * |fields|
    ensures Join(fields)[4 * i..4 * i + 4] == fields[i]
  {
    var k := |fields| - 1;
    var front := fields[..k];
    JoinLength(front);
    var a, b := Join(front), fields[k];
    assert Join(fields) == a + b;
    if i < k {
      JoinFields(front, i);
      SliceOfFront(a, b, 4 * i, 4 * i + 4);
    } else {
      assert (a + b)[|a|..] == b;
    }
  }

  /**
   * When every abbreviated name fits in four columns, the weekday line is
   * 4-column fields, the i-th holding the name of the i-th weekday listed,
   * right-aligned.
   */
  lemma HeaderFields(loc: Locale, weekdays: seq<int>, i: int)
    requires ValidLocale(loc)
    requires forall j :: 0 <= j < |weekdays| ==> 0 <= weekdays[j] < 7
    requires forall d :: 0 <= d < 7 ==> |loc.dayAbbr[d]| <= CellWidth
    requires 0 <= i < |weekdays|
    ensures |RenderHeader(loc, weekdays)| == 4 * |weekdays|
    ensures RenderHeader(loc, weekdays)[4 * i..4 * i + 4] == PadLeft(loc.dayAbbr[weekdays[i]], CellWidth)
  {
    var fields := seq(|weekdays|, j requires 0 <= j < |weekdays| => PadLeft(loc.dayAbbr[weekdays[j]], CellWidth));
    JoinFields(fields, i);
  }

  /**
   * Every week line printed for an accepted request is 28 characters: seven
   * 4-column fields, field `c` holding cell `c` of the row.
   */
  lemma PrintedWeekText(loc: Locale, today: Date, year: Option<int>, month: Option<int>, i: int, c: int)
    requires ValidLocale(loc)
    requires Normalise(today, year, month).Success?
    requires 2 <= i < |Expected(today, year, month).lines| && 0 <= c < 7
    ensures var line := Expected(today, year, month).lines[i];
      && line.Week? && |line.cells| == 7
      && |RenderLine(loc, line)| == 28
      && RenderLine(loc, line)[4 * c..4 * c + 4] == RenderCell(line.cells[c])
  {
    PrintedWeekRow(today, year, month, i);
    var first := Normalise(today, year, month).value;
    var w, n := Weekday(first), DaysInMonth(first.year, first.month);
    var cells := Expected(today, year, month).lines[i].cells;
    forall j | 0 <= j < 7
      ensures Fits(cells[j])
    {
      GridDayRange(w, n, i - 2, j);
    }
    RenderRowFields(cells, c);
  }

  /** A cell prints as spaces and decimal digits only. */
  lemma CellChars(c: Cell)
    ensures forall k :: 0 <= k < |RenderCell(c)| ==> RenderCell(c)[k] == ' ' || IsDigit(RenderCell(c)[k])
  {
    if c.Day? {
      var t := DecimalText(c.day);
      var r := PadLeft(t, CellWidth);
      assert RenderCell(c) == r;
      forall k | |r| - |t| <= k < |r|
        ensures IsDigit(r[k])
      {
        assert r[k] == r[|r| - |t|..][k - (|r| - |t|)];
      }
    }
  }

  /** A row prints as spaces and decimal digits only, so it holds no line break. */
  lemma {:induction false} RowChars(cells: seq<Cell>)
    ensures forall k :: 0 <= k < |RenderRow(cells)| ==> RenderRow(cells)[k] == ' ' || IsDigit(RenderRow(cells)[k])
  {
    if cells != [] {
      var a, b := RenderRow(cells[..|cells| - 1]), RenderCell(cells[|cells| - 1]);
      RowChars(cells[..|cells| - 1]);
      CellChars(cells[|cells| - 1]);
      assert RenderRow(cells) == a + b;
      forall k | |a| <= k < |a| + |b|
        ensures (a + b)[k] == b[k - |a|]
      {
      }
    }
  }

  /** Completed lines always end in a line break. */
  lemma LinesEndInBreak(loc: Locale, lines: seq<Line>)
    requires forall i :: 0 <= i < |lines| ==> Printable(loc, lines[i])
    requires lines != []
    ensures |RenderLines(loc, lines)| >= 1 && RenderLines(loc, lines)[|RenderLines(loc, lines)| - 1] == '\n'
  {
  }

  /** `date.strftime('%B %Y')` reads back: the month's name, a space, then digits that denote the year. */
  lemma TitleReadsBack(loc: Locale, month: int, year: nat)
    requires ValidLocale(loc) && 1 <= month <= 12
    ensures var name, t := loc.monthNames[month - 1], TitleText(loc, month, year);
      && |t| > |name| + 1 && t[..|name|] == name && t[|name|] == ' '
      && t[|name| + 1..] == DecimalText(year)
      && DecimalValue(t[|name| + 1..]) == year
  {
    var name, t := loc.monthNames[month - 1], TitleText(loc, month, year);
    assert t == name + " " + DecimalText(year);
    assert t[|name| + 1..] == DecimalText(year);
    DecimalRoundTrip(year);
  }

  /** Every line the printer emits can be rendered with any complete locale. */
  lemma ExpectedPrintable(loc: Locale, today: Date, year: Option<int>, month: Option<int>)
    requires ValidLocale(loc)
    ensures var out := Expected(today, year, month);
      forall i :: 0 <= i < |out.lines| ==> Printable(loc, out.lines[i])
  {
    if Normalise(today, year, month).Success? {
      PrintedParts(today, year, month);
      HeaderIsMondayToSunday();
    }
  }

  /**
   * The text written to standard output: nothing for a rejected request;
   * otherwise every line ends in a line break, except for December 9999,
   * where the text ends in the 20 columns of days 27 .. 31 with no line
   * break after them, the exception having cut the line short.
   */
  lemma PrintedText(loc: Locale, today: Date, year: Option<int>, month: Option<int>)
    requires ValidLocale(loc)
    ensures var out := Expected(today, year, month);
      forall i :: 0 <= i < |out.lines| ==> Printable(loc, out.lines[i])
    ensures var out := Expected(today, year, month);
      var text := RenderOutput(loc, out);
      var norm := Normalise(today, year, month);
      && (norm.Failure? ==> text == [])
      && (norm.Success? && !IsLastMonth(norm.value) ==> |text| >= 1 && text[|text| - 1] == '\n')
      && (norm.Success? && IsLastMonth(norm.value) ==>
            && |out.partial| == 5 && |text| > 20 && text[|text| - 20..] == RenderRow(out.partial)
            && text[|text| - 21] == '\n'
            && (forall k :: |text| - 20 <= k < |text| ==> text[k] == ' ' || IsDigit(text[k])))
  {
    ExpectedPrintable(loc, today, year, month);
    var out := Expected(today, year, month);
    var norm := Normalise(today, year, month);
    if norm.Success? {
      PrintedParts(today, year, month);
      if IsLastMonth(norm.value) {
        assert norm.value == Date(MaxYear, 12, 1);
        LastMonthOverflow(today, year, month);
        CutShortText(loc, out);
      } else {
        LinesEndInBreak(loc, out.lines);
      }
    }
  }

  /** Completed lines and then a cut-short row of printable cells: the text ends in that row's columns. */
  lemma CutShortText(loc: Locale, out: Output)
    requires forall i :: 0 <= i < |out.lines| ==> Printable(loc, out.lines[i])
    requires out.lines != [] && forall j :: 0 <= j < |out.partial| ==> Fits(out.partial[j])
    ensures var text, k := RenderOutput(loc, out), 4 * |out.partial|;
      && |text| > k && text[|text| - k..] == RenderRow(out.partial)
      && text[|text| - k - 1] == '\n'
      && (forall i :: |text| - k <= i < |text| ==> text[i] == ' ' || IsDigit(text[i]))
  {
    LinesEndInBreak(loc, out.lines);
    var lines, tail := RenderLines(loc, out.lines), RenderRow(out.partial);
    RenderRowLength(out.partial);
    RowChars(out.partial);
    assert RenderOutput(loc, out) == lines + tail;
    assert (lines + tail)[|lines| - 1] == '\n';
    assert (lines + tail)[|lines|..] == tail;
  }
}
