/**
 * The month grid as a value: a month of `n` days whose 1st falls on weekday
 * `w` (Monday = 0) laid onto rows of seven cells, blank before the 1st and
 * after the last day.
 */
module Layout {

  datatype Cell = Blank | Day(day: nat)

  /** Cell number `i` of the month, counting row by row from the top-left corner. */
  function Slot(w: nat, n: nat, i: int): Cell {
    if w <= i < w + n then Day(i - w + 1) else Blank
  }

  /** The number of week rows the grid needs: the rows must cover the cells 0 .. w + n - 1. */
  function RowCount(w: nat, n: nat): nat {
    (w + n + 6) / 7
  }

  function Row(w: nat, n: nat, r: int): (row: seq<Cell>) {
    seq(7, c => Slot(w, n, 7 * r + c))
  }

  /** The reference grid: RowCount rows of seven slots. */
  function Grid(w: nat, n: nat): seq<seq<Cell>> {
    seq(RowCount(w, n), r => Row(w, n, r))
  }

  /** How many days have been placed before cell `i`. */
  function DaysBefore(w: nat, n: nat, i: int): (k: nat)
    ensures k <= n
  {
    if i <= w then 0 else if i - w >= n then n else i - w
  }

  function Flatten(rows: seq<seq<Cell>>): seq<Cell> {
    if rows == [] then [] else Flatten(rows[..|rows| - 1]) + rows[|rows| - 1]
  }

  /** The day numbers of the non-blank cells, in order. */
  function DaysOf(cells: seq<Cell>): seq<nat> {
    if cells == [] then []
    else DaysOf(cells[..|cells| - 1]) + (match cells[|cells| - 1] case Blank => [] case Day(d) => [d])
  }

  function Blanks(k: nat): seq<Cell> {
    seq(k, _ => Blank)
  }

  /** The days 1 .. n. */
  function Iota(n: nat): seq<nat> {
    seq(n, i => i + 1)
  }

  function DayCells(n: nat): seq<Cell> {
    seq(n, (i: int) requires 0 <= i => Day(i + 1))
  }

  // ---------------------------------------------------------------------------
  // Shape of the grid
  // ---------------------------------------------------------------------------

  /** Every row has seven cells, and the rows are the fewest that hold every cell up to the last day. */
  lemma GridShape(w: nat, n: nat)
    requires n >= 1
    ensures forall r :: 0 <= r < |Grid(w, n)| ==> |Grid(w, n)[r]| == 7
    ensures 7 * (|Grid(w, n)| - 1) < w + n <= 7 * |Grid(w, n)|
  {
  }

  /** No row is empty: each row of the grid holds at least one day, when the 1st falls within the first row. */
  lemma EveryRowHasADay(w: nat, n: nat, r: int)
    requires w < 7 && n >= 1
    requires 0 <= r < |Grid(w, n)|
    ensures exists c :: 0 <= c < 7 && Grid(w, n)[r][c].Day?
  {
    var c := if r == 0 then w else 0;
    assert 7 * r < w + n;
    assert Grid(w, n)[r][c] == Slot(w, n, 7 * r + c);
    assert Grid(w, n)[r][c].Day?;
  }

  /** The first row starts with exactly `w` blank cells followed by day 1. */
  lemma FirstRow(w: nat, n: nat)
    requires w < 7 && n >= 1
    ensures |Grid(w, n)| >= 1
    ensures Grid(w, n)[0][..w] == Blanks(w)
    ensures Grid(w, n)[0][w] == Day(1)
  {
    var row := Row(w, n, 0);
    assert Grid(w, n)[0] == row;
    forall c | 0 <= c < w
      ensures row[..w][c] == Blanks(w)[c]
    {
      assert row[c] == Slot(w, n, 7 * 0 + c);
    }
    assert row[w] == Slot(w, n, 7 * 0 + w);
  }

  /**
   * The last day sits in the last row, in column `c` = (w + n - 1) % 7 (the
   * weekday of the last day), and every later column of that row is blank.
   */
  lemma LastRow(w: nat, n: nat, c: int)
    requires w < 7 && n >= 1
    requires (w + n - 1) % 7 <= c < 7
    ensures |Grid(w, n)| >= 1
    ensures Grid(w, n)[|Grid(w, n)| - 1][c] == if c == (w + n - 1) % 7 then Day(n) else Blank
  {
    var last := |Grid(w, n)| - 1;
    assert Grid(w, n)[last] == Row(w, n, last);
    assert Row(w, n, last)[c] == Slot(w, n, 7 * last + c);
  }

  /** Every day in the grid is a day of the month. */
  lemma GridDayRange(w: nat, n: nat, r: int, c: int)
    requires 0 <= r < |Grid(w, n)| && 0 <= c < 7
    ensures |Grid(w, n)[r]| == 7
    ensures Grid(w, n)[r][c].Day? ==> 1 <= Grid(w, n)[r][c].day <= n
  {
    assert Grid(w, n)[r] == Row(w, n, r);
    assert Row(w, n, r)[c] == Slot(w, n, 7 * r + c);
  }

  /**
   * The printer's test for cell c of row r: with k days placed so far and,
   * while the month lasts, a running date on weekday wd = (w + k) % 7, the
   * cell is blank exactly when c < wd or the month is over; otherwise it
   * holds day k + 1. Either way the count of placed days stays in step.
   */
  lemma CellDecision(w: nat, n: nat, r: nat, c: nat, k: nat, wd: int, inMonth: bool)
    requires w < 7 && c < 7
    requires k == DaysBefore(w, n, 7 * r + c)
    requires inMonth ==> k < n && wd == (w + k) % 7
    requires !inMonth ==> k == n
    ensures (c < wd || !inMonth) ==> Slot(w, n, 7 * r + c) == Blank && DaysBefore(w, n, 7 * r + c + 1) == k
    ensures !(c < wd || !inMonth) ==> Slot(w, n, 7 * r + c) == Day(k + 1) && DaysBefore(w, n, 7 * r + c + 1) == k + 1
  {
    var i := 7 * r + c;
    if inMonth && i > w {
      assert k == i - w;
      assert (w + k) % 7 == c;
    }
  }

  /** Extending a prefix of a row by the next slot gives a longer prefix. */
  lemma RowPrefixStep(w: nat, n: nat, r: int, c: int)
    requires 0 <= c < 7
    ensures Row(w, n, r)[..c] + [Slot(w, n, 7 * r + c)] == Row(w, n, r)[..c + 1]
  {
  }

  /** Extending a prefix of the grid by the next full row gives a longer prefix. */
  lemma GridPrefixStep(w: nat, n: nat, r: nat)
    requires r < RowCount(w, n)
    ensures Grid(w, n)[..r] + [Row(w, n, r)] == Grid(w, n)[..r + 1]
  {
  }

  /** While days remain before row `r`, that row is in the grid and places at least one more day. */
  lemma RowAdvance(w: nat, n: nat, r: nat)
    requires w < 7 && DaysBefore(w, n, 7 * r) < n
    ensures r < RowCount(w, n)
    ensures DaysBefore(w, n, 7 * r) < DaysBefore(w, n, 7 * r + 7)
  {
  }

  /** Once every day has been placed before row `r`, the grid is complete. */
  lemma AllDaysPlaced(w: nat, n: nat, r: nat)
    requires w < 7 && 1 <= n && r <= RowCount(w, n)
    requires DaysBefore(w, n, 7 * r) == n
    ensures r == RowCount(w, n)
  {
    assert 7 * r - w >= n;
  }

  // ---------------------------------------------------------------------------
  // Reading the grid in order
  // ---------------------------------------------------------------------------

  lemma {:induction false} FlattenLength(rows: seq<seq<Cell>>)
    requires forall r :: 0 <= r < |rows| ==> |rows[r]| == 7
    ensures |Flatten(rows)| == 7 * |rows|
  {
    if rows != [] {
      FlattenLength(rows[..|rows| - 1]);
    }
  }

  lemma {:induction false} FlattenIndex(rows: seq<seq<Cell>>, r: int, c: int)
    requires forall j :: 0 <= j < |rows| ==> |rows[j]| == 7
    requires 0 <= r < |rows| && 0 <= c < 7
    ensures |Flatten(rows)| == 7 * |rows|
    ensures Flatten(rows)[7 * r + c] == rows[r][c]
  {
    FlattenLength(rows);
    var init := rows[..|rows| - 1];
    FlattenLength(init);
    if r < |rows| - 1 {
      FlattenIndex(init, r, c);
    }
  }

  /** Read row by row, the grid is `w` blanks, then days 1 .. n, then blanks to the end of the last row. */
  lemma GridCells(w: nat, n: nat)
    requires n >= 1
    ensures 7 * |Grid(w, n)| >= w + n
    ensures Flatten(Grid(w, n)) == Blanks(w) + DayCells(n) + Blanks(7 * |Grid(w, n)| - w - n)
  {
    var g := Grid(w, n);
    FlattenLength(g);
    var want := Blanks(w) + DayCells(n) + Blanks(7 * |g| - w - n);
    forall i | 0 <= i < 7 * |g|
      ensures Flatten(g)[i] == want[i]
    {
      FlattenIndex(g, i / 7, i % 7);
    }
  }

  lemma {:induction false} DaysOfAppend(a: seq<Cell>, b: seq<Cell>)
    ensures DaysOf(a + b) == DaysOf(a) + DaysOf(b)
    decreases |b|
  {
    if b != [] {
      assert (a + b)[..|a + b| - 1] == a + b[..|b| - 1];
      DaysOfAppend(a, b[..|b| - 1]);
    } else {
      assert a + b == a;
    }
  }

  lemma {:induction false} DaysOfBlanks(k: nat)
    ensures DaysOf(Blanks(k)) == []
  {
    if k > 0 {
      assert Blanks(k)[..k - 1] == Blanks(k - 1);
      DaysOfBlanks(k - 1);
    }
  }

  lemma {:induction false} DaysOfDayCells(n: nat)
    ensures DaysOf(DayCells(n)) == Iota(n)
  {
    if n > 0 {
      assert DayCells(n)[..n - 1] == DayCells(n - 1);
      DaysOfDayCells(n - 1);
      assert Iota(n) == Iota(n - 1) + [n];
    }
  }

  /**
   * Read top to bottom and left to right, the non-blank cells of the grid are
   * exactly 1, 2, ..., n: every day once, in increasing order.
   */
  lemma GridDaysInOrder(w: nat, n: nat)
    requires n >= 1
    ensures DaysOf(Flatten(Grid(w, n))) == Iota(n)
  {
    GridCells(w, n);
    var pad := 7 * |Grid(w, n)| - w - n;
    DaysOfAppend(Blanks(w) + DayCells(n), Blanks(pad));
    DaysOfAppend(Blanks(w), DayCells(n));
    DaysOfBlanks(w);
    DaysOfBlanks(pad);
    DaysOfDayCells(n);
  }

  /**
   * Cutting the grid short just after the last day (the last row up to
   * column (w + n - 1) % 7) loses no day: the days read in order are still
   * 1 .. n.
   */
  lemma CutGridDaysInOrder(w: nat, n: nat)
    requires w < 7 && n >= 1
    ensures |Grid(w, n)| >= 1
    ensures DaysOf(Flatten(Grid(w, n)[..|Grid(w, n)| - 1]) + Grid(w, n)[|Grid(w, n)| - 1][..(w + n - 1) % 7 + 1]) == Iota(n)
  {
    var g := Grid(w, n);
    GridDaysInOrder(w, n);
    var front, last := g[..|g| - 1], g[|g| - 1];
    var c := (w + n - 1) % 7;
    assert front + [last] == g;
    assert Flatten(g) == Flatten(front) + last;
    assert last == last[..c + 1] + last[c + 1..];
    forall j | c < j < 7
      ensures last[j] == Blank
    {
      LastRow(w, n, j);
    }
    assert last[c + 1..] == Blanks(6 - c);
    DaysOfAppend(Flatten(front), last);
    DaysOfAppend(last[..c + 1], last[c + 1..]);
    DaysOfAppend(Flatten(front), last[..c + 1]);
    DaysOfBlanks(6 - c);
  }
}
