/** The month view of the calendar: a fixed grid of six weeks (42 cells, Sunday first)
    showing the trailing days of the previous month, every day of the displayed month,
    then the leading days of the next month. */
module Calendar {
  import opened Dates
  import opened IsoKeys

  /** One day cell: the number printed in it, the date it stands for, whether it is
      greyed out as another month's day, and whether it is marked as today. */
  datatype Cell = Cell(dayNumber: int, date: Date, otherMonth: bool, isToday: bool)

  /** The `data-date` key of a cell's card container: the ISO form of its date. */
  function Key(c: Cell): string
    requires KeyDate(c.date)
  {
    FormatKey(c.date)
  }

  const GridSize: int := 42

  /** A (year, month) whose grid the `Date` constructor builds as given: from year 100 on
      (`ConstructorYear` reads smaller years differently), and every cell of the grid,
      including the previous and the next month's days, keeps a four-digit year. */
  predicate Anchor(year: int, month: int) {
    100 <= year <= 9998 && 1 <= month <= 12
  }

  /** The weekday of the 1st, which is how many previous-month days lead the grid. */
  function StartingDayOfWeek(year: int, month: int): (w: int)
    requires Anchor(year, month)
    ensures 0 <= w < 7
  {
    Weekday(Date(year, month, 1))
  }

  function PrevMonthLength(year: int, month: int): int
    requires Anchor(year, month)
  {
    var (py, pm) := PrevMonth(year, month);
    DaysInMonth(py, pm)
  }

  /** The cell for `date`; it is marked as today when its midnight is today's midnight. */
  function MakeCell(date: Date, otherMonth: bool, today: Date): Cell
    requires KeyDate(date) && Valid(today)
  {
    Cell(date.day, date, otherMonth, DayNumber(date) == DayNumber(today))
  }

  /** Closed form of cell `i`: which segment the index falls into decides the month and day. */
  function GridCell(year: int, month: int, today: Date, i: int): (c: Cell)
    requires Anchor(year, month) && Valid(today) && 0 <= i < GridSize
    ensures KeyDate(c.date)
  {
    var start := StartingDayOfWeek(year, month);
    var len := DaysInMonth(year, month);
    if i < start then
      var (py, pm) := PrevMonth(year, month);
      MakeCell(Date(py, pm, PrevMonthLength(year, month) - start + i + 1), true, today)
    else if i - start < len then
      MakeCell(Date(year, month, i - start + 1), false, today)
    else
      var (ny, nm) := NextMonth(year, month);
      MakeCell(Date(ny, nm, i - start - len + 1), true, today)
  }

  function MonthGrid(year: int, month: int, today: Date): (cells: seq<Cell>)
    requires Anchor(year, month) && Valid(today)
    ensures |cells| == GridSize
  {
    seq(GridSize, i requires 0 <= i < GridSize => GridCell(year, month, today, i))
  }

  /** The grid loop of the month view, with its two running counters: one for the days of
      the displayed month, one for the days of the next month. `year` is the year the
      `Date` constructor works in (see `RenderCalendar`). */
  method BuildMonthGrid(year: int, month: int, today: Date) returns (cells: seq<Cell>)
    requires Anchor(year, month) && Valid(today)
    ensures cells == MonthGrid(year, month, today)
    ensures |cells| == GridSize
    ensures forall i :: 0 <= i < StartingDayOfWeek(year, month) ==>
      && cells[i].otherMonth
      && cells[i].dayNumber == PrevMonthLength(year, month) - StartingDayOfWeek(year, month) + i + 1
      && (cells[i].date.year, cells[i].date.month) == PrevMonth(year, month)
    ensures forall i :: StartingDayOfWeek(year, month) <= i < StartingDayOfWeek(year, month) + DaysInMonth(year, month) ==>
      && !cells[i].otherMonth
      && cells[i].dayNumber == i - StartingDayOfWeek(year, month) + 1
      && cells[i].date == Date(year, month, i - StartingDayOfWeek(year, month) + 1)
    ensures forall i :: StartingDayOfWeek(year, month) + DaysInMonth(year, month) <= i < GridSize ==>
      && cells[i].otherMonth
      && cells[i].dayNumber == i - StartingDayOfWeek(year, month) - DaysInMonth(year, month) + 1
      && (cells[i].date.year, cells[i].date.month) == NextMonth(year, month)
    ensures GridSize - StartingDayOfWeek(year, month) - DaysInMonth(year, month) >= 5
    ensures forall i :: 0 <= i < GridSize ==> (cells[i].isToday <==> cells[i].date == today)
  {
    var start := StartingDayOfWeek(year, month);
    var monthLength := DaysInMonth(year, month);
    var (py, pm) := PrevMonth(year, month);
    var prevMonthLength := DaysInMonth(py, pm);
    var (ny, nm) := NextMonth(year, month);
    var dayCounter, nextMonthCounter := 1, 1;
    cells := [];
    for i := 0 to GridSize
      invariant |cells| == i
      invariant forall k :: 0 <= k < i ==> cells[k] == GridCell(year, month, today, k)
      invariant dayCounter == 1 + (if i <= start then 0 else if i - start <= monthLength then i - start else monthLength)
      invariant nextMonthCounter == 1 + (if i <= start + monthLength then 0 else i - start - monthLength)
    {
      var date: Date;
      var isOtherMonth := false;
      if i < start {
        date := Date(py, pm, prevMonthLength - start + i + 1);
        isOtherMonth := true;
        GridCellSegments(year, month, today, i);
      } else if dayCounter <= monthLength {
        date := Date(year, month, dayCounter);
        dayCounter := dayCounter + 1;
        GridCellSegments(year, month, today, i);
      } else {
        date := Date(ny, nm, nextMonthCounter);
        nextMonthCounter := nextMonthCounter + 1;
        isOtherMonth := true;
        GridCellSegments(year, month, today, i);
      }
      cells := cells + [MakeCell(date, isOtherMonth, today)];
    }
    assert cells == MonthGrid(year, month, today);
    GridLayout(year, month, today, cells);
    GridTodayMark(year, month, today);
  }

  lemma GridCellSegments(year: int, month: int, today: Date, i: int)
    requires Anchor(year, month) && Valid(today) && 0 <= i < GridSize
    ensures var start, len := StartingDayOfWeek(year, month), DaysInMonth(year, month);
      var (py, pm) := PrevMonth(year, month);
      var (ny, nm) := NextMonth(year, month);
      && (i < start ==>
            GridCell(year, month, today, i) == MakeCell(Date(py, pm, DaysInMonth(py, pm) - start + i + 1), true, today))
      && (start <= i < start + len ==>
            GridCell(year, month, today, i) == MakeCell(Date(year, month, i - start + 1), false, today))
      && (start + len <= i ==>
            GridCell(year, month, today, i) == MakeCell(Date(ny, nm, i - start - len + 1), true, today))
  {
  }

  /** The three segments of the grid: the previous month's last days, the month's days in
      order, then the next month's first days; there are always at least five of those. */
  lemma GridLayout(year: int, month: int, today: Date, cells: seq<Cell>)
    requires Anchor(year, month) && Valid(today)
    requires cells == MonthGrid(year, month, today)
    ensures forall i :: 0 <= i < StartingDayOfWeek(year, month) ==>
      && cells[i].otherMonth
      && cells[i].dayNumber == PrevMonthLength(year, month) - StartingDayOfWeek(year, month) + i + 1
      && (cells[i].date.year, cells[i].date.month) == PrevMonth(year, month)
    ensures forall i :: StartingDayOfWeek(year, month) <= i < StartingDayOfWeek(year, month) + DaysInMonth(year, month) ==>
      && !cells[i].otherMonth
      && cells[i].dayNumber == i - StartingDayOfWeek(year, month) + 1
      && cells[i].date == Date(year, month, i - StartingDayOfWeek(year, month) + 1)
    ensures forall i :: StartingDayOfWeek(year, month) + DaysInMonth(year, month) <= i < GridSize ==>
      && cells[i].otherMonth
      && cells[i].dayNumber == i - StartingDayOfWeek(year, month) - DaysInMonth(year, month) + 1
      && (cells[i].date.year, cells[i].date.month) == NextMonth(year, month)
    ensures GridSize - StartingDayOfWeek(year, month) - DaysInMonth(year, month) >= 5
  {
    forall i | 0 <= i < GridSize
      ensures cells[i] == GridCell(year, month, today, i)
    {
      GridCellSegments(year, month, today, i);
    }
  }

  /** Day number of the grid's first cell: the Sunday on or before the 1st. */
  function GridBase(year: int, month: int): int
    requires Anchor(year, month)
  {
    DayNumber(Date(year, month, 1)) - StartingDayOfWeek(year, month)
  }

  /** Cell `i` stands for the day `i` days after the grid's first day. */
  lemma GridDayNumber(year: int, month: int, today: Date, i: int)
    requires Anchor(year, month) && Valid(today) && 0 <= i < GridSize
    ensures DayNumber(MonthGrid(year, month, today)[i].date) == GridBase(year, month) + i
  {
    var start := StartingDayOfWeek(year, month);
    var len := DaysInMonth(year, month);
    var d := MonthGrid(year, month, today)[i].date;
    if i < start {
      var (py, pm) := PrevMonth(year, month);
      var last := Date(py, pm, PrevMonthLength(year, month));
      NextDayNumber(last);
      assert NextDay(last) == Date(year, month, 1);
      assert DayNumber(d) == DayNumber(last) - (start - i - 1);
    } else if i - start >= len {
      var (ny, nm) := NextMonth(year, month);
      var last := Date(year, month, len);
      NextDayNumber(last);
      assert NextDay(last) == Date(ny, nm, 1);
      assert DayNumber(d) == DayNumber(Date(ny, nm, 1)) + (i - start - len);
    }
  }

  /** Consecutive cells are consecutive days: the grid never skips or repeats a day. */
  lemma GridConsecutive(year: int, month: int, today: Date)
    requires Anchor(year, month) && Valid(today)
    ensures forall i :: 0 <= i < GridSize - 1 ==>
      MonthGrid(year, month, today)[i + 1].date == NextDay(MonthGrid(year, month, today)[i].date)
  {
    var g := MonthGrid(year, month, today);
    forall i | 0 <= i < GridSize - 1
      ensures g[i + 1].date == NextDay(g[i].date)
    {
      GridDayNumber(year, month, today, i);
      GridDayNumber(year, month, today, i + 1);
      NextDayNumber(g[i].date);
      DayNumberOrder(g[i + 1].date, NextDay(g[i].date));
    }
  }

  /** Columns line up with weekdays: cell `i` falls on weekday `i % 7`, so the first cell is a Sunday. */
  lemma GridWeekdays(year: int, month: int, today: Date)
    requires Anchor(year, month) && Valid(today)
    ensures forall i :: 0 <= i < GridSize ==> Weekday(MonthGrid(year, month, today)[i].date) == i % 7
  {
    forall i | 0 <= i < GridSize
      ensures Weekday(MonthGrid(year, month, today)[i].date) == i % 7
    {
      GridWeekday(year, month, today, i);
    }
  }

  lemma GridWeekday(year: int, month: int, today: Date, i: int)
    requires Anchor(year, month) && Valid(today) && 0 <= i < GridSize
    ensures Weekday(MonthGrid(year, month, today)[i].date) == i % 7
  {
    GridDayNumber(year, month, today, i);
    AlignedWeekday(MonthGrid(year, month, today)[i].date, Date(year, month, 1), StartingDayOfWeek(year, month), i);
  }

  /** A day `i - start` days after a date falling on weekday `start` falls on weekday `i % 7`. */
  lemma AlignedWeekday(d: Date, first: Date, start: int, i: int)
    requires Valid(d) && Valid(first) && start == Weekday(first)
    requires DayNumber(d) == DayNumber(first) - start + i
    ensures Weekday(d) == i % 7
  {
    ModuloShift(DayNumber(d) + 1, DayNumber(first) + 1, start, i);
  }

  lemma ModuloShift(n: int, f: int, start: int, i: int)
    requires start == f % 7 && n == f - start + i
    ensures n % 7 == i % 7
  {
    var q := f / 7;
    assert n == 7 * q + i;
  }

  /** The grid shows exactly the 42 days starting at its first day: a valid date appears
      in some cell iff its day number lies in that window, and then in the cell at its offset. */
  lemma GridWindow(year: int, month: int, today: Date, d: Date)
    requires Anchor(year, month) && Valid(today) && Valid(d)
    ensures (exists i :: 0 <= i < GridSize && MonthGrid(year, month, today)[i].date == d)
        <==> GridBase(year, month) <= DayNumber(d) < GridBase(year, month) + GridSize
    ensures forall i :: 0 <= i < GridSize && MonthGrid(year, month, today)[i].date == d ==>
        i == DayNumber(d) - GridBase(year, month)
  {
    var g := MonthGrid(year, month, today);
    var base := GridBase(year, month);
    forall i | 0 <= i < GridSize && g[i].date == d
      ensures i == DayNumber(d) - base
    {
      GridDayNumber(year, month, today, i);
    }
    if base <= DayNumber(d) < base + GridSize {
      var i := DayNumber(d) - base;
      GridDayNumber(year, month, today, i);
      DayNumberOrder(g[i].date, d);
    }
  }

  /** Each day of the displayed month appears in exactly one cell, the one at its offset
      from the 1st's weekday. */
  lemma GridShowsMonthOnce(year: int, month: int, today: Date, d: int, i: int)
    requires Anchor(year, month) && Valid(today)
    requires 1 <= d <= DaysInMonth(year, month) && 0 <= i < GridSize
    ensures MonthGrid(year, month, today)[i].date == Date(year, month, d)
        <==> i == StartingDayOfWeek(year, month) + d - 1
  {
    GridWindow(year, month, today, Date(year, month, d));
  }

  /** No two cells carry the same `data-date` key. */
  lemma GridKeysDistinct(year: int, month: int, today: Date)
    requires Anchor(year, month) && Valid(today)
    ensures forall i, j :: 0 <= i < j < GridSize ==>
      Key(MonthGrid(year, month, today)[i]) != Key(MonthGrid(year, month, today)[j])
  {
    var g := MonthGrid(year, month, today);
    forall i, j | 0 <= i < j < GridSize
      ensures Key(g[i]) != Key(g[j])
    {
      GridDayNumber(year, month, today, i);
      GridDayNumber(year, month, today, j);
      if Key(g[i]) == Key(g[j]) {
        FormatKeyInjective(g[i].date, g[j].date);
      }
    }
  }

  /** At most one cell is marked as today, and one is exactly when today is in the window. */
  lemma GridTodayMark(year: int, month: int, today: Date)
    requires Anchor(year, month) && Valid(today)
    ensures forall i :: 0 <= i < GridSize ==>
      (MonthGrid(year, month, today)[i].isToday <==> MonthGrid(year, month, today)[i].date == today)
    ensures forall i, j ::
      (0 <= i < GridSize && 0 <= j < GridSize &&
       MonthGrid(year, month, today)[i].isToday && MonthGrid(year, month, today)[j].isToday) ==> i == j
    ensures (exists i :: 0 <= i < GridSize && MonthGrid(year, month, today)[i].isToday)
      <==> GridBase(year, month) <= DayNumber(today) < GridBase(year, month) + GridSize
  {
    var g := MonthGrid(year, month, today);
    forall i | 0 <= i < GridSize
      ensures g[i].isToday <==> g[i].date == today
    {
      DayNumberOrder(g[i].date, today);
    }
    GridWindow(year, month, today, today);
  }

  /** The year `new Date(year, monthIndex, day)` works in: JavaScript reads a year argument
      of 0 to 99 as 1900 to 1999, and every other year as given. */
  function ConstructorYear(year: int): int {
    if 0 <= year <= 99 then 1900 + year else year
  }

  /** `renderCalendar` for the displayed (year, month): every date of the grid is built by
      `new Date(year, ...)`, so a two-digit year lays out the month of 1900 + year, and any
      other year its own month. */
  method RenderCalendar(year: int, month: int, today: Date) returns (cells: seq<Cell>)
    requires 0 <= year <= 9998 && 1 <= month <= 12 && Valid(today)
    ensures 0 <= year <= 99 ==> cells == MonthGrid(1900 + year, month, today)
    ensures 100 <= year ==> cells == MonthGrid(year, month, today)
    ensures forall d :: 1 <= d <= DaysInMonth(ConstructorYear(year), month) ==>
      cells[StartingDayOfWeek(ConstructorYear(year), month) + d - 1].date
        == Date(ConstructorYear(year), month, d)
  {
    var y := ConstructorYear(year);
    cells := BuildMonthGrid(y, month, today);
  }

  /** A two-digit anchor year shows the 1900s: the grid of (50, January) is January 1950,
      whose 1st is a Sunday and fills the first cell, whereas 1 January of year 50 itself
      was a Saturday. */
  lemma TwoDigitYear(today: Date)
    requires Valid(today)
    ensures ConstructorYear(50) == 1950
    ensures StartingDayOfWeek(1950, 1) == 0
    ensures MonthGrid(1950, 1, today)[0].date == Date(1950, 1, 1)
    ensures Weekday(Date(50, 1, 1)) == 6
  {
    assert DayNumber(Date(1950, 1, 1)) == 711857;
    GridShowsMonthOnce(1950, 1, today, 1, 0);
  }
}
