/** Two behaviours of the calendar code as written, each next to the corrected behaviour
    the rest of the model uses:
    - a cell's key is the UTC date of its local midnight, which east of UTC is the day before;
    - month navigation moves the anchor date with `setMonth(±1)`, which overflows from the
      29th, 30th or 31st and can skip or repeat a month. */
module Findings {
  import opened Wrappers
  import opened Seqs
  import opened Dates
  import opened IsoKeys
  import opened Cards
  import Calendar
  import Placement

  /** `toISOString().split('T')[0]` of local midnight on `d`, in a zone `offsetMinutes` east
      of UTC (negative west of it): local midnight is `offsetMinutes` before UTC midnight,
      so east of UTC it falls on the previous UTC day. */
  function KeyAsWritten(d: Date, offsetMinutes: int): string
    requires Valid(d) && -1440 < offsetMinutes < 1440
    requires KeyDate(d) && KeyDate(PrevDay(d))
  {
    if offsetMinutes > 0 then FormatKey(PrevDay(d)) else FormatKey(d)
  }

  /** East of UTC every cell's key as written names the day before the cell's date. */
  lemma KeyAsWrittenShifted(d: Date, offsetMinutes: int)
    requires Valid(d) && 0 < offsetMinutes < 1440
    requires KeyDate(d) && KeyDate(PrevDay(d))
    ensures KeyAsWritten(d, offsetMinutes) == FormatKey(PrevDay(d))
    ensures KeyAsWritten(d, offsetMinutes) != FormatKey(d)
  {
    NextDayNumber(PrevDay(d));
    if FormatKey(PrevDay(d)) == FormatKey(d) {
      FormatKeyInjective(PrevDay(d), d);
    }
  }

  /** The keys of a month grid as written, in a zone east of UTC. */
  function GridKeysAsWritten(year: int, month: int, today: Date, offsetMinutes: int): (keys: seq<string>)
    requires Calendar.Anchor(year, month) && Valid(today) && 0 < offsetMinutes < 1440
    ensures |keys| == Calendar.GridSize
  {
    var g := Calendar.MonthGrid(year, month, today);
    seq(Calendar.GridSize, i requires 0 <= i < Calendar.GridSize =>
      GridPrevDayKeyDate(year, month, today, i);
      KeyAsWritten(g[i].date, offsetMinutes))
  }

  lemma GridPrevDayKeyDate(year: int, month: int, today: Date, i: int)
    requires Calendar.Anchor(year, month) && Valid(today) && 0 <= i < Calendar.GridSize
    ensures KeyDate(PrevDay(Calendar.MonthGrid(year, month, today)[i].date))
  {
  }

  /** East of UTC, cell `j`'s key as written is the key of `d` exactly when the cell stands
      for the day after `d`. */
  lemma KeyAsWrittenMatch(year: int, month: int, today: Date, offsetMinutes: int, d: Date, j: int)
    requires Calendar.Anchor(year, month) && Valid(today) && 0 < offsetMinutes < 1440
    requires KeyDate(d) && 0 <= j < Calendar.GridSize
    ensures GridKeysAsWritten(year, month, today, offsetMinutes)[j] == FormatKey(d)
      <==> Calendar.MonthGrid(year, month, today)[j].date == NextDay(d)
  {
    var x := Calendar.MonthGrid(year, month, today)[j].date;
    GridPrevDayKeyDate(year, month, today, j);
    assert GridKeysAsWritten(year, month, today, offsetMinutes)[j] == FormatKey(PrevDay(x));
    if FormatKey(PrevDay(x)) == FormatKey(d) {
      FormatKeyInjective(PrevDay(x), d);
    }
    PrevNextDay(d);
  }

  /** With the keys as written east of UTC (Korea is nine hours east), a card due on date `d`
      lands in the cell of the day after `d`, not in the cell of `d`. */
  lemma CardShiftedEastOfUtc(year: int, month: int, today: Date, offsetMinutes: int, c: Card, d: Date, i: int)
    requires Calendar.Anchor(year, month) && Valid(today) && 0 < offsetMinutes < 1440
    requires KeyDate(d) && c.dueDate == Some(FormatKey(d))
    requires 0 <= i < Calendar.GridSize && Calendar.MonthGrid(year, month, today)[i].date == NextDay(d)
    ensures Placement.ShownAt(c, GridKeysAsWritten(year, month, today, offsetMinutes), i)
    ensures !Placement.ShownAt(c, GridKeysAsWritten(year, month, today, offsetMinutes), i - 1)
  {
    var g := Calendar.MonthGrid(year, month, today);
    var keys := GridKeysAsWritten(year, month, today, offsetMinutes);
    BeforeTOfTimestamp(d, "");
    assert Placement.DueKey(c) == Some(FormatKey(d));
    KeyAsWrittenMatch(year, month, today, offsetMinutes, d, i);
    forall j | 0 <= j < i
      ensures keys[j] != FormatKey(d)
    {
      KeyAsWrittenMatch(year, month, today, offsetMinutes, d, j);
      Calendar.GridDayNumber(year, month, today, j);
      Calendar.GridDayNumber(year, month, today, i);
    }
  }

  /** Seoul, January 2024: as written, a card due on 5 January is shown in the cell of
      6 January and not in its own; with the corrected keys it is shown in its own. */
  lemma SeoulExample()
    ensures var c := Card(1, "x", "todo", Some("2024-01-05"));
      var g := Calendar.MonthGrid(2024, 1, Date(2024, 1, 1));
      && g[6].date == Date(2024, 1, 6)
      && Placement.ShownAt(c, GridKeysAsWritten(2024, 1, Date(2024, 1, 1), 540), 6)
      && !Placement.ShownAt(c, GridKeysAsWritten(2024, 1, Date(2024, 1, 1), 540), 5)
      && Placement.ShownAt(c, Placement.GridKeys(2024, 1, Date(2024, 1, 1)), 5)
  {
    var c := Card(1, "x", "todo", Some("2024-01-05"));
    var d := Date(2024, 1, 5);
    var today := Date(2024, 1, 1);
    assert FormatKey(d) == "2024-01-05";
    assert Calendar.StartingDayOfWeek(2024, 1) == 1 by {
      WeekdayAnchor();
    }
    var g := Calendar.MonthGrid(2024, 1, today);
    assert g[6].date == NextDay(d);
    CardShiftedEastOfUtc(2024, 1, today, 540, c, d, 6);
    Placement.PlacementOnGrid(2024, 1, today, c, d, "", 5);
  }

  /** `currentDate.setMonth(currentDate.getMonth() + delta)` for delta = ±1: the day of the
      month is kept, and a day the target month does not have overflows into the month after it. */
  function SetMonthAsWritten(d: Date, forward: bool): (e: Date)
    requires Valid(d)
    ensures Valid(e)
  {
    var (ty, tm) := if forward then NextMonth(d.year, d.month) else PrevMonth(d.year, d.month);
    var len := DaysInMonth(ty, tm);
    if d.day <= len then Date(ty, tm, d.day)
    else
      var (oy, om) := NextMonth(ty, tm);
      Date(oy, om, d.day - len)
  }

  /** From 31 January 2024 "next" shows March (February is skipped), and from 31 March 2024
      "previous" shows March again. */
  lemma SetMonthSkips()
    ensures SetMonthAsWritten(Date(2024, 1, 31), true) == Date(2024, 3, 2)
    ensures SetMonthAsWritten(Date(2024, 3, 31), false) == Date(2024, 3, 2)
  {
  }

  /** The corrected navigation keeps the anchor as a (year, month) pair: "next" and
      "previous" move exactly one month and undo each other. */
  lemma NavigationRoundTrip(year: int, month: int)
    requires 1 <= month <= 12
    ensures var (ny, nm) := NextMonth(year, month); PrevMonth(ny, nm) == (year, month)
    ensures var (py, pm) := PrevMonth(year, month); NextMonth(py, pm) == (year, month)
  {
  }
}
