/** The client's view of a card, as fetched from the card list, and the due-date
    indicator each board card shows. */
module Cards {
  import opened Wrappers
  import opened Dates
  import opened IsoKeys

  /** The fields the board, the calendar and the archive page read from a fetched card.
      `dueDate` is `None` for a JSON `null` or a missing key. */
  datatype Card = Card(id: int, title: string, columnName: string, dueDate: Option<string>)

  /** `card.due_date` is truthy: present, not null and not the empty string. */
  predicate HasDueDate(c: Card) {
    c.dueDate.Some? && c.dueDate.value != ""
  }

  /** The urgency class a due date gets: `overdue`, `today`, or neither. */
  datatype DueClass = Plain | Overdue | DueToday

  /** Compares the due day's midnight with today's midnight, as timestamps. */
  function Classify(due: Date, today: Date): DueClass
    requires Valid(due) && Valid(today)
  {
    if DayNumber(due) < DayNumber(today) then Overdue
    else if DayNumber(due) == DayNumber(today) then DueToday
    else Plain
  }

  /** The timestamp comparison is the calendar comparison: overdue iff the due day is
      strictly before today, today iff it is today, and unmarked iff it is after today. */
  lemma ClassifyMeaning(due: Date, today: Date)
    requires Valid(due) && Valid(today)
    ensures Classify(due, today) == Overdue <==> Before(due, today)
    ensures Classify(due, today) == DueToday <==> due == today
    ensures Classify(due, today) == Plain <==> Before(today, due)
  {
    DayNumberOrder(due, today);
    DayNumberOrder(today, due);
  }

  /** The due-date line of a board card: absent without a due date; with one, classified
      by the day its date part names. A due date whose day cannot be read is shown
      without an urgency class (every comparison with an invalid date is false). */
  function DueIndicator(c: Card, today: Date): (r: Option<DueClass>)
    requires Valid(today)
    ensures r.None? <==> !HasDueDate(c)
    ensures r.Some? && ParseKey(BeforeT(c.dueDate.value)).None? ==> r.value == Plain
    ensures r.Some? && ParseKey(BeforeT(c.dueDate.value)).Some? ==>
      var due := ParseKey(BeforeT(c.dueDate.value)).value;
      && (r.value == Overdue <==> Before(due, today))
      && (r.value == DueToday <==> due == today)
  {
    if !HasDueDate(c) then None
    else match ParseKey(BeforeT(c.dueDate.value))
      case None => Some(Plain)
      case Some(due) =>
        ClassifyMeaning(due, today);
        Some(Classify(due, today))
  }

  /** A card due on a date, written as a bare key or as a key with a time part, is overdue,
      due today or unmarked exactly as that date compares with today. */
  lemma DueIndicatorOfKey(c: Card, d: Date, rest: string, today: Date)
    requires KeyDate(d) && Valid(today)
    requires c.dueDate == Some(FormatKey(d)) || c.dueDate == Some(FormatKey(d) + "T" + rest)
    ensures DueIndicator(c, today) == Some(Classify(d, today))
  {
    BeforeTOfTimestamp(d, rest);
    ParseFormatKey(d);
  }
}
