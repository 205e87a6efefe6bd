/** Whether a habit is scheduled on a given day (`isHabitVisibleOnDate`). */
module Visibility {
  import opened Wrappers
  import opened Dates
  import opened Habits

  /**
   * Daily habits are scheduled every day; weekly habits on the weekdays
   * listed in `daysOfWeek` (0 = Sunday). The weekday is that of the civil
   * day the identifier names; an identifier that does not read as a day
   * has no weekday, so no weekly habit is scheduled on it.
   */
  predicate IsVisibleOn(h: Habit, dateStr: string): (b: bool)
    ensures h.kind == Daily ==> b
    ensures h.kind == Weekly && b ==>
      && h.daysOfWeek.Some? && h.daysOfWeek.value != []
      && Parse(dateStr).Some? && Format(Parse(dateStr).value) == dateStr
  {
    match h.kind
    case Daily => true
    case Weekly =>
      match Parse(dateStr)
      case None => false
      case Some(d) => FormatParse(dateStr); h.daysOfWeek.Some? && Weekday(d) in h.daysOfWeek.value
  }

  /** A daily habit is visible on every date, and a weekly habit without a weekday list on none. */
  lemma DailyEverywhereWeeklyNeedsDays(h: Habit, dateStr: string)
    ensures h.kind == Daily ==> IsVisibleOn(h, dateStr)
    ensures h.kind == Weekly && h.daysOfWeek == None ==> !IsVisibleOn(h, dateStr)
    ensures h.kind == Weekly && h.daysOfWeek == Some([]) ==> !IsVisibleOn(h, dateStr)
  {
  }

  /** A weekly habit is visible on a day exactly when that day's weekday is in its list. */
  lemma WeeklyVisibleIff(h: Habit, d: Date)
    requires h.kind == Weekly && Valid(d)
    ensures IsVisibleOn(h, Format(d)) <==> h.daysOfWeek.Some? && Weekday(d) in h.daysOfWeek.value
  {
    ParseFormat(d);
  }

  /** Visibility reads only the schedule type, the weekday list and the date. */
  lemma VisibilityReadsOnlySchedule(h: Habit, h': Habit, dateStr: string)
    requires h.kind == h'.kind && h.daysOfWeek == h'.daysOfWeek
    ensures IsVisibleOn(h, dateStr) == IsVisibleOn(h', dateStr)
  {
  }

  /** `n` days after `d`. */
  function AddDays(d: Date, n: nat): Date
    requires Valid(d)
    requires DayNumber(d) + n <= DayNumber(Date(9999, 12, 31))
    decreases n
  {
    if n == 0 then d
    else
      DayNumberNext(d);
      AddDays(NextDay(d), n - 1)
  }

  lemma {:induction false} AddDaysNumber(d: Date, n: nat)
    requires Valid(d)
    requires DayNumber(d) + n <= DayNumber(Date(9999, 12, 31))
    ensures Valid(AddDays(d, n)) && DayNumber(AddDays(d, n)) == DayNumber(d) + n
    decreases n
  {
    if n > 0 {
      DayNumberNext(d);
      AddDaysNumber(NextDay(d), n - 1);
    }
  }

  /** A weekly schedule repeats: a habit visible on a day is visible a week later, and conversely. */
  lemma WeeklyRepeats(h: Habit, d: Date)
    requires Valid(d) && DayNumber(d) + 7 <= DayNumber(Date(9999, 12, 31))
    ensures Valid(AddDays(d, 7))
    ensures IsVisibleOn(h, Format(AddDays(d, 7))) == IsVisibleOn(h, Format(d))
  {
    WeekLater(d, 7);
    if h.kind == Weekly {
      WeeklyVisibleIff(h, d);
      WeeklyVisibleIff(h, AddDays(d, 7));
    }
  }

  /** Seven days on, the weekday is the same. */
  lemma WeekLater(d: Date, n: nat)
    requires n == 7
    requires Valid(d) && DayNumber(d) + n <= DayNumber(Date(9999, 12, 31))
    ensures Valid(AddDays(d, n)) && Weekday(AddDays(d, n)) == Weekday(d)
  {
    AddDaysNumber(d, n);
    WeekdayShift(DayNumber(d) + 4, DayNumber(AddDays(d, n)) + 4);
  }

  lemma WeekdayShift(m: int, n: int)
    requires n == m + 7
    ensures n % 7 == m % 7
  {
    var q, r := m / 7, m % 7;
    assert m == 7 * q + r;
    assert n == 7 * (q + 1) + r;
  }

  /** A habit scheduled on Monday, Wednesday and Friday is visible on exactly those weekdays. */
  lemma MondayWednesdayFriday(h: Habit, d: Date)
    requires h.kind == Weekly && h.daysOfWeek == Some([1, 3, 5]) && Valid(d)
    ensures IsVisibleOn(h, Format(d)) <==> Weekday(d) == 1 || Weekday(d) == 3 || Weekday(d) == 5
  {
    WeeklyVisibleIff(h, d);
  }

  /** That habit is visible on 2024-01-15, a Monday, and not on the Tuesday after. */
  lemma MondayWednesdayFridayExample(h: Habit)
    requires h.kind == Weekly && h.daysOfWeek == Some([1, 3, 5])
    ensures IsVisibleOn(h, Format(Date(2024, 1, 15)))
    ensures !IsVisibleOn(h, Format(Date(2024, 1, 16)))
  {
    KnownWeekdays();
    WeekdayNext(Date(2024, 1, 15));
    assert NextDay(Date(2024, 1, 15)) == Date(2024, 1, 16);
    MondayWednesdayFriday(h, Date(2024, 1, 15));
    MondayWednesdayFriday(h, Date(2024, 1, 16));
  }
}
