/** The habit record as stored per user, and a new habit's initial state. */
module Habits {
  import opened Wrappers
  import opened Text

  /** Points awarded for completing a habit on `date` ("YYYY-MM-DD"). */
  datatype PointEntry = PointEntry(date: string, point: int)

  datatype HabitType = Daily | Weekly

  /**
   * A habit. A missing or non-array `pointHistory` is the empty sequence,
   * which is how every reader of the record treats it.
   */
  datatype Habit = Habit(
    id: string,
    text: string,
    kind: HabitType,
    daysOfWeek: Option<seq<int>>,
    dailyStreak: int,
    lastCompletedDate: Option<string>,
    point: Option<int>,
    pointHistory: seq<PointEntry>)

  /**
   * `addHabit`: a text that is blank once trimmed adds nothing; otherwise the
   * record written keeps the text as typed, has no streak, no points and no
   * history, and lists weekdays only for a weekly habit. The id is the one
   * storage assigns.
   */
  function NewHabit(id: string, text: string, kind: HabitType, daysOfWeek: seq<int>): (r: Option<Habit>)
    ensures r.None? <==> IsBlank(text)
    ensures r.Some? ==> var h := r.value;
      && h.id == id && h.text == text && h.kind == kind
      && h.daysOfWeek == (if kind == Weekly then Some(daysOfWeek) else None)
      && h.dailyStreak == 0 && h.lastCompletedDate == None && h.point == Some(0) && h.pointHistory == []
  {
    TrimEmptyIffBlank(text);
    if Trim(text) == "" then None
    else Some(Habit(id, text, kind, if kind == Weekly then Some(daysOfWeek) else None, 0, None, Some(0), []))
  }

  /** Some history entry is dated `day` (`pointHistory.some(p => p.date === day)`). */
  predicate HasEntryOn(history: seq<PointEntry>, day: string) {
    exists i :: 0 <= i < |history| && history[i].date == day
  }
}
