/**
 * The monthly calendar of `useHabitCalendar`: the list of days shown for a
 * month, and for each day how many habits were scheduled, how many of those
 * were done, and the percentage done.
 */
module HabitCalendar {
  import opened Wrappers
  import opened Text
  import opened Dates
  import opened Habits
  import opened Visibility

  datatype DailyStat = DailyStat(date: string, total: int, doneCount: int, rate: int)

  /** The days of month `m` (1 = January) of year `y`, as identifiers, first to last. */
  function CalendarDays(y: int, m: int): (c: seq<string>)
    requires 0 <= y <= 9999 && 1 <= m <= 12
    ensures |c| == DaysInMonth(y, m)
    ensures forall i :: 0 <= i < |c| ==> Parse(c[i]) == Some(Date(y, m, i + 1))
  {
    var c := seq(DaysInMonth(y, m), i requires 0 <= i < DaysInMonth(y, m) => Format(Date(y, m, i + 1)));
    assert forall i :: 0 <= i < |c| ==> Parse(c[i]) == Some(Date(y, m, i + 1)) by {
      forall i | 0 <= i < |c| ensures Parse(c[i]) == Some(Date(y, m, i + 1)) {
        ParseFormat(Date(y, m, i + 1));
      }
    }
    c
  }

  /** The habits scheduled on `date`, in their order (`habits.filter(h => isHabitVisibleOnDate(h, date))`). */
  function ScheduledOn(habits: seq<Habit>, date: string): (r: seq<Habit>)
    ensures |r| <= |habits|
    ensures forall h :: h in r <==> h in habits && IsVisibleOn(h, date)
  {
    if habits == [] then []
    else if IsVisibleOn(habits[0], date) then [habits[0]] + ScheduledOn(habits[1..], date)
    else ScheduledOn(habits[1..], date)
  }

  /** How many of `habits` have a history entry for `date`. */
  function CountDoneOn(habits: seq<Habit>, date: string): (n: nat)
    ensures n <= |habits|
    ensures n == |habits| <==> forall i :: 0 <= i < |habits| ==> HasEntryOn(habits[i].pointHistory, date)
    ensures n == 0 <==> forall i :: 0 <= i < |habits| ==> !HasEntryOn(habits[i].pointHistory, date)
  {
    if habits == [] then 0
    else (if HasEntryOn(habits[0].pointHistory, date) then 1 else 0) + CountDoneOn(habits[1..], date)
  }

  /** `Math.round(num / den)`: the nearest integer, a half rounded up. */
  function RoundHalfUp(num: int, den: int): (r: int)
    requires den > 0
    ensures 2 * den * r - den <= 2 * num < 2 * den * r + den
  {
    var r := (2 * num + den) / (2 * den);
    assert 2 * den * r <= 2 * num + den < 2 * den * r + 2 * den;
    r
  }

  /** The completion percentage, `Math.round(done / total * 100)`; 0 for a day with nothing scheduled. */
  function Rate(done: nat, total: nat): (r: int)
    ensures total == 0 ==> r == 0
    ensures total > 0 ==> 2 * total * r - total <= 200 * done < 2 * total * r + total
  {
    if total == 0 then 0 else RoundHalfUp(100 * done, total)
  }

  /** The statistics of one day. */
  function StatFor(date: string, habits: seq<Habit>): (st: DailyStat)
    ensures st.date == date && 0 <= st.doneCount <= st.total <= |habits|
    ensures st.total == 0 ==> st.rate == 0
  {
    var scheduled := ScheduledOn(habits, date);
    var total := |scheduled|;
    var done := CountDoneOn(scheduled, date);
    DailyStat(date, total, done, Rate(done, total))
  }

  /** `dailyStats`: one entry per calendar day, in the same order. */
  function DailyStats(days: seq<string>, habits: seq<Habit>): (r: seq<DailyStat>)
    ensures |r| == |days|
    ensures forall i :: 0 <= i < |days| ==> r[i].date == days[i] && r[i].total <= |habits|
  {
    seq(|days|, i requires 0 <= i < |days| => StatFor(days[i], habits))
  }

  // ------------------------------------------------------------ properties

  /** The month has as many entries as days, each the identifier of that day, in increasing order. */
  lemma CalendarDaysShape(y: int, m: int)
    requires 0 <= y <= 9999 && 1 <= m <= 12
    ensures var c := CalendarDays(y, m);
      && |c| == DaysInMonth(y, m)
      && (forall i :: 0 <= i < |c| ==> Parse(c[i]) == Some(Date(y, m, i + 1)))
      && (forall i, j :: 0 <= i < j < |c| ==> LexLess(c[i], c[j]))
  {
    var c := CalendarDays(y, m);
    forall i, j | 0 <= i < j < |c| ensures LexLess(c[i], c[j]) {
      FormatOrder(Date(y, m, i + 1), Date(y, m, j + 1));
    }
  }

  /** Done habits are among the scheduled ones, and the rate is a percentage: 100 when every scheduled habit is done, 0 when none is. */
  lemma StatBounds(date: string, habits: seq<Habit>)
    ensures var st := StatFor(date, habits);
      && 0 <= st.doneCount <= st.total <= |habits|
      && 0 <= st.rate <= 100
      && (st.total > 0 && st.doneCount == st.total ==> st.rate == 100)
      && (st.doneCount == 0 ==> st.rate == 0)
  {
    var st := StatFor(date, habits);
    RateBounds(st.doneCount, st.total);
  }

  lemma RateBounds(done: nat, total: nat)
    requires done <= total
    ensures 0 <= Rate(done, total) <= 100
    ensures total > 0 && done == total ==> Rate(done, total) == 100
    ensures done == 0 ==> Rate(done, total) == 0
  {
    if total > 0 {
      var r := Rate(done, total);
      assert 2 * total * r - total <= 200 * done < 2 * total * r + total;
      MulMono(2 * total, r, -1);
      MulMono(2 * total, 101, r);
      MulMono(2 * total, r, 99);
      MulMono(2 * total, 1, r);
    }
  }

  /** `t * x <= t * y` for a non-negative `t` and `x <= y`. */
  lemma MulMono(t: int, x: int, y: int)
    requires t >= 0
    ensures x <= y ==> t * x <= t * y
  {
    if x <= y {
      assert t * y - t * x == t * (y - x);
    }
  }

  /** With fewer than 200 habits scheduled, the rate is 100 exactly when every one of them is done. */
  lemma FullRateMeansAllDone(done: nat, total: nat)
    requires done <= total < 200
    ensures Rate(done, total) == 100 <==> total > 0 && done == total
  {
    RateBounds(done, total);
    if total > 0 {
      var r := Rate(done, total);
      assert 2 * total * r - total <= 200 * done;
      MulMono(2 * total, 100, r);
    }
  }

  /** From 200 habits on, rounding shows 100 with one missing: 199 of 200 is 99.5, which rounds up. */
  lemma FullRateWithOneMissing()
    ensures Rate(199, 200) == 100
  {
  }

  /** A habit not scheduled on the day changes nothing, even if its history has an entry for that day. */
  lemma UnscheduledHabitIgnored(date: string, habits: seq<Habit>, h: Habit)
    requires !IsVisibleOn(h, date)
    ensures StatFor(date, habits + [h]) == StatFor(date, habits)
  {
    ScheduledOnAppend(habits, [h], date);
    assert ScheduledOn([h], date) == [];
    assert ScheduledOn(habits, date) + [] == ScheduledOn(habits, date);
  }

  /** A scheduled habit adds one to the total, and one to the done count when its history has the day. */
  lemma ScheduledHabitCounts(date: string, habits: seq<Habit>, h: Habit)
    requires IsVisibleOn(h, date)
    ensures StatFor(date, habits + [h]).total == StatFor(date, habits).total + 1
    ensures StatFor(date, habits + [h]).doneCount
         == StatFor(date, habits).doneCount + (if HasEntryOn(h.pointHistory, date) then 1 else 0)
  {
    ScheduledOnAppend(habits, [h], date);
    assert ScheduledOn([h], date) == [h];
    CountDoneOnAppend(ScheduledOn(habits, date), [h], date);
  }

  lemma {:induction false} ScheduledOnAppend(a: seq<Habit>, b: seq<Habit>, date: string)
    ensures ScheduledOn(a + b, date) == ScheduledOn(a, date) + ScheduledOn(b, date)
  {
    if a == [] {
      assert a + b == b;
    } else {
      assert (a + b)[1..] == a[1..] + b;
      ScheduledOnAppend(a[1..], b, date);
    }
  }

  lemma {:induction false} CountDoneOnAppend(a: seq<Habit>, b: seq<Habit>, date: string)
    ensures CountDoneOn(a + b, date) == CountDoneOn(a, date) + CountDoneOn(b, date)
  {
    if a == [] {
      assert a + b == b;
    } else {
      assert (a + b)[1..] == a[1..] + b;
      CountDoneOnAppend(a[1..], b, date);
    }
  }
}
