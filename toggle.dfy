/**
 * The habit toggle calculator: what happens to a habit's streak, points and
 * point history when its "done today" checkbox is clicked.
 */
module HabitToggle {
  import opened Wrappers
  import opened Text
  import opened Habits

  /**
   * The outcome of a toggle: the fields the caller writes back, the change
   * in points, and for a milestone an alert message. An uncheck carries no
   * streak and no last-completed date: those fields are not written.
   */
  datatype ToggleResult =
    | Uncheck(point: int, pointHistory: seq<PointEntry>, pointDelta: int)
    | Check(dailyStreak: int, lastCompletedDate: string, point: int,
            pointHistory: seq<PointEntry>, pointDelta: int, alertMessage: Option<string>)

  /** A streak length that earns a bonus and an alert. */
  predicate IsMilestone(streak: int) {
    streak == 3 || streak == 7 || streak == 30
  }

  /** Bonus points for reaching `streak` consecutive days. */
  function BonusPoint(streak: int): int {
    if streak == 3 then 5
    else if streak == 7 then 20
    else if streak == 30 then 100
    else 0
  }

  /** The milestone alert: a trophy, the habit's text and the streak in days. */
  function AlertText(text: string, streak: nat): string {
    "\U{1F3C6} " + text + "\U{FF1A}" + NatToString(streak) + "日達成！"
  }

  /** No entry of `history` is dated `day`. */
  predicate NoEntryOn(history: seq<PointEntry>, day: string) {
    forall i :: 0 <= i < |history| ==> history[i].date != day
  }

  /** Index of the first entry dated `day`, or `|history|` when there is none. */
  function FirstIndexOn(history: seq<PointEntry>, day: string): (k: nat)
    ensures k <= |history| && NoEntryOn(history[..k], day)
    ensures k < |history| <==> HasEntryOn(history, day)
    ensures k < |history| ==> history[k].date == day
  {
    if history == [] then 0
    else if history[0].date == day then 0
    else
      var k := 1 + FirstIndexOn(history[1..], day);
      assert forall i :: 1 <= i < k ==> history[..k][i] == history[1..][..k - 1][i - 1];
      k
  }

  /** The point of the first entry dated `day` (`history.find(p => p.date === day)?.point`). */
  function FirstPointOn(history: seq<PointEntry>, day: string): Option<int> {
    var k := FirstIndexOn(history, day);
    if k < |history| then Some(history[k].point) else None
  }

  /** The history without any entry dated `day`, the rest in order (`history.filter(p => p.date !== day)`). */
  function RemoveDay(history: seq<PointEntry>, day: string): (r: seq<PointEntry>)
    ensures |r| <= |history|
    ensures NoEntryOn(r, day)
    ensures forall e :: e in r <==> e in history && e.date != day
  {
    if history == [] then []
    else if history[0].date == day then RemoveDay(history[1..], day)
    else [history[0]] + RemoveDay(history[1..], day)
  }

  /**
   * `calcToggleHabit(h, today, yesterday)`: an uncheck exactly when today
   * already has an entry, and then exactly the other days' entries are
   * left; a check otherwise, which
   * earns at least a point and adds today's entry after the old history.
   * Either way the new total is the old one (`point ?? 0`) plus the delta.
   */
  function CalcToggle(h: Habit, today: string, yesterday: string): (r: ToggleResult)
    ensures r.Uncheck? <==> HasEntryOn(h.pointHistory, today)
    ensures r.Uncheck? ==> forall e :: e in r.pointHistory <==> e in h.pointHistory && e.date != today
    ensures r.Check? ==> && r.pointDelta >= 1 && r.lastCompletedDate == today
                         && |r.pointHistory| == |h.pointHistory| + 1
                         && r.pointHistory[..|h.pointHistory|] == h.pointHistory
                         && r.pointHistory[|h.pointHistory|].date == today
    ensures r.point == OrZero(h.point) + r.pointDelta
  {
    var currentPoint := OrZero(h.point);
    var todayEntry := FirstPointOn(h.pointHistory, today);
    if todayEntry.Some? then
      var minus := todayEntry.value;
      Uncheck(currentPoint - minus, RemoveDay(h.pointHistory, today), -minus)
    else
      var newStreak := if h.lastCompletedDate == Some(yesterday) then h.dailyStreak + 1 else 1;
      var earned := 1 + BonusPoint(newStreak);
      var alert := if IsMilestone(newStreak) then Some(AlertText(h.text, newStreak)) else None;
      Check(newStreak, today, currentPoint + earned, h.pointHistory + [PointEntry(today, earned)], earned, alert)
  }

  /** The caller's write-back: the returned fields replace the stored ones, nothing else changes. */
  function Apply(h: Habit, r: ToggleResult): (h': Habit)
    ensures h'.id == h.id && h'.text == h.text && h'.kind == h.kind && h'.daysOfWeek == h.daysOfWeek
    ensures h'.point == Some(r.point) && h'.pointHistory == r.pointHistory
    ensures r.Uncheck? ==> h'.dailyStreak == h.dailyStreak && h'.lastCompletedDate == h.lastCompletedDate
    ensures r.Check? ==> h'.dailyStreak == r.dailyStreak && h'.lastCompletedDate == Some(r.lastCompletedDate)
  {
    match r
    case Uncheck(p, hist, _) => h.(point := Some(p), pointHistory := hist)
    case Check(streak, last, p, hist, _, _) =>
      h.(dailyStreak := streak, lastCompletedDate := Some(last), point := Some(p), pointHistory := hist)
  }

  // ------------------------------------------------------------ properties

  /** The toggle unchecks exactly when the history already has an entry for today. */
  lemma ToggleDecision(h: Habit, today: string, yesterday: string)
    ensures CalcToggle(h, today, yesterday).Uncheck? <==> HasEntryOn(h.pointHistory, today)
  {
  }

  /**
   * Unchecking drops every entry dated today, takes back the points of the
   * first of them, and leaves the streak and the last completion date as they were.
   */
  lemma UncheckEffect(h: Habit, today: string, yesterday: string)
    requires HasEntryOn(h.pointHistory, today)
    ensures var r := CalcToggle(h, today, yesterday);
      && r.Uncheck?
      && (var i := FirstIndexOn(h.pointHistory, today);
          r.pointDelta == -h.pointHistory[i].point
          && r.point == OrZero(h.point) - h.pointHistory[i].point)
      && r.pointHistory == RemoveDay(h.pointHistory, today)
      && !HasEntryOn(r.pointHistory, today)
      && var h' := Apply(h, r);
         h'.dailyStreak == h.dailyStreak && h'.lastCompletedDate == h.lastCompletedDate
         && h'.text == h.text && h'.kind == h.kind && h'.daysOfWeek == h.daysOfWeek
  {
  }

  /** Removing a day's entries works piecewise, so the kept entries stay in their order. */
  lemma {:induction false} RemoveDayAppend(a: seq<PointEntry>, b: seq<PointEntry>, day: string)
    ensures RemoveDay(a + b, day) == RemoveDay(a, day) + RemoveDay(b, day)
  {
    if a != [] {
      assert (a + b)[1..] == a[1..] + b;
      RemoveDayAppend(a[1..], b, day);
    } else {
      assert a + b == b;
    }
  }

  /** A history with no entry for the day is left exactly as it is. */
  lemma {:induction false} RemoveDayAbsent(history: seq<PointEntry>, day: string)
    requires NoEntryOn(history, day)
    ensures RemoveDay(history, day) == history
  {
    if history != [] {
      RemoveDayAbsent(history[1..], day);
    }
  }

  /**
   * Checking extends the streak when the last completion was yesterday and
   * restarts it at 1 otherwise, earns 1 point plus the streak bonus, and
   * appends today's entry after the unchanged history.
   */
  lemma CheckEffect(h: Habit, today: string, yesterday: string)
    requires !HasEntryOn(h.pointHistory, today)
    ensures var r := CalcToggle(h, today, yesterday);
      && r.Check?
      && r.dailyStreak == (if h.lastCompletedDate == Some(yesterday) then h.dailyStreak + 1 else 1)
      && r.pointDelta == 1 + BonusPoint(r.dailyStreak) >= 1
      && r.pointHistory == h.pointHistory + [PointEntry(today, r.pointDelta)]
      && r.point == OrZero(h.point) + r.pointDelta
      && r.lastCompletedDate == today
      && HasEntryOn(r.pointHistory, today)
  {
    var r := CalcToggle(h, today, yesterday);
    assert r.pointHistory[|h.pointHistory|].date == today;
  }

  /** Points per completion: 1, or 6, 21 and 101 on reaching 3, 7 and 30 days; a bonus exactly at a milestone. */
  lemma BonusTable(streak: int)
    ensures BonusPoint(streak) > 0 <==> IsMilestone(streak)
    ensures BonusPoint(streak) >= 0
    ensures 1 + BonusPoint(3) == 6 && 1 + BonusPoint(7) == 21 && 1 + BonusPoint(30) == 101
  {
  }

  /** A check raises an alert exactly at a milestone streak, and only a check does. */
  lemma AlertAtMilestones(h: Habit, today: string, yesterday: string)
    ensures var r := CalcToggle(h, today, yesterday);
      r.Check? ==> ((r.alertMessage.Some? <==> IsMilestone(r.dailyStreak))
        && (r.alertMessage.Some? ==> r.alertMessage.value == AlertText(h.text, r.dailyStreak)))
  {
  }

  /** The alert names the habit and spells the streak in decimal. */
  lemma AlertNamesHabitAndStreak(text: string, streak: nat)
    ensures var m := AlertText(text, streak);
      var n := |NatToString(streak)|;
      && |m| == 3 + |text| + n + 4
      && m[2..2 + |text|] == text
      && AllDigits(m[3 + |text|..3 + |text| + n])
      && DigitsToNat(m[3 + |text|..3 + |text| + n]) == streak
  {
    var m := AlertText(text, streak);
    var n := |NatToString(streak)|;
    assert m[3 + |text|..3 + |text| + n] == NatToString(streak);
    NatToStringRoundTrip(streak);
  }

  /**
   * Check then uncheck on the same day, from a history without that day,
   * gives back the points and the history; the streak and the last
   * completion date keep the values the check gave them.
   */
  lemma CheckThenUncheck(h: Habit, today: string, yesterday: string, yesterday2: string)
    requires !HasEntryOn(h.pointHistory, today)
    ensures var r1 := CalcToggle(h, today, yesterday);
      var h1 := Apply(h, r1);
      var r2 := CalcToggle(h1, today, yesterday2);
      var h2 := Apply(h1, r2);
      && r1.Check? && r2.Uncheck?
      && r1.pointDelta + r2.pointDelta == 0
      && h2.point == Some(OrZero(h.point))
      && h2.pointHistory == h.pointHistory
      && h2.dailyStreak == r1.dailyStreak
      && h2.lastCompletedDate == Some(today)
  {
    var r1 := CalcToggle(h, today, yesterday);
    CheckEffect(h, today, yesterday);
    var e := PointEntry(today, r1.pointDelta);
    var h1 := Apply(h, r1);
    assert h1.pointHistory == h.pointHistory + [e];
    FirstIndexAfterAbsent(h.pointHistory, e, today);
    assert FirstPointOn(h1.pointHistory, today) == Some(r1.pointDelta);
    RemoveDayAppend(h.pointHistory, [e], today);
    RemoveDayAbsent(h.pointHistory, today);
    assert RemoveDay(h1.pointHistory, today) == h.pointHistory;
  }

  /** Appending an entry for a day the history lacks makes that entry the first for the day. */
  lemma FirstIndexAfterAbsent(history: seq<PointEntry>, e: PointEntry, day: string)
    requires !HasEntryOn(history, day) && e.date == day
    ensures FirstIndexOn(history + [e], day) == |history|
  {
    var s := history + [e];
    assert forall i :: 0 <= i < |history| ==> s[i] == history[i] && s[i].date != day;
    assert s[|history|].date == day;
  }

  // ------------------------------------------------------- ledger invariant

  /** No two history entries share a date. */
  predicate AtMostOnePerDay(history: seq<PointEntry>) {
    forall i, j :: 0 <= i < j < |history| ==> history[i].date != history[j].date
  }

  function SumPoints(history: seq<PointEntry>): int {
    if history == [] then 0 else history[0].point + SumPoints(history[1..])
  }

  /** The stored total equals the points recorded in the history, one entry per day. */
  predicate Ledger(h: Habit) {
    AtMostOnePerDay(h.pointHistory) && OrZero(h.point) == SumPoints(h.pointHistory)
  }

  lemma {:induction false} SumPointsAppend(a: seq<PointEntry>, e: PointEntry)
    ensures SumPoints(a + [e]) == SumPoints(a) + e.point
  {
    if a != [] {
      assert (a + [e])[1..] == a[1..] + [e];
      SumPointsAppend(a[1..], e);
    }
  }

  lemma AtMostOnePerDayTail(history: seq<PointEntry>)
    requires history != [] && AtMostOnePerDay(history)
    ensures AtMostOnePerDay(history[1..])
    ensures NoEntryOn(history[1..], history[0].date)
  {
    var tail := history[1..];
    forall i, j | 0 <= i < j < |tail| ensures tail[i].date != tail[j].date {
      assert tail[i] == history[i + 1] && tail[j] == history[j + 1];
    }
    forall i | 0 <= i < |tail| ensures tail[i].date != history[0].date {
      assert tail[i] == history[i + 1];
    }
  }

  lemma {:induction false} RemoveDayKeepsOnePerDay(history: seq<PointEntry>, day: string)
    requires AtMostOnePerDay(history)
    ensures AtMostOnePerDay(RemoveDay(history, day))
  {
    if history != [] {
      var tail := history[1..];
      AtMostOnePerDayTail(history);
      RemoveDayKeepsOnePerDay(tail, day);
      if history[0].date != day {
        RemoveDayKeepsAbsence(tail, day, history[0].date);
        ConsOnePerDay(history[0], RemoveDay(tail, day));
      }
    }
  }

  lemma ConsOnePerDay(e: PointEntry, s: seq<PointEntry>)
    requires AtMostOnePerDay(s) && NoEntryOn(s, e.date)
    ensures AtMostOnePerDay([e] + s)
  {
    var r := [e] + s;
    forall i, j | 0 <= i < j < |r| ensures r[i].date != r[j].date {
      assert r[j] == s[j - 1];
      if i > 0 {
        assert r[i] == s[i - 1];
      }
    }
  }

  lemma RemoveDayKeepsAbsence(history: seq<PointEntry>, day: string, other: string)
    requires NoEntryOn(history, other)
    ensures NoEntryOn(RemoveDay(history, day), other)
  {
    var r := RemoveDay(history, day);
    forall k | 0 <= k < |r| ensures r[k].date != other {
      assert r[k] in r;
      var i :| 0 <= i < |history| && history[i] == r[k];
    }
  }

  lemma {:induction false} SumPointsRemoveDay(history: seq<PointEntry>, day: string)
    requires AtMostOnePerDay(history) && HasEntryOn(history, day)
    ensures SumPoints(RemoveDay(history, day)) == SumPoints(history) - FirstPointOn(history, day).value
  {
    var tail := history[1..];
    AtMostOnePerDayTail(history);
    if history[0].date == day {
      RemoveDayAbsent(tail, day);
    } else {
      var k := FirstIndexOn(history, day);
      assert tail[k - 1] == history[k];
      assert FirstIndexOn(history, day) == 1 + FirstIndexOn(tail, day);
      SumPointsRemoveDay(tail, day);
    }
  }

  /** Toggling keeps the ledger: one entry per day, and the total agrees with the history. */
  lemma ToggleKeepsLedger(h: Habit, today: string, yesterday: string)
    requires Ledger(h)
    ensures Ledger(Apply(h, CalcToggle(h, today, yesterday)))
  {
    if HasEntryOn(h.pointHistory, today) {
      SumPointsRemoveDay(h.pointHistory, today);
      RemoveDayKeepsOnePerDay(h.pointHistory, today);
    } else {
      var r := CalcToggle(h, today, yesterday);
      var e := PointEntry(today, r.pointDelta);
      SumPointsAppend(h.pointHistory, e);
      var hist := h.pointHistory + [e];
      assert AtMostOnePerDay(hist) by {
        forall i, j | 0 <= i < j < |hist| ensures hist[i].date != hist[j].date {
          if j == |h.pointHistory| {
            assert hist[i] == h.pointHistory[i];
          }
        }
      }
    }
  }

  /**
   * With two entries for today (which the calculator itself never creates),
   * an uncheck removes both but takes back only the first one's points.
   */
  lemma DuplicateDayBreaksLedger()
    ensures var h := Habit("h", "run", Daily, None, 1, Some("2024-01-15"), Some(2),
                           [PointEntry("2024-01-15", 1), PointEntry("2024-01-15", 1)]);
      var h' := Apply(h, CalcToggle(h, "2024-01-15", "2024-01-14"));
      h'.pointHistory == [] && h'.point == Some(1) && !Ledger(h')
  {
    var hist := [PointEntry("2024-01-15", 1), PointEntry("2024-01-15", 1)];
    assert hist[1..] == [PointEntry("2024-01-15", 1)];
    assert hist[1..][1..] == [];
  }

  // ------------------------------------------------------------- scenarios

  /** A new habit's first toggle: a check with streak 1, 1 point and one entry for today. */
  lemma FirstToggleOfNewHabit(id: string, text: string, kind: HabitType, days: seq<int>, today: string, yesterday: string)
    requires !IsBlank(text)
    ensures NewHabit(id, text, kind, days).Some?
    ensures var h := NewHabit(id, text, kind, days).value;
      var r := CalcToggle(h, today, yesterday);
      && r.Check? && r.dailyStreak == 1 && r.point == 1 && r.pointDelta == 1
      && r.pointHistory == [PointEntry(today, 1)] && r.alertMessage == None
  {
  }

  /** Reaching a three-day streak: 6 points (1 + 5 bonus) and an alert. */
  lemma ThirdDayScenario()
    ensures var h := Habit("h", "run", Daily, None, 2, Some("2024-01-14"), Some(2),
                           [PointEntry("2024-01-13", 1), PointEntry("2024-01-14", 1)]);
      var r := CalcToggle(h, "2024-01-15", "2024-01-14");
      && r.Check? && r.dailyStreak == 3 && r.point == 8 && r.pointDelta == 6
      && r.pointHistory == h.pointHistory + [PointEntry("2024-01-15", 6)]
      && r.alertMessage.Some?
  {
    var h := Habit("h", "run", Daily, None, 2, Some("2024-01-14"), Some(2),
                   [PointEntry("2024-01-13", 1), PointEntry("2024-01-14", 1)]);
    assert h.pointHistory[0].date != "2024-01-15";
    assert h.pointHistory[1].date != "2024-01-15";
    assert !HasEntryOn(h.pointHistory, "2024-01-15");
  }
}
