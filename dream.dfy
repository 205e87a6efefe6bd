/**
 * The rules inside `DreamView`: the guards on saving the dream and on
 * adding or renaming a goal, the achieved-goals counter kept in the
 * profile statistics when a goal is checked or unchecked, the notice that
 * a feature was unlocked, and the order in which goals are listed.
 */
module Dream {
  import opened Wrappers
  import opened Text
  import opened StableSort

  datatype Goal = Goal(id: string, title: string, deadline: Option<string>, done: bool)

  /** The statistics kept in a user's profile; every field may be missing. */
  datatype ProfileStats = ProfileStats(
    loginDays: Option<int>,
    continuousLoginDays: Option<int>,
    maxContinuousLoginDays: Option<int>,
    maxStreak: Option<int>,
    goalsCreatedCount: Option<int>,
    habitsCreatedCount: Option<int>,
    goalsAchievedCount: Option<int>,
    lastActionDate: Option<string>,
    goalsAddedToday: Option<int>,
    todosAddedToday: Option<int>,
    habitsAddedToday: Option<int>)

  /** `{}`: a profile without statistics. */
  function EmptyStats(): ProfileStats {
    ProfileStats(None, None, None, None, None, None, None, None, None, None, None)
  }

  // ---------------------------------------------------------- input guards

  /** The first save of the dream: the dream stored, or `None` when nothing is saved. */
  function SaveFirstDream(uid: Option<string>, input: string): (r: Option<string>)
    ensures r.Some? ==> Truthy(uid) && r.value != "" && Trim(r.value) == r.value
    ensures r.Some? ==> r.value == Trim(input)
  {
    TrimIdempotent(input);
    if !Truthy(uid) || Trim(input) == "" then None else Some(Trim(input))
  }

  /** Saving an edited dream: stores the trimmed text whatever it is. */
  function SaveEditedDream(uid: Option<string>, input: string): (r: Option<string>)
    ensures r.Some? <==> Truthy(uid)
    ensures r.Some? ==> Trim(r.value) == r.value
    ensures r.Some? ==> r.value == Trim(input)
  {
    TrimIdempotent(input);
    if !Truthy(uid) then None else Some(Trim(input))
  }

  /** The goal the add button asks to store: trimmed title, and a deadline only when one was entered. */
  datatype NewGoal = NewGoal(title: string, deadline: Option<string>)

  /**
   * The add button. `withinLimit` is the answer of the daily limit check,
   * which is asked only once the title is known not to be blank.
   */
  function AddGoal(uid: Option<string>, titleInput: string, deadline: string, withinLimit: bool): (r: Option<NewGoal>)
    ensures r.Some? ==> && Truthy(uid) && withinLimit
                        && r.value.title != "" && Trim(r.value.title) == r.value.title
                        && r.value.title == Trim(titleInput)
                        && r.value.deadline != Some("")
  {
    TrimIdempotent(titleInput);
    if !Truthy(uid) || Trim(titleInput) == "" then None
    else if !withinLimit then None
    else Some(NewGoal(Trim(titleInput), if deadline == "" then None else Some(deadline)))
  }

  /**
   * Leaving the title box of a goal: the new title, or `None` when the goal is
   * not updated. The source guards it exactly as the first save of the dream
   * (signed in, text not blank, trimmed text stored), so it is that rule.
   */
  function RenameGoal(uid: Option<string>, text: string): (r: Option<string>)
    ensures r.Some? ==> Truthy(uid) && r.value != "" && Trim(r.value) == r.value
    ensures r.Some? ==> r.value == Trim(text)
  {
    SaveFirstDream(uid, text)
  }

  // ------------------------------------------------ checking and unchecking

  /** The achieved-goals count after a goal becomes done (`newDone`) or not done; a missing count is 0. */
  function NewAchievedCount(newDone: bool, current: Option<int>): (c: int)
    ensures newDone ==> c > OrZero(current)
    ensures !newDone ==> 0 <= c && OrZero(current) - 1 <= c && (OrZero(current) >= 1 ==> c < OrZero(current))
  {
    var c := OrZero(current);
    if newDone then c + 1 else if c - 1 > 0 then c - 1 else 0
  }

  /** The statistics written back: the old ones, or none, with the new count. */
  function ToggledStats(stats: Option<ProfileStats>, newDone: bool): (r: ProfileStats)
    ensures r.goalsAchievedCount.Some?
    ensures r.(goalsAchievedCount := stats.GetOr(EmptyStats()).goalsAchievedCount) == stats.GetOr(EmptyStats())
  {
    var cur := stats.GetOr(EmptyStats());
    cur.(goalsAchievedCount := Some(NewAchievedCount(newDone, cur.goalsAchievedCount)))
  }

  /** The feature-unlock notice is shown when a goal becomes done and the new count is 30. */
  predicate UnlockNotice(newDone: bool, newCount: int) {
    newDone && newCount == 30
  }

  // ------------------------------------------------------------- the list

  /** The sort key of the listing: goals not done sort before done ones. */
  function DoneKey(g: Goal): int {
    if g.done then 1 else 0
  }

  /** `[...goals].sort(...)` with the comparator that puts done goals after the others. */
  function DisplayOrder(goals: seq<Goal>): (r: seq<Goal>)
    ensures multiset(r) == multiset(goals)
    ensures forall i, j :: 0 <= i < j < |r| && r[i].done ==> r[j].done
  {
    SortBySorted(goals, DoneKey);
    SortBy(goals, DoneKey)
  }

  function NotDone(goals: seq<Goal>): (r: seq<Goal>)
    ensures forall i :: 0 <= i < |r| ==> !r[i].done
  {
    if goals == [] then []
    else if goals[0].done then NotDone(goals[1..])
    else [goals[0]] + NotDone(goals[1..])
  }

  function DoneGoals(goals: seq<Goal>): (r: seq<Goal>)
    ensures forall i :: 0 <= i < |r| ==> r[i].done
  {
    if goals == [] then []
    else if goals[0].done then [goals[0]] + DoneGoals(goals[1..])
    else DoneGoals(goals[1..])
  }

  // ================================================================ properties

  /** The first save stores something exactly when signed in with text that is not all white space, and then the trimmed text. */
  lemma FirstDreamGuard(uid: Option<string>, input: string)
    ensures SaveFirstDream(uid, input).Some? <==> Truthy(uid) && !IsBlank(input)
    ensures SaveFirstDream(uid, input).Some? ==>
      var d := SaveFirstDream(uid, input).value;
      d != "" && Trim(d) == d && d == Trim(input)
  {
    TrimEmptyIffBlank(input);
    TrimIdempotent(input);
  }

  /** An edited dream is stored whenever signed in, and is empty exactly when the input was white space only. */
  lemma EditedDreamMayBeEmpty(uid: Option<string>, input: string)
    requires Truthy(uid)
    ensures SaveEditedDream(uid, input).Some?
    ensures SaveEditedDream(uid, input).value == "" <==> IsBlank(input)
    ensures Trim(SaveEditedDream(uid, input).value) == SaveEditedDream(uid, input).value
    ensures SaveEditedDream(uid, input).value == Trim(input)
  {
    TrimEmptyIffBlank(input);
    TrimIdempotent(input);
  }

  /** A goal is added exactly when signed in, the title is not blank and the limit allows it; it is stored trimmed, with no deadline when none was entered. */
  lemma AddGoalGuard(uid: Option<string>, titleInput: string, deadline: string, withinLimit: bool)
    ensures AddGoal(uid, titleInput, deadline, withinLimit).Some?
       <==> Truthy(uid) && !IsBlank(titleInput) && withinLimit
    ensures AddGoal(uid, titleInput, deadline, withinLimit).Some? ==>
      var g := AddGoal(uid, titleInput, deadline, withinLimit).value;
      && g.title != "" && Trim(g.title) == g.title && g.title == Trim(titleInput)
      && (g.deadline == None <==> deadline == "")
      && (g.deadline.Some? ==> g.deadline.value == deadline)
  {
    TrimEmptyIffBlank(titleInput);
    TrimIdempotent(titleInput);
  }

  /** A blank title leaves the goal as it was; any other is stored trimmed. */
  lemma RenameGoalGuard(uid: Option<string>, text: string)
    ensures IsBlank(text) ==> RenameGoal(uid, text) == None
    ensures Truthy(uid) && !IsBlank(text) ==>
      RenameGoal(uid, text).Some? && RenameGoal(uid, text).value != "" && Trim(RenameGoal(uid, text).value) == RenameGoal(uid, text).value
    ensures RenameGoal(uid, text).Some? ==> RenameGoal(uid, text).value == Trim(text)
  {
    TrimEmptyIffBlank(text);
    TrimIdempotent(text);
  }

  /** Checking adds one, unchecking takes one off but never goes below 0, and a missing count counts as 0. */
  lemma AchievedCountRule(newDone: bool, current: Option<int>)
    ensures NewAchievedCount(newDone, current) == NewAchievedCount(newDone, Some(OrZero(current)))
    ensures current == None ==> NewAchievedCount(newDone, current) == (if newDone then 1 else 0)
    ensures !newDone ==> NewAchievedCount(newDone, current) >= 0
    ensures !newDone ==> NewAchievedCount(newDone, current) >= OrZero(current) - 1
    ensures !newDone && OrZero(current) >= 1 ==> NewAchievedCount(newDone, current) == OrZero(current) - 1
    ensures newDone ==> NewAchievedCount(newDone, current) == OrZero(current) + 1
  {
  }

  /** Starting from a count that is not negative, no sequence of checks and unchecks makes it negative. */
  lemma {:induction false} AchievedCountNeverNegative(c: int, flips: seq<bool>)
    requires c >= 0
    ensures Replay(c, flips) >= 0
    decreases |flips|
  {
    if flips != [] {
      AchievedCountNeverNegative(NewAchievedCount(flips[0], Some(c)), flips[1..]);
    }
  }

  /** The count after a sequence of checks (`true`) and unchecks (`false`). */
  function Replay(c: int, flips: seq<bool>): int
    decreases |flips|
  {
    if flips == [] then c else Replay(NewAchievedCount(flips[0], Some(c)), flips[1..])
  }

  /** Checking then unchecking restores any count that is not negative; unchecking then checking restores it only from 1 up. */
  lemma CheckThenUncheck(c: int)
    requires c >= 0
    ensures NewAchievedCount(false, Some(NewAchievedCount(true, Some(c)))) == c
    ensures c >= 1 ==> NewAchievedCount(true, Some(NewAchievedCount(false, Some(c)))) == c
    ensures NewAchievedCount(true, Some(NewAchievedCount(false, Some(0)))) == 1
  {
  }

  /** Toggling a goal changes only the achieved-goals count of the statistics. */
  lemma ToggleChangesOnlyTheCount(stats: ProfileStats, newDone: bool)
    ensures var r := ToggledStats(Some(stats), newDone);
      && r.goalsAchievedCount == Some(NewAchievedCount(newDone, stats.goalsAchievedCount))
      && r.(goalsAchievedCount := stats.goalsAchievedCount) == stats
    ensures ToggledStats(None, newDone) == EmptyStats().(goalsAchievedCount := Some(if newDone then 1 else 0))
  {
  }

  /** The unlock notice appears exactly when a goal is checked while 29 goals were counted achieved. */
  lemma UnlockAtThirty(newDone: bool, current: Option<int>)
    ensures UnlockNotice(newDone, NewAchievedCount(newDone, current)) <==> newDone && OrZero(current) == 29
  {
  }

  lemma {:induction false} InsertIntoGroups(x: Goal, u: seq<Goal>, d: seq<Goal>)
    requires forall i :: 0 <= i < |u| ==> !u[i].done
    requires forall i :: 0 <= i < |d| ==> d[i].done
    ensures Insert(x, u + d, DoneKey) == if x.done then u + [x] + d else [x] + u + d
  {
    if u == [] {
      assert u + d == d;
    } else if x.done {
      assert (u + d)[0] == u[0] && (u + d)[1..] == u[1..] + d;
      InsertIntoGroups(x, u[1..], d);
      assert u + [x] + d == [u[0]] + (u[1..] + [x] + d);
    }
  }

  /** The goals are listed not-done first, then done, each group in its original order. */
  lemma {:induction false} DisplayOrderGroups(goals: seq<Goal>)
    ensures DisplayOrder(goals) == NotDone(goals) + DoneGoals(goals)
  {
    if goals != [] {
      DisplayOrderGroups(goals[1..]);
      InsertIntoGroups(goals[0], NotDone(goals[1..]), DoneGoals(goals[1..]));
    }
  }

  /** The listing holds the same goals, not-done before done, and keeps the order within each group; any stable sort gives the same listing. */
  lemma DisplayOrderSpec(goals: seq<Goal>, other: seq<Goal>)
    ensures multiset(DisplayOrder(goals)) == multiset(goals)
    ensures forall i, j :: 0 <= i < j < |DisplayOrder(goals)| ==> DoneKey(DisplayOrder(goals)[i]) <= DoneKey(DisplayOrder(goals)[j])
    ensures forall k :: WithKey(DisplayOrder(goals), DoneKey, k) == WithKey(goals, DoneKey, k)
    ensures SortedBy(other, DoneKey) && (forall k :: WithKey(other, DoneKey, k) == WithKey(goals, DoneKey, k))
      ==> other == DisplayOrder(goals)
  {
    SortBySorted(goals, DoneKey);
    forall k ensures WithKey(DisplayOrder(goals), DoneKey, k) == WithKey(goals, DoneKey, k) {
      SortByStable(goals, DoneKey, k);
    }
    if SortedBy(other, DoneKey) && (forall k :: WithKey(other, DoneKey, k) == WithKey(goals, DoneKey, k)) {
      StableSortUnique(goals, other, DoneKey);
    }
  }
}
