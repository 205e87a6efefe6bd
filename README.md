# Habit tracker core, modelled in Dafny

The application is a habit tracker with goals, a bucket list and friends. This
project models the logic that decides anything, as pure functions over plain
data, and proves what that logic promises:

- **Toggling a habit** (`calcToggleHabit`). A habit is checked or unchecked for
  today. A check extends or restarts the daily streak and earns 1 point plus a
  bonus at 3, 7 and 30 days. It appends today's entry to the point history and
  raises an alert at those streaks. An uncheck removes today's entries and takes
  back their points. It never rolls back the streak or the last completion date.
  The record a new habit starts from is modelled too.
- **The title catalog** (`TITLE_DEFINITIONS`). It holds 36 achievements, each
  with an id, a category, a bonus and a condition on the user's statistics. A
  missing statistic counts as 0. The level is `floor(totalPoints / 100) + 1`.
  The current time is a parameter.
- **Weekly visibility** (`isHabitVisibleOnDate`). It is modelled on a civil
  calendar: day identifiers `YYYY-MM-DD`, days per month, and the weekday from
  a day count with 0 = Sunday.
- **The monthly calendar** (`useHabitCalendar`). It gives the days of a month,
  and for each day the habits scheduled, how many of those were done, and the
  rounded completion percentage.
- **Rules inside view components**:
  - the bucket list of 100 items: loading, editing, reset, the title suffix,
    progress and the overdue mark;
  - the dream and goal input guards, the achieved-goals counter, the feature
    notice and the goal listing order;
  - the friend view's last-login label, activity feed, follow button and
    registration checks.

`Array.prototype.sort` is stable for a consistent comparator. It is modelled
by an insertion sort by integer key (module `StableSort`). The sort is proved
ordered, a permutation and stable. It is also proved to be the only sequence
with those three properties, so it gives what any stable sort gives.

Missing fields (`null`/`undefined`) are `Option`. JavaScript's `x || 0` is
`OrZero`, and the truthiness of a string or `null` is `Truthy`. Strings are
sequences of characters. `trim` removes the ECMAScript white-space and
line-terminator characters.

## Model

| member | source | states |
|---|---|---|
| Habits.NewHabit | lib/habitActions.ts:12-32 | a habit text that is blank once trimmed adds nothing; otherwise the record keeps the id, the text as typed and the type, lists the weekdays exactly when the habit is weekly, and starts with streak 0, no last completion, 0 points and an empty history |
| HabitToggle.CalcToggle | lib/habits/calcToggleHabit.ts:42-100 | an uncheck exactly when today already has an entry, after which only the other days' entries are left; otherwise a check that earns at least one point, records today, and appends today's entry after the old history; in both cases the new total is `point ?? 0` plus the delta |
| HabitToggle.Apply | lib/habits/calcToggleHabit.ts:12-41 | writing back the result's `fields` replaces the point total and history; a check also sets the streak and last completion date, an uncheck leaves them; id, text, type and weekdays never change |
| HabitToggle.FirstIndexOn | lib/habits/calcToggleHabit.ts:51-52 | the index found is the first entry dated today, and one is found exactly when the history has an entry for today |
| HabitToggle.RemoveDay | lib/habits/calcToggleHabit.ts:58 | the filtered history has no entry for the day and keeps exactly the entries of other days |
| HabitToggle.ToggleDecision | lib/habits/calcToggleHabit.ts:51-55 | the toggle unchecks exactly when some history entry is dated today, and checks otherwise |
| HabitToggle.UncheckEffect | lib/habits/calcToggleHabit.ts:55-68 | uncheck removes every entry dated today and subtracts the first one's point from `point ?? 0`; the delta is minus that point; streak, last completion date and the other fields are unchanged |
| HabitToggle.RemoveDayAppend | lib/habits/calcToggleHabit.ts:58 | removing a day's entries works piecewise over concatenation, so the kept entries stay in order |
| HabitToggle.CheckEffect | lib/habits/calcToggleHabit.ts:71-98 | check sets the streak to `dailyStreak + 1` after a completion yesterday and to 1 otherwise; it earns `1 + bonus >= 1`, appends today's entry after the unchanged history, adds the points to `point ?? 0` and records today as the last completion |
| HabitToggle.BonusTable | lib/habits/calcToggleHabit.ts:35-40 | the bonus is positive exactly at streaks 3, 7 and 30, never negative, and a completion then earns 6, 21 and 101 points |
| HabitToggle.AlertAtMilestones | lib/habits/calcToggleHabit.ts:85-88 | a check carries an alert exactly when the new streak is 3, 7 or 30 |
| HabitToggle.AlertNamesHabitAndStreak | lib/habits/calcToggleHabit.ts:87 | the alert text contains the habit's text and the streak written in decimal, which reads back as the streak |
| HabitToggle.CheckThenUncheck | lib/habits/calcToggleHabit.ts:51-98 | check then uncheck on the same day, from a history without that day, restores the points and the history; the deltas cancel; streak and last completion keep the checked values |
| HabitToggle.ToggleKeepsLedger | lib/habits/calcToggleHabit.ts:47-98 | if the history has at most one entry per day and the stored total is their sum, both still hold after any toggle |
| HabitToggle.SumPointsRemoveDay | lib/habits/calcToggleHabit.ts:56-58 | with one entry per day, removing today's entries lowers the history's sum by exactly the point the uncheck subtracts |
| HabitToggle.DuplicateDayBreaksLedger | lib/habits/calcToggleHabit.ts:56-64 | with two entries for today, an uncheck removes both but subtracts only one point, so total and history disagree |
| HabitToggle.FirstToggleOfNewHabit | lib/habits/calcToggleHabit.ts:72-98 | a new habit's first toggle is a check with streak 1, one point, a single entry for today and no alert |
| HabitToggle.ThirdDayScenario | lib/habits/calcToggleHabit.ts:72-98 | checking the day after a two-day streak gives streak 3, 6 points (1 + 5) and an alert |
| Titles.LevelOf | lib/titles.ts:206 | the level `floor(t / 100) + 1` is the `l` with `100 * (l - 1) <= t < 100 * l` |
| Titles.Holds | lib/titles.ts:14-321 | a level condition holds exactly when `(totalPoints or 0) >= 100 * (level - 1)` |
| Titles.Catalog | lib/titles.ts:14-321 | the catalog has 36 titles |
| Titles.Satisfied | lib/titles.ts:14-321 | the satisfied titles are no more than the listed ones, and each of them has a condition that holds |
| Titles.CatalogIdsAndBonuses | lib/titles.ts:14-321 | the catalog has 36 titles, their ids are pairwise distinct and every bonus is positive |
| Titles.EmptyStatsEarnNothing | lib/titles.ts:14-321 | with every statistic missing, no title's condition holds, at any time |
| Titles.LevelIff | lib/titles.ts:206 | `floor(t / 100) + 1 >= n` exactly when `t >= 100 * (n - 1)`, for every integer total |
| Titles.LevelConditionIff | lib/titles.ts:200-255 | a level condition holds exactly when `(totalPoints or 0) >= 100 * (level - 1)` |
| Titles.HoldsMonotone | lib/titles.ts:14-321 | every condition keeps holding when the statistics grow, the first login is no later and the time is later |
| Titles.SatisfiedMembers | lib/titles.ts:5-12 | the satisfied titles are exactly the listed titles whose check holds |
| Titles.SatisfiedGrows | lib/titles.ts:14-321 | a title satisfied for some statistics stays satisfied for larger ones |
| Titles.CatalogChains | lib/titles.ts:26-255 | in the login, point, streak and level blocks, each title asks for strictly more of the same measure than every earlier one |
| Titles.ChainHoldsDownward | lib/titles.ts:26-197 | in such a chain, a title holding implies every earlier title holds |
| Titles.SevenLoginDays | lib/titles.ts:26-41 | seven login days and nothing else satisfy exactly `login_3` and `login_7`, whose bonuses sum to 100 |
| Titles.TitleById | lib/titles.ts:14-321 | an id names one title of the catalog |
| Titles.TitleReadsOnlyItsStat | lib/titles.ts:14-321 | `debut` and `effort_habit_*` read only `habitsCreatedCount`; `effort_goal_50/100` read only `goalsCreatedCount`; `effort_goal_achieve_100` reads only `goalsAchievedCount`; `login_streak_90` reads only `continuousLoginDays` |
| Titles.AnniversaryAfterAYear | lib/titles.ts:308-320 | `anniversary_1` holds exactly when a first login is recorded and at least 365 × 24 × 60 × 60 × 1000 ms have passed since |
| Visibility.IsVisibleOn | lib/habits/visibility.ts:4-12 | a daily habit is always visible; a weekly habit is visible only with a non-empty weekday list and on a string that is the identifier of a real day |
| Visibility.DailyEverywhereWeeklyNeedsDays | lib/habits/visibility.ts:4-11 | a daily habit is visible on every date; a weekly habit without a weekday list, or with an empty one, on none |
| Visibility.WeeklyVisibleIff | lib/habits/visibility.ts:8-11 | a weekly habit is visible on a day exactly when that day's weekday (0 = Sunday) is in its list |
| Visibility.VisibilityReadsOnlySchedule | lib/habits/visibility.ts:4-12 | visibility depends only on the type, the weekday list and the date |
| Visibility.WeeklyRepeats | lib/habits/visibility.ts:8-11 | a habit is visible on a day exactly when it is visible seven days later |
| Visibility.MondayWednesdayFridayExample | lib/habits/visibility.ts:8-11 | a Monday/Wednesday/Friday habit is visible on Monday 2024-01-15 and not on the Tuesday after |
| Dates.ParseFormat | lib/habits/visibility.ts:8 | reading a formatted day identifier gives the day back |
| Dates.FormatParse | lib/habits/visibility.ts:8 | a string that reads as a day is exactly that day's identifier, so no other spelling names a day |
| Dates.FormatOrder | app/components/BucketListView.tsx:277 | comparing two day identifiers as strings orders them as the days they name |
| Dates.WeekdayNext | lib/habits/visibility.ts:9 | the next day's weekday is the following weekday, modulo 7 |
| HabitCalendar.CalendarDays | hooks/useHabitCalendar.ts:37-46 | the month lists as many identifiers as it has days, and entry `i` reads back as day `i + 1` of that month |
| HabitCalendar.CountDoneOn | hooks/useHabitCalendar.ts:54-56 | the done count is at most the number of habits, equals it exactly when every habit has an entry for the day, and is 0 exactly when none has |
| HabitCalendar.Rate | hooks/useHabitCalendar.ts:58 | 0 with nothing scheduled; otherwise the integer nearest to `100 * done / total`, a half rounded up |
| HabitCalendar.StatFor | hooks/useHabitCalendar.ts:50-59 | a day's statistic carries the day, has `0 <= doneCount <= total <= number of habits`, and has rate 0 when nothing is scheduled |
| HabitCalendar.DailyStats | hooks/useHabitCalendar.ts:49-61 | one statistic per listed day, in the same order, each carrying its day and a total no larger than the number of habits |
| HabitCalendar.CalendarDaysShape | hooks/useHabitCalendar.ts:37-46 | a month lists as many days as it has, each the identifier of that day, in increasing order |
| HabitCalendar.ScheduledOn | hooks/useHabitCalendar.ts:51-52 | a habit is counted in a day's total exactly when it is one of the habits and visible on that day |
| HabitCalendar.RoundHalfUp | hooks/useHabitCalendar.ts:58 | the rounded value is the integer nearest to the quotient, a half rounded up |
| HabitCalendar.StatBounds | hooks/useHabitCalendar.ts:51-58 | `0 <= doneCount <= total <= number of habits`; the rate lies in 0..100, is 100 when all scheduled habits are done and 0 when none is |
| HabitCalendar.RateBounds | hooks/useHabitCalendar.ts:58 | the rate is 0 with nothing scheduled and otherwise a percentage between 0 and 100 |
| HabitCalendar.FullRateMeansAllDone | hooks/useHabitCalendar.ts:58 | below 200 scheduled habits, the rate is 100 exactly when every scheduled habit is done |
| HabitCalendar.FullRateWithOneMissing | hooks/useHabitCalendar.ts:58 | 199 of 200 done rounds to a rate of 100 |
| HabitCalendar.UnscheduledHabitIgnored | hooks/useHabitCalendar.ts:51-56 | a habit not visible on the day changes neither total nor done count, even with a history entry for that day |
| HabitCalendar.ScheduledHabitCounts | hooks/useHabitCalendar.ts:51-56 | a visible habit adds one to the total, and one to the done count exactly when its history has the day |
| BucketList.MergedItem | app/components/BucketListView.tsx:45-46 | the item placed at number `id` carries that id, and is either a saved item or the blank item |
| BucketList.Load | app/components/BucketListView.tsx:41-55 | nothing read keeps the current list; anything read gives 100 items numbered 1..100, a title and subtitle that are not empty, and no empty target date |
| BucketList.FindById | app/components/BucketListView.tsx:45 | the find gives nothing exactly when no item has the id, and otherwise the first item that has it |
| BucketList.MergeItems | app/components/BucketListView.tsx:44-47 | loading yields exactly 100 items with ids 1..100 in order |
| BucketList.LoadedItems | app/components/BucketListView.tsx:44-47 | item `id` is the first saved item with that id, or the blank item `{id, "", false}` when there is none |
| BucketList.LoadedComeFromSaved | app/components/BucketListView.tsx:44-47 | every loaded item is a saved item or a blank one, and saved items whose id is outside 1..100 are dropped |
| BucketList.MergeNormalised | app/components/BucketListView.tsx:44-47 | a list that already has 100 items numbered in order loads back unchanged |
| BucketList.MergeIdempotent | app/components/BucketListView.tsx:44-47 | loading a loaded list again changes nothing |
| BucketList.LoadDefaults | app/components/BucketListView.tsx:49-54 | a missing or empty title or subtitle becomes the default; a missing or empty target date becomes none; a present date is kept |
| BucketList.LoadNothing | app/components/BucketListView.tsx:41-55 | when nothing was saved, the view keeps its list |
| BucketList.LoadAfterSave | app/components/BucketListView.tsx:44-54 | saving a normalised list with a title, a subtitle and a non-empty or absent date, then loading it, gives the same list |
| BucketList.ResetIsEmptyLoad | app/components/BucketListView.tsx:94-103 | reset gives the default title and subtitle, no date and 100 blank uncompleted items numbered 1..100, the same as loading an empty saved list |
| BucketList.UpdateItem | app/components/BucketListView.tsx:84-89 | an update keeps the list's length and every item's id |
| BucketList.UpdateItemEffect | app/components/BucketListView.tsx:84-89 | an update merges the given fields into the items with the id and leaves every other item as it was |
| BucketList.UpdateItemIdempotent | app/components/BucketListView.tsx:84-89 | applying the same update twice equals applying it once |
| BucketList.ToggleItem | app/components/BucketListView.tsx:306-311 | the checkbox keeps the length, the item's id and text; it changes nothing on an item without text and otherwise flips the item's completion; items with other ids are unchanged |
| BucketList.CommitText | app/components/BucketListView.tsx:320-322 | committing text replaces that item's text alone, keeps its id and completion, and leaves items with other ids unchanged |
| BucketList.ResetList | app/components/BucketListView.tsx:91-103 | the reset list has 100 blank, uncompleted items numbered 1..100 and no target date |
| BucketList.BlankItemsDoNotToggle | app/components/BucketListView.tsx:306-311 | an item without text cannot be checked or unchecked |
| BucketList.ToggleFlipsOneItem | app/components/BucketListView.tsx:306-311 | toggling an item with text flips that item's completion alone, and toggling again restores the list |
| BucketList.ToggleMovesCount | app/components/BucketListView.tsx:306-311 | a toggle moves the completed count by exactly one, up when the item becomes completed |
| BucketList.ClearingTextKeepsCompletion | app/components/BucketListView.tsx:320-322 | committing empty text changes only that item's text, so a completed item can stay completed with no text |
| BucketList.TitlePrefix | app/components/BucketListView.tsx:149-151 | the editable part is no longer than the title; followed by the suffix it gives back a title that ends in the suffix; any other title is kept whole |
| BucketList.JoinTitle | app/components/BucketListView.tsx:157 | the title typed ends in the suffix, and its editable part is exactly what was typed |
| BucketList.TitleRoundTrip | app/components/BucketListView.tsx:149-157 | the editable part of `p` followed by the suffix "までにしたい100のこと" is `p` |
| BucketList.TitleSplit | app/components/BucketListView.tsx:149-151 | a title ending in the suffix is its editable part followed by the suffix; any other title is shown whole |
| BucketList.DefaultTitlePrefix | app/components/BucketListView.tsx:149-151 | the default title's editable part is "死ぬ" |
| BucketList.CompletedCount | app/components/BucketListView.tsx:109-110 | the completed count is at most the number of items |
| BucketList.IsAllCompleted | app/components/BucketListView.tsx:111 | on 100 items, "all completed" holds exactly when every item is completed |
| BucketList.CompletedCountBounds | app/components/BucketListView.tsx:109-111 | the completed count is at most the number of items; it equals it exactly when all are completed, and is 0 exactly when none is |
| BucketList.AllCompletedIff | app/components/BucketListView.tsx:109-111 | on the 100 items, progress is at most 100 and "all completed" holds exactly when every item is completed |
| BucketList.IsOverdue | app/components/BucketListView.tsx:277 | an overdue item is not completed and has a non-empty target date other than today |
| BucketList.OverdueIffBefore | app/components/BucketListView.tsx:277 | for day identifiers, an item is overdue exactly when the target day is before today and the item is not completed |
| BucketList.NotOverdue | app/components/BucketListView.tsx:277 | there is no overdue mark without a target date, on a completed item, or on the target day itself |
| Dream.SaveFirstDream | app/components/DreamView.tsx:92-98 | a stored first dream needs a signed-in user and is the trimmed input, which is non-empty |
| Dream.SaveEditedDream | app/components/DreamView.tsx:135-141 | an edited dream is stored exactly when signed in, and what is stored is the trimmed input |
| Dream.AddGoal | app/components/DreamView.tsx:233-241 | a goal is requested only when signed in and within the limit, whose title is the trimmed title input (non-empty), and never with an empty deadline |
| Dream.RenameGoal | app/components/DreamView.tsx:337-344 | a rename is stored only when signed in, and what is stored is the trimmed text, which is non-empty; the guard is the same rule as the first dream save |
| Dream.NewAchievedCount | app/components/DreamView.tsx:297-303 | checking raises the count; unchecking gives a count of at least 0 and at least one below the old one, and lowers any count of 1 or more |
| Dream.ToggledStats | app/components/DreamView.tsx:297-308 | the written statistics always hold a count, and apart from it equal the old statistics, or none |
| Dream.FirstDreamGuard | app/components/DreamView.tsx:92-98 | the first save stores something exactly when signed in with input that is not all white space, and then stores exactly the trimmed input, which is non-empty |
| Dream.EditedDreamMayBeEmpty | app/components/DreamView.tsx:135-141 | an edit always stores when signed in, the stored text is the trimmed input, and it is empty exactly when the input was white space only |
| Dream.AddGoalGuard | app/components/DreamView.tsx:233-241 | a goal is added exactly when signed in, the title is not blank and the limit check passes; its title is the trimmed title input and non-empty; it has a deadline exactly when one was entered |
| Dream.RenameGoalGuard | app/components/DreamView.tsx:337-344 | a blank title makes no update; otherwise the stored title is the trimmed text, which is non-empty |
| Dream.AchievedCountRule | app/components/DreamView.tsx:297-303 | checking adds one and unchecking subtracts one, floored at 0; a missing count counts as 0 |
| Dream.AchievedCountNeverNegative | app/components/DreamView.tsx:301-303 | from a count of at least 0, no sequence of checks and unchecks makes it negative |
| Dream.CheckThenUncheck | app/components/DreamView.tsx:301-303 | check then uncheck restores any count of at least 0; uncheck then check restores counts of at least 1, and turns 0 into 1 |
| Dream.ToggleChangesOnlyTheCount | app/components/DreamView.tsx:297-308 | only `goalsAchievedCount` changes, and every other statistic is copied; missing statistics start empty |
| Dream.UnlockAtThirty | app/components/DreamView.tsx:315-319 | the unlock notice appears exactly when a goal is checked while 29 were counted |
| Dream.DisplayOrder | app/components/DreamView.tsx:263-267 | the listing is a permutation of the goals with no done goal before a goal not done |
| Dream.DisplayOrderGroups | app/components/DreamView.tsx:263-267 | the listing is the not-done goals in their order followed by the done goals in their order |
| Dream.DisplayOrderSpec | app/components/DreamView.tsx:263-267 | the listing is a permutation with not-done before done and each group in order, and any stable sort with this comparator gives it |
| StableSort.SortBySorted | app/components/DreamView.tsx:263-267 | the sort orders by key and is a permutation of its input |
| StableSort.SortByStable | app/components/FriendView.tsx:346-350 | among elements with equal keys, the sort keeps the input order |
| StableSort.StableSortUnique | app/components/FriendView.tsx:346-350 | a key-ordered sequence with the same elements of each key, in the input order, equals the sort's result |
| Friends.DayGap | app/components/FriendView.tsx:245-246 | the gap `g` is the number of whole days in the distance: `g * day <= |now - last| < (g + 1) * day` |
| Friends.GapLabel | app/components/FriendView.tsx:248-251 | the label is never empty; it is "今日ログインあり" exactly for a gap of 0 and "7日以上ログインなし" exactly for 7 days or more |
| Friends.FormatLastLogin | app/components/FriendView.tsx:241-252 | there is a label exactly when there is a last-login time; it says "today" exactly when less than a day lies between the login and now |
| Friends.LoginStatus | app/components/FriendView.tsx:257 | the login line shows exactly when the user allows it and a last-login time is recorded |
| Friends.NoLabelWithoutTime | app/components/FriendView.tsx:241-257 | there is no label without a last-login time, and the login line shows only when the user allows it |
| Friends.GapOfWholeDays | app/components/FriendView.tsx:245-246 | a login `k` whole days and part of a day away, before or after now, is `k` days away |
| Friends.PastAndFutureAlike | app/components/FriendView.tsx:245-246 | a timestamp the same distance in the past or in the future gets the same label |
| Friends.LabelHead | app/components/FriendView.tsx:248-251 | labels start with "今" for today and otherwise with the gap's digit, 7 standing for a week or more |
| Friends.MiddleLabels | app/components/FriendView.tsx:251 | gaps of 2 to 6 days read as that digit followed by "日ログインなし" |
| Friends.LabelsTellBucketsApart | app/components/FriendView.tsx:248-251 | two gaps get the same label exactly when both are the same number of days below 7, or both are 7 or more |
| Friends.WithActionMembers | app/components/FriendView.tsx:345 | the filter keeps exactly the followed users that report a recent action |
| Friends.Feed | app/components/FriendView.tsx:344-350 | the feed is a permutation of the users with an action, latest action first |
| Friends.FeedSpec | app/components/FriendView.tsx:344-350 | the feed is exactly those users, latest action first with a missing date as the epoch, and equally recent actions in following order |
| Friends.FeedEmptyNotice | app/components/FriendView.tsx:352-354 | the no-news notice shows only when no followed user reports an action |
| Friends.FeedEmptyIff | app/components/FriendView.tsx:352-354 | the no-news notice shows exactly when no followed user reports an action, which is exactly when the feed is empty |
| Friends.ButtonFor | app/components/FriendView.tsx:255-310 | there is no button exactly on one's own card; a button unfollows exactly when it reads "フォロー中" |
| Friends.FollowButtonRule | app/components/FriendView.tsx:255-310 | one's own card has no button; any other shows "フォロー中" and unfollows exactly when the user is in the following list |
| Friends.FollowedCardOffersUnfollow | app/components/FriendView.tsx:255 | once a user is in the following list, their card offers to unfollow |
| Friends.UnfollowedCardOffersFollow | app/components/FriendView.tsx:255-310 | a card whose user is not in the following list offers to follow |
| Friends.Register | app/components/FriendView.tsx:97-111 | a save needs a signed-in user, and stores the trimmed name (non-empty) and the chosen gender, which is "male" or "female" |
| Friends.RegisterRule | app/components/FriendView.tsx:98-110 | registration saves exactly when signed in with a name that is not blank and a gender of "male" or "female"; a blank name is reported first; the name saved is the trimmed name, which is non-empty, and the gender saved is the one chosen |

## Left out

- Storage, authentication and the network are left out. This covers Firestore reads and writes, the auth state, the autosave timer of the bucket list, `alert`/`confirm`/`setTimeout`, React state and effects, and all rendering. Where a rule's result is written somewhere, the model returns the value written.
- The loop that evaluates the catalog and stores the earned titles and their bonus total is not part of this model. Only the catalog and its conditions are modelled. `Titles.Satisfied` lists the titles whose condition holds, in catalog order.
- The user search, a case-insensitive substring match, is not part of this model. Nor is the backend function that awards points when a habit is completed.
- The clock and the time zone are inputs. This covers today's and yesterday's day identifiers, `now` in milliseconds, and the UTC day the bucket list's overdue check compares against.
- Visibility.IsVisibleOn gives the weekday of the civil day the identifier names. The source reads `new Date("YYYY-MM-DD")` at UTC midnight and takes `getDay()` in local time. The two agree at UTC offsets of 0 and east of it.
- HabitCalendar.CalendarDaysShape: covers years 0 to 9999 only, because day identifiers are written with four digits. Each calendar day is the identifier of that civil date. The source formats local midnight in Japan time, which gives the same date at offsets up to +9 hours.
- HabitCalendar.Rate: rounds the exact quotient half up. The source rounds the floating-point value `(done / total) * 100`, which can fall just below an exact half when the quotient is not representable.
- HabitCalendar.FullRateMeansAllDone: holds only below 200 scheduled habits; from 200 on it is false, see `FullRateWithOneMissing`.
- JavaScript numbers are doubles. Counts, points and milliseconds are modelled as unbounded integers, because the values involved stay far inside the exactly representable range.
- Timestamps are milliseconds or absent. A Firestore timestamp object is always truthy. A raw number 0 stored as `firstLoginAt` or `lastLoginAt` would be treated as absent by the source, and is not modelled.
- Friends.Feed: a recent action's date is taken as a timestamp. A date stored in any other form has no `toDate` and sorts as the epoch; in the model it is simply absent.
- Dream.AddGoal: models the request the view makes, a trimmed title and a deadline or none. The goal store trims again, which changes nothing (`Text.TrimIdempotent`). The goal's own `done` flag and its write are not modelled.
- Dream.ToggledStats: the "+100pt" message and the recent-action update after a check are not modelled, as they are messages and writes.
- Friends.Register: the public-profile flag and the confirmation step are passed through unchanged and are not modelled. The `|| "other"` fallback for the gender cannot be reached once the gender check passes.
- BucketList.UpdateItem: only `text` and `isCompleted` are merged, because these are the only fields the view ever passes. The legacy per-item `deadline` field is not modelled.
- The toggle's `(h.dailyStreak ?? 0)` and `Array.isArray(h.pointHistory) ? h.pointHistory : []` guard only against records that break the declared habit type. The model takes the streak as a number and the history as a sequence, so these fallbacks have no counterpart.
- A saved bucket list is modelled with its `items`. A stored list without `items` makes `saved.items.find` throw in the source; the model has no such state.
- HabitCalendar.CalendarDays: covers years 0 to 9999 only, like `CalendarDaysShape`, because day identifiers are written with four digits.
- String comparison is over characters. The source compares UTF-16 code units. The two agree on the ASCII day identifiers being compared.

## Observations

- The feature notice fires when the 30th goal is achieved. A comment next to it speaks of 10 goals. The model follows the code.
- The calendar's rate of 100 does not always mean every habit was done. In exact arithmetic, 199 of 200 rounds to 100.
- The achieved-goals counter drifts. Unchecking at 0 stays at 0, and checking again then gives 1.
- A bucket-list item emptied of its text keeps its completed mark. After that, its checkbox is disabled.
- The toggle keeps the stored total equal to the history's sum as long as the history has at most one entry per day. Two entries for the same day break this (`HabitToggle.DuplicateDayBreaksLedger`).
