/**
 * The title catalog (`TITLE_DEFINITIONS`): achievements with an id, a
 * display name, a category, a description, a bonus and a condition on the
 * user's statistics. The source writes each condition as a lambda; here each
 * is one of three shapes, a stat at or above a threshold, a level at or above
 * a number, or a year since the first login, so that the catalog can be
 * reasoned about.
 */
module Titles {
  import opened Wrappers

  datatype Category = Royalty | Continuity | Points | Streak | Level | Effort | Hidden

  /** The statistics a condition reads; an absent field is `undefined`. Times are milliseconds since the epoch. */
  datatype Stats = Stats(
    loginDays: Option<int>,
    continuousLoginDays: Option<int>,
    maxStreak: Option<int>,
    goalsCreatedCount: Option<int>,
    habitsCreatedCount: Option<int>,
    goalsAchievedCount: Option<int>,
    totalPoints: Option<int>,
    firstLoginAt: Option<int>)

  datatype Stat = LoginDays | ContinuousLoginDays | MaxStreak | GoalsCreated | HabitsCreated | GoalsAchieved | TotalPoints

  datatype Condition =
    | AtLeast(stat: Stat, threshold: int)   // (s.stat || 0) >= threshold
    | LevelAtLeast(level: int)              // Math.floor((s.totalPoints || 0) / 100) + 1 >= level
    | YearSinceFirstLogin                   // a year has passed since s.firstLoginAt

  datatype Title = Title(
    id: string,
    name: string,
    category: Category,
    conditionDescription: string,
    bonusPoints: int,
    condition: Condition)

  /** A stat as the conditions read it: `(s.x || 0)`. */
  function Value(s: Stats, st: Stat): int {
    match st
    case LoginDays => OrZero(s.loginDays)
    case ContinuousLoginDays => OrZero(s.continuousLoginDays)
    case MaxStreak => OrZero(s.maxStreak)
    case GoalsCreated => OrZero(s.goalsCreatedCount)
    case HabitsCreated => OrZero(s.habitsCreatedCount)
    case GoalsAchieved => OrZero(s.goalsAchievedCount)
    case TotalPoints => OrZero(s.totalPoints)
  }

  /** The level shown for a point total: one level per 100 points, starting at 1 (`Math.floor(t / 100) + 1`). */
  function LevelOf(totalPoints: int): (l: int)
    ensures 100 * (l - 1) <= totalPoints < 100 * l
  {
    totalPoints / 100 + 1
  }

  /** 365 days in milliseconds. */
  const YearMillis: int := 365 * 24 * 60 * 60 * 1000

  /** Whether condition `c` holds for `s` at time `now` (milliseconds, `Date.now()`). */
  predicate Holds(c: Condition, s: Stats, now: int): (b: bool)
    ensures c.LevelAtLeast? ==> (b <==> OrZero(s.totalPoints) >= 100 * (c.level - 1))
  {
    match c
    case AtLeast(st, n) => Value(s, st) >= n
    case LevelAtLeast(n) => LevelOf(Value(s, TotalPoints)) >= n
    case YearSinceFirstLogin => s.firstLoginAt.Some? && now - s.firstLoginAt.value >= YearMillis
  }

  // ------------------------------------------------------------ the catalog

  function RoyaltyTitles(): seq<Title> {
    [Title("debut", "新人デビュー", Royalty, "習慣を1つ以上追加する", 10, AtLeast(HabitsCreated, 1))]
  }

  function ContinuityTitles(): seq<Title> {
    [ Title("login_3", "3日坊主撃破", Continuity, "累計3日ログイン", 30, AtLeast(LoginDays, 3)),
      Title("login_7", "1週間の壁突破", Continuity, "累計7日ログイン", 70, AtLeast(LoginDays, 7)),
      Title("login_10", "継続ビギナー", Continuity, "累計10日ログイン", 100, AtLeast(LoginDays, 10)),
      Title("login_20", "継続マスター", Continuity, "累計20日ログイン", 200, AtLeast(LoginDays, 20)),
      Title("login_30", "月間制覇者", Continuity, "累計30日ログイン", 300, AtLeast(LoginDays, 30)),
      Title("login_100", "百日修行僧", Continuity, "累計100日ログイン", 1000, AtLeast(LoginDays, 100)),
      Title("login_200", "習慣の求道者", Continuity, "累計200日ログイン", 2000, AtLeast(LoginDays, 200)),
      Title("login_365", "一年の守護者", Continuity, "累計365日ログイン", 3650, AtLeast(LoginDays, 365)) ]
  }

  function PointTitles(): seq<Title> {
    [ Title("pt_300", "猛者", Points, "累計300pt達成", 50, AtLeast(TotalPoints, 300)),
      Title("pt_700", "鉄人", Points, "累計700pt達成", 100, AtLeast(TotalPoints, 700)),
      Title("pt_1000", "レジェンド", Points, "累計1000pt達成", 200, AtLeast(TotalPoints, 1000)),
      Title("pt_10000", "狂気", Points, "累計10000pt達成", 1000, AtLeast(TotalPoints, 10000)),
      Title("pt_20000", "無限機関", Points, "累計20000pt達成", 2000, AtLeast(TotalPoints, 20000)) ]
  }

  function StreakTitles(): seq<Title> {
    [ Title("streak_3", "連続3日ストリーカー", Streak, "3日連続全達成", 50, AtLeast(MaxStreak, 3)),
      Title("streak_7", "7日コンボ", Streak, "7日連続全達成", 100, AtLeast(MaxStreak, 7)),
      Title("streak_10", "10日コンボマスター", Streak, "10日連続全達成", 150, AtLeast(MaxStreak, 10)),
      Title("streak_21", "連続の鬼", Streak, "21日（3週間）連続全達成", 300, AtLeast(MaxStreak, 21)),
      Title("streak_30", "連続神話", Streak, "30日連続全達成", 500, AtLeast(MaxStreak, 30)),
      Title("streak_90", "パーフェクト継続者", Streak, "90日連続全達成", 1000, AtLeast(MaxStreak, 90)),
      Title("streak_210", "記録ホルダー", Streak, "210日連続全達成", 2000, AtLeast(MaxStreak, 210)),
      Title("streak_365", "伝説のストリーク", Streak, "365日連続全達成", 5000, AtLeast(MaxStreak, 365)) ]
  }

  function LevelTitles(): seq<Title> {
    [ Title("lv_3", "習慣見習い", Level, "Lv3到達", 30, LevelAtLeast(3)),
      Title("lv_10", "習慣戦士", Level, "Lv10到達", 100, LevelAtLeast(10)),
      Title("lv_20", "習慣騎士", Level, "Lv20到達", 200, LevelAtLeast(20)),
      Title("lv_30", "習慣魔導士", Level, "Lv30到達", 300, LevelAtLeast(30)),
      Title("lv_50", "習慣賢者", Level, "Lv50到達", 500, LevelAtLeast(50)),
      Title("lv_60", "習慣マスター", Level, "Lv60到達", 600, LevelAtLeast(60)),
      Title("lv_100", "グランドマスター", Level, "Lv100到達", 1000, LevelAtLeast(100)) ]
  }

  function EffortTitles(): seq<Title> {
    [ Title("effort_goal_50", "生活設計士", Effort, "目標を累計50個追加", 100, AtLeast(GoalsCreated, 50)),
      Title("effort_goal_100", "人生ビルダー", Effort, "目標を累計100個追加", 200, AtLeast(GoalsCreated, 100)),
      Title("effort_habit_50", "習慣設計師", Effort, "習慣を累計50個追加", 100, AtLeast(HabitsCreated, 50)),
      Title("effort_habit_100", "自己統制者", Effort, "習慣を累計100個追加", 200, AtLeast(HabitsCreated, 100)),
      Title("effort_goal_achieve_100", "鋼の意思", Effort, "目標を累計100個達成", 500, AtLeast(GoalsAchieved, 100)) ]
  }

  function HiddenTitles(): seq<Title> {
    [ Title("login_streak_90", "3ヶ月皆勤", Hidden, "90日連続ログイン", 1000, AtLeast(ContinuousLoginDays, 90)),
      Title("anniversary_1", "初ログインから365日", Hidden, "利用開始から1年経過", 3650, YearSinceFirstLogin) ]
  }

  /** `TITLE_DEFINITIONS`, in the source's order. */
  function Catalog(): (r: seq<Title>)
    ensures |r| == 36
  {
    RoyaltyTitles() + ContinuityTitles() + PointTitles() + StreakTitles()
    + LevelTitles() + EffortTitles() + HiddenTitles()
  }

  /** The titles whose condition holds, in catalog order. */
  function Satisfied(titles: seq<Title>, s: Stats, now: int): (r: seq<Title>)
    ensures |r| <= |titles|
    ensures forall i :: 0 <= i < |r| ==> Holds(r[i].condition, s, now)
  {
    if titles == [] then []
    else (if Holds(titles[0].condition, s, now) then [titles[0]] else []) + Satisfied(titles[1..], s, now)
  }

  function TotalBonus(titles: seq<Title>): int {
    if titles == [] then 0 else titles[0].bonusPoints + TotalBonus(titles[1..])
  }

  // ------------------------------------------------------------ properties

  predicate DistinctIds(titles: seq<Title>) {
    forall i, j :: 0 <= i < j < |titles| ==> titles[i].id != titles[j].id
  }

  predicate IdsApart(a: seq<Title>, b: seq<Title>) {
    forall i, j :: 0 <= i < |a| && 0 <= j < |b| ==> a[i].id != b[j].id
  }

  predicate PositiveBonuses(titles: seq<Title>) {
    forall i :: 0 <= i < |titles| ==> titles[i].bonusPoints > 0
  }

  /** Every title's condition asks for some progress: no empty record meets it. */
  predicate AllNeedProgress(titles: seq<Title>) {
    forall i :: 0 <= i < |titles| ==> NeedsProgress(titles[i].condition)
  }

  predicate NeedsProgress(c: Condition) {
    match c
    case AtLeast(_, n) => n >= 1
    case LevelAtLeast(n) => n >= 2
    case YearSinceFirstLogin => true
  }

  lemma DistinctIdsConcat(a: seq<Title>, b: seq<Title>)
    requires DistinctIds(a) && DistinctIds(b) && IdsApart(a, b)
    ensures DistinctIds(a + b)
  {
    forall i, j | 0 <= i < j < |a + b| ensures (a + b)[i].id != (a + b)[j].id {
      if j < |a| {
      } else if i < |a| {
        assert (a + b)[i] == a[i] && (a + b)[j] == b[j - |a|];
      } else {
        assert (a + b)[i] == b[i - |a|] && (a + b)[j] == b[j - |a|];
      }
    }
  }

  lemma IdsApartConcat(a: seq<Title>, b: seq<Title>, c: seq<Title>)
    requires IdsApart(a, c) && IdsApart(b, c)
    ensures IdsApart(a + b, c)
  {
  }

  lemma PositiveBonusesConcat(a: seq<Title>, b: seq<Title>)
    requires PositiveBonuses(a) && PositiveBonuses(b)
    ensures PositiveBonuses(a + b)
  {
  }

  /** Seven blocks, each without repeated ids and sharing none with another, make a list without repeated ids. */
  lemma DistinctBlocks(r: seq<Title>, c: seq<Title>, p: seq<Title>, k: seq<Title>,
                       l: seq<Title>, e: seq<Title>, h: seq<Title>)
    requires DistinctIds(r) && DistinctIds(c) && DistinctIds(p) && DistinctIds(k)
    requires DistinctIds(l) && DistinctIds(e) && DistinctIds(h)
    requires IdsApart(r, c)
    requires IdsApart(r, p) && IdsApart(c, p)
    requires IdsApart(r, k) && IdsApart(c, k) && IdsApart(p, k)
    requires IdsApart(r, l) && IdsApart(c, l) && IdsApart(p, l) && IdsApart(k, l)
    requires IdsApart(r, e) && IdsApart(c, e) && IdsApart(p, e) && IdsApart(k, e) && IdsApart(l, e)
    requires IdsApart(r, h) && IdsApart(c, h) && IdsApart(p, h) && IdsApart(k, h) && IdsApart(l, h) && IdsApart(e, h)
    ensures DistinctIds(r + c + p + k + l + e + h)
  {
    DistinctIdsConcat(r, c);
    IdsApartConcat(r, c, p);
    DistinctIdsConcat(r + c, p);
    IdsApartConcat(r, c, k);
    IdsApartConcat(r + c, p, k);
    DistinctIdsConcat(r + c + p, k);
    IdsApartConcat(r, c, l);
    IdsApartConcat(r + c, p, l);
    IdsApartConcat(r + c + p, k, l);
    DistinctIdsConcat(r + c + p + k, l);
    IdsApartConcat(r, c, e);
    IdsApartConcat(r + c, p, e);
    IdsApartConcat(r + c + p, k, e);
    IdsApartConcat(r + c + p + k, l, e);
    DistinctIdsConcat(r + c + p + k + l, e);
    IdsApartConcat(r, c, h);
    IdsApartConcat(r + c, p, h);
    IdsApartConcat(r + c + p, k, h);
    IdsApartConcat(r + c + p + k, l, h);
    IdsApartConcat(r + c + p + k + l, e, h);
    DistinctIdsConcat(r + c + p + k + l + e, h);
  }

  // Facts about one block against the blocks before it, grouped so that each is one cheap query.

  lemma RoyaltyBlock()
    ensures DistinctIds(RoyaltyTitles()) && PositiveBonuses(RoyaltyTitles())
  {
  }

  lemma ContinuityBlock()
    ensures DistinctIds(ContinuityTitles()) && PositiveBonuses(ContinuityTitles())
    ensures IdsApart(RoyaltyTitles(), ContinuityTitles())
  {
  }

  lemma PointBlock()
    ensures DistinctIds(PointTitles()) && PositiveBonuses(PointTitles())
    ensures IdsApart(RoyaltyTitles(), PointTitles())
    ensures IdsApart(ContinuityTitles(), PointTitles())
  {
  }

  lemma StreakBlock()
    ensures DistinctIds(StreakTitles()) && PositiveBonuses(StreakTitles())
    ensures IdsApart(RoyaltyTitles(), StreakTitles())
  {
  }

  lemma StreakApartFromPoints()
    ensures IdsApart(PointTitles(), StreakTitles())
  {
  }

  lemma StreakApartFromContinuity()
    ensures IdsApart(ContinuityTitles(), StreakTitles())
  {
  }

  lemma LevelBlock()
    ensures DistinctIds(LevelTitles()) && PositiveBonuses(LevelTitles())
    ensures IdsApart(RoyaltyTitles(), LevelTitles())
  {
  }

  lemma LevelApartFromPoints()
    ensures IdsApart(PointTitles(), LevelTitles())
  {
  }

  lemma LevelApartFromContinuity()
    ensures IdsApart(ContinuityTitles(), LevelTitles())
  {
  }

  lemma LevelApartFromStreak()
    ensures IdsApart(StreakTitles(), LevelTitles())
  {
  }

  lemma EffortBlock()
    ensures DistinctIds(EffortTitles()) && PositiveBonuses(EffortTitles())
    ensures IdsApart(RoyaltyTitles(), EffortTitles())
    ensures IdsApart(PointTitles(), EffortTitles())
  {
  }

  lemma EffortApartFromLevels()
    ensures IdsApart(LevelTitles(), EffortTitles())
  {
  }

  lemma EffortApartFromContinuityAndStreak()
    ensures IdsApart(ContinuityTitles(), EffortTitles())
    ensures IdsApart(StreakTitles(), EffortTitles())
  {
  }

  lemma HiddenBlock()
    ensures DistinctIds(HiddenTitles()) && PositiveBonuses(HiddenTitles())
    ensures IdsApart(RoyaltyTitles(), HiddenTitles())
    ensures IdsApart(ContinuityTitles(), HiddenTitles())
    ensures IdsApart(PointTitles(), HiddenTitles())
  {
  }

  lemma HiddenApartFromLaterBlocks()
    ensures IdsApart(StreakTitles(), HiddenTitles())
    ensures IdsApart(LevelTitles(), HiddenTitles())
    ensures IdsApart(EffortTitles(), HiddenTitles())
  {
  }

  /** The catalog has 36 titles, no two with the same id, each with a positive bonus. */
  lemma CatalogIdsAndBonuses()
    ensures |Catalog()| == 36
    ensures DistinctIds(Catalog())
    ensures forall t :: t in Catalog() ==> t.bonusPoints > 0
  {
    var r, c, p, k := RoyaltyTitles(), ContinuityTitles(), PointTitles(), StreakTitles();
    var l, e, h := LevelTitles(), EffortTitles(), HiddenTitles();
    RoyaltyBlock();
    ContinuityBlock();
    PointBlock();
    StreakBlock();
    StreakApartFromContinuity();
    StreakApartFromPoints();
    LevelBlock();
    LevelApartFromPoints();
    LevelApartFromContinuity();
    LevelApartFromStreak();
    EffortBlock();
    EffortApartFromContinuityAndStreak();
    EffortApartFromLevels();
    HiddenBlock();
    HiddenApartFromLaterBlocks();
    DistinctBlocks(r, c, p, k, l, e, h);
    PositiveBonusesConcat(r, c);
    PositiveBonusesConcat(r + c, p);
    PositiveBonusesConcat(r + c + p, k);
    PositiveBonusesConcat(r + c + p + k, l);
    PositiveBonusesConcat(r + c + p + k + l, e);
    PositiveBonusesConcat(r + c + p + k + l + e, h);
    var all := Catalog();
    forall t | t in all ensures t.bonusPoints > 0 {
      var i :| 0 <= i < |all| && all[i] == t;
    }
  }

  /** A user record with no statistics at all. */
  function NoStats(): Stats {
    Stats(None, None, None, None, None, None, None, None)
  }

  lemma FirstBlocksNeedProgress()
    ensures AllNeedProgress(RoyaltyTitles()) && AllNeedProgress(ContinuityTitles()) && AllNeedProgress(PointTitles())
  {
  }

  lemma LastBlocksNeedProgress()
    ensures AllNeedProgress(StreakTitles()) && AllNeedProgress(LevelTitles())
    ensures AllNeedProgress(EffortTitles()) && AllNeedProgress(HiddenTitles())
  {
  }

  lemma AllNeedProgressConcat(a: seq<Title>, b: seq<Title>)
    requires AllNeedProgress(a) && AllNeedProgress(b)
    ensures AllNeedProgress(a + b)
  {
  }

  lemma {:induction false} NothingWithoutStats(titles: seq<Title>, now: int)
    requires AllNeedProgress(titles)
    ensures Satisfied(titles, NoStats(), now) == []
  {
    if titles != [] {
      NothingWithoutStats(titles[1..], now);
    }
  }

  /** Missing statistics count as 0, so a record without any earns no title, at any time. */
  lemma EmptyStatsEarnNothing(now: int)
    ensures Satisfied(Catalog(), NoStats(), now) == []
  {
    var r, c, p, k := RoyaltyTitles(), ContinuityTitles(), PointTitles(), StreakTitles();
    var l, e, h := LevelTitles(), EffortTitles(), HiddenTitles();
    FirstBlocksNeedProgress();
    LastBlocksNeedProgress();
    AllNeedProgressConcat(r, c);
    AllNeedProgressConcat(r + c, p);
    AllNeedProgressConcat(r + c + p, k);
    AllNeedProgressConcat(r + c + p + k, l);
    AllNeedProgressConcat(r + c + p + k + l, e);
    AllNeedProgressConcat(r + c + p + k + l + e, h);
    NothingWithoutStats(Catalog(), now);
  }

  /** `Math.floor(t / 100) + 1 >= n` exactly when `t >= 100 * (n - 1)`, for every integer point total. */
  lemma {:induction false} LevelIff(t: int, n: int)
    ensures LevelOf(t) >= n <==> t >= 100 * (n - 1)
  {
    var q, r := t / 100, t % 100;
    assert t == 100 * q + r && 0 <= r < 100;
  }

  /** A level title holds exactly when the point total reaches 100 points per level above the first. */
  lemma LevelConditionIff(n: int, s: Stats, now: int)
    ensures Holds(LevelAtLeast(n), s, now) <==> OrZero(s.totalPoints) >= 100 * (n - 1)
  {
    LevelIff(OrZero(s.totalPoints), n);
  }

  /** `s'` has every statistic at least as large as `s`, and the first login no later. */
  predicate Dominates(s': Stats, s: Stats) {
    (forall st :: Value(s, st) <= Value(s', st))
    && (s.firstLoginAt.Some? ==> s'.firstLoginAt.Some? && s'.firstLoginAt.value <= s.firstLoginAt.value)
  }

  /** Every condition is monotone: larger statistics, or a later time, keep it holding. */
  lemma HoldsMonotone(c: Condition, s: Stats, s': Stats, now: int, now': int)
    requires Dominates(s', s) && now <= now'
    ensures Holds(c, s, now) ==> Holds(c, s', now')
  {
    match c
    case AtLeast(st, n) =>
    case LevelAtLeast(n) =>
      var t, t' := Value(s, TotalPoints), Value(s', TotalPoints);
      LevelIff(t, n);
      LevelIff(t', n);
    case YearSinceFirstLogin =>
  }

  /** The satisfied titles are exactly the listed titles whose condition holds. */
  lemma {:induction false} SatisfiedMembers(titles: seq<Title>, s: Stats, now: int)
    ensures forall t :: t in Satisfied(titles, s, now) <==> t in titles && Holds(t.condition, s, now)
  {
    if titles != [] {
      SatisfiedMembers(titles[1..], s, now);
      assert titles == [titles[0]] + titles[1..];
    }
  }

  /** Hence a title, once its condition holds, keeps holding as the statistics grow. */
  lemma SatisfiedGrows(titles: seq<Title>, s: Stats, s': Stats, now: int, now': int)
    requires Dominates(s', s) && now <= now'
    ensures forall t :: t in Satisfied(titles, s, now) ==> t in Satisfied(titles, s', now')
  {
    SatisfiedMembers(titles, s, now);
    SatisfiedMembers(titles, s', now');
    forall t | t in Satisfied(titles, s, now) ensures t in Satisfied(titles, s', now') {
      HoldsMonotone(t.condition, s, s', now, now');
    }
  }

  /** `c` asks for more of the same measure than `d`. */
  predicate Stronger(c: Condition, d: Condition) {
    (c.AtLeast? && d.AtLeast? && c.stat == d.stat && c.threshold > d.threshold)
    || (c.LevelAtLeast? && d.LevelAtLeast? && c.level > d.level)
  }

  /** A chain: each title asks for more of the same measure than every title before it. */
  predicate IsChain(titles: seq<Title>) {
    forall i, j :: 0 <= i < j < |titles| ==> Stronger(titles[j].condition, titles[i].condition)
  }

  /** The login, point, streak and level blocks are chains with rising thresholds. */
  lemma CatalogChains()
    ensures IsChain(ContinuityTitles()) && IsChain(PointTitles())
    ensures IsChain(StreakTitles()) && IsChain(LevelTitles())
  {
    LoginChain();
    PointChain();
    StreakChain();
    LevelChain();
  }

  lemma LoginChain() ensures IsChain(ContinuityTitles()) { StepwiseChain(ContinuityTitles()); }
  lemma PointChain() ensures IsChain(PointTitles()) { StepwiseChain(PointTitles()); }
  lemma StreakChain() ensures IsChain(StreakTitles()) { StepwiseChain(StreakTitles()); }
  lemma LevelChain() ensures IsChain(LevelTitles()) { StepwiseChain(LevelTitles()); }

  /** Titles that each ask for more than the one just before them form a chain. */
  lemma StepwiseChain(titles: seq<Title>)
    requires forall i :: 0 < i < |titles| ==> Stronger(titles[i].condition, titles[i - 1].condition)
    ensures IsChain(titles)
  {
    forall i, j | 0 <= i < j < |titles| ensures Stronger(titles[j].condition, titles[i].condition) {
      StepwiseFrom(titles, i, j);
    }
  }

  lemma {:induction false} StepwiseFrom(titles: seq<Title>, i: int, j: int)
    requires forall i :: 0 < i < |titles| ==> Stronger(titles[i].condition, titles[i - 1].condition)
    requires 0 <= i < j < |titles|
    ensures Stronger(titles[j].condition, titles[i].condition)
    decreases j - i
  {
    if j > i + 1 {
      StepwiseFrom(titles, i + 1, j);
      assert Stronger(titles[i + 1].condition, titles[i].condition);
    }
  }

  /** In a chain, a title holding means every title before it holds too. */
  lemma ChainHoldsDownward(titles: seq<Title>, s: Stats, now: int)
    requires IsChain(titles)
    ensures forall i, j :: 0 <= i < j < |titles| && Holds(titles[j].condition, s, now) ==> Holds(titles[i].condition, s, now)
  {
    forall i, j | 0 <= i < j < |titles| && Holds(titles[j].condition, s, now)
      ensures Holds(titles[i].condition, s, now)
    {
      var c, d := titles[j].condition, titles[i].condition;
      if c.LevelAtLeast? {
        LevelIff(Value(s, TotalPoints), c.level);
        LevelIff(Value(s, TotalPoints), d.level);
      }
    }
  }

  lemma {:induction false} SatisfiedConcat(a: seq<Title>, b: seq<Title>, s: Stats, now: int)
    ensures Satisfied(a + b, s, now) == Satisfied(a, s, now) + Satisfied(b, s, now)
  {
    if a == [] {
      assert a + b == b;
    } else {
      assert (a + b)[1..] == a[1..] + b;
      SatisfiedConcat(a[1..], b, s, now);
    }
  }

  lemma {:induction false} NoneSatisfied(titles: seq<Title>, s: Stats, now: int)
    requires forall i :: 0 <= i < |titles| ==> !Holds(titles[i].condition, s, now)
    ensures Satisfied(titles, s, now) == []
  {
    if titles != [] {
      NoneSatisfied(titles[1..], s, now);
    }
  }

  function SevenLoginDaysOnly(): Stats {
    NoStats().(loginDays := Some(7))
  }

  lemma SevenLoginDaysFirstBlocks(now: int)
    ensures Satisfied(RoyaltyTitles(), SevenLoginDaysOnly(), now) == []
    ensures Satisfied(ContinuityTitles(), SevenLoginDaysOnly(), now) == ContinuityTitles()[..2]
    ensures Satisfied(PointTitles(), SevenLoginDaysOnly(), now) == []
  {
    var s, c := SevenLoginDaysOnly(), ContinuityTitles();
    NoneSatisfied(RoyaltyTitles(), s, now);
    NoneSatisfied(c[2..], s, now);
    assert c[1..][1..] == c[2..];
    NoneSatisfied(PointTitles(), s, now);
  }

  lemma SevenLoginDaysStreaksAndLevels(now: int)
    ensures Satisfied(StreakTitles(), SevenLoginDaysOnly(), now) == []
    ensures Satisfied(LevelTitles(), SevenLoginDaysOnly(), now) == []
  {
    NoneSatisfied(StreakTitles(), SevenLoginDaysOnly(), now);
    NoneSatisfied(LevelTitles(), SevenLoginDaysOnly(), now);
  }

  lemma SevenLoginDaysLastBlocks(now: int)
    ensures Satisfied(EffortTitles(), SevenLoginDaysOnly(), now) == []
    ensures Satisfied(HiddenTitles(), SevenLoginDaysOnly(), now) == []
  {
    NoneSatisfied(EffortTitles(), SevenLoginDaysOnly(), now);
    NoneSatisfied(HiddenTitles(), SevenLoginDaysOnly(), now);
  }

  /** Seven login days and nothing else earn exactly `login_3` and `login_7`, worth 30 + 70 = 100 points. */
  lemma SevenLoginDays(now: int)
    ensures var r := Satisfied(Catalog(), SevenLoginDaysOnly(), now);
      |r| == 2 && r[0].id == "login_3" && r[1].id == "login_7" && TotalBonus(r) == 100
  {
    var s := SevenLoginDaysOnly();
    var r, c, p, k := RoyaltyTitles(), ContinuityTitles(), PointTitles(), StreakTitles();
    var l, e, h := LevelTitles(), EffortTitles(), HiddenTitles();
    SevenLoginDaysFirstBlocks(now);
    SevenLoginDaysStreaksAndLevels(now);
    SevenLoginDaysLastBlocks(now);
    SatisfiedConcat(r, c, s, now);
    SatisfiedConcat(r + c, p, s, now);
    SatisfiedConcat(r + c + p, k, s, now);
    SatisfiedConcat(r + c + p + k, l, s, now);
    SatisfiedConcat(r + c + p + k + l, e, s, now);
    SatisfiedConcat(r + c + p + k + l + e, h, s, now);
    var earned := Satisfied(Catalog(), s, now);
    assert earned == c[..2] == [c[0], c[1]];
    assert TotalBonus(earned[1..]) == 70 + TotalBonus([]);
  }

  /** Within the catalog an id names one title: the one at index `i` when that title carries the id. */
  lemma TitleById(t: Title, i: int)
    requires t in Catalog() && 0 <= i < |Catalog()| && Catalog()[i].id == t.id
    ensures t == Catalog()[i]
  {
    CatalogIdsAndBonuses();
    var all := Catalog();
    var j :| 0 <= j < |all| && all[j] == t;
    assert j == i;
  }

  /**
   * What each effort and hidden title reads: `debut` and `effort_habit_*` only
   * `habitsCreatedCount`, `effort_goal_50`/`100` only `goalsCreatedCount`,
   * `effort_goal_achieve_100` only `goalsAchievedCount`, `login_streak_90` only
   * `continuousLoginDays`; changing any other statistic leaves them as they were.
   */
  lemma TitleReadsOnlyItsStat(t: Title, s: Stats, s': Stats, now: int)
    requires t in Catalog()
    ensures (t.id == "debut" || t.id == "effort_habit_50" || t.id == "effort_habit_100")
            && s.habitsCreatedCount == s'.habitsCreatedCount
            ==> Holds(t.condition, s, now) == Holds(t.condition, s', now)
    ensures (t.id == "effort_goal_50" || t.id == "effort_goal_100") && s.goalsCreatedCount == s'.goalsCreatedCount
            ==> Holds(t.condition, s, now) == Holds(t.condition, s', now)
    ensures t.id == "effort_goal_achieve_100" && s.goalsAchievedCount == s'.goalsAchievedCount
            ==> Holds(t.condition, s, now) == Holds(t.condition, s', now)
    ensures t.id == "login_streak_90" && s.continuousLoginDays == s'.continuousLoginDays
            ==> Holds(t.condition, s, now) == Holds(t.condition, s', now)
  {
    var all := Catalog();
    if t.id == all[0].id {
      TitleById(t, 0);
    } else if t.id == all[31].id {
      TitleById(t, 31);
    } else if t.id == all[32].id {
      TitleById(t, 32);
    } else if t.id == all[29].id {
      TitleById(t, 29);
    } else if t.id == all[30].id {
      TitleById(t, 30);
    } else if t.id == all[33].id {
      TitleById(t, 33);
    } else if t.id == all[34].id {
      TitleById(t, 34);
    }
  }

  /** `anniversary_1` holds exactly when a first login is recorded and 365 days of milliseconds have passed since. */
  lemma AnniversaryAfterAYear(t: Title, s: Stats, now: int)
    requires t in Catalog() && t.id == "anniversary_1"
    ensures Holds(t.condition, s, now) <==> s.firstLoginAt.Some? && now - s.firstLoginAt.value >= 365 * 24 * 60 * 60 * 1000
  {
    TitleById(t, 35);
  }
}
