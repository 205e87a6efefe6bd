/**
 * The rules inside `FriendView`: how long ago a friend last logged in, as
 * a label in whole days; whether that label is shown; the activity feed of
 * followed users; the follow button; and the checks on registration.
 * Instants are integer milliseconds since the epoch.
 */
module Friends {
  import opened Wrappers
  import opened Text
  import opened StableSort

  const DayMillis := 1000 * 60 * 60 * 24

  const TodayLabel: string := "今日ログインあり"
  const OneDayLabel: string := "1日ログインなし"
  const WeekOrMoreLabel: string := "7日以上ログインなし"
  /** What follows the day count in the labels for 2 to 6 days. */
  const DaysSuffix: string := "日ログインなし"

  /** What a user reports having achieved last, and when, if the record says. */
  datatype RecentAction = RecentAction(kind: string, text: string, date: Option<int>)

  /** The public profile of a user as the friend views list it. */
  datatype Profile = Profile(
    uid: string,
    name: string,
    gender: string,
    showLastLogin: bool,
    lastLoginAt: Option<int>,
    recentAction: Option<RecentAction>)

  // ------------------------------------------------------------ last login

  function Abs(x: int): nat {
    if x < 0 then -x else x
  }

  /** `Math.floor(Math.abs(now - last) / 86400000)`: whole days between the two instants, either way round. */
  function DayGap(last: int, now: int): (g: nat)
    ensures g * DayMillis <= Abs(now - last) < (g + 1) * DayMillis
  {
    Abs(now - last) / DayMillis
  }

  /** The label for a gap of `gap` whole days. */
  function GapLabel(gap: nat): (l: string)
    ensures l != []
    ensures l == TodayLabel <==> gap == 0
    ensures gap >= 7 <==> l == WeekOrMoreLabel
  {
    if gap == 0 then TodayLabel
    else if gap == 1 then OneDayLabel
    else if gap >= 7 then WeekOrMoreLabel
    else
      assert NatToString(gap) == [DigitChar(gap)];
      assert (NatToString(gap) + DaysSuffix)[0] != TodayLabel[0];
      NatToString(gap) + DaysSuffix
  }

  /** `formatLastLogin`: no label without a last-login time. */
  function FormatLastLogin(lastLogin: Option<int>, now: int): (r: Option<string>)
    ensures r.Some? <==> lastLogin.Some?
    ensures r.Some? ==> r.value != [] && (r.value == TodayLabel <==> Abs(now - lastLogin.value) < DayMillis)
  {
    match lastLogin
    case None => None
    case Some(t) => Some(GapLabel(DayGap(t, now)))
  }

  /** The login line of a user's card: shown only when the user lets it be shown. */
  function LoginStatus(user: Profile, now: int): (r: Option<string>)
    ensures r.Some? <==> user.showLastLogin && user.lastLoginAt.Some?
  {
    if user.showLastLogin then FormatLastLogin(user.lastLoginAt, now) else None
  }

  /** The gaps the labels tell apart: 0 to 6 days, and 7 days or more. */
  function Bucket(gap: nat): nat {
    if gap >= 7 then 7 else gap
  }

  // ------------------------------------------------------------------ feed

  /** When the recent action happened; a missing date counts as the epoch. */
  function ActionTime(u: Profile): int {
    if u.recentAction.Some? && u.recentAction.value.date.Some? then u.recentAction.value.date.value else 0
  }

  /** Sorting by this key ascending lists the latest action first. */
  function FeedKey(u: Profile): int {
    -ActionTime(u)
  }

  /** `filter(u => u.recentAction)`: the followed users that report an action, in order. */
  function WithAction(users: seq<Profile>): (r: seq<Profile>)
    ensures |r| <= |users|
    ensures forall i :: 0 <= i < |r| ==> r[i].recentAction.Some?
  {
    if users == [] then []
    else if users[0].recentAction.Some? then [users[0]] + WithAction(users[1..])
    else WithAction(users[1..])
  }

  /** The feed tab: followed users with an action, latest action first, ties in the order they are followed. */
  function Feed(following: seq<Profile>): (f: seq<Profile>)
    ensures multiset(f) == multiset(WithAction(following))
    ensures forall i, j :: 0 <= i < j < |f| ==> ActionTime(f[i]) >= ActionTime(f[j])
  {
    SortBySorted(WithAction(following), FeedKey);
    SortBy(WithAction(following), FeedKey)
  }

  /** The feed tab says there is no news exactly when no followed user reports an action. */
  predicate FeedEmptyNotice(following: seq<Profile>): (b: bool)
    ensures b ==> forall i :: 0 <= i < |following| ==> following[i].recentAction.None?
  {
    WithActionMembers(following);
    assert forall i :: 0 <= i < |following| ==> following[i] in following;
    |WithAction(following)| == 0
  }

  // --------------------------------------------------------- follow button

  datatype FollowAction = Follow | Unfollow

  /** A card shows no button, or a button with its label and what a click does. */
  datatype FollowButton = NoButton | Button(caption: string, onClick: FollowAction)

  /** `followingList.some(u => u.uid === uid)`. */
  predicate IsFollowing(following: seq<Profile>, uid: string) {
    exists i :: 0 <= i < |following| && following[i].uid == uid
  }

  /** The button on `user`'s card as seen by the signed-in user `me`. */
  function ButtonFor(me: Option<string>, following: seq<Profile>, user: Profile): (b: FollowButton)
    ensures b.NoButton? <==> me == Some(user.uid)
    ensures b.Button? ==> (b.onClick == Unfollow <==> b.caption == "フォロー中")
  {
    if me == Some(user.uid) then NoButton
    else if IsFollowing(following, user.uid) then Button("フォロー中", Unfollow)
    else Button("フォロー", Follow)
  }

  // ----------------------------------------------------------- registration

  datatype RegisterResult =
    | NameMissing           // "名前を入力してください"
    | GenderMissing         // "性別を選択してください"
    | Saved(name: string, gender: string)

  /** `handleRegister`: the name is checked before the gender; what is saved is the trimmed name. */
  function Register(uid: Option<string>, name: string, gender: string): (r: RegisterResult)
    ensures r.Saved? ==> && Truthy(uid) && r.name != "" && Trim(r.name) == r.name
                         && (r.gender == "male" || r.gender == "female")
    ensures r.Saved? ==> r.name == Trim(name) && r.gender == gender
  {
    TrimIdempotent(name);
    if !Truthy(uid) || Trim(name) == "" then NameMissing
    else if gender != "male" && gender != "female" then GenderMissing
    else Saved(Trim(name), gender)
  }

  // ================================================================ properties

  /** Without a last-login time there is no label, and a hidden login line shows nothing. */
  lemma NoLabelWithoutTime(user: Profile, now: int)
    ensures FormatLastLogin(None, now) == None
    ensures !user.showLastLogin ==> LoginStatus(user, now) == None
    ensures user.showLastLogin ==> LoginStatus(user, now) == FormatLastLogin(user.lastLoginAt, now)
  {
  }

  /** A login `k` whole days and a part of a day before or after now has a gap of `k` days. */
  lemma GapOfWholeDays(last: int, now: int, k: nat, rest: int)
    requires 0 <= rest < DayMillis
    requires now - last == k * DayMillis + rest || last - now == k * DayMillis + rest
    ensures DayGap(last, now) == k
  {
    assert Abs(now - last) == k * DayMillis + rest;
  }

  /** The same distance in the past or in the future gives the same label. */
  lemma PastAndFutureAlike(now: int, d: int)
    ensures FormatLastLogin(Some(now - d), now) == FormatLastLogin(Some(now + d), now)
  {
  }

  /** The first character of each label: "今" for today, else the digit of the bucket (7 for a week or more). */
  lemma LabelHead(gap: nat)
    ensures GapLabel(gap) != []
    ensures GapLabel(gap)[0] == if Bucket(gap) == 0 then '今' else DigitChar(Bucket(gap))
  {
    if 2 <= gap < 7 {
      assert NatToString(gap) == [DigitChar(gap)];
    }
  }

  /** The labels for 2 to 6 days are that digit followed by "日ログインなし". */
  lemma MiddleLabels(gap: nat)
    requires 2 <= gap <= 6
    ensures GapLabel(gap) == [DigitChar(gap)] + DaysSuffix
  {
  }

  /** Two gaps get the same label exactly when they fall in the same bucket: 0, 1, …, 6, or 7 and more. */
  lemma LabelsTellBucketsApart(g1: nat, g2: nat)
    ensures GapLabel(g1) == GapLabel(g2) <==> Bucket(g1) == Bucket(g2)
  {
    LabelHead(g1);
    LabelHead(g2);
    if Bucket(g1) != Bucket(g2) {
      assert GapLabel(g1)[0] != GapLabel(g2)[0];
    }
  }

  /** The feed holds exactly the followed users that report an action. */
  lemma {:induction false} WithActionMembers(users: seq<Profile>)
    ensures forall u :: u in WithAction(users) <==> u in users && u.recentAction.Some?
    ensures multiset(WithAction(users)) <= multiset(users)
  {
    if users != [] {
      WithActionMembers(users[1..]);
      assert users == [users[0]] + users[1..];
    }
  }

  /** The feed is those users, latest action first, with users whose actions are equally recent in the order they are followed. */
  lemma FeedSpec(following: seq<Profile>)
    ensures var f := Feed(following);
      && multiset(f) == multiset(WithAction(following))
      && (forall u :: u in f <==> u in following && u.recentAction.Some?)
      && (forall i, j :: 0 <= i < j < |f| ==> ActionTime(f[i]) >= ActionTime(f[j]))
      && (forall k :: WithKey(f, FeedKey, k) == WithKey(WithAction(following), FeedKey, k))
  {
    var f := Feed(following);
    SortBySorted(WithAction(following), FeedKey);
    WithActionMembers(following);
    forall u ensures u in f <==> u in WithAction(following) {
      assert u in f <==> u in multiset(f);
    }
    forall k ensures WithKey(f, FeedKey, k) == WithKey(WithAction(following), FeedKey, k) {
      SortByStable(WithAction(following), FeedKey, k);
    }
  }

  /** The no-news notice shows exactly when the feed is empty, that is when no followed user reports an action. */
  lemma FeedEmptyIff(following: seq<Profile>)
    ensures FeedEmptyNotice(following) <==> forall i :: 0 <= i < |following| ==> following[i].recentAction == None
    ensures FeedEmptyNotice(following) <==> Feed(following) == []
  {
    WithActionMembers(following);
    SortBySorted(WithAction(following), FeedKey);
    if !FeedEmptyNotice(following) {
      assert WithAction(following)[0] in WithAction(following);
    } else {
      forall i | 0 <= i < |following| ensures following[i].recentAction == None {
        assert following[i] in following;
      }
    }
  }

  /** One's own card has no button; any other card has one, labelled "フォロー中" and unfollowing exactly when the user is followed. */
  lemma FollowButtonRule(me: Option<string>, following: seq<Profile>, user: Profile)
    ensures ButtonFor(me, following, user) == NoButton <==> me == Some(user.uid)
    ensures ButtonFor(me, following, user).Button? ==>
      && (ButtonFor(me, following, user).caption == "フォロー中" <==> IsFollowing(following, user.uid))
      && (ButtonFor(me, following, user).onClick == Unfollow <==> IsFollowing(following, user.uid))
  {
  }

  /** Once a user is in the following list, their card offers to unfollow. */
  lemma FollowedCardOffersUnfollow(me: Option<string>, following: seq<Profile>, user: Profile)
    requires me != Some(user.uid)
    ensures ButtonFor(me, following + [user], user) == Button("フォロー中", Unfollow)
  {
    assert (following + [user])[|following|] == user;
  }

  /** Once the reloaded following list no longer has the user, their card offers to follow again. */
  lemma UnfollowedCardOffersFollow(me: Option<string>, following: seq<Profile>, user: Profile)
    requires me != Some(user.uid)
    requires forall i :: 0 <= i < |following| ==> following[i].uid != user.uid
    ensures ButtonFor(me, following, user) == Button("フォロー", Follow)
  {
  }

  /** Registration saves exactly when signed in with a name that is not blank and a gender of "male" or "female"; a missing name is reported first. */
  lemma RegisterRule(uid: Option<string>, name: string, gender: string)
    ensures Register(uid, name, gender).Saved? <==> Truthy(uid) && !IsBlank(name) && (gender == "male" || gender == "female")
    ensures IsBlank(name) ==> Register(uid, name, gender) == NameMissing
    ensures Register(uid, name, gender).Saved? ==>
      var r := Register(uid, name, gender);
      r.name != "" && Trim(r.name) == r.name && r.name == Trim(name) && r.gender == gender
  {
    TrimEmptyIffBlank(name);
    TrimIdempotent(name);
  }
}
