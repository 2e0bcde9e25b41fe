/** The engagement features: the login streak and its multiplier, the daily
    bonus, the weighted wheel of prizes, and the daily tasks with their
    progress and rewards. Days are day numbers; `now` is a time in seconds.
    A user without a streak row has `NewStreak` (what `get_or_create`
    makes). */
module Engagement {
  import opened Wrappers
  import Subscription

  // ---------------------------------------------------------------- streak

  /** A `UserStreak` row. */
  datatype Streak = Streak(current: nat, longest: nat, lastDay: Option<int>, totalPoints: nat)

  const NewStreak := Streak(0, 0, None, 0)

  /** `UserStreak.update_streak`: the streak day it returns and the row
      after the call. */
  function UpdateStreak(s: Streak, today: int): (r: (nat, Streak))
    ensures r.0 == r.1.current
    ensures s.lastDay == Some(today) ==> r.1 == s
    ensures s.lastDay != Some(today) ==> r.1.lastDay == Some(today) && r.1.longest >= r.1.current
    ensures s.lastDay != Some(today) ==> r.1.longest == (if r.1.current > s.longest then r.1.current else s.longest)
    ensures r.1.totalPoints == s.totalPoints
  {
    match s.lastDay
    case None =>
      var c := 1;
      (c, s.(current := c, longest := if c > s.longest then c else s.longest, lastDay := Some(today)))
    case Some(last) =>
      if last == today then (s.current, s)
      else
        var c := if last == today - 1 then s.current + 1 else 1;
        (c, s.(current := c, longest := if c > s.longest then c else s.longest, lastDay := Some(today)))
  }

  /** The streak day: 1 on a first visit, one more after yesterday, back to
      1 after any other day, earlier or later. */
  lemma UpdateStreakDay(s: Streak, today: int)
    ensures s.lastDay.None? ==> UpdateStreak(s, today).0 == 1
    ensures s.lastDay == Some(today - 1) ==> UpdateStreak(s, today).0 == s.current + 1
    ensures s.lastDay.Some? && s.lastDay.value != today && s.lastDay.value != today - 1 ==> UpdateStreak(s, today).0 == 1
    ensures s.lastDay == Some(today) ==> UpdateStreak(s, today).0 == s.current
  {
  }

  /** Within a day the update is idempotent. */
  lemma UpdateStreakIdempotent(s: Streak, today: int)
    ensures UpdateStreak(UpdateStreak(s, today).1, today) == UpdateStreak(s, today)
  {
  }

  /** `get_multiplier`, doubled so that it is a whole number: 6 (3.0) from
      30 days, 4 (2.0) from 14, 3 (1.5) from 7, otherwise 2 (1.0). */
  function Multiplier2(current: nat): (m: nat)
    ensures 2 <= m <= 6
    ensures m == 6 <==> current >= 30
    ensures m == 4 <==> 14 <= current < 30
    ensures m == 3 <==> 7 <= current < 14
    ensures m == 2 <==> current < 7
  {
    if current >= 30 then 6 else if current >= 14 then 4 else if current >= 7 then 3 else 2
  }

  /** The multiplier never drops as the streak grows. */
  lemma MultiplierMonotone(a: nat, b: nat)
    requires a <= b
    ensures Multiplier2(a) <= Multiplier2(b)
  {
  }

  // ---------------------------------------------------------------- member state

  datatype UserTask = UserTask(id: int, taskId: int, taskType: string, day: int, progress: nat,
                               target: nat, reward: nat, isCompleted: bool, isClaimed: bool,
                               completedAt: Option<int>)

  /** What the engagement views read and write for one user. */
  datatype Member = Member(streak: Streak, bonusDays: set<int>, spinDays: set<int>,
                           subscription: Option<Subscription.UserSubscription>, tasks: seq<UserTask>)

  // ---------------------------------------------------------------- daily bonus

  const BasePoints := 10

  function Min(a: int, b: int): int {
    if a <= b then a else b
  }

  /** `int((10 + min(streak_day, 7) * 2) * multiplier)`; the product is a
      whole or half number, so truncation is exact floor division. */
  function BonusPoints(streakDay: nat): nat {
    ((BasePoints + Min(streakDay, 7) * 2) * Multiplier2(streakDay)) / 2
  }

  /** The bonus is between 10 and 72 points; from the first streak day on
      it is at least 12. */
  lemma BonusPointsBounds(streakDay: nat)
    ensures 10 <= BonusPoints(streakDay) <= 72
    ensures streakDay >= 1 ==> BonusPoints(streakDay) >= 12
  {
    var b := BasePoints + Min(streakDay, 7) * 2;
    var m := Multiplier2(streakDay);
    assert 10 <= b <= 24 && 2 <= m <= 6;
    assert b * m <= 24 * 6 by { MulMono(b, m, 24, 6); }
    assert b * m >= 10 * 2 by { MulMono(10, 2, b, m); }
  }

  lemma MulMono(a: nat, b: nat, c: nat, d: nat)
    requires a <= c && b <= d
    ensures a * b <= c * d
  {
    assert a * b <= c * b;
  }

  datatype BonusClaim = BonusRefused | BonusGranted(points: nat, streakDay: nat, member: Member)

  /** `claim_daily_bonus`: refused when today's bonus exists; otherwise the
      streak is updated, the bonus recorded and its points added. */
  function ClaimDailyBonus(m: Member, today: int): (r: BonusClaim)
    ensures today in m.bonusDays <==> r.BonusRefused?
    ensures r.BonusGranted? ==>
      r.member.bonusDays == m.bonusDays + {today}
      && r.member.streak.totalPoints == m.streak.totalPoints + r.points
      && r.points == BonusPoints(r.streakDay)
      && (r.streakDay, r.member.streak.(totalPoints := m.streak.totalPoints)) == UpdateStreak(m.streak, today)
  {
    if today in m.bonusDays then BonusRefused
    else
      var (day, s) := UpdateStreak(m.streak, today);
      var p := BonusPoints(day);
      BonusGranted(p, day, m.(streak := s.(totalPoints := s.totalPoints + p), bonusDays := m.bonusDays + {today}))
  }

  /** One bonus per day: a second claim the same day is refused. */
  lemma BonusOncePerDay(m: Member, today: int)
    requires ClaimDailyBonus(m, today).BonusGranted?
    ensures ClaimDailyBonus(ClaimDailyBonus(m, today).member, today).BonusRefused?
  {
  }

  // ---------------------------------------------------------------- wheel of prizes

  datatype Prize = Prize(kind: string, value: nat, weight: nat)

  const Prizes: seq<Prize> := [
    Prize("points_10", 10, 25), Prize("points_25", 25, 20), Prize("points_50", 50, 15),
    Prize("points_100", 100, 5), Prize("premium_1", 1, 10), Prize("premium_3", 3, 5),
    Prize("premium_7", 7, 2), Prize("nothing", 0, 15), Prize("double_next", 2, 3)]

  /** The total weight of the first `k` prizes. */
  function Cum(ps: seq<Prize>, k: nat): nat
    requires k <= |ps|
  {
    if k == 0 then 0 else Cum(ps, k - 1) + ps[k - 1].weight
  }

  function TotalWeight(ps: seq<Prize>): nat {
    Cum(ps, |ps|)
  }

  lemma PrizeWeightsSumToHundred()
    ensures TotalWeight(Prizes) == 100
  {
    assert Cum(Prizes, 1) == 25;
    assert Cum(Prizes, 2) == 45;
    assert Cum(Prizes, 3) == 60;
    assert Cum(Prizes, 4) == 65;
    assert Cum(Prizes, 5) == 75;
    assert Cum(Prizes, 6) == 80;
    assert Cum(Prizes, 7) == 82;
    assert Cum(Prizes, 8) == 97;
  }

  lemma {:induction false} CumMonotone(ps: seq<Prize>, i: nat, j: nat)
    requires i <= j <= |ps|
    ensures Cum(ps, i) <= Cum(ps, j)
    decreases j - i
  {
    if i < j {
      CumMonotone(ps, i, j - 1);
    }
  }

  /** The scan from prize `k` on: the first whose cumulative weight reaches
      `r`, or the first prize when none does. */
  function PickFrom(ps: seq<Prize>, r: int, k: nat): nat
    requires |ps| > 0 && k <= |ps|
    decreases |ps| - k
  {
    if k == |ps| then 0
    else if r <= Cum(ps, k + 1) then k
    else PickFrom(ps, r, k + 1)
  }

  /** The prize index the wheel selects for the drawn number `r`. */
  function Pick(ps: seq<Prize>, r: int): (k: nat)
    requires |ps| > 0
    ensures k < |ps|
  {
    PickFromBound(ps, r, 0);
    PickFrom(ps, r, 0)
  }

  lemma {:induction false} PickFromBound(ps: seq<Prize>, r: int, k: nat)
    requires |ps| > 0 && k <= |ps|
    ensures PickFrom(ps, r, k) < |ps|
    decreases |ps| - k
  {
    if k < |ps| && r > Cum(ps, k + 1) {
      PickFromBound(ps, r, k + 1);
    }
  }

  lemma {:induction false} PickFromInterval(ps: seq<Prize>, r: int, k: nat)
    requires |ps| > 0 && k < |ps| && Cum(ps, k) < r <= TotalWeight(ps)
    ensures k <= PickFrom(ps, r, k) < |ps|
    ensures Cum(ps, PickFrom(ps, r, k)) < r <= Cum(ps, PickFrom(ps, r, k) + 1)
    decreases |ps| - k
  {
    if r > Cum(ps, k + 1) {
      if k + 1 == |ps| {
        assert false;
      }
      PickFromInterval(ps, r, k + 1);
    }
  }

  /** For a draw in 1..total the selected prize is the one whose cumulative
      interval holds the draw: exactly those draws select it. */
  lemma PickIff(ps: seq<Prize>, r: int, k: nat)
    requires |ps| > 0 && 1 <= r <= TotalWeight(ps) && k < |ps|
    ensures Pick(ps, r) == k <==> Cum(ps, k) < r <= Cum(ps, k + 1)
  {
    PickFromInterval(ps, r, 0);
    var p := Pick(ps, r);
    if Cum(ps, k) < r <= Cum(ps, k + 1) && p != k {
      if p < k {
        CumMonotone(ps, p + 1, k);
      } else {
        CumMonotone(ps, k + 1, p);
      }
    }
  }

  /** The integers in `(a, b]`. */
  function Interval(a: int, b: int): (r: set<int>)
    ensures forall x :: x in r <==> a < x <= b
    ensures a <= b ==> |r| == b - a
    decreases b - a
  {
    if b <= a then {} else Interval(a, b - 1) + {b}
  }

  /** Each prize is selected by exactly as many of the draws 1..total as
      its weight. */
  lemma PickCount(ps: seq<Prize>, k: nat)
    requires |ps| > 0 && k < |ps|
    ensures |set r | 1 <= r <= TotalWeight(ps) && Pick(ps, r) == k| == ps[k].weight
  {
    CumMonotone(ps, k + 1, |ps|);
    var drawn := set r | 1 <= r <= TotalWeight(ps) && Pick(ps, r) == k;
    var interval := Interval(Cum(ps, k), Cum(ps, k + 1));
    forall r | r in drawn
      ensures r in interval
    {
      PickIff(ps, r, k);
    }
    forall r | r in interval
      ensures r in drawn
    {
      PickIff(ps, r, k);
    }
    assert drawn == interval;
  }

  /** The wheel's loop: running weight, first prize whose running weight
      reaches `r`, the first prize by default. */
  method SelectPrize(ps: seq<Prize>, r: int) returns (prize: Prize)
    requires |ps| > 0
    ensures prize == ps[Pick(ps, r)]
  {
    var current := 0;
    prize := ps[0];
    var i := 0;
    while i < |ps|
      invariant 0 <= i <= |ps|
      invariant current == Cum(ps, i)
      invariant PickFrom(ps, r, 0) == PickFrom(ps, r, i)
    {
      current := current + ps[i].weight;
      if r <= current {
        prize := ps[i];
        return;
      }
      i := i + 1;
    }
  }

  // ---------------------------------------------------------------- prize application

  predicate StartsWithText(s: string, p: string) {
    |p| <= |s| && s[..|p|] == p
  }

  /** The effect of a prize: points prizes add their value; premium prizes
      extend the subscription's expiry by that many days (from now when it
      has none), or give ten points a day without a subscription; any other
      prize changes nothing. */
  function ApplyPrize(m: Member, p: Prize, now: int): (r: Member)
    ensures StartsWithText(p.kind, "points_") ==> r == m.(streak := m.streak.(totalPoints := m.streak.totalPoints + p.value))
    ensures !StartsWithText(p.kind, "points_") && !StartsWithText(p.kind, "premium_") ==> r == m
    ensures r.tasks == m.tasks && r.bonusDays == m.bonusDays && r.spinDays == m.spinDays
  {
    if StartsWithText(p.kind, "points_") then
      m.(streak := m.streak.(totalPoints := m.streak.totalPoints + p.value))
    else if StartsWithText(p.kind, "premium_") then
      match m.subscription
      case None => m.(streak := m.streak.(totalPoints := m.streak.totalPoints + p.value * 10))
      case Some(s) =>
        var e := if s.expiresAt.Some? then s.expiresAt.value + p.value * Subscription.SecondsPerDay
                 else now + p.value * Subscription.SecondsPerDay;
        m.(subscription := Some(s.(expiresAt := Some(e))))
    else m
  }

  /** Premium prizes: with a subscription the expiry moves `value` days past
      the old expiry (or past now), and the points stay; without one, the
      points grow by ten per day. */
  lemma PremiumPrize(m: Member, p: Prize, now: int)
    requires StartsWithText(p.kind, "premium_")
    ensures var r := ApplyPrize(m, p, now);
      (m.subscription.None? ==> r.streak.totalPoints == m.streak.totalPoints + 10 * p.value && r.subscription.None?)
      && (m.subscription.Some? ==>
            r.streak == m.streak && r.subscription.Some?
            && r.subscription.value.expiresAt == Some(
                 (if m.subscription.value.expiresAt.Some? then m.subscription.value.expiresAt.value else now)
                 + p.value * Subscription.SecondsPerDay))
  {
    assert !StartsWithText(p.kind, "points_") by {
      assert p.kind[..8] == "premium_";
      assert p.kind[1] == 'r';
    }
  }

  datatype SpinOutcome = SpinRefused | SpinGranted(prize: Prize, member: Member)

  /** `spin_wheel` for the drawn number `r` (`random.randint(1, 100)`): once
      a day. */
  function SpinWheel(m: Member, today: int, now: int, r: int): (o: SpinOutcome)
    ensures today in m.spinDays <==> o.SpinRefused?
    ensures o.SpinGranted? ==>
      o.prize == Prizes[Pick(Prizes, r)] && o.member == ApplyPrize(m, o.prize, now).(spinDays := m.spinDays + {today})
  {
    if today in m.spinDays then SpinRefused
    else
      var p := Prizes[Pick(Prizes, r)];
      SpinGranted(p, ApplyPrize(m, p, now).(spinDays := m.spinDays + {today}))
  }

  /** One spin per day. */
  lemma SpinOncePerDay(m: Member, today: int, now: int, r: int, r2: int)
    requires SpinWheel(m, today, now, r).SpinGranted?
    ensures SpinWheel(SpinWheel(m, today, now, r).member, today, now, r2).SpinRefused?
  {
  }

  // ---------------------------------------------------------------- daily tasks

  /** `UserDailyTask.check_completion`: the answer and the row after. */
  function CheckCompletion(t: UserTask, now: int): (r: (bool, UserTask))
    ensures r.0 == r.1.isCompleted
    ensures r.1.isCompleted <==> t.isCompleted || t.progress >= t.target
    ensures !t.isCompleted && t.progress >= t.target ==> r.1.completedAt == Some(now)
    ensures t.isCompleted || t.progress < t.target ==> r.1 == t
    ensures r.1.(isCompleted := t.isCompleted, completedAt := t.completedAt) == t
  {
    if t.progress >= t.target && !t.isCompleted then (true, t.(isCompleted := true, completedAt := Some(now)))
    else (t.isCompleted, t)
  }

  /** The progress update of one task. */
  function Advance(t: UserTask, taskType: string, today: int, count: nat, now: int): UserTask {
    if t.day == today && t.taskType == taskType && !t.isCompleted then
      CheckCompletion(t.(progress := t.progress + count), now).1
    else t
  }

  /** `update_task_progress`: today's incomplete tasks of the type advance by
      `count` and are checked for completion; every other task is left as
      it is. */
  function UpdateTaskProgress(m: Member, taskType: string, today: int, count: nat, now: int): (r: Member)
    ensures |r.tasks| == |m.tasks|
    ensures forall i :: 0 <= i < |m.tasks| ==> r.tasks[i] == Advance(m.tasks[i], taskType, today, count, now)
    ensures r.streak == m.streak
  {
    m.(tasks := seq(|m.tasks|, i requires 0 <= i < |m.tasks| => Advance(m.tasks[i], taskType, today, count, now)))
  }

  /** What an update does to one task: only a matching incomplete task of
      today moves; its progress grows by `count`, it completes exactly when
      the new progress reaches the target, and nothing is ever un-completed
      or un-claimed. */
  lemma AdvanceEffect(t: UserTask, taskType: string, today: int, count: nat, now: int)
    ensures var a := Advance(t, taskType, today, count, now);
      (t.isCompleted ==> a == t)
      && (t.isCompleted ==> a.isCompleted)
      && a.isClaimed == t.isClaimed && a.id == t.id && a.taskId == t.taskId && a.day == t.day
      && (t.day != today || t.taskType != taskType ==> a == t)
      && (t.day == today && t.taskType == taskType && !t.isCompleted ==>
            a.progress == t.progress + count && (a.isCompleted <==> t.progress + count >= t.target))
  {
  }

  /** The first task with this id that is completed and unclaimed, as the
      filtered `get` finds it (ids are unique). */
  function FindClaimable(ts: seq<UserTask>, id: int): (r: Option<nat>)
    ensures r.Some? ==> r.value < |ts| && ts[r.value].id == id && ts[r.value].isCompleted && !ts[r.value].isClaimed
    ensures r.None? <==> forall i :: 0 <= i < |ts| ==> !(ts[i].id == id && ts[i].isCompleted && !ts[i].isClaimed)
  {
    if |ts| == 0 then None
    else if ts[0].id == id && ts[0].isCompleted && !ts[0].isClaimed then Some(0)
    else match FindClaimable(ts[1..], id)
      case None => None
      case Some(k) => Some(k + 1)
  }

  datatype TaskClaim = TaskNotFound | TaskRewarded(points: nat, member: Member)

  /** `claim_task_reward`. */
  function ClaimTaskReward(m: Member, id: int): (r: TaskClaim)
    ensures r.TaskNotFound? <==> FindClaimable(m.tasks, id).None?
    ensures r.TaskRewarded? ==>
      var k := FindClaimable(m.tasks, id).value;
      r.points == m.tasks[k].reward
      && r.member.streak.totalPoints == m.streak.totalPoints + r.points
      && r.member.tasks == m.tasks[k := m.tasks[k].(isClaimed := true)]
  {
    match FindClaimable(m.tasks, id)
    case None => TaskNotFound
    case Some(k) =>
      var t := m.tasks[k];
      TaskRewarded(t.reward, m.(streak := m.streak.(totalPoints := m.streak.totalPoints + t.reward),
                                tasks := m.tasks[k := t.(isClaimed := true)]))
  }

  predicate UniqueIds(ts: seq<UserTask>) {
    forall i, j :: 0 <= i < j < |ts| ==> ts[i].id != ts[j].id
  }

  /** A reward is paid once: with unique ids, a second claim of the same
      task finds nothing. */
  lemma TaskRewardOnce(m: Member, id: int)
    requires UniqueIds(m.tasks)
    requires ClaimTaskReward(m, id).TaskRewarded?
    ensures ClaimTaskReward(ClaimTaskReward(m, id).member, id).TaskNotFound?
  {
    var k := FindClaimable(m.tasks, id).value;
    var ts := ClaimTaskReward(m, id).member.tasks;
    forall i | 0 <= i < |ts|
      ensures !(ts[i].id == id && ts[i].isCompleted && !ts[i].isClaimed)
    {
      if i != k {
        assert ts[i] == m.tasks[i];
      }
    }
  }

  // ---------------------------------------------------------------- task assignment

  /** At most one task row per (task, day). */
  predicate OnePerTaskAndDay(ts: seq<UserTask>) {
    forall i, j :: 0 <= i < j < |ts| ==> !(ts[i].taskId == ts[j].taskId && ts[i].day == ts[j].day)
  }

  predicate HasTaskOn(ts: seq<UserTask>, today: int) {
    exists i :: 0 <= i < |ts| && ts[i].day == today
  }

  /** The assignment in `daily_rewards`: when the user has no task today,
      the sampled tasks (distinct, as `random.sample` draws them) are added
      for today. */
  function AssignTasks(m: Member, sampled: seq<UserTask>, today: int): (r: Member)
    ensures HasTaskOn(m.tasks, today) ==> r == m
    ensures !HasTaskOn(m.tasks, today) ==> r.tasks == m.tasks + sampled
  {
    if HasTaskOn(m.tasks, today) then m else m.(tasks := m.tasks + sampled)
  }

  /** The (task, day) uniqueness survives assignment and every progress
      update. */
  lemma AssignKeepsUnique(m: Member, sampled: seq<UserTask>, today: int)
    requires OnePerTaskAndDay(m.tasks)
    requires forall i :: 0 <= i < |sampled| ==> sampled[i].day == today
    requires forall i, j :: 0 <= i < j < |sampled| ==> sampled[i].taskId != sampled[j].taskId
    ensures OnePerTaskAndDay(AssignTasks(m, sampled, today).tasks)
  {
    if !HasTaskOn(m.tasks, today) {
      var ts := m.tasks + sampled;
      forall i, j | 0 <= i < j < |ts|
        ensures !(ts[i].taskId == ts[j].taskId && ts[i].day == ts[j].day)
      {
        if j >= |m.tasks| && i < |m.tasks| {
          assert ts[j].day == today;
          assert ts[i] == m.tasks[i];
          assert ts[i].day != today;
        }
      }
    }
  }

  lemma ProgressKeepsUnique(m: Member, taskType: string, today: int, count: nat, now: int)
    requires OnePerTaskAndDay(m.tasks)
    ensures OnePerTaskAndDay(UpdateTaskProgress(m, taskType, today, count, now).tasks)
  {
    var ts := UpdateTaskProgress(m, taskType, today, count, now).tasks;
    forall i | 0 <= i < |ts|
      ensures ts[i].taskId == m.tasks[i].taskId && ts[i].day == m.tasks[i].day
    {
      AdvanceEffect(m.tasks[i], taskType, today, count, now);
    }
  }
}
