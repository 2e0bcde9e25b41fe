/** Subscription plans, a user's subscription and its daily limits, promo
    codes, checkout pricing, payment creation, activation with the referral
    bonus, referral tracking, badges and the activity streak of `UserStats`.

    The clock is a parameter: `now` is a time in seconds, and a calendar day
    is `now / SecondsPerDay` (floor division, as a `date` is). Prices are exact
    reals. */
module Subscription {
  import opened Wrappers

  const SecondsPerDay := 86400

  /** The calendar day of a time. */
  function DayOf(t: int): int {
    t / SecondsPerDay
  }

  /** `timedelta.days` of a difference in seconds: floor division by a day. */
  function DeltaDays(seconds: int): int {
    seconds / SecondsPerDay
  }

  // ---------------------------------------------------------------- plans

  datatype Plan = Plan(planType: string, durationType: string, price: real,
                       dailyBookLimit: nat, dailyAiLimit: nat)

  /** `get_duration_days`: by duration type, 30 for any unknown type. */
  function DurationDays(durationType: string): (d: nat)
    ensures durationType == "monthly" ==> d == 30
    ensures durationType == "quarterly" ==> d == 90
    ensures durationType == "yearly" ==> d == 365
    ensures durationType == "lifetime" ==> d == 36500
    ensures durationType !in ["monthly", "quarterly", "yearly", "lifetime"] ==> d == 30
  {
    if durationType == "quarterly" then 90
    else if durationType == "yearly" then 365
    else if durationType == "lifetime" then 36500
    else 30
  }

  // ---------------------------------------------------------------- user subscription

  datatype Status = Active | Expired | Cancelled | Pending

  /** A `UserSubscription` row; `plan` None is the free tier, `expiresAt` None
      means no expiry. */
  datatype UserSubscription = UserSubscription(
    plan: Option<Plan>, status: Status, startedAt: int, expiresAt: Option<int>,
    booksRead: nat, aiRequests: nat, lastResetDay: int, bonusDays: nat)

  /** `is_active`. */
  predicate IsActive(s: UserSubscription, now: int) {
    s.plan.None? || (s.status == Active && !(s.expiresAt.Some? && s.expiresAt.value < now))
  }

  /** `is_premium`. */
  predicate IsPremium(s: UserSubscription) {
    s.plan.Some? && s.plan.value.planType in ["standard", "premium", "vip"]
  }

  /** The free tier is always active, even past a stale expiry; a paid plan is
      active iff its status is active and it has not expired; only paid
      plans of a listed type are premium. */
  lemma {:induction false} ActiveCases(s: UserSubscription, now: int)
    ensures s.plan.None? ==> IsActive(s, now) && !IsPremium(s)
    ensures s.plan.Some? && s.status != Active ==> !IsActive(s, now)
    ensures s.plan.Some? && IsActive(s, now) ==>
      s.status == Active && (s.expiresAt.None? || now <= s.expiresAt.value)
    ensures s.plan.Some? && s.status == Active && (s.expiresAt.None? || now <= s.expiresAt.value) ==>
      IsActive(s, now)
    ensures IsPremium(s) <==>
      s.plan.Some? && (s.plan.value.planType == "standard" || s.plan.value.planType == "premium"
                       || s.plan.value.planType == "vip")
  {
  }

  /** An expired subscription with a plan is inactive, whatever its status. */
  lemma ExpiredIsInactive(s: UserSubscription, now: int)
    requires s.plan.Some? && s.expiresAt.Some? && s.expiresAt.value < now
    ensures !IsActive(s, now)
  {
  }

  /** `reset_daily_limits`: on a new day both counters restart from zero. */
  function ResetDailyLimits(s: UserSubscription, today: int): (r: UserSubscription)
    ensures r.lastResetDay == today
    ensures s.lastResetDay != today ==> r.booksRead == 0 && r.aiRequests == 0
    ensures s.lastResetDay == today ==> r == s
    ensures r.plan == s.plan && r.expiresAt == s.expiresAt && r.bonusDays == s.bonusDays && r.status == s.status
  {
    if s.lastResetDay != today then s.(booksRead := 0, aiRequests := 0, lastResetDay := today) else s
  }

  /** A second reset on the same day is a no-op. */
  lemma ResetIdempotent(s: UserSubscription, today: int)
    ensures ResetDailyLimits(ResetDailyLimits(s, today), today) == ResetDailyLimits(s, today)
  {
  }

  const FreeBookLimit := 2
  const FreeAiLimit := 3

  function BookLimit(s: UserSubscription): nat {
    if s.plan.None? then FreeBookLimit else s.plan.value.dailyBookLimit
  }

  function AiLimit(s: UserSubscription): nat {
    if s.plan.None? then FreeAiLimit else s.plan.value.dailyAiLimit
  }

  /** `can_read_book`: the answer, and the subscription after its reset. */
  function CanReadBook(s: UserSubscription, today: int): (r: (bool, UserSubscription))
    ensures r.1 == ResetDailyLimits(s, today)
    ensures r.0 <==> r.1.booksRead < BookLimit(s)
  {
    var t := ResetDailyLimits(s, today);
    (t.booksRead < BookLimit(t), t)
  }

  /** `can_use_ai`. */
  function CanUseAi(s: UserSubscription, today: int): (r: (bool, UserSubscription))
    ensures r.1 == ResetDailyLimits(s, today)
    ensures r.0 <==> r.1.aiRequests < AiLimit(s)
  {
    var t := ResetDailyLimits(s, today);
    (t.aiRequests < AiLimit(t), t)
  }

  /** `increment_book_read`. */
  function IncrementBookRead(s: UserSubscription, today: int): (r: UserSubscription)
    ensures r.booksRead == ResetDailyLimits(s, today).booksRead + 1
    ensures r.aiRequests == ResetDailyLimits(s, today).aiRequests && r.lastResetDay == today
  {
    var t := ResetDailyLimits(s, today);
    t.(booksRead := t.booksRead + 1)
  }

  /** `increment_ai_request`. */
  function IncrementAiRequest(s: UserSubscription, today: int): (r: UserSubscription)
    ensures r.aiRequests == ResetDailyLimits(s, today).aiRequests + 1
    ensures r.booksRead == ResetDailyLimits(s, today).booksRead && r.lastResetDay == today
  {
    var t := ResetDailyLimits(s, today);
    t.(aiRequests := t.aiRequests + 1)
  }

  /** The first read of a new day leaves the counter at exactly 1. */
  lemma NewDayIncrement(s: UserSubscription, today: int)
    requires s.lastResetDay != today
    ensures IncrementBookRead(s, today).booksRead == 1
  {
  }

  /** A day of reads, each admitted only when `can_read_book` allows it. */
  function GatedReads(s: UserSubscription, today: int, attempts: nat): UserSubscription
    decreases attempts
  {
    if attempts == 0 then s
    else
      var (ok, t) := CanReadBook(s, today);
      GatedReads(if ok then IncrementBookRead(t, today) else t, today, attempts - 1)
  }

  /** However many reads are attempted within one day, the counter stays
      within the limit when every read is gated. */
  lemma {:induction false} GatedReadsWithinLimit(s: UserSubscription, today: int, attempts: nat)
    requires s.lastResetDay == today ==> s.booksRead <= BookLimit(s)
    ensures attempts > 0 ==> GatedReads(s, today, attempts).booksRead <= BookLimit(s)
    ensures GatedReads(s, today, attempts).plan == s.plan
    decreases attempts
  {
    if attempts > 0 {
      var (ok, t) := CanReadBook(s, today);
      var next := if ok then IncrementBookRead(t, today) else t;
      assert t == ResetDailyLimits(s, today) && t.booksRead <= BookLimit(s);
      assert next.lastResetDay == today && next.plan == s.plan && next.booksRead <= BookLimit(s);
      GatedReadsWithinLimit(next, today, attempts - 1);
      assert GatedReads(s, today, attempts) == GatedReads(next, today, attempts - 1);
    }
  }

  /** `days_remaining`: None for no expiry (infinity), otherwise the whole
      days left, never negative. */
  function DaysRemaining(s: UserSubscription, now: int): (r: Option<nat>)
    ensures s.expiresAt.None? <==> r.None?
    ensures s.expiresAt.Some? && s.expiresAt.value >= now ==>
      r.value * SecondsPerDay <= s.expiresAt.value - now < (r.value + 1) * SecondsPerDay
    ensures s.expiresAt.Some? && s.expiresAt.value < now ==> r == Some(0)
  {
    match s.expiresAt
    case None => None
    case Some(e) =>
      var d := DeltaDays(e - now);
      Some(if d < 0 then 0 else d)
  }

  /** `add_bonus_days`: the bonus counter always grows; the expiry moves
      only when there is one. */
  function AddBonusDays(s: UserSubscription, days: nat): (r: UserSubscription)
    ensures r.bonusDays == s.bonusDays + days
    ensures s.expiresAt.None? ==> r.expiresAt.None?
    ensures s.expiresAt.Some? ==> r.expiresAt == Some(s.expiresAt.value + days * SecondsPerDay)
    ensures r.plan == s.plan && r.status == s.status && r.booksRead == s.booksRead
  {
    s.(bonusDays := s.bonusDays + days,
       expiresAt := if s.expiresAt.Some? then Some(s.expiresAt.value + days * SecondsPerDay) else None)
  }

  /** Bonus days add up: two grants are one grant of the sum. */
  lemma AddBonusDaysAdditive(s: UserSubscription, a: nat, b: nat)
    ensures AddBonusDays(AddBonusDays(s, a), b) == AddBonusDays(s, a + b)
  {
  }

  // ---------------------------------------------------------------- promo codes

  datatype CodeType = Percentage | Fixed | Days | Trial

  datatype PromoCode = PromoCode(codeType: CodeType, value: nat, maxUses: nat, usedCount: nat,
                                 validFrom: int, validUntil: Option<int>, isActive: bool)

  /** `PromoCode.is_valid`. */
  predicate PromoValid(p: PromoCode, now: int) {
    p.isActive && p.usedCount < p.maxUses && p.validFrom <= now
    && !(p.validUntil.Some? && p.validUntil.value < now)
  }

  /** `PromoCode.apply`. */
  function ApplyPromo(p: PromoCode, price: real): (r: real)
    ensures p.codeType == Fixed ==> r >= 0.0 && (price >= p.value as real ==> r == price - p.value as real)
    ensures p.codeType == Fixed && price < p.value as real ==> r == 0.0
    ensures p.codeType == Percentage ==> r == price - price * p.value as real / 100.0
    ensures p.codeType == Percentage && p.value <= 100 && price >= 0.0 ==> 0.0 <= r <= price
    ensures p.codeType == Days || p.codeType == Trial ==> r == price
  {
    match p.codeType
    case Percentage =>
      PercentTakesOff(price, p.value);
      if p.value <= 100 && price >= 0.0 then PercentOff(price, p.value); PercentOfPrice(price, p.value)
      else PercentOfPrice(price, p.value)
    case Fixed => if price - p.value as real > 0.0 then price - p.value as real else 0.0
    case _ => price
  }

  /** `price * (100 - percent) / 100`. */
  function PercentOfPrice(price: real, percent: int): real {
    price * (100 - percent) as real / 100.0
  }

  /** The percentage result is the price less `percent` hundredths of it. */
  lemma {:induction false} PercentTakesOff(price: real, percent: int)
    ensures PercentOfPrice(price, percent) == price - price * percent as real / 100.0
  {
    assert price * (100 - percent) as real == price * 100.0 - price * percent as real;
  }

  /** Taking at most 100 percent off a price keeps it between 0 and itself. */
  lemma PercentOff(price: real, percent: nat)
    requires price >= 0.0 && percent <= 100
    ensures 0.0 <= PercentOfPrice(price, percent) <= price
  {
    var k := (100 - percent) as real;
    assert 0.0 <= price * k <= price * 100.0;
    assert PercentOfPrice(price, percent) == (price * k) / 100.0;
    assert (price * k) / 100.0 <= (price * 100.0) / 100.0 == price;
  }

  /** A percentage code above 100 yields a negative price from `apply`. */
  lemma PercentageAboveHundredNegative(p: PromoCode, price: real)
    requires p.codeType == Percentage && p.value > 100 && price > 0.0
    ensures ApplyPromo(p, price) < 0.0
  {
  }

  // ---------------------------------------------------------------- checkout

  datatype CheckoutResult =
    | SwitchedToFree(subscription: UserSubscription)
    | Priced(discount: real, finalPrice: real)

  /** The checkout discount: only a valid percentage or fixed code gives one. */
  function Discount(price: real, promo: Option<PromoCode>, now: int): (d: real)
    ensures promo.None? || !PromoValid(promo.value, now) ==> d == 0.0
    ensures promo.Some? && PromoValid(promo.value, now) && promo.value.codeType == Percentage ==>
      price - d == ApplyPromo(promo.value, price)
    ensures promo.Some? && PromoValid(promo.value, now) && promo.value.codeType == Fixed ==>
      d == promo.value.value as real
    ensures promo.Some? && (promo.value.codeType == Days || promo.value.codeType == Trial) ==> d == 0.0
  {
    if promo.Some? && PromoValid(promo.value, now) then
      match promo.value.codeType
      case Percentage => price * promo.value.value as real / 100.0
      case Fixed => promo.value.value as real
      case _ => 0.0
    else 0.0
  }

  /** `checkout`: a free plan is switched to at once; otherwise the price
      less the discount, floored at 0. `promo` is the active code found for
      the upper-cased `promo` parameter, if any. */
  function Checkout(s: UserSubscription, plan: Plan, promo: Option<PromoCode>, now: int): (r: CheckoutResult)
    ensures plan.price == 0.0 <==> r.SwitchedToFree?
    ensures r.SwitchedToFree? ==> r.subscription.plan == Some(plan) && r.subscription.status == Active
    ensures r.Priced? ==> r.finalPrice >= 0.0 && r.finalPrice >= plan.price - r.discount
    ensures r.Priced? && plan.price - r.discount >= 0.0 ==> r.finalPrice == plan.price - r.discount
    ensures r.Priced? ==> r.discount == Discount(plan.price, promo, now)
    ensures r.Priced? && plan.price > 0.0 && (promo.None? || !PromoValid(promo.value, now)) ==>
      r.discount == 0.0 && r.finalPrice == plan.price
  {
    if plan.price == 0.0 then SwitchedToFree(s.(plan := Some(plan), status := Active))
    else
      var d := Discount(plan.price, promo, now);
      Priced(d, if plan.price - d > 0.0 then plan.price - d else 0.0)
  }

  // ---------------------------------------------------------------- payment

  datatype PaymentStatus = PaymentPending | PaymentCompleted | PaymentFailed | PaymentRefunded

  datatype Payment = Payment(amount: real, payMethod: string, status: PaymentStatus, promoCode: string)

  /** `create_payment`: the promo is applied, and its use counted, only when
      it is valid; the payment is always created pending. */
  function CreatePayment(plan: Plan, payMethod: string, code: string, promo: Option<PromoCode>, now: int)
    : (r: (Payment, Option<PromoCode>))
    ensures r.0.status == PaymentPending && r.0.payMethod == payMethod && r.0.promoCode == code
    ensures promo.Some? && PromoValid(promo.value, now) ==>
      r.0.amount == ApplyPromo(promo.value, plan.price)
      && r.1 == Some(promo.value.(usedCount := promo.value.usedCount + 1))
    ensures !(promo.Some? && PromoValid(promo.value, now)) ==> r.0.amount == plan.price && r.1 == promo
  {
    if promo.Some? && PromoValid(promo.value, now) then
      (Payment(ApplyPromo(promo.value, plan.price), payMethod, PaymentPending, code),
       Some(promo.value.(usedCount := promo.value.usedCount + 1)))
    else (Payment(plan.price, payMethod, PaymentPending, code), promo)
  }

  /** Payments made one after another with the same code. */
  function PaymentsWith(p: PromoCode, plan: Plan, times: seq<int>): PromoCode
    decreases |times|
  {
    if |times| == 0 then p
    else
      var (_, q) := CreatePayment(plan, "click", "", Some(p), times[0]);
      PaymentsWith(q.value, plan, times[1..])
  }

  /** A code is never used more than `max_uses` times through payments,
      whenever they happen. */
  lemma {:induction false} UsageBounded(p: PromoCode, plan: Plan, times: seq<int>)
    requires p.usedCount <= p.maxUses
    ensures PaymentsWith(p, plan, times).usedCount <= p.maxUses
    ensures PaymentsWith(p, plan, times).maxUses == p.maxUses
    decreases |times|
  {
    if |times| > 0 {
      var (_, q) := CreatePayment(plan, "click", "", Some(p), times[0]);
      UsageBounded(q.value, plan, times[1..]);
    }
  }

  /** For a fixed code, or a percentage code up to 100, checkout shows the
      price the payment then charges (both clamp a fixed discount at 0). */
  lemma CheckoutAgreesWithPayment(s: UserSubscription, plan: Plan, p: PromoCode, now: int)
    requires plan.price > 0.0 && ((p.codeType == Percentage && p.value <= 100) || p.codeType == Fixed)
    ensures Checkout(s, plan, Some(p), now).finalPrice
         == CreatePayment(plan, "click", "", Some(p), now).0.amount
  {
  }

  // ---------------------------------------------------------------- badges

  datatype Badge =
    | Reader1 | Reader10 | Reader50 | Reader100 | Sharer | Reviewer
    | Inviter5 | Inviter20 | Streak7 | Streak30 | FirstPremium | Vip

  // ---------------------------------------------------------------- activation and referrals

  datatype ReferralCode = ReferralCode(ownerId: int, totalInvites: nat, successfulInvites: nat, earnedDays: nat)

  /** The invited user's `ReferralInvite` (at most one: `invited_user` is
      one-to-one), with the referrer's records it updates. */
  datatype Invite = Invite(referrerBonusGiven: bool, convertedAt: Option<int>, code: ReferralCode,
                           referrerSubscription: UserSubscription, referrerBadges: set<Badge>)

  const ReferrerBonusDays := 7
  const InvitedBonusDays := 3

  datatype Activation = Activation(subscription: UserSubscription, invite: Option<Invite>, badges: set<Badge>)

  /** The referral part of activation: a pending invite pays the referrer
      once, and only for a plan that is not free. */
  function PayReferrer(inv: Option<Invite>, plan: Plan, now: int): (r: Option<Invite>)
    ensures r.None? <==> inv.None?
    ensures inv.Some? && !inv.value.referrerBonusGiven && plan.planType != "free" ==>
      r.value.referrerBonusGiven
      && r.value.code.successfulInvites == inv.value.code.successfulInvites + 1
      && r.value.code.earnedDays == inv.value.code.earnedDays + ReferrerBonusDays
      && r.value.referrerSubscription == AddBonusDays(inv.value.referrerSubscription, ReferrerBonusDays)
    ensures inv.Some? && (inv.value.referrerBonusGiven || plan.planType == "free") ==> r == inv
  {
    match inv
    case None => None
    case Some(i) =>
      if i.referrerBonusGiven || plan.planType == "free" then inv
      else
        var code := i.code.(successfulInvites := i.code.successfulInvites + 1,
                            earnedDays := i.code.earnedDays + ReferrerBonusDays);
        var extra := (if code.successfulInvites >= 5 then {Inviter5} else {})
                     + (if code.successfulInvites >= 20 then {Inviter20} else {});
        Some(Invite(true, Some(now), code, AddBonusDays(i.referrerSubscription, ReferrerBonusDays),
                    i.referrerBadges + extra))
  }

  /** The badge a plan's holder gets on activation. */
  function PlanBadges(plan: Plan): (b: set<Badge>)
    ensures plan.planType == "vip" ==> b == {Vip}
    ensures plan.planType == "premium" ==> b == {FirstPremium}
    ensures plan.planType !in ["premium", "vip"] ==> b == {}
  {
    if plan.planType == "vip" then {Vip} else if plan.planType == "premium" then {FirstPremium} else {}
  }

  /** `activate_subscription`. */
  function Activate(s: UserSubscription, plan: Plan, inv: Option<Invite>, badges: set<Badge>, now: int)
    : (r: Activation)
    ensures r.subscription.plan == Some(plan) && r.subscription.status == Active
    ensures r.subscription.startedAt == now
    ensures r.subscription.expiresAt == Some(now + DurationDays(plan.durationType) * SecondsPerDay)
    ensures r.badges == badges + PlanBadges(plan)
  {
    var sub := s.(plan := Some(plan), status := Active, startedAt := now,
                  expiresAt := Some(now + DurationDays(plan.durationType) * SecondsPerDay));
    Activation(sub, PayReferrer(inv, plan, now), badges + PlanBadges(plan))
  }

  /** The referrer is paid at most once per invite: activating again, with
      any plan at any time, pays nothing more. */
  lemma ReferralPaidOnce(s: UserSubscription, p1: Plan, p2: Plan, inv: Option<Invite>,
                         badges: set<Badge>, t1: int, t2: int)
    requires inv.Some?
    ensures var a1 := Activate(s, p1, inv, badges, t1);
      var a2 := Activate(a1.subscription, p2, a1.invite, a1.badges, t2);
      a2.invite.value.code.successfulInvites <= inv.value.code.successfulInvites + 1
      && a2.invite.value.referrerSubscription.bonusDays <= inv.value.referrerSubscription.bonusDays + ReferrerBonusDays
  {
  }

  /** The referrer earns the inviter badges at 5 and 20 successful invites. */
  lemma InviterBadges(inv: Invite, plan: Plan, now: int)
    requires !inv.referrerBonusGiven && plan.planType != "free"
    ensures var r := PayReferrer(Some(inv), plan, now).value;
      (Inviter5 in r.referrerBadges <==> Inviter5 in inv.referrerBadges || inv.code.successfulInvites + 1 >= 5)
      && (Inviter20 in r.referrerBadges <==> Inviter20 in inv.referrerBadges || inv.code.successfulInvites + 1 >= 20)
  {
  }

  /** `track_referral` once the code is looked up: no invite for a
      self-referral; otherwise the invite is created (a second one for the
      same user violates the one-to-one constraint and raises), the code
      counts one more invite, and the new user gets 3 bonus days. */
  datatype Tracked = Tracked(code: ReferralCode, invite: Option<Invite>, subscription: UserSubscription)

  function TrackReferral(userId: int, code: Option<ReferralCode>, existing: Option<Invite>,
                         userSub: UserSubscription, referrerSub: UserSubscription,
                         referrerBadges: set<Badge>): (r: Read<Tracked>)
    ensures code.None? || code.value.ownerId == userId ==> r.Returned? && r.value.invite == existing && r.value.subscription == userSub
    ensures code.Some? && code.value.ownerId != userId && existing.Some? ==> r.Raised?
    ensures code.Some? && code.value.ownerId != userId && existing.None? ==>
      r.Returned?
      && r.value.code.totalInvites == code.value.totalInvites + 1
      && r.value.subscription == AddBonusDays(userSub, InvitedBonusDays)
      && r.value.invite.Some? && !r.value.invite.value.referrerBonusGiven
  {
    match code
    case None => Returned(Tracked(ReferralCode(userId, 0, 0, 0), existing, userSub))
    case Some(c) =>
      if c.ownerId == userId then Returned(Tracked(c, existing, userSub))
      else if existing.Some? then Raised("UNIQUE constraint failed: invited_user_id")
      else
        var c2 := c.(totalInvites := c.totalInvites + 1);
        Returned(Tracked(c2, Some(Invite(false, None, c2, referrerSub, referrerBadges)),
                         AddBonusDays(userSub, InvitedBonusDays)))
  }

  // ---------------------------------------------------------------- stats, streak, badges

  /** The `UserStats` fields the streak and badge rules read. */
  datatype Stats = Stats(totalBooksRead: nat, totalPoints: nat, currentStreak: nat, longestStreak: nat,
                         lastActiveDay: Option<int>, totalShares: nat, totalReviews: nat)

  /** `UserStats.update_streak`. A last-active day in the future leaves the
      streak as it is. */
  function UpdateStreak(st: Stats, today: int): (r: Stats)
    ensures r.lastActiveDay == Some(today)
    ensures st.lastActiveDay.None? ==> r.currentStreak == 1
    ensures st.lastActiveDay.Some? && today - st.lastActiveDay.value == 1 ==> r.currentStreak == st.currentStreak + 1
    ensures st.lastActiveDay.Some? && today - st.lastActiveDay.value > 1 ==> r.currentStreak == 1
    ensures st.lastActiveDay.Some? && today - st.lastActiveDay.value <= 0 ==> r.currentStreak == st.currentStreak
    ensures r.longestStreak >= r.currentStreak && r.longestStreak >= st.longestStreak
    ensures r.longestStreak == (if r.currentStreak > st.longestStreak then r.currentStreak else st.longestStreak)
    ensures r.totalPoints == st.totalPoints && r.totalBooksRead == st.totalBooksRead
  {
    var cur :=
      match st.lastActiveDay
      case None => 1
      case Some(last) =>
        if today - last == 1 then st.currentStreak + 1
        else if today - last > 1 then 1
        else st.currentStreak;
    st.(currentStreak := cur,
        longestStreak := if cur > st.longestStreak then cur else st.longestStreak,
        lastActiveDay := Some(today))
  }

  /** Updating twice on one day is updating once. */
  lemma UpdateStreakSameDay(st: Stats, today: int)
    ensures UpdateStreak(UpdateStreak(st, today), today) == UpdateStreak(st, today)
  {
  }

  /** `add_points`. */
  function AddPoints(st: Stats, points: nat): (r: Stats)
    ensures r.totalPoints == st.totalPoints + points
    ensures r.(totalPoints := st.totalPoints) == st
  {
    st.(totalPoints := st.totalPoints + points)
  }

  /** The thresholds of `check_and_award_badges`. */
  predicate Earned(st: Stats, b: Badge) {
    match b
    case Reader1 => st.totalBooksRead >= 1
    case Reader10 => st.totalBooksRead >= 10
    case Reader50 => st.totalBooksRead >= 50
    case Reader100 => st.totalBooksRead >= 100
    case Reviewer => st.totalReviews >= 10
    case Sharer => st.totalShares >= 20
    case Streak7 => st.longestStreak >= 7
    case Streak30 => st.longestStreak >= 30
    case _ => false
  }

  const StatBadges: set<Badge> := {Reader1, Reader10, Reader50, Reader100, Reviewer, Sharer, Streak7, Streak30}

  /** `check_and_award_badges`: every badge whose threshold holds is held
      afterwards; none is taken away. */
  function AwardBadges(st: Stats, badges: set<Badge>): (r: set<Badge>)
    ensures forall b :: b in r <==> b in badges || Earned(st, b)
  {
    badges + set b | b in StatBadges && Earned(st, b)
  }

  /** Awarding is idempotent (`get_or_create`). */
  lemma AwardBadgesIdempotent(st: Stats, badges: set<Badge>)
    ensures AwardBadges(st, AwardBadges(st, badges)) == AwardBadges(st, badges)
  {
  }

  /** Badges earned stay earned as the statistics grow. */
  lemma AwardBadgesMonotone(st: Stats, st2: Stats, badges: set<Badge>)
    requires st.totalBooksRead <= st2.totalBooksRead && st.totalReviews <= st2.totalReviews
    requires st.totalShares <= st2.totalShares && st.longestStreak <= st2.longestStreak
    ensures AwardBadges(st, badges) <= AwardBadges(st2, badges)
  {
  }
}
