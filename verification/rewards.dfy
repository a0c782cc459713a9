/**
 The reward catalog and the unlock engine.

 A check-in looks at an ordered list of offers: first the daily tier of the
 challenge day, then every weekly, monthly and yearly tier in catalog order.
 An offer is eligible when the catalog's condition for it holds. Walking the
 offers in order, every eligible offer whose key has not been unlocked before
 (nor earlier in the same walk) is granted: its key is appended to the
 unlocked list and its message is emitted.
 */
module Rewards {
  import opened Basics
  import Decimal

  /** A streak tier with its key, the multiplier parsed from the key, and its reward ideas. */
  datatype Tier = Tier(key: string, multiplier: int, candidates: seq<string>)

  /**
   The reward configuration. Daily rewards are looked up by key `day_<n>`; each
   streak cadence is the list of its tiers in the order the configuration lists them.
   */
  datatype Catalog = Catalog(
    daily: map<string, seq<string>>,
    weekly: seq<Tier>,
    monthly: seq<Tier>,
    yearly: seq<Tier>)

  /** Stands for `random.choice`: an index into the candidates of the tier with the given key. */
  type Chooser = (string, seq<string>) -> nat

  const WeekPeriod: nat := 7
  const MonthPeriod: nat := 30
  const YearPeriod: nat := 365

  /** One tier considered by a check-in. */
  datatype Offer = Offer(key: string, eligible: bool, heading: string, text: string)

  /** A granted tier: the key recorded as unlocked and the message shown to the user. */
  datatype Unlock = Unlock(key: string, message: string)

  function Granted(o: Offer): Unlock {
    Unlock(o.key, o.heading + ": " + o.text)
  }

  function Keys(us: seq<Unlock>): (ks: seq<string>)
    ensures |ks| == |us|
    ensures forall i :: 0 <= i < |us| ==> ks[i] == us[i].key
  {
    seq(|us|, i requires 0 <= i < |us| => us[i].key)
  }

  function Messages(us: seq<Unlock>): (ms: seq<string>)
    ensures |ms| == |us|
    ensures forall i :: 0 <= i < |us| ==> ms[i] == us[i].message
  {
    seq(|us|, i requires 0 <= i < |us| => us[i].message)
  }

  /**
   The reward text shown for a tier: one of its candidates, or, when the tier's
   list is empty, the printed empty list (the source returns the list itself).
   */
  predicate IsRewardText(candidates: seq<string>, text: string) {
    if |candidates| == 0 then text == "[]" else text in candidates
  }

  function RewardText(key: string, candidates: seq<string>, pick: Chooser): (text: string)
    ensures IsRewardText(candidates, text)
  {
    if |candidates| > 0 then candidates[pick(key, candidates) % |candidates|] else "[]"
  }

  /** The key of the daily tier for a challenge day. */
  function DailyKey(day: int): string {
    "day_" + Decimal.Show(day)
  }

  /** Distinct challenge days have distinct daily keys. */
  lemma DailyKeyInjective(a: int, b: int)
    ensures DailyKey(a) == DailyKey(b) ==> a == b
  {
    if DailyKey(a) == DailyKey(b) {
      assert DailyKey(a)[4..] == Decimal.Show(a);
      assert DailyKey(b)[4..] == Decimal.Show(b);
      Decimal.ShowInjective(a, b);
    }
  }

  /** The candidates the catalog lists for a daily key, or none when the key is absent. */
  function DailyCandidates(catalog: Catalog, key: string): seq<string> {
    if key in catalog.daily then catalog.daily[key] else []
  }

  function DailyOffer(catalog: Catalog, day: int, pick: Chooser): Offer {
    var key := DailyKey(day);
    var candidates := DailyCandidates(catalog, key);
    Offer(key, |candidates| > 0, "Day " + Decimal.Show(day), RewardText(key, candidates, pick))
  }

  function TierOffer(t: Tier, period: nat, name: string, streak: nat, pick: Chooser): Offer {
    Offer(t.key, streak >= t.multiplier * period,
          name + " " + Decimal.Show(t.multiplier) + " Streak",
          RewardText(t.key, t.candidates, pick))
  }

  /** The number of offers of one check-in: the daily tier and every streak tier. */
  function OfferCount(catalog: Catalog): nat {
    1 + |catalog.weekly| + |catalog.monthly| + |catalog.yearly|
  }

  /**
   The `j`-th streak tier of the catalog with its period and cadence name:
   the weekly tiers, then the monthly, then the yearly, each in catalog order.
   */
  function StreakTierAt(catalog: Catalog, j: nat): (Tier, nat, string)
    requires j < |catalog.weekly| + |catalog.monthly| + |catalog.yearly|
  {
    var w := |catalog.weekly|;
    var m := |catalog.monthly|;
    if j < w then (catalog.weekly[j], WeekPeriod, "Week")
    else if j < w + m then (catalog.monthly[j - w], MonthPeriod, "Month")
    else (catalog.yearly[j - w - m], YearPeriod, "Year")
  }

  /** The offer at position `i` of one check-in, in the order the source evaluates them: the daily tier first. */
  function OfferAt(catalog: Catalog, day: int, streak: nat, pick: Chooser, i: nat): Offer
    requires i < OfferCount(catalog)
  {
    if i == 0 then DailyOffer(catalog, day, pick)
    else
      var (t, period, name) := StreakTierAt(catalog, i - 1);
      TierOffer(t, period, name, streak, pick)
  }

  /** The offers of one check-in. */
  function Offers(catalog: Catalog, day: int, streak: nat, pick: Chooser): (offers: seq<Offer>)
    ensures |offers| == OfferCount(catalog)
    ensures forall i :: 0 <= i < |offers| ==> offers[i] == OfferAt(catalog, day, streak, pick, i)
  {
    seq(OfferCount(catalog), i requires 0 <= i < OfferCount(catalog) => OfferAt(catalog, day, streak, pick, i))
  }

  /** The position of the first eligible offer with key `k`, or `|offers|` when there is none. */
  function FirstEligible(offers: seq<Offer>, k: string): (i: nat)
    ensures i <= |offers|
    ensures i < |offers| ==> offers[i].eligible && offers[i].key == k
    ensures forall j :: 0 <= j < i ==> !(offers[j].eligible && offers[j].key == k)
    decreases |offers|
  {
    if |offers| == 0 then 0
    else if offers[0].eligible && offers[0].key == k then 0
    else 1 + FirstEligible(offers[1..], k)
  }

  /**
   Grants, in offer order, every eligible offer whose key is neither in
   `unlocked` nor granted earlier in the same walk.
   */
  function GrantNew(unlocked: seq<string>, offers: seq<Offer>): (r: seq<Unlock>)
    ensures |r| <= |offers|
    ensures forall j :: 0 <= j < |r| ==> r[j].key !in unlocked
    ensures NoDup(Keys(r))
    decreases |offers|
  {
    if |offers| == 0 then []
    else
      var o := offers[0];
      if o.eligible && o.key !in unlocked then
        var rest := GrantNew(unlocked + [o.key], offers[1..]);
        assert Keys([Granted(o)] + rest) == [o.key] + Keys(rest);
        [Granted(o)] + rest
      else
        GrantNew(unlocked, offers[1..])
  }

  /** The first eligible offer with key `k` is found one step later in the tail when the head is not one. */
  lemma FirstEligibleTail(offers: seq<Offer>, k: string)
    requires |offers| > 0
    requires !(offers[0].eligible && offers[0].key == k)
    ensures FirstEligible(offers, k) == 1 + FirstEligible(offers[1..], k)
  {
  }

  /** Exactly the keys of eligible offers that were not unlocked before are granted. */
  lemma {:induction false} GrantNewKeys(unlocked: seq<string>, offers: seq<Offer>)
    ensures forall k :: k in Keys(GrantNew(unlocked, offers)) <==> k !in unlocked && FirstEligible(offers, k) < |offers|
    decreases |offers|
  {
    if |offers| > 0 {
      var o := offers[0];
      var r := GrantNew(unlocked, offers);
      forall k
        ensures k in Keys(r) <==> k !in unlocked && FirstEligible(offers, k) < |offers|
      {
        if o.eligible && o.key !in unlocked {
          var rest := GrantNew(unlocked + [o.key], offers[1..]);
          GrantNewKeys(unlocked + [o.key], offers[1..]);
          assert Keys(r) == [o.key] + Keys(rest);
          if k != o.key {
            FirstEligibleTail(offers, k);
          }
        } else {
          GrantNewKeys(unlocked, offers[1..]);
          if k !in unlocked {
            FirstEligibleTail(offers, k);
          }
        }
      }
    }
  }

  /** Every unlock of `r` is the grant of the first eligible offer with its key. */
  predicate FromFirstEligible(offers: seq<Offer>, r: seq<Unlock>) {
    forall j :: 0 <= j < |r| ==>
      FirstEligible(offers, r[j].key) < |offers| && r[j] == Granted(offers[FirstEligible(offers, r[j].key)])
  }

  /** The unlocks of `r` appear in the order of the offers they were granted from. */
  predicate InOfferOrder(offers: seq<Offer>, r: seq<Unlock>) {
    forall j1, j2 :: 0 <= j1 < j2 < |r| ==> FirstEligible(offers, r[j1].key) < FirstEligible(offers, r[j2].key)
  }

  /** Unlocks taken from the tail of the offers keep their properties against the whole list. */
  lemma {:induction false} ShiftToWhole(offers: seq<Offer>, rest: seq<Unlock>)
    requires |offers| > 0
    requires FromFirstEligible(offers[1..], rest)
    requires forall j :: 0 <= j < |rest| ==> !(offers[0].eligible && offers[0].key == rest[j].key)
    ensures FromFirstEligible(offers, rest)
    ensures InOfferOrder(offers[1..], rest) ==> InOfferOrder(offers, rest)
    ensures forall j :: 0 <= j < |rest| ==> FirstEligible(offers, rest[j].key) > 0
  {
    forall j | 0 <= j < |rest|
      ensures FirstEligible(offers, rest[j].key) == 1 + FirstEligible(offers[1..], rest[j].key)
    {
      FirstEligibleTail(offers, rest[j].key);
    }
    forall j | 0 <= j < |rest|
      ensures FirstEligible(offers, rest[j].key) < |offers| && rest[j] == Granted(offers[FirstEligible(offers, rest[j].key)])
    {
      var i := FirstEligible(offers[1..], rest[j].key);
      assert offers[1..][i] == offers[1 + i];
    }
  }

  /** Granting the head offer in front of grants from later offers keeps both properties. */
  lemma {:induction false} GrantHead(offers: seq<Offer>, rest: seq<Unlock>)
    requires |offers| > 0 && offers[0].eligible
    requires FromFirstEligible(offers, rest) && InOfferOrder(offers, rest)
    requires forall j :: 0 <= j < |rest| ==> FirstEligible(offers, rest[j].key) > 0
    ensures FromFirstEligible(offers, [Granted(offers[0])] + rest)
    ensures InOfferOrder(offers, [Granted(offers[0])] + rest)
  {
    var r := [Granted(offers[0])] + rest;
    assert FirstEligible(offers, offers[0].key) == 0;
    forall j | 0 < j < |r|
      ensures r[j] == rest[j - 1]
    {
    }
  }

  /** Each grant carries the message of the first eligible offer with its key, and grants follow offer order. */
  lemma {:induction false} GrantNewOrder(unlocked: seq<string>, offers: seq<Offer>)
    ensures FromFirstEligible(offers, GrantNew(unlocked, offers))
    ensures InOfferOrder(offers, GrantNew(unlocked, offers))
    decreases |offers|
  {
    if |offers| > 0 {
      var o := offers[0];
      if o.eligible && o.key !in unlocked {
        var rest := GrantNew(unlocked + [o.key], offers[1..]);
        GrantNewOrder(unlocked + [o.key], offers[1..]);
        assert forall j :: 0 <= j < |rest| ==> rest[j].key !in unlocked + [o.key];
        ShiftToWhole(offers, rest);
        GrantHead(offers, rest);
      } else {
        var rest := GrantNew(unlocked, offers[1..]);
        GrantNewOrder(unlocked, offers[1..]);
        ShiftToWhole(offers, rest);
      }
    }
  }

  /** A streak tier of `tiers` with key `k` whose threshold the streak reaches. */
  predicate TierReached(tiers: seq<Tier>, period: nat, streak: nat, k: string) {
    exists i :: 0 <= i < |tiers| && tiers[i].key == k && streak >= tiers[i].multiplier * period
  }

  /** The catalog's unlock condition for key `k` on challenge day `day` with streak `streak`. */
  predicate Qualifies(catalog: Catalog, day: int, streak: nat, k: string) {
    || (k == DailyKey(day) && |DailyCandidates(catalog, k)| > 0)
    || TierReached(catalog.weekly, WeekPeriod, streak, k)
    || TierReached(catalog.monthly, MonthPeriod, streak, k)
    || TierReached(catalog.yearly, YearPeriod, streak, k)
  }

  /** Some offer with key `k` is eligible. */
  predicate HasEligible(offers: seq<Offer>, k: string) {
    exists i :: 0 <= i < |offers| && offers[i].eligible && offers[i].key == k
  }

  lemma EligibleIff(offers: seq<Offer>, k: string)
    ensures FirstEligible(offers, k) < |offers| <==> HasEligible(offers, k)
  {
  }

  /** An eligible offer with key `k` comes from a tier whose condition holds for `k`. */
  lemma EligibleQualifies(catalog: Catalog, day: int, streak: nat, pick: Chooser, k: string, i: nat)
    requires i < OfferCount(catalog)
    requires OfferAt(catalog, day, streak, pick, i).eligible && OfferAt(catalog, day, streak, pick, i).key == k
    ensures Qualifies(catalog, day, streak, k)
  {
    var w := |catalog.weekly|;
    var m := |catalog.monthly|;
    if i == 0 {
    } else if i < 1 + w {
      assert catalog.weekly[i - 1].key == k && streak >= catalog.weekly[i - 1].multiplier * WeekPeriod;
    } else if i < 1 + w + m {
      assert catalog.monthly[i - 1 - w].key == k && streak >= catalog.monthly[i - 1 - w].multiplier * MonthPeriod;
    } else {
      assert catalog.yearly[i - 1 - w - m].key == k && streak >= catalog.yearly[i - 1 - w - m].multiplier * YearPeriod;
    }
  }

  /** The offer for the `j`-th streak tier of `catalog` is eligible when the streak reaches its threshold. */
  lemma StreakTierEligible(catalog: Catalog, day: int, streak: nat, pick: Chooser, j: nat, t: Tier, period: nat, name: string)
    requires j < |catalog.weekly| + |catalog.monthly| + |catalog.yearly|
    requires StreakTierAt(catalog, j) == (t, period, name)
    requires streak >= t.multiplier * period
    ensures HasEligible(Offers(catalog, day, streak, pick), t.key)
  {
    var offers := Offers(catalog, day, streak, pick);
    assert offers[1 + j] == OfferAt(catalog, day, streak, pick, 1 + j);
    assert offers[1 + j].eligible && offers[1 + j].key == t.key;
  }

  /** When the condition for `k` holds, some offer with key `k` is eligible. */
  lemma QualifiesEligible(catalog: Catalog, day: int, streak: nat, pick: Chooser, k: string)
    requires Qualifies(catalog, day, streak, k)
    ensures HasEligible(Offers(catalog, day, streak, pick), k)
  {
    var w := |catalog.weekly|;
    var m := |catalog.monthly|;
    if k == DailyKey(day) && |DailyCandidates(catalog, k)| > 0 {
      var offers := Offers(catalog, day, streak, pick);
      assert offers[0] == OfferAt(catalog, day, streak, pick, 0);
      assert offers[0].eligible && offers[0].key == k;
    } else if TierReached(catalog.weekly, WeekPeriod, streak, k) {
      var t :| 0 <= t < w && catalog.weekly[t].key == k && streak >= catalog.weekly[t].multiplier * WeekPeriod;
      StreakTierEligible(catalog, day, streak, pick, t, catalog.weekly[t], WeekPeriod, "Week");
    } else if TierReached(catalog.monthly, MonthPeriod, streak, k) {
      var t :| 0 <= t < m && catalog.monthly[t].key == k && streak >= catalog.monthly[t].multiplier * MonthPeriod;
      StreakTierEligible(catalog, day, streak, pick, w + t, catalog.monthly[t], MonthPeriod, "Month");
    } else {
      var t :| 0 <= t < |catalog.yearly| && catalog.yearly[t].key == k
                && streak >= catalog.yearly[t].multiplier * YearPeriod;
      StreakTierEligible(catalog, day, streak, pick, w + m + t, catalog.yearly[t], YearPeriod, "Year");
    }
  }

  /** An offer with key `k` is eligible exactly when the catalog's condition for `k` holds. */
  lemma OffersEligibleIff(catalog: Catalog, day: int, streak: nat, pick: Chooser, k: string)
    ensures FirstEligible(Offers(catalog, day, streak, pick), k) < |Offers(catalog, day, streak, pick)|
            <==> Qualifies(catalog, day, streak, k)
  {
    var offers := Offers(catalog, day, streak, pick);
    EligibleIff(offers, k);
    if HasEligible(offers, k) {
      var i :| 0 <= i < |offers| && offers[i].eligible && offers[i].key == k;
      EligibleQualifies(catalog, day, streak, pick, k, i);
    }
    if Qualifies(catalog, day, streak, k) {
      QualifiesEligible(catalog, day, streak, pick, k);
    }
  }

  /** The rewards a check-in on challenge day `day` with streak `streak` unlocks for a user holding `unlocked`. */
  function Unlocks(unlocked: seq<string>, catalog: Catalog, day: int, streak: nat, pick: Chooser): (r: seq<Unlock>)
    ensures forall j :: 0 <= j < |r| ==> r[j].key !in unlocked
    ensures NoDup(Keys(r))
  {
    GrantNew(unlocked, Offers(catalog, day, streak, pick))
  }

  /**
   The unlocks of a check-in follow the order of its offers: the daily tier,
   then the weekly, monthly and yearly tiers in catalog order; each carries the
   message of the first eligible offer with its key.
   */
  lemma UnlocksInOrder(unlocked: seq<string>, catalog: Catalog, day: int, streak: nat, pick: Chooser)
    ensures InOfferOrder(Offers(catalog, day, streak, pick), Unlocks(unlocked, catalog, day, streak, pick))
    ensures FromFirstEligible(Offers(catalog, day, streak, pick), Unlocks(unlocked, catalog, day, streak, pick))
  {
    GrantNewOrder(unlocked, Offers(catalog, day, streak, pick));
  }

  /** A key is unlocked exactly when the catalog's condition for it holds and it was not unlocked before. */
  lemma UnlocksExactly(unlocked: seq<string>, catalog: Catalog, day: int, streak: nat, pick: Chooser)
    ensures forall k :: k in Keys(Unlocks(unlocked, catalog, day, streak, pick))
                        <==> k !in unlocked && Qualifies(catalog, day, streak, k)
  {
    GrantNewKeys(unlocked, Offers(catalog, day, streak, pick));
    forall k {
      OffersEligibleIff(catalog, day, streak, pick, k);
    }
  }

  /** `message` is `<name> <n> Streak: <reward>` for a tier of `tiers` with key `key`. */
  ghost predicate TierMessage(tiers: seq<Tier>, name: string, key: string, message: string) {
    exists i, c :: 0 <= i < |tiers| && tiers[i].key == key && IsRewardText(tiers[i].candidates, c)
                   && message == name + " " + Decimal.Show(tiers[i].multiplier) + " Streak: " + c
  }

  /** The message of `u` announces a reward the catalog lists under `u`'s key, in the source's wording. */
  ghost predicate DescribesReward(catalog: Catalog, day: int, u: Unlock) {
    || (u.key == DailyKey(day)
        && exists c :: c in DailyCandidates(catalog, u.key) && u.message == "Day " + Decimal.Show(day) + ": " + c)
    || TierMessage(catalog.weekly, "Week", u.key, u.message)
    || TierMessage(catalog.monthly, "Month", u.key, u.message)
    || TierMessage(catalog.yearly, "Year", u.key, u.message)
  }

  lemma {:induction false} TierGrantDescribed(tiers: seq<Tier>, period: nat, name: string, streak: nat, pick: Chooser, i: nat)
    requires i < |tiers|
    ensures TierMessage(tiers, name, tiers[i].key, Granted(TierOffer(tiers[i], period, name, streak, pick)).message)
  {
    var t := tiers[i];
    var c := RewardText(t.key, t.candidates, pick);
    var head := name + " " + Decimal.Show(t.multiplier);
    assert head + " Streak" + ": " + c == head + " Streak: " + c;
    assert IsRewardText(tiers[i].candidates, c);
  }

  lemma {:induction false} DailyGrantDescribed(catalog: Catalog, day: int, pick: Chooser)
    requires DailyOffer(catalog, day, pick).eligible
    ensures DescribesReward(catalog, day, Granted(DailyOffer(catalog, day, pick)))
  {
    var o := DailyOffer(catalog, day, pick);
    var u := Granted(o);
    assert o.text in DailyCandidates(catalog, u.key);
    assert u.message == "Day " + Decimal.Show(day) + ": " + o.text;
  }

  /** The grant of the offer for the `j`-th streak tier is the grant of that tier's offer. */
  lemma StreakGrantAt(catalog: Catalog, day: int, streak: nat, pick: Chooser, j: nat, t: Tier, period: nat, name: string)
    requires j < |catalog.weekly| + |catalog.monthly| + |catalog.yearly|
    requires StreakTierAt(catalog, j) == (t, period, name)
    ensures Granted(OfferAt(catalog, day, streak, pick, 1 + j)) == Granted(TierOffer(t, period, name, streak, pick))
  {
  }

  lemma {:induction false} WeeklyOfferDescribed(catalog: Catalog, day: int, streak: nat, pick: Chooser, i: nat)
    requires 1 <= i < 1 + |catalog.weekly|
    ensures DescribesReward(catalog, day, Granted(OfferAt(catalog, day, streak, pick, i)))
  {
    var u := Granted(OfferAt(catalog, day, streak, pick, i));
    StreakGrantAt(catalog, day, streak, pick, i - 1, catalog.weekly[i - 1], WeekPeriod, "Week");
    TierGrantDescribed(catalog.weekly, WeekPeriod, "Week", streak, pick, i - 1);
    assert TierMessage(catalog.weekly, "Week", u.key, u.message);
  }

  lemma {:induction false} MonthlyOfferDescribed(catalog: Catalog, day: int, streak: nat, pick: Chooser, i: nat)
    requires 1 + |catalog.weekly| <= i < 1 + |catalog.weekly| + |catalog.monthly|
    ensures DescribesReward(catalog, day, Granted(OfferAt(catalog, day, streak, pick, i)))
  {
    var j := i - 1 - |catalog.weekly|;
    var u := Granted(OfferAt(catalog, day, streak, pick, i));
    StreakGrantAt(catalog, day, streak, pick, i - 1, catalog.monthly[j], MonthPeriod, "Month");
    TierGrantDescribed(catalog.monthly, MonthPeriod, "Month", streak, pick, j);
    assert TierMessage(catalog.monthly, "Month", u.key, u.message);
  }

  lemma {:induction false} YearlyOfferDescribed(catalog: Catalog, day: int, streak: nat, pick: Chooser, i: nat)
    requires 1 + |catalog.weekly| + |catalog.monthly| <= i < OfferCount(catalog)
    ensures DescribesReward(catalog, day, Granted(OfferAt(catalog, day, streak, pick, i)))
  {
    var j := i - 1 - |catalog.weekly| - |catalog.monthly|;
    var u := Granted(OfferAt(catalog, day, streak, pick, i));
    StreakGrantAt(catalog, day, streak, pick, i - 1, catalog.yearly[j], YearPeriod, "Year");
    TierGrantDescribed(catalog.yearly, YearPeriod, "Year", streak, pick, j);
    assert TierMessage(catalog.yearly, "Year", u.key, u.message);
  }

  /** Granting any eligible offer of a check-in yields a message describing a catalog reward. */
  lemma {:induction false} OfferDescribed(catalog: Catalog, day: int, streak: nat, pick: Chooser, i: nat)
    requires i < OfferCount(catalog)
    requires OfferAt(catalog, day, streak, pick, i).eligible
    ensures DescribesReward(catalog, day, Granted(OfferAt(catalog, day, streak, pick, i)))
  {
    if i == 0 {
      DailyGrantDescribed(catalog, day, pick);
    } else if i < 1 + |catalog.weekly| {
      WeeklyOfferDescribed(catalog, day, streak, pick, i);
    } else if i < 1 + |catalog.weekly| + |catalog.monthly| {
      MonthlyOfferDescribed(catalog, day, streak, pick, i);
    } else {
      YearlyOfferDescribed(catalog, day, streak, pick, i);
    }
  }

  /** Every message of an unlock names its cadence and number and one of the tier's reward ideas. */
  lemma UnlockMessages(unlocked: seq<string>, catalog: Catalog, day: int, streak: nat, pick: Chooser)
    ensures forall j :: 0 <= j < |Unlocks(unlocked, catalog, day, streak, pick)| ==>
              DescribesReward(catalog, day, Unlocks(unlocked, catalog, day, streak, pick)[j])
  {
    var offers := Offers(catalog, day, streak, pick);
    var r := Unlocks(unlocked, catalog, day, streak, pick);
    GrantNewOrder(unlocked, offers);
    assert FromFirstEligible(offers, r);
    forall j | 0 <= j < |r|
      ensures DescribesReward(catalog, day, r[j])
    {
      var i := FirstEligible(offers, r[j].key);
      assert offers[i] == OfferAt(catalog, day, streak, pick, i);
      OfferDescribed(catalog, day, streak, pick, i);
    }
  }
}
