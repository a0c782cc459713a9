/**
 The daily check-in: the decision whether a check-in counts, the update of the
 streak counters and the unlocking of rewards, for one user's record and for
 the store of all users.
 */
module Checkin {
  import opened Basics
  import opened Progress
  import opened Rewards

  datatype CheckinResult =
    | AlreadyCheckedIn
    | Accepted(record: Record, challengeDay: int, unlocks: seq<Unlock>)

  /** The streak after a check-in on `today`: one more after a check-in the day before, else a new streak of one. */
  function NextStreak(rec: Record, today: int): nat {
    if today - rec.lastCheckin.date == 1 then rec.currentStreak + 1 else 1
  }

  /**
   Processes a check-in at instant `now`. A check-in on or before the calendar
   date of the last accepted one is refused; otherwise the counters advance and
   every reward whose condition now holds and that was not unlocked before is
   unlocked, in the order daily, weekly, monthly, yearly.
   */
  function CheckIn(rec: Record, now: Instant, catalog: Catalog, pick: Chooser): (res: CheckinResult)
    ensures res.AlreadyCheckedIn? <==> now.date <= rec.lastCheckin.date
    ensures res.Accepted? ==>
              && res.record.lastCheckin == now
              && res.record.username == rec.username
              && res.record.startDate == rec.startDate
              && res.record.savings == rec.savings
              && res.record.journal == rec.journal
              && res.record.totalDays == rec.totalDays + 1
              && res.challengeDay == now.date - rec.startDate.date + 1
    ensures res.Accepted? ==>
              && (now.date == rec.lastCheckin.date + 1 ==> res.record.currentStreak == rec.currentStreak + 1)
              && (now.date != rec.lastCheckin.date + 1 ==> res.record.currentStreak == 1)
              && res.record.currentStreak <= res.record.longestStreak
              && rec.longestStreak <= res.record.longestStreak
              && (res.record.longestStreak == rec.longestStreak || res.record.longestStreak == res.record.currentStreak)
    ensures res.Accepted? ==>
              && res.record.rewardsUnlocked == rec.rewardsUnlocked + Keys(res.unlocks)
              && (NoDup(rec.rewardsUnlocked) ==> NoDup(res.record.rewardsUnlocked))
              && (forall k :: k in Keys(res.unlocks) <==>
                                k !in rec.rewardsUnlocked
                                && Qualifies(catalog, res.challengeDay, res.record.currentStreak, k))
              && (forall j :: 0 <= j < |res.unlocks| ==> DescribesReward(catalog, res.challengeDay, res.unlocks[j]))
  {
    if now.date <= rec.lastCheckin.date then AlreadyCheckedIn
    else
      var streak := NextStreak(rec, now.date);
      var day := ChallengeDay(rec.startDate, now);
      var unlocks := Unlocks(rec.rewardsUnlocked, catalog, day, streak, pick);
      UnlocksExactly(rec.rewardsUnlocked, catalog, day, streak, pick);
      UnlockMessages(rec.rewardsUnlocked, catalog, day, streak, pick);
      assert NoDup(rec.rewardsUnlocked) ==> NoDup(rec.rewardsUnlocked + Keys(unlocks)) by {
        if NoDup(rec.rewardsUnlocked) {
          NoDupAppend(rec.rewardsUnlocked, Keys(unlocks));
        }
      }
      var rec' := rec.(
        lastCheckin := now,
        currentStreak := streak,
        longestStreak := Max(rec.longestStreak, streak),
        totalDays := rec.totalDays + 1,
        rewardsUnlocked := rec.rewardsUnlocked + Keys(unlocks));
      Accepted(rec', day, unlocks)
  }

  /** The messages of a successful check-in, with the day and streak shown beside them. */
  datatype Receipt = Receipt(challengeDay: int, streak: nat, messages: seq<string>)

  /**
   The reaction handler minus the chat platform: a user without a record is
   told to start first, a repeated check-in is refused, and an accepted one
   replaces that user's record and no other.
   */
  function HandleCheckin(store: Store, user: UserId, now: Instant, catalog: Catalog, pick: Chooser)
    : (r: Result<(Store, Receipt)>)
    ensures user !in store ==> r == Refused(NotStarted)
    ensures user in store && now.date <= store[user].lastCheckin.date ==> r == Refused(AlreadyCheckedInToday)
    ensures r.Ok? <==> user in store && now.date > store[user].lastCheckin.date
    ensures r.Ok? ==>
              && user in store
              && now.date > store[user].lastCheckin.date
              && r.value.0.Keys == store.Keys
              && (forall u :: u in store && u != user ==> r.value.0[u] == store[u])
              && r.value.0[user].totalDays == store[user].totalDays + 1
              && r.value.0[user].lastCheckin == now
              && r.value.1.streak == r.value.0[user].currentStreak
              && |r.value.1.messages| == |r.value.0[user].rewardsUnlocked| - |store[user].rewardsUnlocked|
    ensures r.Ok? ==>
              var res := CheckIn(store[user], now, catalog, pick);
              && res.Accepted?
              && r.value.0 == store[user := res.record]
              && r.value.1 == Receipt(res.challengeDay, res.record.currentStreak, Messages(res.unlocks))
  {
    if user !in store then Refused(NotStarted)
    else
      match CheckIn(store[user], now, catalog, pick)
      case AlreadyCheckedIn => Refused(AlreadyCheckedInToday)
      case Accepted(rec', day, unlocks) =>
        Ok((store[user := rec'], Receipt(day, rec'.currentStreak, Messages(unlocks))))
  }

  /** The record after one check-in attempt: unchanged when it is refused. */
  function Step(rec: Record, now: Instant, catalog: Catalog, pick: Chooser): Record {
    match CheckIn(rec, now, catalog, pick)
    case AlreadyCheckedIn => rec
    case Accepted(rec', _, _) => rec'
  }

  /** The record after a sequence of check-in attempts, oldest first. */
  function Replay(rec: Record, nows: seq<Instant>, catalog: Catalog, pick: Chooser): Record
    decreases |nows|
  {
    if |nows| == 0 then rec
    else Step(Replay(rec, nows[..|nows| - 1], catalog, pick), nows[|nows| - 1], catalog, pick)
  }

  /** The record invariants: the current streak never exceeds the longest, and no reward is recorded twice. */
  predicate Consistent(rec: Record) {
    rec.currentStreak <= rec.longestStreak && NoDup(rec.rewardsUnlocked)
  }

  /**
   `after` is a later state of `before`: the start and identity are kept, the
   longest streak, total and last check-in date never go back, and the
   unlocked rewards only grow at the end.
   */
  predicate Extends(before: Record, after: Record) {
    && after.username == before.username
    && after.startDate == before.startDate
    && after.journal == before.journal
    && after.savings == before.savings
    && before.longestStreak <= after.longestStreak
    && before.totalDays <= after.totalDays
    && before.lastCheckin.date <= after.lastCheckin.date
    && IsPrefix(before.rewardsUnlocked, after.rewardsUnlocked)
  }

  lemma ExtendsTransitive(a: Record, b: Record, c: Record)
    requires Extends(a, b) && Extends(b, c)
    ensures Extends(a, c)
  {
    assert c.rewardsUnlocked[..|b.rewardsUnlocked|][..|a.rewardsUnlocked|] == c.rewardsUnlocked[..|a.rewardsUnlocked|];
  }

  /** A refused check-in changes nothing; an accepted one moves the record forward and keeps it consistent. */
  lemma StepExtends(rec: Record, now: Instant, catalog: Catalog, pick: Chooser)
    ensures Step(rec, now, catalog, pick) == rec <==> now.date <= rec.lastCheckin.date
    ensures Extends(rec, Step(rec, now, catalog, pick))
    ensures Consistent(rec) ==> Consistent(Step(rec, now, catalog, pick))
  {
    var res := CheckIn(rec, now, catalog, pick);
    if res.Accepted? {
      assert res.record.rewardsUnlocked[..|rec.rewardsUnlocked|] == rec.rewardsUnlocked;
      assert res.record.totalDays != rec.totalDays;
    }
  }

  /** Over any sequence of check-in attempts the record only moves forward and stays consistent. */
  lemma {:induction false} ReplayExtends(rec: Record, nows: seq<Instant>, catalog: Catalog, pick: Chooser)
    ensures Extends(rec, Replay(rec, nows, catalog, pick))
    ensures Consistent(rec) ==> Consistent(Replay(rec, nows, catalog, pick))
    decreases |nows|
  {
    if |nows| == 0 {
      assert rec.rewardsUnlocked[..|rec.rewardsUnlocked|] == rec.rewardsUnlocked;
    } else {
      var prev := Replay(rec, nows[..|nows| - 1], catalog, pick);
      ReplayExtends(rec, nows[..|nows| - 1], catalog, pick);
      StepExtends(prev, nows[|nows| - 1], catalog, pick);
      ExtendsTransitive(rec, prev, Replay(rec, nows, catalog, pick));
    }
  }

  /** Once a check-in is accepted, every later attempt on the same calendar date, at any time of day, is refused. */
  lemma SameDayRefused(rec: Record, first: Instant, second: Instant, catalog: Catalog, pick: Chooser)
    requires CheckIn(rec, first, catalog, pick).Accepted?
    requires second.date == first.date
    ensures CheckIn(CheckIn(rec, first, catalog, pick).record, second, catalog, pick) == AlreadyCheckedIn
  {
  }

  /** A reward unlocked before is never unlocked again, however many check-ins follow. */
  lemma {:induction false} NeverUnlockedTwice(rec: Record, nows: seq<Instant>, now: Instant, catalog: Catalog,
                                              pick: Chooser, k: string)
    requires k in rec.rewardsUnlocked
    ensures var later := Replay(rec, nows, catalog, pick);
            CheckIn(later, now, catalog, pick).Accepted? ==> k !in Keys(CheckIn(later, now, catalog, pick).unlocks)
  {
    var later := Replay(rec, nows, catalog, pick);
    ReplayExtends(rec, nows, catalog, pick);
    var i :| 0 <= i < |rec.rewardsUnlocked| && rec.rewardsUnlocked[i] == k;
    assert later.rewardsUnlocked[i] == k;
  }
}
