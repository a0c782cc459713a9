/**
 Starting the challenge, the statistics projection and the savings counter.
 */
module Lifecycle {
  import opened Progress
  import opened Rewards
  import opened Checkin

  /**
   `!start`: refused for a user who already has a record; otherwise adds a
   record with zero counters, the epoch as last check-in and empty lists.
   */
  function StartChallenge(store: Store, user: UserId, username: string, now: Instant): (r: Result<Store>)
    ensures user in store <==> r == Refused(AlreadyStarted)
    ensures r.Ok? <==> user !in store
    ensures r.Ok? ==>
              && r.value.Keys == store.Keys + {user}
              && (forall u :: u in store ==> r.value[u] == store[u])
              && r.value[user].username == username
              && r.value[user].startDate == now
              && r.value[user].lastCheckin == Epoch
              && r.value[user].currentStreak == r.value[user].longestStreak == r.value[user].totalDays == 0
              && r.value[user].savings == 0.0
              && r.value[user].rewardsUnlocked == [] && r.value[user].journal == []
  {
    if user in store then Refused(AlreadyStarted)
    else Ok(store[user := NewRecord(username, now)])
  }

  /** Starting twice is refused the second time. */
  lemma StartOnce(store: Store, user: UserId, username: string, now: Instant, later: Instant)
    requires StartChallenge(store, user, username, now).Ok?
    ensures StartChallenge(StartChallenge(store, user, username, now).value, user, username, later)
            == Refused(AlreadyStarted)
  {
  }

  /**
   The first check-in of a new record, on any date after 1970-01-01, is accepted
   and starts a streak of one; on the day after the start it lands on challenge day 2.
   */
  lemma FirstCheckIn(username: string, start: Instant, now: Instant, catalog: Catalog, pick: Chooser)
    requires now.date > Epoch.date
    ensures CheckIn(NewRecord(username, start), now, catalog, pick).Accepted?
    ensures var res := CheckIn(NewRecord(username, start), now, catalog, pick);
            && res.record.currentStreak == 1
            && res.record.longestStreak == 1
            && res.record.totalDays == 1
            && (now.date == start.date + 1 ==> res.challengeDay == 2)
  {
  }

  /** What `!mystats` shows: challenge day, current and longest streak, savings. */
  datatype Stats = Stats(challengeDay: int, currentStreak: nat, longestStreak: nat, savings: real)

  function Snapshot(rec: Record, now: Instant): Stats {
    Stats(ChallengeDay(rec.startDate, now), rec.currentStreak, rec.longestStreak, rec.savings)
  }

  /**
   The statistics shown on the date of an accepted check-in report the same
   challenge day as the check-in, and its streaks.
   */
  lemma SnapshotAgreesWithCheckIn(rec: Record, now: Instant, later: Instant, catalog: Catalog, pick: Chooser)
    requires CheckIn(rec, now, catalog, pick).Accepted?
    requires later.date == now.date
    ensures var res := CheckIn(rec, now, catalog, pick);
            var stats := Snapshot(res.record, later);
            && stats.challengeDay == res.challengeDay
            && stats.currentStreak == res.record.currentStreak <= stats.longestStreak
  {
  }

  /**
   `!addsavings`: a user without a record is told to start first, a
   non-positive amount is refused, and otherwise the amount is added to that
   user's savings only.
   */
  function AddSavings(store: Store, user: UserId, amount: real): (r: Result<Store>)
    ensures user !in store ==> r == Refused(NotStarted)
    ensures user in store && amount <= 0.0 ==> r == Refused(NonPositiveAmount)
    ensures r.Ok? <==> user in store && amount > 0.0
    ensures r.Ok? ==>
              && user in store
              && r.value.Keys == store.Keys
              && (forall u :: u in store && u != user ==> r.value[u] == store[u])
              && r.value[user].savings == store[user].savings + amount
              && r.value[user].savings > store[user].savings
              && r.value[user] == store[user].(savings := r.value[user].savings)
  {
    if user !in store then Refused(NotStarted)
    else if amount <= 0.0 then Refused(NonPositiveAmount)
    else
      var rec := store[user];
      Ok(store[user := rec.(savings := rec.savings + amount)])
  }
}
