/**
 What the streak counters mean over a user's whole history. For a new
 challenger who checks in on a strictly increasing sequence of dates, the
 engine's incremental counters agree with definitions read off the list of
 check-in dates: the total is the number of check-ins, the current streak is
 the length of the run of consecutive dates that ends with the latest
 check-in, and the longest streak is the length of the longest such run.
 */
module Streaks {
  import opened Progress
  import opened Rewards
  import opened Checkin

  function Dates(nows: seq<Instant>): (ds: seq<int>)
    ensures |ds| == |nows|
    ensures forall i :: 0 <= i < |nows| ==> ds[i] == nows[i].date
  {
    seq(|nows|, i requires 0 <= i < |nows| => nows[i].date)
  }

  /** The check-in dates `ds[i..j]` are consecutive calendar days. */
  predicate Run(ds: seq<int>, i: int, j: int) {
    && 0 <= i < j <= |ds|
    && forall t :: i < t < j ==> ds[t] == ds[t - 1] + 1
  }

  /** `c` is the length of the run of consecutive dates that ends with the latest date of `ds`. */
  predicate IsCurrentStreak(ds: seq<int>, c: nat) {
    if |ds| == 0 then c == 0
    else
      && 1 <= c <= |ds|
      && Run(ds, |ds| - c, |ds|)
      && (c < |ds| ==> ds[|ds| - c] != ds[|ds| - c - 1] + 1)
  }

  /** `m` is the length of the longest run of consecutive dates in `ds`. */
  ghost predicate IsLongestStreak(ds: seq<int>, m: nat) {
    && (|ds| == 0 ==> m == 0)
    && (|ds| > 0 ==> exists i, j :: Run(ds, i, j) && j - i == m)
    && (forall i, j :: Run(ds, i, j) ==> j - i <= m)
  }

  /** The counters of `rec` are those of a history of check-ins on the dates `ds`. */
  ghost predicate Summarises(rec: Record, ds: seq<int>) {
    && rec.totalDays == |ds|
    && IsCurrentStreak(ds, rec.currentStreak)
    && IsLongestStreak(ds, rec.longestStreak)
    && rec.lastCheckin.date == (if |ds| == 0 then Epoch.date else ds[|ds| - 1])
  }

  predicate StrictlyIncreasing(ds: seq<int>) {
    forall i, j :: 0 <= i < j < |ds| ==> ds[i] < ds[j]
  }

  lemma RunExtend(ds: seq<int>, d: int, i: int, j: int)
    requires Run(ds, i, j)
    ensures Run(ds + [d], i, j)
  {
    forall t | i < t < j
      ensures (ds + [d])[t] == (ds + [d])[t - 1] + 1
    {
      assert (ds + [d])[t] == ds[t] && (ds + [d])[t - 1] == ds[t - 1];
    }
  }

  lemma RunShrink(ds: seq<int>, d: int, i: int, j: int)
    requires Run(ds + [d], i, j) && j <= |ds|
    ensures Run(ds, i, j)
  {
    forall t | i < t < j
      ensures ds[t] == ds[t - 1] + 1
    {
      assert (ds + [d])[t] == ds[t] && (ds + [d])[t - 1] == ds[t - 1];
    }
  }

  /** No run that ends with the latest date is longer than the current streak. */
  lemma {:induction false} RunEndBound(ds: seq<int>, c: nat, i: int)
    requires |ds| > 0 && IsCurrentStreak(ds, c) && Run(ds, i, |ds|)
    ensures |ds| - i <= c
  {
    if c < |ds| {
      var t := |ds| - c;
      assert ds[t] != ds[t - 1] + 1;
      assert !(i < t);
    }
  }

  /** Checking in on date `d` after the dates `ds` extends the current run or starts a new one. */
  lemma {:induction false} CurrentStreakStep(ds: seq<int>, c: nat, d: int)
    requires IsCurrentStreak(ds, c)
    requires |ds| > 0 ==> ds[|ds| - 1] < d
    ensures IsCurrentStreak(ds + [d], if |ds| > 0 && d == ds[|ds| - 1] + 1 then c + 1 else 1)
  {
    var ds' := ds + [d];
    var n := |ds'|;
    if |ds| > 0 && d == ds[|ds| - 1] + 1 {
      RunExtend(ds, d, |ds| - c, |ds|);
      forall t | n - (c + 1) < t < n
        ensures ds'[t] == ds'[t - 1] + 1
      {
        if t < |ds| {
          assert ds'[t] == ds[t] && ds'[t - 1] == ds[t - 1];
        }
      }
      if c + 1 < n {
        assert ds'[n - (c + 1)] == ds[|ds| - c] && ds'[n - (c + 1) - 1] == ds[|ds| - c - 1];
      }
    } else if |ds| > 0 {
      assert ds'[n - 1] == d && ds'[n - 2] == ds[|ds| - 1];
    }
  }

  /** The longest streak after a check-in is the larger of the longest before and the new current streak. */
  lemma {:induction false} LongestStreakStep(ds: seq<int>, m: nat, d: int, c': nat)
    requires IsLongestStreak(ds, m)
    requires IsCurrentStreak(ds + [d], c')
    ensures IsLongestStreak(ds + [d], if m < c' then c' else m)
  {
    var ds' := ds + [d];
    var m' := if m < c' then c' else m;
    forall i, j | Run(ds', i, j)
      ensures j - i <= m'
    {
      if j <= |ds| {
        RunShrink(ds, d, i, j);
      } else {
        RunEndBound(ds', c', i);
      }
    }
    if m < c' {
      assert Run(ds', |ds'| - c', |ds'|);
    } else {
      assert |ds| > 0;
      var i, j :| Run(ds, i, j) && j - i == m;
      RunExtend(ds, d, i, j);
    }
  }

  /** One accepted check-in on a later date keeps the counters in agreement with the dates. */
  lemma {:induction false} SummarisesStep(prev: Record, ds: seq<int>, now: Instant, catalog: Catalog, pick: Chooser)
    requires Summarises(prev, ds)
    requires now.date > Epoch.date
    requires |ds| > 0 ==> ds[|ds| - 1] < now.date
    ensures CheckIn(prev, now, catalog, pick).Accepted?
    ensures Summarises(CheckIn(prev, now, catalog, pick).record, ds + [now.date])
  {
    var next := CheckIn(prev, now, catalog, pick).record;
    CurrentStreakStep(ds, prev.currentStreak, now.date);
    assert IsCurrentStreak(ds + [now.date], next.currentStreak);
    LongestStreakStep(ds, prev.longestStreak, now.date, next.currentStreak);
  }

  /**
   For a new challenger checking in on strictly increasing dates after 1970-01-01,
   the total, current and longest streaks are those the dates define.
   */
  lemma {:induction false} StreakHistory(username: string, start: Instant, nows: seq<Instant>,
                                         catalog: Catalog, pick: Chooser)
    requires StrictlyIncreasing(Dates(nows))
    requires forall i :: 0 <= i < |nows| ==> nows[i].date > Epoch.date
    ensures Summarises(Replay(NewRecord(username, start), nows, catalog, pick), Dates(nows))
    decreases |nows|
  {
    var newcomer := NewRecord(username, start);
    if |nows| == 0 {
      assert forall i, j :: !Run([], i, j);
    } else {
      var n := |nows|;
      var earlier := nows[..n - 1];
      var now := nows[n - 1];
      var ds := Dates(earlier);
      assert Dates(nows) == ds + [now.date];
      assert StrictlyIncreasing(ds);
      StreakHistory(username, start, earlier, catalog, pick);
      var prev := Replay(newcomer, earlier, catalog, pick);
      if |ds| > 0 {
        assert ds[|ds| - 1] == Dates(nows)[n - 2];
      }
      SummarisesStep(prev, ds, now, catalog, pick);
    }
  }

  /** Check-ins on consecutive days from the first one make all three counters equal to their number. */
  lemma ConsecutiveDays(username: string, start: Instant, nows: seq<Instant>, catalog: Catalog, pick: Chooser)
    requires |nows| > 0 && nows[0].date > Epoch.date
    requires forall i :: 0 < i < |nows| ==> nows[i].date == nows[i - 1].date + 1
    ensures Replay(NewRecord(username, start), nows, catalog, pick).currentStreak == |nows|
    ensures Replay(NewRecord(username, start), nows, catalog, pick).longestStreak == |nows|
    ensures Replay(NewRecord(username, start), nows, catalog, pick).totalDays == |nows|
    ensures Replay(NewRecord(username, start), nows, catalog, pick).lastCheckin.date == nows[|nows| - 1].date
  {
    var ds := Dates(nows);
    assert StrictlyIncreasing(ds) by {
      forall i, j | 0 <= i < j < |ds|
        ensures ds[i] < ds[j]
      {
        ConsecutiveGrow(ds, i, j);
      }
    }
    assert forall i :: 0 <= i < |nows| ==> nows[i].date > Epoch.date by {
      forall i | 0 <= i < |nows|
        ensures nows[i].date > Epoch.date
      {
        ConsecutiveGrow(ds, 0, i);
      }
    }
    StreakHistory(username, start, nows, catalog, pick);
    var rec := Replay(NewRecord(username, start), nows, catalog, pick);
    assert Run(ds, 0, |ds|);
    RunEndBound(ds, rec.currentStreak, 0);
  }

  lemma {:induction false} ConsecutiveGrow(ds: seq<int>, i: int, j: int)
    requires 0 <= i <= j < |ds|
    requires forall t :: 0 < t < |ds| ==> ds[t] == ds[t - 1] + 1
    ensures ds[j] == ds[i] + (j - i)
    decreases j - i
  {
    if i < j {
      ConsecutiveGrow(ds, i, j - 1);
    }
  }

  /**
   On the seventh consecutive daily check-in of a new challenger, a weekly tier
   with multiplier one unlocks unless its key was already unlocked.
   */
  lemma SeventhDayUnlocksFirstWeek(username: string, start: Instant, nows: seq<Instant>,
                                   catalog: Catalog, pick: Chooser, i: nat)
    requires |nows| == 7 && nows[0].date > Epoch.date
    requires forall t :: 0 < t < |nows| ==> nows[t].date == nows[t - 1].date + 1
    requires i < |catalog.weekly| && catalog.weekly[i].multiplier == 1
    requires catalog.weekly[i].key !in Replay(NewRecord(username, start), nows[..6], catalog, pick).rewardsUnlocked
    ensures var before := Replay(NewRecord(username, start), nows[..6], catalog, pick);
            var res := CheckIn(before, nows[6], catalog, pick);
            res.Accepted? && catalog.weekly[i].key in Keys(res.unlocks)
  {
    var before := Replay(NewRecord(username, start), nows[..6], catalog, pick);
    ConsecutiveDays(username, start, nows[..6], catalog, pick);
    var res := CheckIn(before, nows[6], catalog, pick);
    assert res.Accepted?;
    assert res.record.currentStreak == 7;
    assert TierReached(catalog.weekly, WeekPeriod, 7, catalog.weekly[i].key);
  }
}
