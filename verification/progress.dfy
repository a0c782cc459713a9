/**
 The per-user progress record and the in-memory store of all records.

 Timestamps are UTC instants. Every comparison the bot makes uses only the
 calendar date of an instant, so an instant is a day number (days since
 1970-01-01) plus an uninterpreted time of day.
 */
module Progress {

  /** A UTC instant: its calendar date as a day number counted from 1970-01-01, and its time of day. */
  datatype Instant = Instant(date: int, timeOfDay: nat)

  /** `1970-01-01T00:00:00+00:00`, the "never checked in" value of the last check-in. */
  const Epoch: Instant := Instant(0, 0)

  datatype JournalEntry = JournalEntry(at: Instant, text: string)

  /** One user's progress, with the fields the bot stores under the user's id. */
  datatype Record = Record(
    username: string,
    startDate: Instant,
    lastCheckin: Instant,
    currentStreak: nat,
    longestStreak: nat,
    totalDays: nat,
    savings: real,
    rewardsUnlocked: seq<string>,
    journal: seq<JournalEntry>)

  /** The user's id as the decimal string the platform's numeric id is turned into. */
  type UserId = string

  /** All users' records, keyed by user id. */
  type Store = map<UserId, Record>

  /** The outcomes that are reported to the user instead of changing anything. */
  datatype Refusal =
    | NotStarted
    | AlreadyStarted
    | AlreadyCheckedInToday
    | NonPositiveAmount
    | NoJournalEntries

  datatype Result<+T> = Ok(value: T) | Refused(reason: Refusal)

  /** The record a new challenger starts with. */
  function NewRecord(username: string, now: Instant): Record {
    Record(username, now, Epoch, 0, 0, 0, 0.0, [], [])
  }

  /** The 1-based day of the challenge on which the instant `now` falls. */
  function ChallengeDay(start: Instant, now: Instant): int {
    now.date - start.date + 1
  }
}
