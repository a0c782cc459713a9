# Gambling-recovery bot: check-ins, rewards, journal and content pager

This project models the state-changing core of a chat bot that helps people
stay away from gambling. It covers four parts.

- **Daily check-in.** A reaction with the check-in emoji (`CHECKIN_EMOJI`, main.py:12) on any message
  in the check-in channel counts at most once
  per UTC calendar date. It advances the current streak, the longest streak
  and the total of gambling-free days. It also unlocks reward ideas from a
  catalog: the daily tier for the challenge day, and every weekly (7 days),
  monthly (30 days) and yearly (365 days) streak tier whose threshold the
  current streak reaches. A tier is unlocked only once per user.
- **Starting the challenge.** This creates the user's record. The module also
  has the statistics projection and the savings counter.
- **Private journal.** Entries are appended with a timestamp. Only the last
  five are shown back.
- **Content browser.** A paged view with a category menu and previous/next
  buttons over the points of the selected category. The source defines the
  view's interaction handler (main.py:338) but never attaches it to the menu
  or the buttons, so the modelled transitions are not reachable in the running
  bot as written. A category that is missing, or that has no `points` list,
  shows a single "N/A" point (`Pager.PointsOf`, main.py:326-328). The button
  row (`Pager.ButtonsOf`, main.py:321-324) shows both buttons only when the
  category has more than one point, with each disabled at its end of the list;
  `Pager.ButtonsMatchMoves` is proved about it.

Everything is a pure function over immutable values.

- The store of all users is a `map` from user id to `Record`.
- An instant is a day number since 1970-01-01 plus a time of day. The "never
  checked in" sentinel is `Progress.Epoch`, midnight on 1970-01-01.
- The wall clock becomes a parameter `now`.
- `random.choice` becomes a parameter `pick: Chooser`. Any chooser is allowed,
  and its index is reduced modulo the number of candidates.

Modules:

- `Basics`: `Option`, `NoDup`, `Max`/`Min`, `IsPrefix`.
- `Decimal`: decimal rendering of integers, and its parser.
- `Progress`: instants, records, the store, refusals.
- `Rewards`: the catalog and the unlock engine.
- `Checkin`: one check-in, the handler over the store, replaying a history.
- `Streaks`: what the counters mean over a whole history.
- `Lifecycle`: start, statistics, savings.
- `Journal`: appending entries and the recent-entries window.
- `Pager`: the content browser.

Two things are proved against independent reference definitions.

- **The unlock engine.** `Rewards.Qualifies` states the catalog's condition
  for a key directly. Without any reference to the walk over offers, it reads:
  the daily key of the challenge day with a non-empty candidate list, or a
  tier whose multiplier times the period the streak reaches.
- **The streak counters.** `Streaks.Summarises` defines the counters
  declaratively from the list of check-in dates: the number of dates, the
  length of the run of consecutive days ending at the latest date, and the
  length of the longest such run.

## Model

| member | source | states |
|---|---|---|
| Checkin.CheckIn | main.py:92-132 | A check-in is refused exactly when its date is on or before the date of the last accepted one. Otherwise: the last check-in becomes `now`; the total goes up by one; the challenge day is the day count from the start date plus one; the streak goes up by one after a check-in the day before and restarts at one otherwise; the longest streak is the larger of the old longest and the new streak. The unlocked list grows by exactly the keys that qualify and were not unlocked before, and it stays free of duplicates. Every unlock message names a reward the catalog lists under that key. |
| Checkin.HandleCheckin | main.py:84-132 | A user without a record is told to start first. A repeated check-in on the same date is refused. A user with a record who checks in on a later date is always accepted. An accepted one stores exactly the record `Checkin.CheckIn` computes and replaces no other user's record. The receipt carries that check-in's challenge day, its new streak and its unlock messages in order, one per newly unlocked key. |
| Checkin.SameDayRefused | main.py:94-100 | After an accepted check-in, every further attempt on the same calendar date is refused, whatever the time of day. |
| Checkin.StepExtends | main.py:96-132 | One attempt leaves the record unchanged exactly when it is refused. Otherwise it moves the record forward: the longest streak, the total and the last date never decrease, and the unlocked list only grows at the end. It keeps current ≤ longest and keeps rewards free of duplicates. |
| Checkin.ReplayExtends | main.py:92-132 | Over any sequence of attempts, the record only moves forward and stays consistent. |
| Checkin.NeverUnlockedTwice | main.py:122-132 | A key unlocked once is never unlocked again by any later check-in. |
| Streaks.StreakHistory | main.py:103-109 | For a new user checking in on strictly increasing dates, the counters match the reference definitions: the total is the number of check-ins, the current streak is the run of consecutive days ending at the last one, and the longest streak is the longest such run. |
| Streaks.CurrentStreakStep | main.py:104-107 | The incremental streak update agrees with the definition of the current run when one date is appended. |
| Streaks.LongestStreakStep | main.py:108 | Taking the maximum of the old longest and the new current streak gives the longest run of the extended history. |
| Streaks.ConsecutiveDays | main.py:104-109 | Check-ins on consecutive days make the current streak, the longest streak and the total all equal to the number of check-ins. |
| Streaks.SeventhDayUnlocksFirstWeek | main.py:127-132 | On the seventh consecutive daily check-in, a weekly tier with multiplier 1 is unlocked unless it already was. |
| Rewards.RewardText | main.py:116-117 | The reward shown for a tier is one of its candidates. For an empty list it is the printed empty list `[]`. |
| Rewards.DailyKeyInjective | main.py:120 | Different challenge days have different daily keys `day_<n>`. |
| Rewards.GrantNew | main.py:119-132 | Walking the offers in order grants only keys not unlocked before, with no key granted twice. |
| Rewards.GrantNewKeys | main.py:119-132 | A key is granted by the walk exactly when it was not unlocked before and some offer with that key is eligible. |
| Rewards.GrantNewOrder | main.py:119-132 | Each grant carries the message of the first eligible offer with its key, and grants appear in offer order: daily, then weekly, monthly, yearly, each in catalog order. |
| Rewards.UnlocksInOrder | main.py:119-132 | The unlocks of a check-in come in the order the source appends them: the daily tier, then the weekly, monthly and yearly tiers, each in catalog order. Each carries the message of the first eligible offer with its key. |
| Rewards.OffersEligibleIff | main.py:121-130 | An offer with key `k` is eligible exactly when the catalog condition `Qualifies` holds for `k`. |
| Rewards.Unlocks | main.py:119-132 | The rewards one check-in unlocks are keys the user did not hold before, and no key comes twice. |
| Rewards.UnlocksExactly | main.py:119-132 | A check-in unlocks key `k` exactly when `k` was not unlocked before and qualifies. It qualifies as the daily key of the challenge day with a non-empty candidate list, or as a weekly/monthly/yearly tier with `streak ≥ multiplier × 7/30/365`. |
| Rewards.UnlockMessages | main.py:123-131 | Every unlock message reads `Day <n>: <idea>` or `<Week/Month/Year> <n> Streak: <idea>`, with the idea taken from the tier's candidates. |
| Decimal.NatToString | main.py:120 | The decimal rendering of a natural is non-empty, all digits, and starts with `0` only for zero. |
| Decimal.ParseShow | main.py:120 | Parsing the decimal rendering of an integer gives back that integer. |
| Decimal.ShowInjective | main.py:120 | Different integers render differently. |
| Lifecycle.StartChallenge | main.py:179-189 | Starting is refused exactly when the user already has a record, and succeeds exactly when there is none. Then it adds a record with the start instant, the 1970-01-01 sentinel as last check-in, zero counters and savings, and empty lists. Other users are untouched. |
| Lifecycle.StartOnce | main.py:180-182 | Starting a second time is refused. |
| Lifecycle.FirstCheckIn | main.py:94-112 | The first check-in of a new record, on any date after 1970-01-01, is accepted and sets current, longest and total to 1. On the day after the start, that is challenge day 2. |
| Lifecycle.SnapshotAgreesWithCheckIn | main.py:204-217 | Statistics taken on the date of an accepted check-in show the same challenge day and streak as the check-in, with current ≤ longest. |
| Lifecycle.AddSavings | main.py:225-234 | Without a record the user is told to start first. A non-positive amount is refused. It succeeds exactly when the user has a record and the amount is positive, and then the savings become the old savings plus the amount, so they strictly grow, and no other field or user changes. |
| Journal.Append | main.py:242-252 | Without a record the user is told to start first. With a record the entry is always accepted: exactly one entry with the timestamp and text is added at the end, and the earlier entries, the other fields and the other users stay as they were. |
| Journal.LastN | main.py:274 | The window has min(length, n) elements, which are the last ones of the list, in order. |
| Journal.Recent | main.py:269-274 | Refused exactly when the user has no record or no entries. Otherwise between 1 and 5 entries, which are the last ones, oldest first. |
| Journal.LastNAppend | main.py:252-274 | The last-n window after an append is the last n-1 window before it, followed by the new entry. |
| Journal.RecentAfterAppend | main.py:248-274 | Right after writing an entry, the recent view ends with it, after up to four earlier entries. |
| Pager.Lookup | main.py:326-328 | Category lookup finds a category with the requested key, or reports that none has it. |
| Pager.Open | main.py:308-313 | The view opens on the first category at page 0, and that state is valid. It cannot open when there is no content. |
| Pager.Handle | main.py:338-348 | Selecting a category gives exactly that category at page 0. Any other action keeps the category and moves the page by at most one. Previous moves back one page exactly when the page is above 0, and otherwise leaves it. Next moves forward one page exactly when the page is before the last point, and otherwise leaves it. Any other interaction changes nothing. |
| Pager.CurrentPoint | main.py:330-332 | A point is shown exactly when the page index is within the category's points, and it is one of them. |
| Pager.HandleKeepsValid | main.py:341-348 | Every interaction keeps the page within the category's points. |
| Pager.ValidShowsPoint | main.py:330-332 | In a valid state over a non-empty category, the point at the current page is shown. |
| Pager.ButtonsMatchMoves | main.py:321-324 | The buttons appear exactly when the category has more than one point. Each is disabled exactly when pressing it would change nothing. |
| Pager.NextPrevInverse | main.py:344-348 | Next then previous, or previous then next, returns to the same page whenever the first move is possible. |
| Pager.NextRepeated | main.py:346-348 | Pressing next k times moves k pages forward and stops at the last page. |
| Pager.PrevRepeated | main.py:344-345 | Pressing previous k times moves k pages back and stops at page 0. |

## Left out

- The chat-platform layer is left out because it is transport, not state. This covers the events, the commands' messages, embeds, direct messages, reaction removal and the reaction filters (the bot's own reactions, the wrong channel or emoji, a missing guild or member).
- Persistence is not modelled. Loading and saving the JSON user file and reading the reward and content files are I/O, and the model takes the store and the catalog as values.
- ISO-8601 timestamps become `Instant` values. Their parsing and printing, and the `strftime` rendering of dates, are left out.
- The clock and the random number generator are parameters (`now`, `pick`).
- The 24-hour loop that posts the daily check-in message is left out. It only sends a message.
- Tier keys are modelled pre-parsed: each `Rewards.Tier` carries the multiplier that `int(key.split('_')[1])` yields. For a malformed key, `int(key.split('_')[1])` at main.py:129 raises, after main.py:103-132 have already changed the in-memory record and before anything is saved. The model therefore covers only catalogs whose keys parse.
- Daily and streak-tier catalog values are modelled as lists of strings. Other JSON values are not modelled. `get_random_reward` would print such a value as is, for example a plain string, or `None` for a streak tier whose value is `null`.
- A streak tier whose list is empty still unlocks, with the printed `[]` as its text, as main.py:117 does (`Rewards.RewardText`).
- Lifecycle.AddSavings: savings are exact reals, so floating-point rounding of the sum and the two-decimal display are not modelled.
- Lifecycle.AddSavings: only finite amounts are modelled. In the source, `nan` gets past the `amount <= 0` guard at main.py:229 because every comparison with NaN is false, and main.py:234 then stores NaN as the savings. `inf` gets past the guard as well and makes the savings infinite.
- Missing fields in a stored record (the `.get` defaults) are not modelled. Every record is created by `!start` with all fields.
- In the journal, only the last-five window is modelled. Cutting each entry to 1000 characters and formatting its timestamp only affect rendering.
- In the content browser, rendering (titles, footer, select options), the five-minute timeout and the distraction and resources buttons are left out. `Pager.CurrentPoint` returns `None` where the source would index past the end of a list. This only happens for a category whose `points` list is empty, and the source would then fail with an exception.
- `!mystats` is modelled only as its projection `Lifecycle.Snapshot` (challenge day from the start date, both streaks, savings; main.py:204-218), about which `Lifecycle.SnapshotAgreesWithCheckIn` is proved. `!panic` only sends a message.
- Concurrent handlers are not modelled: each operation is atomic.
