/**
 The private journal: entries are appended with their timestamp, and the most
 recent ones are shown back oldest first.
 */
module Journal {
  import opened Progress

  /** How many entries `!myjournal` shows. */
  const RecentCount: nat := 5

  /** `!journal`: appends one timestamped entry to the user's journal and changes nothing else. */
  function Append(store: Store, user: UserId, now: Instant, text: string): (r: Result<Store>)
    ensures user !in store <==> r == Refused(NotStarted)
    ensures r.Ok? <==> user in store
    ensures r.Ok? ==>
              && r.value.Keys == store.Keys
              && (forall u :: u in store && u != user ==> r.value[u] == store[u])
              && |r.value[user].journal| == |store[user].journal| + 1
              && r.value[user].journal[..|store[user].journal|] == store[user].journal
              && r.value[user].journal[|store[user].journal|] == JournalEntry(now, text)
              && r.value[user] == store[user].(journal := r.value[user].journal)
  {
    if user !in store then Refused(NotStarted)
    else
      var rec := store[user];
      Ok(store[user := rec.(journal := rec.journal + [JournalEntry(now, text)])])
  }

  /** The last `n` elements of `s` (all of them when there are fewer), in their original order: `s[-n:]` for n > 0. */
  function LastN<T>(s: seq<T>, n: nat): (r: seq<T>)
    ensures |r| == if |s| < n then |s| else n
    ensures forall i :: 0 <= i < |r| ==> r[i] == s[|s| - |r| + i]
  {
    if |s| < n then s else s[|s| - n..]
  }

  /**
   `!myjournal`: refused when the user has no record or no entries; otherwise
   the last five entries, oldest first.
   */
  function Recent(store: Store, user: UserId): (r: Result<seq<JournalEntry>>)
    ensures r.Refused? <==> user !in store || |store[user].journal| == 0
    ensures r.Refused? ==> r.reason == NoJournalEntries
    ensures r.Ok? ==>
              && 0 < |r.value| <= RecentCount
              && |r.value| == (if |store[user].journal| < RecentCount then |store[user].journal| else RecentCount)
              && r.value == store[user].journal[|store[user].journal| - |r.value|..]
  {
    if user !in store || |store[user].journal| == 0 then Refused(NoJournalEntries)
    else
      var window := LastN(store[user].journal, RecentCount);
      assert window == store[user].journal[|store[user].journal| - |window|..];
      Ok(window)
  }

  /** The window after appending `e` is the window one shorter before it, followed by `e`. */
  lemma {:induction false} LastNAppend<T>(s: seq<T>, e: T, n: nat)
    requires n > 0
    ensures LastN(s + [e], n) == LastN(s, n - 1) + [e]
  {
    if |s| >= n - 1 {
      assert (s + [e])[|s| + 1 - n..] == s[|s| - (n - 1)..] + [e];
    }
  }

  /** Right after an entry is written, `!myjournal` shows it last, after up to four earlier entries. */
  lemma RecentAfterAppend(store: Store, user: UserId, now: Instant, text: string)
    requires user in store
    ensures var after := Append(store, user, now, text).value;
            Recent(after, user) == Ok(LastN(store[user].journal, RecentCount - 1) + [JournalEntry(now, text)])
  {
    var before := store[user].journal;
    var after := Append(store, user, now, text).value;
    assert after[user].journal == before + [JournalEntry(now, text)];
    LastNAppend(before, JournalEntry(now, text), RecentCount);
    var window := LastN(after[user].journal, RecentCount);
    assert window == after[user].journal[|after[user].journal| - |window|..];
  }
}
