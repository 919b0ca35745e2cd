/** What is published of an account's sessions, in terms of one user's reports: which, under which name and
    with which times. */
module HubChats {
  import opened Common
  import opened HubModel
  import opened HubQuarantine
  import opened HubPublishing

  const NINETY_SECONDS := 90_000_000_000

  // ----- the inventory in force -----

  /** The latest complete observation, as long as since then the user only sent good reports of the same account
      without an inventory, each within 90 seconds of it; a switch of accounts leaves none. */
  function InventoryAt(run: seq<Report>, n: nat): (i: Option<nat>)
    requires n <= |run|
    ensures i.Some? ==> i.value < n && Observes(run, i.value) && !Switches("", run, i.value)
  {
    if n == 0 then None
    else
      var k, before := n - 1, InventoryAt(run, n - 1);
      if !Accepted("", run, k) then before
      else if Observes(run, k) then if Switches("", run, k) then None else Some(k)
      else if run[k].snapshot.state.Ok? && !Switches("", run, k) && before.Some? && run[k].now <= run[before.value].now + NINETY_SECONDS
      then before else None
  }

  /** Reports are received at times after the zero time. */
  predicate TimedRun(run: seq<Report>) {
    forall i :: 0 <= i < |run| ==> run[i].now != 0
  }

  /** The sessions an entry keeps are those of the inventory in force that were not ambiguous when it came. */
  predicate KeepsInventory(e: Entry, run: seq<Report>, n: nat)
    requires n <= |run|
  {
    match InventoryAt(run, n)
    case None => e.runtime == map[] && e.runtimeAt == 0
    case Some(i) => e.runtime == run[i].snapshot.runtime - At("", run, i + 1).quarantine && e.runtimeAt == run[i].now
  }

  lemma {:induction false} InventoryKept(run: seq<Report>, n: nat)
    requires n <= |run| && TimedRun(run)
    ensures KeepsInventory(At("", run, n), run, n)
  {
    hide KeepsInventory, Receive;
    if n == 0 {
      NothingKept(run);
    } else {
      InventoryKept(run, n - 1);
      InventoryStepKept(run, n - 1);
    }
  }

  lemma NothingKept(run: seq<Report>)
    ensures KeepsInventory(At("", run, 0), run, 0)
  {
  }

  lemma InventoryStepKept(run: seq<Report>, n: nat)
    requires n < |run| && TimedRun(run) && KeepsInventory(At("", run, n), run, n)
    ensures KeepsInventory(At("", run, n + 1), run, n + 1)
  {
    NextAt("", run, n);
    AtConsumer(run, n);
    hide At, Accounted, NextPending;
    var e := At("", run, n);
    if Accepted("", run, n) {
      var s, now := run[n].snapshot, run[n].now;
      var f := At("", run, n + 1);
      assert f.runtime == NextRuntime(e, s, run[n].hooks, now) && f.runtimeAt == NextRuntimeAt(e, s, now);
      assert f.quarantine == NextQuarantine(e, s, run[n].hooks);
      if ConsumerSwitch(e, s) && Complete(s) { assert s.runtime - NextQuarantine(e, s, run[n].hooks) == map[]; }
    }
  }

  // ----- which sessions are shown -----

  /** The latest report that counts is good and at most `staleAfter` old. */
  predicate Current(run: seq<Report>, n: nat, now: Instant, staleAfter: int)
    requires n <= |run|
  {
    n > 0 &&
    if Accepted("", run, n - 1) then run[n - 1].snapshot.state.Ok? && now - run[n - 1].now <= staleAfter
    else Current(run, n - 1, now, staleAfter)
  }

  lemma {:induction false} CurrentKept(run: seq<Report>, n: nat, now: Instant, staleAfter: int)
    requires n <= |run| && TimedRun(run)
    ensures Current(run, n, now, staleAfter) <==>
            At("", run, n).current.state.Ok? && !EntryStale(At("", run, n), now, staleAfter)
  {
    if n > 0 {
      CurrentKept(run, n - 1, now, staleAfter);
      NextAt("", run, n - 1);
      hide At, Accounted, NextPending, NextRuntime, NextRuntimeAt, NextQuarantine;
    }
  }

  lemma HookShown(run: seq<Report>, n: nat, x: string, account: string)
    requires n <= |run| && x != ""
    ensures ShowsHook(At("", run, n), account, x) <==> At("", run, n).membership == account && !Awaiting(run, n) && !Ambiguous(run, n, x)
  {
    PendingExact(run, n);
    QuarantineExact(run, n, x);
    AtConsumer(run, n);
    hide At, Awaiting, Ambiguous;
  }

  lemma InventoryShown(run: seq<Report>, n: nat, x: string, account: string, now: Instant, staleAfter: int)
    requires n <= |run| && TimedRun(run)
    ensures x in At("", run, n).runtime && ShowsRuntime(At("", run, n), account, now, staleAfter) <==>
            && At("", run, n).membership == account && Current(run, n, now, staleAfter) && InventoryAt(run, n).Some?
            && var i := InventoryAt(run, n).value;
               x in run[i].snapshot.runtime && !Ambiguous(run, i + 1, x) && now <= run[i].now + NINETY_SECONDS
  {
    hide At, Ambiguous, InventoryAt, EntryStale, Current, Observes, Switches;
    InventoryKept(run, n);
    CurrentKept(run, n, now, staleAfter);
    AtConsumer(run, n);
    if InventoryAt(run, n).Some? { QuarantineExact(run, InventoryAt(run, n).value + 1, x); }
  }

  /** Exactly which sessions of a consumer are shown under an account: only under the one it is signed in to; those
      that hooks report, unless a switch awaits its inventory or they are ambiguous; and those that the
      inventory in force lists, unless they were ambiguous when it came, while its reports are current and the
      inventory is at most 90 seconds old. */
  lemma ShownExactly(run: seq<Report>, n: nat, x: string, account: string, hooks: set<string>, now: Instant, staleAfter: int)
    requires n <= |run| && TimedRun(run) && x != ""
    ensures x in Shown(At("", run, n), account, hooks, now, staleAfter) <==>
            && At("", run, n).membership == account
            && (|| (x in hooks && !Awaiting(run, n) && !Ambiguous(run, n, x))
                || (Current(run, n, now, staleAfter) && InventoryAt(run, n).Some?
                    && var i := InventoryAt(run, n).value;
                       x in run[i].snapshot.runtime && !Ambiguous(run, i + 1, x) && now <= run[i].now + NINETY_SECONDS))
  {
    hide At, Awaiting, Ambiguous, InventoryAt, Current, ShowsHook, ShowsRuntime;
    HookShown(run, n, x, account);
    InventoryShown(run, n, x, account, now, staleAfter);
  }

  // ----- names -----

  /** A chat has the name of its App Server session, or else the one in the user's thread index, or else none of
      its own. */
  lemma {:induction false} ProjectedName(entries: Entries, account: string, refs: seq<ActivityRef>, now: Instant, staleAfter: int, k: ChatKey)
    requires k in Projected(entries, account, refs, now, staleAfter)
    ensures k.username in entries
    ensures var e := entries[k.username];
            Projected(entries, account, refs, now, staleAfter)[k].name ==
            if k in FromRuntime(entries, account, now, staleAfter) && k.session in e.runtime then e.runtime[k.session].name
            else if k.session in e.recent then e.recent[k.session]
            else "Active Codex task"
  {
    hide ShowsRuntime, NormalTimes, ShowsHook;
    if refs != [] {
      var front, last := refs[..|refs| - 1], refs[|refs| - 1];
      MergedKeys(Projected(entries, account, front, now, staleAfter), entries, account, last, now);
      if k in Projected(entries, account, front, now, staleAfter) {
        ProjectedName(entries, account, front, now, staleAfter, k);
      } else {
        RuntimeStays(entries, account, front, now, staleAfter, k);
      }
    }
  }

  lemma {:induction false} RuntimeStays(entries: Entries, account: string, refs: seq<ActivityRef>, now: Instant, staleAfter: int, k: ChatKey)
    ensures k in FromRuntime(entries, account, now, staleAfter) ==> k in Projected(entries, account, refs, now, staleAfter)
  {
    hide FromRuntime, Merged, HookCounts;
    if refs != [] {
      var front, last := refs[..|refs| - 1], refs[|refs| - 1];
      RuntimeStays(entries, account, front, now, staleAfter, k);
      MergedKeys(Projected(entries, account, front, now, staleAfter), entries, account, last, now);
    }
  }

  // ----- times -----

  /** Both times when only one is known, the fallback when neither is, and never the end before the beginning. */
  lemma NormalTimesAre(a: Instant, b: Instant, fallback: Instant)
    ensures a != 0 && b != 0 && a <= b ==> NormalTimes(a, b, fallback) == (a, b)
    ensures a != 0 && b != 0 && b < a ==> NormalTimes(a, b, fallback) == (b, a)
    ensures a != 0 && b == 0 ==> NormalTimes(a, b, fallback) == (a, a)
    ensures a == 0 && b != 0 ==> NormalTimes(a, b, fallback) == (b, b)
    ensures a == 0 && b == 0 && fallback != 0 ==> NormalTimes(a, b, fallback) == (fallback, fallback)
    ensures a == 0 && b == 0 && fallback == 0 ==> NormalTimes(a, b, fallback) == (62_135_596_800 * SECOND, 62_135_596_800 * SECOND)
  {
  }

  predicate Counted(entries: Entries, account: string, refs: seq<ActivityRef>, i: nat, k: ChatKey) {
    i < |refs| && ChatKey(refs[i].username, refs[i].session) == k && HookCounts(entries, account, refs[i])
  }

  /** The times of an App Server session: as it gives them in whole seconds, or else those of the observation. */
  function ThreadTimes(t: Thread, e: Entry, now: Instant): (Instant, Instant) {
    NormalTimes(if t.createdAt == 0 then 0 else FromUnix(t.createdAt), if t.updatedAt == 0 then 0 else FromUnix(t.updatedAt),
                if e.current.observedAt != 0 then e.current.observedAt else if e.lastSeenAt != 0 then e.lastSeenAt else now)
  }

  /** The times come from the session's inventory entry or from one of its hook reports that count. */
  predicate TimesFrom(entries: Entries, account: string, refs: seq<ActivityRef>, now: Instant, staleAfter: int, k: ChatKey, pair: (Instant, Instant))
  {
    || (k in FromRuntime(entries, account, now, staleAfter) && k.username in entries && k.session in entries[k.username].runtime
        && pair == ThreadTimes(entries[k.username].runtime[k.session], entries[k.username], now))
    || exists i: nat :: i < |refs| && Counted(entries, account, refs, i, k) && pair == NormalTimes(refs[i].startedAt, refs[i].updatedAt, now)
  }

  /** A chat began with the earliest and was updated with the latest of them. */
  ghost predicate Extremes(entries: Entries, account: string, refs: seq<ActivityRef>, now: Instant, staleAfter: int, k: ChatKey, c: ActiveChat) {
    && (exists p :: TimesFrom(entries, account, refs, now, staleAfter, k, p) && c.startedAt == p.0)
    && (exists p :: TimesFrom(entries, account, refs, now, staleAfter, k, p) && c.updatedAt == p.1)
    && forall p :: TimesFrom(entries, account, refs, now, staleAfter, k, p) ==> c.startedAt <= p.0 && p.1 <= c.updatedAt
  }

  lemma RuntimeExtremes(entries: Entries, account: string, now: Instant, staleAfter: int, k: ChatKey)
    requires k in FromRuntime(entries, account, now, staleAfter)
    ensures Extremes(entries, account, [], now, staleAfter, k, FromRuntime(entries, account, now, staleAfter)[k])
  {
    hide ShowsRuntime, NormalTimes;
    var e := entries[k.username];
    var p := ThreadTimes(e.runtime[k.session], e, now);
    assert TimesFrom(entries, account, [], now, staleAfter, k, p);
  }

  lemma TimesStep(entries: Entries, account: string, refs: seq<ActivityRef>, now: Instant, staleAfter: int, k: ChatKey, p: (Instant, Instant))
    requires refs != []
    ensures var front, last := refs[..|refs| - 1], refs[|refs| - 1];
            TimesFrom(entries, account, refs, now, staleAfter, k, p) <==>
            || TimesFrom(entries, account, front, now, staleAfter, k, p)
            || (ChatKey(last.username, last.session) == k && HookCounts(entries, account, last)
                && p == NormalTimes(last.startedAt, last.updatedAt, now))
  {
    hide FromRuntime, HookCounts, NormalTimes;
    var front, n := refs[..|refs| - 1], |refs| - 1;
    forall i: nat | i < n ensures Counted(entries, account, front, i, k) <==> Counted(entries, account, refs, i, k) {}
    if ChatKey(refs[n].username, refs[n].session) == k && HookCounts(entries, account, refs[n]) && p == NormalTimes(refs[n].startedAt, refs[n].updatedAt, now) {
      assert Counted(entries, account, refs, n, k);
    }
  }

  ghost predicate Timeless(entries: Entries, account: string, refs: seq<ActivityRef>, now: Instant, staleAfter: int, k: ChatKey) {
    forall p :: !TimesFrom(entries, account, refs, now, staleAfter, k, p)
  }

  lemma NoTimes(entries: Entries, account: string, refs: seq<ActivityRef>, now: Instant, staleAfter: int, k: ChatKey)
    requires k !in Projected(entries, account, refs, now, staleAfter)
    ensures Timeless(entries, account, refs, now, staleAfter, k)
  {
    hide FromRuntime, HookCounts, NormalTimes, Projected;
    CountedIsProjected(entries, account, refs, now, staleAfter, k);
    RuntimeStays(entries, account, refs, now, staleAfter, k);
  }

  /** Every projected chat has exactly the earliest beginning and the latest update that its inventory entry and
      its hook reports give, in whatever order they came. */
  lemma {:induction false} ProjectedTimesExact(entries: Entries, account: string, refs: seq<ActivityRef>, now: Instant,
                                               staleAfter: int, k: ChatKey)
    requires k in Projected(entries, account, refs, now, staleAfter)
    ensures Extremes(entries, account, refs, now, staleAfter, k, Projected(entries, account, refs, now, staleAfter)[k])
  {
    hide FromRuntime, Merged, HookCounts, NormalTimes, Extremes;
    if refs == [] {
      RuntimeExtremes(entries, account, now, staleAfter, k);
    } else {
      var front, last := refs[..|refs| - 1], refs[|refs| - 1];
      var before := Projected(entries, account, front, now, staleAfter);
      MergedKeys(before, entries, account, last, now);
      if k in before {
        ProjectedTimesExact(entries, account, front, now, staleAfter, k);
        ProjectedTimes(entries, account, front, now, staleAfter, k);
      } else {
        NoTimes(entries, account, front, now, staleAfter, k);
      }
      MergedExtremes(before, entries, account, refs, now, staleAfter, k);
    }
  }

  lemma MergedExtremes(before: map<ChatKey, ActiveChat>, entries: Entries, account: string, refs: seq<ActivityRef>, now: Instant, staleAfter: int, k: ChatKey)
    requires refs != [] && k in Merged(before, entries, account, refs[|refs| - 1], now)
    requires k in before ==> HubPublishing.Timed(before[k]) && Extremes(entries, account, refs[..|refs| - 1], now, staleAfter, k, before[k])
    requires k !in before ==> Timeless(entries, account, refs[..|refs| - 1], now, staleAfter, k)
    ensures Extremes(entries, account, refs, now, staleAfter, k, Merged(before, entries, account, refs[|refs| - 1], now)[k])
  {
    hide FromRuntime, HookCounts, NormalTimes, TimesFrom;
    var last := refs[|refs| - 1];
    forall p
      ensures TimesFrom(entries, account, refs, now, staleAfter, k, p) <==>
              || TimesFrom(entries, account, refs[..|refs| - 1], now, staleAfter, k, p)
              || (ChatKey(last.username, last.session) == k && HookCounts(entries, account, last)
                  && p == NormalTimes(last.startedAt, last.updatedAt, now))
    {
      TimesStep(entries, account, refs, now, staleAfter, k, p);
    }
    NormalTimesOrdered(last.startedAt, last.updatedAt, now);
  }

  // ----- the lifetime total and the thread index -----

  /** A good report that counts and gives a lifetime total. */
  predicate GivesLifetime(expected: string, run: seq<Report>, i: nat)
    requires i < |run|
  {
    Accepted(expected, run, i) && run[i].snapshot.state.Ok? && run[i].snapshot.lifetime.Some?
  }

  predicate GivesRecent(expected: string, run: seq<Report>, i: nat)
    requires i < |run|
  {
    Accepted(expected, run, i) && run[i].snapshot.state.Ok? && run[i].snapshot.recentRead
  }

  /** The latest report to give a lifetime total, unless the sign-in ended since. */
  function LifetimeAt(expected: string, run: seq<Report>, n: nat): (i: Option<nat>)
    requires n <= |run|
    ensures i.Some? ==> i.value < n && GivesLifetime(expected, run, i.value)
  {
    if n == 0 then None
    else if GivesLifetime(expected, run, n - 1) then Some(n - 1)
    else if Boundary(expected, run, n - 1) then None
    else LifetimeAt(expected, run, n - 1)
  }

  function RecentAt(expected: string, run: seq<Report>, n: nat): (i: Option<nat>)
    requires n <= |run|
    ensures i.Some? ==> i.value < n && GivesRecent(expected, run, i.value)
  {
    if n == 0 then None
    else if GivesRecent(expected, run, n - 1) then Some(n - 1)
    else if Boundary(expected, run, n - 1) then None
    else RecentAt(expected, run, n - 1)
  }

  lemma ReceiveTotals(e: Entry, r: Report)
    requires ValidSnapshot(r.snapshot)
    ensures var s, f := r.snapshot, Receive(e, r);
            var counts := !Late(e, s) && s.state.Ok?;
            && f.lifetime == (if counts && s.lifetime.Some? then s.lifetime else if EndsSignIn(e, s) then None else e.lifetime)
            && f.lifetimeAt == (if counts && s.lifetime.Some? then s.observedAt else if EndsSignIn(e, s) then 0 else e.lifetimeAt)
            && f.recent == (if counts && s.recentRead then s.recent else if EndsSignIn(e, s) then map[] else e.recent)
  {
    hide NextRuntime, NextRuntimeAt, NextQuarantine, NextPending, Late;
  }

  /** What is kept is the latest that a good report gave, as long as the sign-in has not ended since: failed or partial
      reports lose nothing, and nothing survives the end of a sign-in. */
  lemma {:induction false} KeptExactly(expected: string, run: seq<Report>, n: nat)
    requires n <= |run| && ValidRun(run)
    ensures var e, i, j := At(expected, run, n), LifetimeAt(expected, run, n), RecentAt(expected, run, n);
            && e.lifetime == (if i.Some? then run[i.value].snapshot.lifetime else None)
            && e.lifetimeAt == (if i.Some? then run[i.value].snapshot.observedAt else 0)
            && e.recent == (if j.Some? then run[j.value].snapshot.recent else map[])
  {
    hide Receive, EndsSignIn, Late, ValidSnapshot;
    if n > 0 {
      KeptExactly(expected, run, n - 1);
      ReceiveTotals(At(expected, run, n - 1), run[n - 1]);
    }
  }
}
