/** The tracker object: the loops and in-place updates that carry out the rules. */
module HistoryTracker {
  import opened Common
  import opened KeyOrder
  import opened HistoryModel
  import opened HistoryCommit
  import HistoryRules
  import HistoryReplay
  import HistoryPoints

  // ----- small loops over one account's lists -----

  method FilterEvents(events: seq<Event>, cutoff: int) returns (kept: seq<Event>, dropped: bool)
    ensures kept == KeepEvents(events, cutoff) && (dropped <==> kept != events)
  {
    kept, dropped := [], false;
    for i := 0 to |events|
      invariant kept == KeepEvents(events[..i], cutoff) && (dropped <==> |kept| < i)
    {
      HistoryRules.KeepEventsElements(events[..i], cutoff);
      assert events[..i + 1][..i] == events[..i];
      if events[i].resetsAt >= cutoff {
        kept := kept + [events[i]];
      } else {
        dropped := true;
      }
    }
    assert events[..|events|] == events;
    HistoryRules.KeepEventsElements(events, cutoff);
  }

  method FilterAdjustments(adjs: seq<Adjustment>, cutoff: Instant) returns (kept: seq<Adjustment>, dropped: bool)
    ensures kept == KeepAdjustments(adjs, cutoff) && (dropped <==> kept != adjs)
  {
    kept, dropped := [], false;
    for i := 0 to |adjs|
      invariant kept == KeepAdjustments(adjs[..i], cutoff) && (dropped <==> |kept| < i)
    {
      HistoryRules.KeepAdjustmentsElements(adjs[..i], cutoff);
      assert adjs[..i + 1][..i] == adjs[..i];
      if adjs[i].detectedAt >= cutoff {
        kept := kept + [adjs[i]];
      } else {
        dropped := true;
      }
    }
    assert adjs[..|adjs|] == adjs;
    HistoryRules.KeepAdjustmentsElements(adjs, cutoff);
  }

  lemma {:induction false} InsertEventSplit(events: seq<Event>, e: Event, i: nat)
    requires i <= |events| && forall j :: i <= j < |events| ==> events[j].resetsAt > e.resetsAt
    ensures InsertEvent(events, e) == InsertEvent(events[..i], e) + events[i..]
    decreases |events|
  {
    if i < |events| {
      InsertEventSplit(events[..|events| - 1], e, i);
      assert events[..|events| - 1][..i] == events[..i];
      assert events[i..] == events[..|events| - 1][i..] + [events[|events| - 1]];
    } else {
      assert events[..i] == events;
    }
  }

  method AddEvent(events: seq<Event>, e: Event) returns (r: seq<Event>)
    ensures r == AppendEvent(events, e)
  {
    for i := 0 to |events|
      invariant !EventExists(events[..i], e.resetsAt)
    {
      if events[i].resetsAt == e.resetsAt {
        return events;
      }
    }
    assert events[..|events|] == events;
    var i := |events|;
    while i > 0 && events[i - 1].resetsAt > e.resetsAt
      invariant 0 <= i <= |events|
      invariant forall j :: i <= j < |events| ==> events[j].resetsAt > e.resetsAt
    {
      i := i - 1;
    }
    r := events[..i] + [e] + events[i..];
    InsertEventSplit(events, e, i);
    if |r| > MAX_EVENTS {
      r := r[|r| - MAX_EVENTS..];
    }
  }

  lemma {:induction false} InsertAdjustmentSplit(adjs: seq<Adjustment>, a: Adjustment, i: nat)
    requires i <= |adjs| && forall j :: i <= j < |adjs| ==> adjs[j].detectedAt > a.detectedAt
    ensures InsertAdjustment(adjs, a) == InsertAdjustment(adjs[..i], a) + adjs[i..]
    decreases |adjs|
  {
    if i < |adjs| {
      InsertAdjustmentSplit(adjs[..|adjs| - 1], a, i);
      assert adjs[..|adjs| - 1][..i] == adjs[..i];
      assert adjs[i..] == adjs[..|adjs| - 1][i..] + [adjs[|adjs| - 1]];
    } else {
      assert adjs[..i] == adjs;
    }
  }

  method AddAdjustment(adjs: seq<Adjustment>, a: Adjustment) returns (r: seq<Adjustment>, recorded: bool)
    ensures r == AppendAdjustment(adjs, a) && recorded == Records(adjs, a)
  {
    if !ValidAdjustment(a) {
      return adjs, false;
    }
    for i := 0 to |adjs|
      invariant !AlreadyRecorded(adjs[..i], a)
    {
      if adjs[i].coreRevisionBefore == a.coreRevisionBefore && adjs[i].before == a.before {
        return adjs, false;
      }
    }
    assert adjs[..|adjs|] == adjs;
    var i := |adjs|;
    while i > 0 && adjs[i - 1].detectedAt > a.detectedAt
      invariant 0 <= i <= |adjs|
      invariant forall j :: i <= j < |adjs| ==> adjs[j].detectedAt > a.detectedAt
    {
      i := i - 1;
    }
    r := adjs[..i] + [a] + adjs[i..];
    InsertAdjustmentSplit(adjs, a, i);
    if |r| > MAX_ADJUSTMENTS {
      r := r[|r| - MAX_ADJUSTMENTS..];
    }
    recorded := true;
  }

  /** Dropping or rewriting the adjustments whose reset times differ only by jitter. */
  method Unjitter(adjs: seq<Adjustment>) returns (kept: seq<Adjustment>, changed: bool)
    ensures kept == SanitizeAdjustments(adjs) && (changed <==> kept != adjs)
  {
    kept, changed := [], false;
    for i := 0 to |adjs|
      invariant kept == SanitizeAdjustments(adjs[..i])
      invariant changed <==> exists j :: 0 <= j < i && !HistoryRules.NotJitter(adjs[j])
    {
      var a := adjs[i];
      assert adjs[..i + 1][..i] == adjs[..i];
      if !HasReason(a, ResetTimestampChanged) || !Equivalent(a.before.resetsAt, a.after.resetsAt) {
        kept := kept + [a];
      } else {
        changed := true;
        if a.after.used < a.before.used {
          a := a.(reasons := [UsedPercentDecreased],
                  after := Window(a.before.startedAt, a.before.resetsAt, a.before.firstObservedAt, a.after.used));
          kept := kept + [a];
        }
      }
    }
    assert adjs[..|adjs|] == adjs;
    UnjitterChanges(adjs);
  }

  lemma UnjitterChanges(adjs: seq<Adjustment>)
    ensures SanitizeAdjustments(adjs) != adjs <==> exists j :: 0 <= j < |adjs| && !HistoryRules.NotJitter(adjs[j])
  {
    HistoryReplay.SanitizeRemovesJitter(adjs);
    if forall j :: 0 <= j < |adjs| ==> HistoryRules.NotJitter(adjs[j]) {
      HistoryReplay.SanitizeIdentity(adjs);
    } else {
      var j :| 0 <= j < |adjs| && !HistoryRules.NotJitter(adjs[j]);
      assert adjs[j] in adjs;
    }
  }

  /** Replaying one account's sidecar against the core file's revision. */
  method ReplaySidecar(active: Window, adjs: seq<Adjustment>, coreRevision: nat) returns (r: Replay)
    ensures r == ReplayAll(active, adjs, coreRevision)
  {
    r := Replay(Some(active), active, false);
    for i := 0 to |adjs|
      invariant r == ReplayAll(active, adjs[..i], coreRevision)
    {
      var a := adjs[i];
      assert adjs[..i + 1][..i] == adjs[..i];
      if a.coreRevisionBefore == coreRevision && a.before == r.expected {
        var after: Option<Window> := Some(a.after);
        if HasReason(a, ResetTimestampChanged) && a.after.used == 0 {
          after := None;
        }
        r := Replay(after, a.after, true);
      }
    }
    assert adjs[..|adjs|] == adjs;
  }

  /** The vacant accounts outside `todo` are gone and nothing else changed. */
  ghost predicate WithoutVacant(m: Mem, accounts: map<Key, Account>, adjustments: map<Key, seq<Adjustment>>, todo: set<Key>) {
    && m.accounts.Keys == m.adjustments.Keys && accounts.Keys == adjustments.Keys && accounts.Keys <= m.accounts.Keys
    && (forall k :: k in m.accounts ==> (k in accounts <==> k in todo || !Vacant(m, k)))
    && (forall k :: k in accounts ==> accounts[k] == m.accounts[k] && adjustments[k] == m.adjustments[k])
  }

  lemma StartVacant(m: Mem)
    requires m.accounts.Keys == m.adjustments.Keys
    ensures WithoutVacant(m, m.accounts, m.adjustments, m.accounts.Keys)
  {
    hide Vacant;
  }

  lemma NextVacant(m: Mem, accounts: map<Key, Account>, adjustments: map<Key, seq<Adjustment>>, todo: set<Key>, k: Key)
    requires WithoutVacant(m, accounts, adjustments, todo) && k in todo && k in accounts
    ensures k in adjustments && accounts.Keys <= m.accounts.Keys
    ensures if accounts[k].active.None? && accounts[k].events == [] && adjustments[k] == [] && k !in m.candidates
            then WithoutVacant(m, accounts - {k}, adjustments - {k}, todo - {k})
            else WithoutVacant(m, accounts, adjustments, todo - {k})
  {
    assert Vacant(m, k) <==>
             accounts[k].active.None? && accounts[k].events == [] && adjustments[k] == [] && k !in m.candidates;
    hide Vacant;
  }

  lemma AllVacantGone(m: Mem, accounts: map<Key, Account>, adjustments: map<Key, seq<Adjustment>>)
    requires WithoutVacant(m, accounts, adjustments, {})
    ensures DropVacant(m) == m.(accounts := accounts, adjustments := adjustments)
    ensures accounts.Keys == m.accounts.Keys ==> accounts == m.accounts && adjustments == m.adjustments
    ensures m.candidates.Keys <= m.accounts.Keys ==> m.candidates.Keys <= accounts.Keys
  {
    assert forall k :: k in m.candidates ==> !Vacant(m, k);
    hide Vacant;
  }

  /** Dropping, one by one, the accounts about which nothing is known any more. */
  method DropEmpty(accounts: map<Key, Account>, adjustments: map<Key, seq<Adjustment>>, candidates: map<Key, Candidate>, ghost m: Mem)
    returns (keptAccounts: map<Key, Account>, keptAdjustments: map<Key, seq<Adjustment>>, changed: bool)
    requires m.accounts == accounts && m.adjustments == adjustments && m.candidates == candidates
    requires accounts.Keys == adjustments.Keys && candidates.Keys <= accounts.Keys
    ensures DropVacant(m) == m.(accounts := keptAccounts, adjustments := keptAdjustments)
    ensures keptAccounts.Keys == keptAdjustments.Keys && candidates.Keys <= keptAccounts.Keys
    ensures (changed <==> keptAccounts != accounts) && (changed <==> keptAdjustments != adjustments)
  {
    hide Vacant, WithoutVacant, DropVacant;
    keptAccounts, keptAdjustments, changed := accounts, adjustments, false;
    var todo := accounts.Keys;
    StartVacant(m);
    while todo != {}
      invariant todo <= keptAccounts.Keys && keptAccounts.Keys == keptAdjustments.Keys
      invariant WithoutVacant(m, keptAccounts, keptAdjustments, todo)
      invariant changed <==> keptAccounts.Keys != accounts.Keys
      decreases todo
    {
      var accountKey :| accountKey in todo;
      var account := keptAccounts[accountKey];
      NextVacant(m, keptAccounts, keptAdjustments, todo, accountKey);
      todo := todo - {accountKey};
      if account.active.None? && account.events == [] && keptAdjustments[accountKey] == [] && accountKey !in candidates {
        keptAccounts := keptAccounts - {accountKey};
        keptAdjustments := keptAdjustments - {accountKey};
        changed := true;
      }
    }
    AllVacantGone(m, keptAccounts, keptAdjustments);
  }

  method PruneAccounts(accounts: map<Key, Account>, now: Instant, retention: nat)
    returns (pruned: map<Key, Account>, changed: bool)
    ensures pruned == TrimmedAccounts(accounts, now, retention)
    ensures (changed <==> pruned != accounts) && pruned.Keys == accounts.Keys
  {
    pruned, changed := accounts, false;
    var todo := accounts.Keys;
    while todo != {}
      invariant todo <= accounts.Keys && pruned.Keys == accounts.Keys
      invariant forall k :: k in accounts ==> pruned[k] == if k in todo then accounts[k] else PruneAccount(accounts[k], now, retention)
      invariant changed <==> pruned != accounts
      decreases todo
    {
      var username :| username in todo;
      var account, settled := pruned[username], false;
      if account.active.Some? && Settled(account.active.value.resetsAt, Unix(now)) {
        var events := AddEvent(account.events, Completed(account.active.value, now));
        account, settled := Account(None, events), true;
      }
      var kept, dropped := FilterEvents(account.events, Unix(now - retention));
      account := account.(events := kept);
      todo := todo - {username};
      changed := changed || settled || dropped;
      pruned := pruned[username := account];
      assert pruned[username] == PruneAccount(accounts[username], now, retention);
    }
  }

  method PruneAdjustments(adjustments: map<Key, seq<Adjustment>>, cutoff: Instant)
    returns (pruned: map<Key, seq<Adjustment>>, changed: bool)
    ensures pruned == TrimmedAdjustments(adjustments, cutoff)
    ensures (changed <==> pruned != adjustments) && pruned.Keys == adjustments.Keys
  {
    pruned, changed := adjustments, false;
    var todo := adjustments.Keys;
    while todo != {}
      invariant todo <= adjustments.Keys && pruned.Keys == adjustments.Keys
      invariant forall k :: k in adjustments ==> pruned[k] == if k in todo then adjustments[k] else KeepAdjustments(adjustments[k], cutoff)
      invariant changed <==> pruned != adjustments
      decreases todo
    {
      var username :| username in todo;
      var kept, dropped := FilterAdjustments(pruned[username], cutoff);
      todo := todo - {username};
      changed := changed || dropped;
      pruned := pruned[username := kept];
      assert pruned[username] == KeepAdjustments(adjustments[username], cutoff);
    }
  }

  method PruneCandidates(candidates: map<Key, Candidate>, now: Instant, retention: nat) returns (pruned: map<Key, Candidate>)
    ensures pruned == TrimmedCandidates(candidates, now, retention)
    ensures pruned.Keys <= candidates.Keys
  {
    pruned := candidates;
    var todo := candidates.Keys;
    while todo != {}
      invariant todo <= pruned.Keys <= candidates.Keys
      invariant forall k :: k in candidates ==> (k in pruned <==> k in todo || !CandidateExpired(candidates[k], now, retention))
      invariant forall k :: k in pruned ==> pruned[k] == candidates[k]
      decreases todo
    {
      var accountKey :| accountKey in todo;
      todo := todo - {accountKey};
      if CandidateExpired(pruned[accountKey], now, retention) {
        pruned := pruned - {accountKey};
      }
    }
  }

  /** Dropping a vacant account changes both maps, so the flags of pruning still tell what changed. */
  lemma EmptiedChanges(m: Mem, now: Instant, retention: nat)
    requires m.accounts.Keys == m.adjustments.Keys
    ensures var trimmed, pruned := Trimmed(m, now, retention), Prune(m, now, retention).mem;
            && pruned == DropVacant(trimmed)
            && Prune(m, now, retention).history == (trimmed.accounts != m.accounts || pruned.accounts != trimmed.accounts)
            && Prune(m, now, retention).adjustments == (trimmed.adjustments != m.adjustments || pruned.accounts != trimmed.accounts)
  {
    hide Vacant;
    var trimmed, pruned := Trimmed(m, now, retention), Prune(m, now, retention).mem;
    var vacant := set k | k in trimmed.accounts && Vacant(trimmed, k);
    if vacant == {} {
      assert pruned.accounts == trimmed.accounts && pruned.adjustments == trimmed.adjustments;
    } else {
      var k :| k in vacant;
      assert k !in pruned.accounts && k !in pruned.adjustments && k in m.accounts && k in m.adjustments;
    }
  }

  // ----- one report, on the copy of one account -----

  method ProposeWindow(receivedAt: Instant, window: Usage) returns (proposed: Option<Window>)
    ensures proposed == Proposed(receivedAt, window)
  {
    if window.durationMins != Some(WEEK_MINUTES) || window.resetsAt.None? {
      return None;
    }
    var resetAt := window.resetsAt.value;
    if resetAt <= Unix(receivedAt) || resetAt > Unix(receivedAt + ACCEPT_HORIZON) {
      return None;
    }
    var w := Window(resetAt - WEEK_SECONDS, resetAt, receivedAt, window.usedPercent);
    if !ValidWindow(w) {
      return None;
    }
    proposed := Some(w);
  }

  method ObserveInto(s: Slot, coreRevision: nat, receivedAt: Instant, proposed: Window)
    returns (r: Slot, changed: bool, adjusted: bool)
    ensures Outcome(r, changed, adjusted) == ObserveSlot(s, coreRevision, receivedAt, proposed)
  {
    hide AppendAdjustment, AppendEvent, Records;
    r, changed, adjusted := s, false, false;
    var used := proposed.used;
    if s.active.Some? {
      var active := s.active.value;
      if Equivalent(active.resetsAt, proposed.resetsAt) {
        r := r.(cand := None);
        if used < active.used {
          var after := active.(used := used);
          var adjs, recorded := AddAdjustment(r.adjs, Adjustment(receivedAt, [UsedPercentDecreased], active, after, coreRevision));
          r, adjusted := r.(adjs := adjs), recorded;
        }
        if active.used != used {
          r, changed := r.(active := Some(active.(used := used))), true;
        }
        return;
      } else if MeaningfullyBefore(active.resetsAt, Unix(receivedAt)) {
        var reasons := [ResetTimestampChanged];
        if used < active.used {
          reasons := reasons + [UsedPercentDecreased];
        }
        var adjs, recorded := AddAdjustment(r.adjs, Adjustment(receivedAt, reasons, active, proposed, coreRevision));
        assert reasons == ResetMove(receivedAt, active, proposed, coreRevision).reasons;
        r := r.(active := None, adjs := adjs, cand := None);
        changed, adjusted := true, recorded;
      } else {
        var events := AddEvent(r.events, Completed(active, receivedAt));
        r, changed := r.(active := None, events := events), true;
      }
    }
    if used > 0 {
      r, changed := r.(active := Some(proposed), cand := None), true;
      return;
    }
    if r.cand.None? || r.cand.value.window.resetsAt != proposed.resetsAt {
      r := r.(cand := Some(Candidate(proposed, receivedAt, receivedAt, 1)));
      return;
    }
    var current := r.cand.value;
    current := current.(lastSeenAt := receivedAt, observations := current.observations + 1);
    r := r.(cand := Some(current));
    if current.observations >= 2 && current.lastSeenAt - current.firstSeenAt >= STABLE_AFTER {
      r, changed := r.(active := Some(current.window.(firstObservedAt := current.firstSeenAt)), cand := None), true;
    }
  }

  method RebaselineInto(s: Slot, coreRevision: nat, receivedAt: Instant, proposed: Window)
    returns (r: Slot, changed: bool, adjusted: bool)
    ensures Outcome(r, changed, adjusted) == RebaselineSlot(s, coreRevision, receivedAt, proposed)
  {
    hide ObserveSlot;
    r, changed, adjusted := s, false, false;
    if s.active.Some? && Equivalent(s.active.value.resetsAt, proposed.resetsAt) {
      changed := s.active.value.used != proposed.used;
      r := r.(active := Some(s.active.value.(used := proposed.used)), cand := None);
      return;
    }
    if s.active.Some? {
      var active := s.active.value;
      var boundaryRollover := !MeaningfullyBefore(active.resetsAt, Unix(receivedAt));
      var inferredEarly := proposed.used < active.used &&
        PlausibleTransition(active.firstObservedAt, proposed.startedAt, receivedAt);
      if boundaryRollover || inferredEarly {
        r, changed, adjusted := ObserveInto(s, coreRevision, receivedAt, proposed);
        return;
      }
    }
    changed := s.active.Some?;
    r := r.(active := None, cand := None);
    if proposed.used > 0 {
      r, changed := r.(active := Some(proposed)), true;
    } else {
      r := r.(cand := Some(Candidate(proposed, receivedAt, receivedAt, 1)));
    }
  }

  method ReconcileAccounts(accounts: map<Key, Account>, adjustments: map<Key, seq<Adjustment>>, coreRevision: nat, ghost m: Mem)
    returns (replayed: map<Key, Account>, changed: bool)
    requires m.accounts == accounts && m.adjustments == adjustments && m.coreRevision == coreRevision
    requires accounts.Keys == adjustments.Keys
    ensures replayed == map k | k in accounts :: ReplayAccount(accounts[k], SlotOf(m, k).adjs, coreRevision)
    ensures changed <==> exists k :: k in accounts && Replays(m, k)
  {
    hide ReplayAll;
    replayed, changed := accounts, false;
    var todo := accounts.Keys;
    while todo != {}
      invariant todo <= accounts.Keys == replayed.Keys
      invariant forall k :: k in accounts ==>
                  replayed[k] == if k in todo then accounts[k] else ReplayAccount(accounts[k], adjustments[k], coreRevision)
      invariant changed <==> exists k :: k in accounts && k !in todo && Replays(m, k)
      decreases todo
    {
      var username :| username in todo;
      todo := todo - {username};
      var account := replayed[username];
      if account.active.Some? {
        var r := ReplaySidecar(account.active.value, adjustments[username], coreRevision);
        replayed := replayed[username := account.(active := r.active)];
        changed := changed || r.changed;
      }
      assert Replays(m, username) ==> changed;
    }
  }

  lemma LoadedFields(disk: Disk, now: Instant)
    ensures var m := Load(disk, now);
            var core := if disk.core.Some? then disk.core.value.accounts else map[];
            var side := if disk.side.Some? then disk.side.value.accounts else map[];
            var fromCore := if disk.core.Some? then disk.core.value.revision else 0;
            && m.mem.accounts == (map k | k in core.Keys + side.Keys :: if k in core then core[k] else Account(None, []))
            && m.mem.adjustments == (map k | k in core.Keys + side.Keys :: if k in side then side[k] else [])
            && m.history == (disk.core.None? || (disk.side.Some? && !(side.Keys <= core.Keys)))
            && m.adjustments == (disk.side.None? || !(core.Keys <= side.Keys))
            && m.mem.accounts.Keys == m.mem.adjustments.Keys
            && m.mem.coreRevision == fromCore
            && m.mem.revision == (if disk.side.Some? && disk.side.value.revision > fromCore then disk.side.value.revision else fromCore)
  {
  }

  /** Recovery in stages, with the flag each stage contributes. */
  lemma RecoveredStages(disk: Disk, now: Instant, retention: nat)
    ensures var l := Load(disk, now);
            var s := Sanitize(l.mem);
            var r := Reconcile(s.mem);
            var p := Prune(r.mem, now, retention);
            Recovered(disk, now, retention) ==
              Change(p.mem, l.history || r.history || p.history, l.adjustments || s.adjustments || p.adjustments)
  {
    hide Load, Prune;
  }

  lemma NoCandidatesYet(disk: Disk, now: Instant)
    ensures Sanitize(Load(disk, now).mem).mem.candidates == map[]
  {
    hide SanitizeAdjustments;
  }

  class Tracker {
    const path: string
    const retention: nat
    var order: seq<Key>
    var accounts: map<Key, Account>
    var adjustments: map<Key, seq<Adjustment>>
    var candidates: map<Key, Candidate>
    var revision: nat
    var coreRevision: nat
    var trackingSince: Instant
    var adjustmentsTrackingSince: Instant
    var dirty: bool
    var adjustmentsDirty: bool
    var degraded: bool
    /** The contents of the core file and the sidecar. */
    var files: Disk

    ghost function Memory(): Mem
      reads this
    {
      Mem(accounts, adjustments, candidates, revision, coreRevision, trackingSince, adjustmentsTrackingSince,
          dirty, adjustmentsDirty, degraded)
    }

    ghost predicate Valid()
      reads this
    {
      && accounts.Keys == adjustments.Keys && candidates.Keys <= accounts.Keys
      && OrderOf(order, accounts.Keys)
    }

    method PruneEmptyAccounts() returns (changed: bool)
      requires accounts.Keys == adjustments.Keys && candidates.Keys <= accounts.Keys && OrderOf(order, accounts.Keys)
      modifies `accounts, `adjustments, `order
      ensures Valid() && Memory() == DropVacant(old(Memory()))
      ensures changed <==> accounts != old(accounts)
      ensures changed <==> adjustments != old(adjustments)
    {
      hide OrderOf, DropVacant;
      accounts, adjustments, changed := DropEmpty(accounts, adjustments, candidates, Memory());
      if !changed {
        return;
      }
      order := SortKeys(accounts.Keys);
    }

    /** Completing settled windows, expiring old records and dropping emptied accounts. */
    method PruneLocked(now: Instant) returns (historyChanged: bool, adjustmentsChanged: bool)
      requires Valid()
      modifies `accounts, `adjustments, `candidates, `order
      ensures Valid() && Memory() == Prune(old(Memory()), now, retention).mem
      ensures historyChanged == Prune(old(Memory()), now, retention).history
      ensures adjustmentsChanged == Prune(old(Memory()), now, retention).adjustments
    {
      hide OrderOf, DropVacant, Prune, TrimmedAccounts, TrimmedAdjustments, TrimmedCandidates;
      ghost var m := Memory();
      accounts, historyChanged := PruneAccounts(accounts, now, retention);
      adjustments, adjustmentsChanged := PruneAdjustments(adjustments, now - retention);
      candidates := PruneCandidates(candidates, now, retention);
      assert Memory() == Trimmed(m, now, retention);
      hide Trimmed;
      assert accounts.Keys == m.accounts.Keys;
      var emptied := PruneEmptyAccounts();
      if emptied {
        historyChanged, adjustmentsChanged := true, true;
      }
      EmptiedChanges(m, now, retention);
    }

    method EnsureAccount(accountKey: Key) returns (added: bool)
      requires Valid()
      modifies `accounts, `adjustments, `order
      ensures Valid() && Memory() == Ensure(old(Memory()), accountKey).mem
      ensures added == Ensure(old(Memory()), accountKey).history == Ensure(old(Memory()), accountKey).adjustments
    {
      if !ValidKey(accountKey) || accountKey in accounts || |accounts| >= MAX_ACCOUNTS {
        return false;
      }
      accounts := accounts[accountKey := Account(None, [])];
      adjustments := adjustments[accountKey := []];
      order := InsertKey(order, accountKey);
      added := true;
    }

    /** The copy of one account that a report works on. */
    method CurrentSlot(username: Key) returns (s: Slot)
      requires Valid() && username in accounts
      ensures s == SlotOf(Memory(), username)
    {
      var candidate: Option<Candidate> := None;
      if username in candidates {
        candidate := Some(candidates[username]);
      }
      s := Slot(accounts[username].active, accounts[username].events, adjustments[username], candidate);
    }

    method StoreSlot(username: Key, s: Slot)
      requires Valid() && username in accounts
      modifies `accounts, `adjustments, `candidates
      ensures Valid() && Memory() == WithSlot(old(Memory()), username, s)
    {
      hide OrderOf;
      accounts := accounts[username := Account(s.active, s.events)];
      adjustments := adjustments[username := s.adjs];
      if s.cand.Some? {
        candidates := candidates[username := s.cand.value];
      } else {
        candidates := candidates - {username};
      }
      assert accounts.Keys == old(accounts.Keys) && adjustments.Keys == old(adjustments.Keys);
    }

    method ObserveWindow(username: Key, receivedAt: Instant, window: Usage) returns (changed: bool, adjusted: bool)
      requires Valid()
      modifies `accounts, `adjustments, `candidates
      ensures Valid()
      ensures var out := ReportWindow(old(Memory()), username, receivedAt, window, false);
              Memory() == out.mem && changed == out.history && adjusted == out.adjustments
    {
      hide OrderOf, ObserveSlot, WithSlot, SlotOf;
      if username !in accounts {
        return false, false;
      }
      var proposed := ProposeWindow(receivedAt, window);
      if proposed.None? {
        return false, false;
      }
      var s := CurrentSlot(username);
      s, changed, adjusted := ObserveInto(s, coreRevision, receivedAt, proposed.value);
      StoreSlot(username, s);
    }

    method RebaselineWindow(username: Key, receivedAt: Instant, window: Usage) returns (changed: bool, adjusted: bool)
      requires Valid()
      modifies `accounts, `adjustments, `candidates
      ensures Valid()
      ensures var out := ReportWindow(old(Memory()), username, receivedAt, window, true);
              Memory() == out.mem && changed == out.history && adjusted == out.adjustments
    {
      hide OrderOf, ObserveSlot, RebaselineSlot, WithSlot, SlotOf;
      if username !in accounts {
        return false, false;
      }
      var proposed := ProposeWindow(receivedAt, window);
      if proposed.None? {
        return false, false;
      }
      var s := CurrentSlot(username);
      s, changed, adjusted := RebaselineInto(s, coreRevision, receivedAt, proposed.value);
      StoreSlot(username, s);
    }

    // ----- writing the files -----

    method PersistHistory(writes: bool) returns (ok: bool)
      requires Valid()
      modifies `files, `coreRevision, `dirty
      ensures var done := PersistCore(old(Memory()).(dirty := true), old(files), writes);
              ok == done.ok && files == done.disk
              && Memory() == if ok then done.mem else old(Memory())
    {
      hide ValidCore;
      var state := CoreFile(revision, trackingSince, accounts);
      if !ValidCore(state) || !writes {
        return false;
      }
      files := files.(core := Some(state));
      coreRevision := revision;
      dirty := false;
      ok := true;
    }

    method PersistAdjustments(writes: bool) returns (ok: bool)
      requires Valid()
      modifies `files, `adjustmentsDirty
      ensures var done := PersistSide(old(Memory()).(adjustmentsDirty := true), old(files), writes);
              ok == done.ok && files == done.disk
              && Memory() == if ok then done.mem else old(Memory())
    {
      hide ValidSide;
      var state := SideFile(revision, adjustmentsTrackingSince, adjustments);
      if !ValidSide(state) || !writes {
        return false;
      }
      files := files.(side := Some(state));
      adjustmentsDirty := false;
      ok := true;
    }

    /** The sidecar goes first. */
    method PersistDirty(sideWrites: bool, coreWrites: bool) returns (ok: bool)
      requires Valid()
      modifies `files, `coreRevision, `dirty, `adjustmentsDirty
      ensures Valid()
      ensures var done := Persist(old(Memory()), old(files), sideWrites, coreWrites);
              Memory() == done.mem && files == done.disk && ok == done.ok
    {
      hide ValidSide, ValidCore, OrderOf;
      if adjustmentsDirty {
        ok := PersistAdjustments(sideWrites);
        if !ok {
          return;
        }
      }
      if dirty {
        ok := PersistHistory(coreWrites);
        if !ok {
          return;
        }
      }
      ok := true;
    }

    method MarkChanges(historyChanged: bool, adjustmentsChanged: bool)
      requires Valid()
      modifies `revision, `dirty, `adjustmentsDirty
      ensures Valid() && Memory() == Marked(Change(old(Memory()), historyChanged, adjustmentsChanged))
    {
      hide OrderOf;
      if historyChanged || adjustmentsChanged {
        revision := revision + 1;
        dirty := dirty || historyChanged;
        adjustmentsDirty := adjustmentsDirty || adjustmentsChanged;
      }
    }

    method CommitChanges(historyChanged: bool, adjustmentsChanged: bool, sideWrites: bool, coreWrites: bool)
      requires Valid()
      modifies `files, `revision, `coreRevision, `dirty, `adjustmentsDirty, `degraded
      ensures Valid()
      ensures var done := CommitAt(path, Change(old(Memory()), historyChanged, adjustmentsChanged), old(files), sideWrites, coreWrites);
              Memory() == done.mem && files == done.disk
    {
      hide OrderOf, Persist, Marked;
      MarkChanges(historyChanged, adjustmentsChanged);
      if !dirty && !adjustmentsDirty {
        return;
      }
      if path == "" {
        if dirty { coreRevision := revision; }
        dirty, adjustmentsDirty, degraded := false, false, false;
        return;
      }
      var ok := PersistDirty(sideWrites, coreWrites);
      degraded := !ok;
    }

    /** Observe and Rebaseline: prune, admit the account, apply the report, commit. */
    method ApplySnapshot(snapshot: Report, rebaseline: bool, now: Instant, sideWrites: bool, coreWrites: bool)
      requires Valid()
      modifies this
      ensures Valid()
      ensures var done := CommitAt(path, Deliver(old(Memory()), now, retention, snapshot, rebaseline), old(files), sideWrites, coreWrites);
              Memory() == done.mem && files == done.disk
    {
      hide OrderOf, Prune, Ensure, ReportWindow, CommitAt;
      var historyChanged, adjustmentsChanged := PruneLocked(now);
      if snapshot.account.Some? {
        var added := EnsureAccount(snapshot.account.value);
        if added {
          historyChanged, adjustmentsChanged := true, true;
        }
        if snapshot.usage.Some? {
          var windowChanged, adjustmentChanged;
          if rebaseline {
            windowChanged, adjustmentChanged := RebaselineWindow(snapshot.account.value, now, snapshot.usage.value);
          } else {
            windowChanged, adjustmentChanged := ObserveWindow(snapshot.account.value, now, snapshot.usage.value);
          }
          historyChanged := historyChanged || windowChanged;
          adjustmentsChanged := adjustmentsChanged || adjustmentChanged;
        }
      }
      CommitChanges(historyChanged, adjustmentsChanged, sideWrites, coreWrites);
    }

    /** The public view: pruned, committed, one entry per account in key order. */
    method Snapshot(now: Instant, sideWrites: bool, coreWrites: bool) returns (response: seq<AccountView>)
      requires Valid()
      modifies this
      ensures Valid()
      ensures var done := CommitAt(path, Deliver(old(Memory()), now, retention, Report(None, None), false), old(files), sideWrites, coreWrites);
              Memory() == done.mem && files == done.disk
      ensures |response| == |order|
      ensures forall i :: 0 <= i < |order| ==>
                order[i] in accounts && order[i] in adjustments &&
                var a, adjs := accounts[order[i]], adjustments[order[i]];
                response[i] == AccountView(order[i], a.active, a.events, adjs, HistoryPoints.ResetPoints(a.events, adjs))
    {
      hide OrderOf, Prune, CommitAt;
      var historyChanged, adjustmentsChanged := PruneLocked(now);
      CommitChanges(historyChanged, adjustmentsChanged, sideWrites, coreWrites);
      response := [];
      assert forall i :: 0 <= i < |order| ==> order[i] in order;
      OrderedIn(order, accounts.Keys);
      for i := 0 to |order|
        invariant |response| == i && forall j :: 0 <= j < i ==> response[j] == ViewOf(Memory(), order[j])
        modifies {}
      {
        var stored := accounts[order[i]];
        var points := HistoryPoints.PublicResetPoints(stored.events, adjustments[order[i]]);
        response := response + [AccountView(order[i], stored.active, stored.events, adjustments[order[i]], points)];
      }
    }

    // ----- opening -----

    method SanitizeAdjustmentJitter() returns (changed: bool)
      requires Valid()
      modifies `adjustments
      ensures Valid()
      ensures Memory() == Sanitize(old(Memory())).mem && changed == Sanitize(old(Memory())).adjustments
    {
      hide OrderOf, SanitizeAdjustments;
      changed := false;
      ghost var before := adjustments;
      var todo := adjustments.Keys;
      while todo != {}
        invariant todo <= adjustments.Keys == before.Keys
        invariant forall k :: k in before ==> adjustments[k] == if k in todo then before[k] else SanitizeAdjustments(before[k])
        invariant changed <==> adjustments != before
        decreases todo
      {
        var username :| username in todo;
        var kept, rewritten := Unjitter(adjustments[username]);
        todo := todo - {username};
        changed := changed || rewritten;
        adjustments := adjustments[username := kept];
        assert adjustments[username] == SanitizeAdjustments(before[username]);
      }
    }

    method ReconcileSidecar() returns (changed: bool)
      requires Valid() && candidates == map[]
      modifies `accounts
      ensures Valid()
      ensures Memory() == Reconcile(old(Memory())).mem && changed == Reconcile(old(Memory())).history
    {
      hide OrderOf;
      ghost var m := Memory();
      accounts, changed := ReconcileAccounts(accounts, adjustments, coreRevision, m);
      assert candidates == m.candidates - (set k | k in m.accounts && Replays(m, k));
      assert accounts.Keys == m.accounts.Keys;
    }

    /** A tracker that keeps its history in memory only. */
    constructor InMemory(disk: Disk, keep: nat, now: Instant)
      ensures path == "" && retention == keep && files == disk && Valid() && Memory() == FreshMemory(now)
    {
      path, retention, files := "", keep, disk;
      order, accounts, adjustments, candidates := [], map[], map[], map[];
      revision, coreRevision, trackingSince, adjustmentsTrackingSince := 1, 1, now, now;
      dirty, adjustmentsDirty, degraded := false, false, false;
    }

    /** The fields as the two files give them, before any repair. */
    constructor Loading(at: string, disk: Disk, keep: nat, now: Instant)
      ensures path == at && retention == keep && files == disk && Valid() && Memory() == Load(disk, now).mem
    {
      hide LexLess;
      path, retention := at, keep;
      files := disk;
      candidates := map[];
      dirty, adjustmentsDirty, degraded := false, false, false;
      var core := if disk.core.Some? then disk.core.value.accounts else map[];
      var side := if disk.side.Some? then disk.side.value.accounts else map[];
      var fromCore := if disk.core.Some? then disk.core.value.revision else 0;
      accounts := map k | k in core.Keys + side.Keys :: if k in core then core[k] else Account(None, []);
      adjustments := map k | k in core.Keys + side.Keys :: if k in side then side[k] else [];
      coreRevision := fromCore;
      revision := if disk.side.Some? && disk.side.value.revision > fromCore then disk.side.value.revision else fromCore;
      trackingSince := if disk.core.Some? then disk.core.value.trackingSince else now;
      adjustmentsTrackingSince := if disk.side.Some? then disk.side.value.trackingSince else now;
      order := [];
      new;
      order := SortKeys(accounts.Keys);
      LoadedFields(disk, now);
    }

    /** Repairing, replaying and pruning what was just loaded. */
    method Recover(ghost disk: Disk, now: Instant, loadedHistory: bool, loadedAdjustments: bool)
      returns (historyChanged: bool, adjustmentsChanged: bool)
      requires Valid() && Change(Memory(), loadedHistory, loadedAdjustments) == Load(disk, now)
      modifies `accounts, `adjustments, `candidates, `order
      ensures Valid() && Change(Memory(), historyChanged, adjustmentsChanged) == Recovered(disk, now, retention)
    {
      hide OrderOf, Load, Sanitize, Reconcile, Prune, Recovered;
      var sanitized := SanitizeAdjustmentJitter();
      NoCandidatesYet(disk, now);
      var replayed := ReconcileSidecar();
      var historyPruned, adjustmentsPruned := PruneLocked(now);
      historyChanged := loadedHistory || replayed || historyPruned;
      adjustmentsChanged := loadedAdjustments || sanitized || adjustmentsPruned;
      RecoveredStages(disk, now, retention);
    }

    /** Loading, recovering, and writing back whatever that changed. */
    static method Open(path: string, disk: Disk, keep: nat, now: Instant, sideWrites: bool, coreWrites: bool)
      returns (tracker: Tracker?, after: Disk)
      ensures var o := HistoryCommit.OpenAt(path, disk, now, keep, sideWrites, coreWrites);
              && after == o.disk && (tracker == null <==> o.tracker.None?)
              && (tracker != null ==>
                    (fresh(tracker) && tracker.Valid() && tracker.path == path && tracker.retention == keep
                     && tracker.files == after && tracker.Memory() == o.tracker.value))
    {
      hide ValidCore, ValidSide, OrderOf, Load, Persist, Recovered;
      if keep < MIN_RETENTION || keep > MAX_RETENTION {
        return null, disk;
      }
      if path == "" {
        tracker := new Tracker.InMemory(disk, keep, now);
        return tracker, disk;
      }
      if path[0] != '/' {
        return null, disk;
      }
      if disk.core.Some? && !ValidCore(disk.core.value) {
        return null, disk;
      }
      if disk.side.Some? && !ValidSide(disk.side.value) {
        return null, disk;
      }
      var t := new Tracker.Loading(path, disk, keep, now);
      var historyChanged, adjustmentsChanged := LoadedFlags(disk, now);
      historyChanged, adjustmentsChanged := t.Recover(disk, now, historyChanged, adjustmentsChanged);
      if historyChanged || adjustmentsChanged {
        var ok := t.Compact(historyChanged, adjustmentsChanged, sideWrites, coreWrites);
        if !ok {
          return null, t.files;
        }
      }
      tracker, after := t, t.files;
    }

    method Compact(historyChanged: bool, adjustmentsChanged: bool, sideWrites: bool, coreWrites: bool) returns (ok: bool)
      requires Valid()
      modifies `files, `revision, `coreRevision, `dirty, `adjustmentsDirty
      ensures Valid()
      ensures var m := old(Memory());
              var done := Persist(m.(revision := m.revision + 1, dirty := historyChanged, adjustmentsDirty := adjustmentsChanged),
                                  old(files), sideWrites, coreWrites);
              Memory() == done.mem && files == done.disk && ok == done.ok
    {
      hide OrderOf, Persist;
      revision := revision + 1;
      dirty := historyChanged;
      adjustmentsDirty := adjustmentsChanged;
      ok := PersistDirty(sideWrites, coreWrites);
    }
  }

  /** A missing file, or an account that only the other file names, has to be written out. */
  method LoadedFlags(disk: Disk, ghost now: Instant) returns (historyChanged: bool, adjustmentsChanged: bool)
    ensures historyChanged == Load(disk, now).history && adjustmentsChanged == Load(disk, now).adjustments
  {
    var core := if disk.core.Some? then disk.core.value.accounts.Keys else {};
    historyChanged, adjustmentsChanged := disk.core.None?, disk.side.None?;
    if disk.side.Some? {
      var side := disk.side.value.accounts.Keys;
      historyChanged := historyChanged || !(side <= core);
      adjustmentsChanged := !(core <= side);
    }
    LoadedFields(disk, now);
    hide Load;
  }

  datatype AccountView = AccountView(accountKey: Key, active: Option<Window>, events: seq<Event>,
                                     adjustments: seq<Adjustment>, resetPoints: seq<HistoryPoints.Point>)

  function ViewOf(m: Mem, k: Key): AccountView {
    var s := SlotOf(m, k);
    AccountView(k, s.active, s.events, s.adjs, HistoryPoints.ResetPoints(s.events, s.adjs))
  }

  lemma OrderedIn(order: seq<Key>, keys: set<Key>)
    requires OrderOf(order, keys)
    ensures forall i :: 0 <= i < |order| ==> order[i] in keys
  {
  }
}
