/** One report and one account in plain numbers: what is shown afterwards and what is on record. */
module HistoryNumbers {
  import opened Common
  import opened HistoryModel
  import opened HistoryRules
  import opened HistoryCommit
  import opened HistoryRecovery
  import opened HistoryDelivery
  import HistorySystem

  predicate Near(a: int, b: int) {
    -120 <= a - b <= 120
  }

  // ----- what is shown -----

  /** The window a report leaves anchored: the anchored week with the new usage when the reset is within two
      minutes of it; else the reported week if it was used; an unused one only when a candidate has waited. */
  function AnchorAfter(s: Slot, rebaseline: bool, now: Instant, retention: nat, p: Window): Option<Window> {
    if s.active.Some? && Near(s.active.value.resetsAt, p.resetsAt) then Some(s.active.value.(used := p.used))
    else if p.used > 0 then Some(p)
    else if Waiting(s, rebaseline, now, retention, p) && now - s.cand.value.firstSeenAt >= NINETY_SECONDS
    then Some(s.cand.value.window.(firstObservedAt := s.cand.value.firstSeenAt))
    else None
  }

  /** An observation continues a candidate with the same reset, seen within the retention period. */
  predicate Waiting(s: Slot, rebaseline: bool, now: Instant, retention: nat, p: Window) {
    !rebaseline && s.cand.Some? && s.cand.value.window.resetsAt == p.resetsAt && s.cand.value.lastSeenAt >= now - retention
  }

  function CandidateAfter(s: Slot, rebaseline: bool, now: Instant, retention: nat, p: Window): Option<Candidate> {
    if AnchorAfter(s, rebaseline, now, retention, p).Some? then None
    else if Waiting(s, rebaseline, now, retention, p)
    then Some(Candidate(s.cand.value.window, s.cand.value.firstSeenAt, now, s.cand.value.observations + 1))
    else Some(Candidate(p, now, now, 1))
  }

  lemma ReportShows(s: Slot, coreRevision: nat, t: Instant, now: Instant, retention: nat, p: Window, rebaseline: bool)
    requires SlotInv(s, coreRevision, t) && p.used >= 0 && Unix(now) < p.resetsAt
    ensures var out := ReportSlot(PruneSlot(s, now, retention), coreRevision, now, p, rebaseline).slot;
            && out.active == AnchorAfter(s, rebaseline, now, retention, p)
            && out.cand == CandidateAfter(s, rebaseline, now, retention, p)
  {
    hide AppendAdjustment, AppendEvent, KeepEvents, KeepAdjustments, ValidWindow, EventsInv, AdjustmentsInv, PlausibleTransition;
  }

  /** What a tracker shows of an account after an accepted report about it, in terms of what it knew before. */
  lemma DeliveredShown(m: Mem, t: Instant, now: Instant, retention: nat, r: Report, rebaseline: bool, k: Key)
    requires MemInv(m, t) && t <= now && HasRoom(m, k)
    requires r.account == Some(k) && r.usage.Some? && Acceptable(now, r.usage.value)
    ensures var s, u, post := SlotOf(m, k), r.usage.value, SlotOf(Deliver(m, now, retention, r, rebaseline).mem, k);
            var p := Window(u.resetsAt.value - 604800, u.resetsAt.value, now, u.usedPercent);
            && post.active == AnchorAfter(s, rebaseline, now, retention, p)
            && post.cand == CandidateAfter(s, rebaseline, now, retention, p)
  {
    hide Deliver, SlotOf, SlotsInv, Proposed, PruneSlot, ReportSlot, Admitted, AnchorAfter, CandidateAfter;
    var u := r.usage.value;
    var p := Window(u.resetsAt.value - 604800, u.resetsAt.value, now, u.usedPercent);
    MemKeys(m, t);
    AcceptedIff(now, u);
    RoomAdmits(m, t, now, retention, r, k);
    DeliverSlots(m, now, retention, r, rebaseline, k);
    AnySlot(m, t, k);
    ReportShows(SlotOf(m, k), m.coreRevision, t, now, retention, p, rebaseline);
  }

  lemma AnySlot(m: Mem, t: Instant, k: Key)
    requires MemInv(m, t)
    ensures SlotInv(SlotOf(m, k), m.coreRevision, t)
  {
    MemKeys(m, t);
    if k in m.accounts {
      SlotsFacts(m, t, k);
    } else {
      SlotOfAbsent(m, k);
    }
  }

  // ----- which events are on record -----

  /** The event a delivery at `now`, of the window `p` if its report reaches the account, completes: the anchored
      week, once its reset is two minutes past, or when another week is reported at most two minutes before. */
  function Completing(s: Slot, p: Option<Window>, now: Instant): Option<Event> {
    if s.active.None? then None
    else
      var a := s.active.value;
      if Unix(now) >= a.resetsAt + 120 || (p.Some? && !Near(a.resetsAt, p.value.resetsAt) && Unix(now) >= a.resetsAt - 120)
      then Some(Event(a.startedAt, a.resetsAt, now, a.used)) else None
  }

  /** The events to keep: those there were and the completed one, unless its reset is on record, from the cutoff on. */
  predicate Due(s: Slot, completed: Option<Event>, cutoff: int, e: Event) {
    && (e in s.events || (completed == Some(e) && forall x :: x in s.events ==> x.resetsAt != e.resetsAt))
    && e.resetsAt >= cutoff
  }

  /** The list has every event that is due, or, when full, the latest 1024 of them; and nothing else. */
  ghost predicate KeepsDue(s: Slot, completed: Option<Event>, cutoff: int, events: seq<Event>) {
    && Increasing(events) && (forall e :: e in events ==> Due(s, completed, cutoff, e))
    && forall e :: Due(s, completed, cutoff, e) && e !in events ==> |events| == 1024 && forall x :: x in events ==> e.resetsAt < x.resetsAt
  }

  lemma AppendedMembers(events: seq<Event>, e: Event, t: Instant)
    requires EventsInv(events, t) && ValidEvent(e) && e.detectedAt <= t
    ensures var r, added := AppendEvent(events, e), forall x :: x in events ==> x.resetsAt != e.resetsAt;
            && Increasing(r) && (forall x :: x in r ==> x in events || (x == e && added))
            && forall x :: (x in events || (x == e && added)) && x !in r ==> |r| == 1024 && forall y :: y in r ==> x.resetsAt < y.resetsAt
  {
    hide ValidEvent, InsertEvent;
    assert EventExists(events, e.resetsAt) <==> exists x :: x in events && x.resetsAt == e.resetsAt by {
      if EventExists(events, e.resetsAt) { var i :| 0 <= i < |events| && events[i].resetsAt == e.resetsAt; assert events[i] in events; }
      if x :| x in events && x.resetsAt == e.resetsAt { EventIn(events, x); }
    }
    AppendEventKeeps(events, e, t);
    if !EventExists(events, e.resetsAt) {
      InsertEventKeeps(events, e, t);
      var all := InsertEvent(events, e);
      NewestMembers(all);
    }
  }

  lemma EventsTail(all: seq<Event>, cut: nat)
    requires cut <= |all|
    ensures forall i :: cut <= i < |all| ==> all[i] in all[cut..]
  {
    forall i | cut <= i < |all| ensures all[i] in all[cut..] { assert all[cut..][i - cut] == all[i]; }
  }

  /** What the cap drops is older than all it keeps. */
  lemma NewestMembers(all: seq<Event>)
    requires Increasing(all)
    ensures var r := Newest(all, MAX_EVENTS);
            forall x :: x in all && x !in r ==> |r| == 1024 && forall y :: y in r ==> x.resetsAt < y.resetsAt
  {
    var r := Newest(all, MAX_EVENTS);
    forall x, y | x in all && x !in r && y in r ensures x.resetsAt < y.resetsAt {
      var cut := |all| - |r|;
      var i :| 0 <= i < |all| && all[i] == x;
      var j :| 0 <= j < |r| && r[j] == y;
      EventsTail(all, cut);
      assert all[j + cut] == y;
    }
  }

  lemma SettledEvents(s: Slot, coreRevision: nat, t: Instant, now: Instant, retention: nat)
    requires SlotInv(s, coreRevision, t) && t <= now
    ensures KeepsDue(s, Completing(s, None, now), Unix(now - retention), PruneSlot(s, now, retention).events)
  {
    hide AdjustmentsInv, CandidateInv, AppendEvent, KeepEvents, KeepAdjustments;
    var cutoff := Unix(now - retention);
    var e := Completing(s, None, now);
    var all := if e.Some? then AppendEvent(s.events, e.value) else s.events;
    if e.Some? {
      HistorySystem.CompletedValid(s.active.value, now);
      EventsInvLater(s.events, t, now);
      AppendedMembers(s.events, e.value, now);
    }
    KeepEventsIncreasing(all, cutoff);
    KeptDue(s, e, cutoff, all);
  }

  lemma {:induction false} KeepAll(events: seq<Event>, cutoff: int)
    requires forall e :: e in events ==> e.resetsAt >= cutoff
    ensures KeepEvents(events, cutoff) == events
  {
    if events != [] {
      var front, last := events[..|events| - 1], events[|events| - 1];
      assert events == front + [last];
      KeepAll(front, cutoff);
    }
  }

  lemma KeptDue(s: Slot, completed: Option<Event>, cutoff: int, all: seq<Event>)
    requires Increasing(KeepEvents(all, cutoff))
    requires var added := completed.Some? && forall x :: x in s.events ==> x.resetsAt != completed.value.resetsAt;
             && (forall x :: x in all ==> x in s.events || (completed == Some(x) && added))
             && forall x :: (x in s.events || (completed == Some(x) && added)) && x !in all ==>
                  |all| == 1024 && forall y :: y in all ==> x.resetsAt < y.resetsAt
    ensures KeepsDue(s, completed, cutoff, KeepEvents(all, cutoff))
  {
    hide Increasing, KeepEvents;
    var kept := KeepEvents(all, cutoff);
    KeepEventsElements(all, cutoff);
    forall e | Due(s, completed, cutoff, e) && e !in kept
      ensures |kept| == 1024 && forall x :: x in kept ==> e.resetsAt < x.resetsAt
    {
      assert e !in all;
      KeepAll(all, cutoff);
    }
  }

  /** The event a report completes, after pruning. */
  lemma ReportEvents(s: Slot, coreRevision: nat, t: Instant, now: Instant, retention: nat, p: Window, rebaseline: bool)
    requires SlotInv(s, coreRevision, t) && t <= now && retention >= 604_800 * SECOND && now != 0 && p.used >= 0 && Unix(now) < p.resetsAt
    ensures var out := ReportSlot(PruneSlot(s, now, retention), coreRevision, now, p, rebaseline).slot;
            KeepsDue(s, Completing(s, Some(p), now), Unix(now - retention), out.events)
  {
    hide SlotInv, KeepsDue, AppendEvent, KeepEvents, KeepAdjustments, AppendAdjustment, PlausibleTransition;
    SettledEvents(s, coreRevision, t, now, retention);
    SettledIsCompleting(s, now, p);
    var pruned := PruneSlot(s, now, retention);
    if pruned.active.Some? && Completing(s, Some(p), now).Some? {
      PruneParts(s, now, retention);
      CompletedAfterPruning(s, coreRevision, t, now, retention, Completing(s, Some(p), now).value);
    }
  }

  lemma SettledIsCompleting(s: Slot, now: Instant, p: Window)
    ensures Completing(s, None, now).Some? ==> Completing(s, Some(p), now) == Completing(s, None, now)
    ensures s.active.Some? && Completing(s, None, now).None? ==> !Settled(s.active.value.resetsAt, Unix(now))
  {
  }

  lemma CompletedAfterPruning(s: Slot, coreRevision: nat, t: Instant, now: Instant, retention: nat, e: Event)
    requires SlotInv(s, coreRevision, t) && t <= now && retention >= 604_800 * SECOND && now != 0 && s.active.Some?
    requires e == Completed(s.active.value, now) && Unix(now) >= e.resetsAt - 120 && Unix(now) < e.resetsAt + 120
    ensures KeepsDue(s, Some(e), Unix(now - retention), AppendEvent(KeepEvents(s.events, Unix(now - retention)), e))
  {
    hide AdjustmentsInv, CandidateInv, AppendEvent, KeepEvents, KeepAdjustments;
    var cutoff := Unix(now - retention);
    var kept := KeepEvents(s.events, cutoff);
    KeepEventsElements(s.events, cutoff);
    KeepEventsIncreasing(s.events, cutoff);
    assert cutoff <= e.resetsAt by { CutoffPassed(now, retention); }
    AppendedMembers(kept, e, now);
  }

  lemma CutoffPassed(now: Instant, retention: nat)
    requires retention >= 604_800 * SECOND
    ensures Unix(now - retention) <= Unix(now) - 604_800
  {
  }

  /** Which events an account has on record after a delivery: those from the retention cutoff on, with the week
      that the delivery completed. */
  lemma EventsKept(s: Slot, coreRevision: nat, t: Instant, now: Instant, retention: nat, p: Option<Window>, rebaseline: bool)
    requires SlotInv(s, coreRevision, t) && t <= now && retention >= 604_800 * SECOND && now != 0
    requires p.Some? ==> p.value.used >= 0 && Unix(now) < p.value.resetsAt
    ensures var pruned := PruneSlot(s, now, retention);
            var out := if p.Some? then ReportSlot(pruned, coreRevision, now, p.value, rebaseline).slot else pruned;
            KeepsDue(s, Completing(s, p, now), Unix(now - retention), out.events)
  {
    hide SlotInv, KeepsDue, ObserveSlot, RebaselineSlot, PruneSlot, Completing;
    SettledEvents(s, coreRevision, t, now, retention);
    if p.Some? {
      var pruned := PruneSlot(s, now, retention);
      ReportEvents(s, coreRevision, t, now, retention, p.value, rebaseline);
    }
  }

  // ----- which adjustments are on record -----

  /** The adjustment an accepted report tells of: less usage of the same week, before its reset; or another reset,
      more than two minutes before the anchored one. A change of collector tells only of a reset that was used
      less and whose week plausibly began since the anchored one was first observed. */
  function Telling(s: Slot, rebaseline: bool, now: Instant, p: Window, coreRevision: nat): Option<Adjustment> {
    if s.active.None? then None
    else
      var a, less := s.active.value, p.used < s.active.value.used;
      if Near(a.resetsAt, p.resetsAt) then
        if !rebaseline && less && Unix(now) < a.resetsAt <= Unix(now + WEEK_AND_FIVE_MINUTES)
        then Some(Adjustment(now, [UsedPercentDecreased], a, a.(used := p.used), coreRevision)) else None
      else if Unix(now) >= a.resetsAt - 120 then None
      else if rebaseline && !(less && Unix(a.firstObservedAt) <= p.startedAt && -300 <= Unix(now) - p.startedAt <= 86_400) then None
      else Some(Adjustment(now, if less then [ResetTimestampChanged, UsedPercentDecreased] else [ResetTimestampChanged], a, p, coreRevision))
  }

  /** The adjustments from the cutoff on, and as the newest the one told of, unless one about the same window
      against the same core revision is among them. */
  predicate Adds(kept: seq<Adjustment>, told: Option<Adjustment>, adjs: seq<Adjustment>) {
    if told.None? || exists x :: x in kept && x.coreRevisionBefore == told.value.coreRevisionBefore && x.before == told.value.before
    then adjs == kept
    else adjs == Newest(kept + [told.value], 1024)
  }

  lemma RecordedAmong(adjs: seq<Adjustment>, a: Adjustment)
    ensures AlreadyRecorded(adjs, a) <==> exists x :: x in adjs && x.coreRevisionBefore == a.coreRevisionBefore && x.before == a.before
  {
    if x :| x in adjs && x.coreRevisionBefore == a.coreRevisionBefore && x.before == a.before {
      var i :| 0 <= i < |adjs| && adjs[i] == x;
    }
    if AlreadyRecorded(adjs, a) {
      var i :| 0 <= i < |adjs| && adjs[i].coreRevisionBefore == a.coreRevisionBefore && adjs[i].before == a.before;
      assert adjs[i] in adjs;
    }
  }

  lemma ToldAppended(adjs: seq<Adjustment>, a: Adjustment, coreRevision: nat, t: Instant, now: Instant)
    requires AdjustmentsInv(adjs, coreRevision, t) && t <= now && a.coreRevisionBefore <= coreRevision && a.detectedAt == now && NotJitter(a)
    ensures ValidAdjustment(a) ==> Adds(adjs, Some(a), AppendAdjustment(adjs, a))
    ensures !ValidAdjustment(a) ==> AppendAdjustment(adjs, a) == adjs
  {
    RecordedAmong(adjs, a);
    AppendAdjustmentKeeps(adjs, a, coreRevision, t, now);
    hide AdjustmentsInv, ValidAdjustment, AlreadyRecorded;
  }

  lemma DropValid(a: Window, p: Window, coreRevision: nat, now: Instant)
    requires ValidWindow(a) && a.firstObservedAt <= now && coreRevision >= 1 && 0 <= p.used < a.used && now != 0
    ensures NotJitter(UsageDrop(now, a, p.used, coreRevision))
    ensures ValidAdjustment(UsageDrop(now, a, p.used, coreRevision)) <==> Unix(now) < a.resetsAt <= Unix(now + WEEK_AND_FIVE_MINUTES)
  {
  }

  /** What an accepted report adds to a pruned account's adjustments. */
  lemma ReportAdds(s: Slot, coreRevision: nat, now: Instant, p: Window, u: Usage, rebaseline: bool)
    requires SlotInv(s, coreRevision, now) && coreRevision >= 1 && Proposed(now, u) == Some(p)
    ensures Adds(s.adjs, Telling(s, rebaseline, now, p, coreRevision), ReportSlot(s, coreRevision, now, p, rebaseline).slot.adjs)
  {
    AcceptedIff(now, u);
    if s.active.Some? {
      var a := s.active.value;
      if Near(a.resetsAt, p.resetsAt) {
        NearReport(s, coreRevision, now, p, rebaseline);
      } else {
        FarReport(s, coreRevision, now, p, u, rebaseline);
      }
    }
    hide Adds, AppendAdjustment, SlotInv, Proposed;
  }

  lemma NearReport(s: Slot, coreRevision: nat, now: Instant, p: Window, rebaseline: bool)
    requires SlotInv(s, coreRevision, now) && coreRevision >= 1 && s.active.Some? && Near(s.active.value.resetsAt, p.resetsAt)
    requires now != 0 && p.used >= 0
    ensures Adds(s.adjs, Telling(s, rebaseline, now, p, coreRevision), ReportSlot(s, coreRevision, now, p, rebaseline).slot.adjs)
  {
    hide AppendAdjustment, Adds, EventsInv, CandidateInv, AdjustmentsInv, ValidAdjustment, NotJitter;
    Unchanged(s.adjs);
    if p.used < s.active.value.used {
      DropValid(s.active.value, p, coreRevision, now);
      ToldAppended(s.adjs, UsageDrop(now, s.active.value, p.used, coreRevision), coreRevision, now, now);
    }
  }

  lemma Unchanged(adjs: seq<Adjustment>)
    ensures Adds(adjs, None, adjs)
  {
  }

  lemma FarReport(s: Slot, coreRevision: nat, now: Instant, p: Window, u: Usage, rebaseline: bool)
    requires SlotInv(s, coreRevision, now) && coreRevision >= 1 && Proposed(now, u) == Some(p)
    requires s.active.Some? && !Near(s.active.value.resetsAt, p.resetsAt)
    ensures Adds(s.adjs, Telling(s, rebaseline, now, p, coreRevision), ReportSlot(s, coreRevision, now, p, rebaseline).slot.adjs)
  {
    hide AppendAdjustment, AppendEvent, Adds, EventsInv, CandidateInv, AdjustmentsInv, ValidAdjustment, NotJitter, Proposed, ValidWindow;
    Unchanged(s.adjs);
    var a := s.active.value;
    if Unix(now) < a.resetsAt - 120 {
      var move := ResetMove(now, a, p, coreRevision);
      ResetMoveValid(a, p, coreRevision, now, u);
      ToldAppended(s.adjs, move, coreRevision, now, now);
      assert [ResetTimestampChanged] + [UsedPercentDecreased] == [ResetTimestampChanged, UsedPercentDecreased];
      assert [ResetTimestampChanged] + [] == [ResetTimestampChanged];
      assert move == Adjustment(now, if p.used < a.used then [ResetTimestampChanged, UsedPercentDecreased] else [ResetTimestampChanged], a, p, coreRevision);
    }
  }

  /** Which adjustments an account has on record after an accepted report: those from the retention cutoff on, and
      the one the report tells of. */
  lemma AdjustmentsKept(s: Slot, coreRevision: nat, t: Instant, now: Instant, retention: nat, p: Window, u: Usage, rebaseline: bool)
    requires SlotInv(s, coreRevision, t) && t <= now && coreRevision >= 1 && Proposed(now, u) == Some(p)
    ensures Adds(KeepAdjustments(s.adjs, now - retention), Telling(s, rebaseline, now, p, coreRevision),
                 ReportSlot(PruneSlot(s, now, retention), coreRevision, now, p, rebaseline).slot.adjs)
  {
    hide SlotInv, Proposed, Adds, ObserveSlot, RebaselineSlot;
    var pruned := PruneSlot(s, now, retention);
    PruneSlotKeeps(s, coreRevision, t, now, retention);
    ReportAdds(pruned, coreRevision, now, p, u, rebaseline);
    PruneParts(s, now, retention);
    AcceptedIff(now, u);
    SettledTellsNothing(s, rebaseline, now, p, coreRevision, retention);
  }

  lemma SettledTellsNothing(s: Slot, rebaseline: bool, now: Instant, p: Window, coreRevision: nat, retention: nat)
    requires Unix(now) < p.resetsAt
    ensures PruneSlot(s, now, retention).active.None? ==> Telling(s, rebaseline, now, p, coreRevision).None?
  {
    hide AppendEvent, KeepEvents, KeepAdjustments;
  }

  /** What a tracker has on record of an account after an accepted report about it. */
  lemma DeliveredRecords(m: Mem, t: Instant, now: Instant, retention: nat, r: Report, rebaseline: bool, k: Key)
    requires MemInv(m, t) && t <= now && HasRoom(m, k) && retention >= 604_800 * SECOND
    requires r.account == Some(k) && r.usage.Some? && Acceptable(now, r.usage.value)
    ensures var s, u, post := SlotOf(m, k), r.usage.value, SlotOf(Deliver(m, now, retention, r, rebaseline).mem, k);
            var p := Window(u.resetsAt.value - 604800, u.resetsAt.value, now, u.usedPercent);
            && KeepsDue(s, Completing(s, Some(p), now), Unix(now - retention), post.events)
            && Adds(KeepAdjustments(s.adjs, now - retention), Telling(s, rebaseline, now, p, m.coreRevision), post.adjs)
  {
    hide Deliver, SlotOf, SlotsInv, SlotInv, Proposed, PruneSlot, ReportSlot, Admitted, KeepsDue, Adds, Completing, Telling;
    var u := r.usage.value;
    var p := Window(u.resetsAt.value - 604800, u.resetsAt.value, now, u.usedPercent);
    MemKeys(m, t);
    AcceptedIff(now, u);
    RoomAdmits(m, t, now, retention, r, k);
    DeliverSlots(m, now, retention, r, rebaseline, k);
    AnySlot(m, t, k);
    EventsKept(SlotOf(m, k), m.coreRevision, t, now, retention, Some(p), rebaseline);
    AdjustmentsKept(SlotOf(m, k), m.coreRevision, t, now, retention, p, u, rebaseline);
  }

  /** An account that no accepted report is about is only pruned: its week ends two minutes after the reset, its
      candidate two minutes after the reset or with the retention period, and its records with that period. */
  lemma OthersPruned(m: Mem, t: Instant, now: Instant, retention: nat, r: Report, rebaseline: bool, k: Key)
    requires MemInv(m, t) && t <= now && retention >= 604_800 * SECOND && now != 0
    requires r.account != Some(k) || r.usage.None? || !Acceptable(now, r.usage.value)
    ensures var s, post := SlotOf(m, k), SlotOf(Deliver(m, now, retention, r, rebaseline).mem, k);
            && post.active == (if s.active.Some? && Unix(now) >= s.active.value.resetsAt + 120 then None else s.active)
            && post.cand == (if s.cand.Some? && (Unix(now) >= s.cand.value.window.resetsAt + 120 || s.cand.value.lastSeenAt < now - retention)
                             then None else s.cand)
            && KeepsDue(s, Completing(s, None, now), Unix(now - retention), post.events)
            && post.adjs == KeepAdjustments(s.adjs, now - retention)
  {
    hide Deliver, SlotOf, SlotsInv, SlotInv, Proposed, PruneSlot, ReportSlot, Admitted, KeepsDue, Completing;
    MemKeys(m, t);
    if r.usage.Some? { AcceptedIff(now, r.usage.value); }
    DeliverSlots(m, now, retention, r, rebaseline, k);
    AnySlot(m, t, k);
    EventsKept(SlotOf(m, k), m.coreRevision, t, now, retention, None, rebaseline);
    PrunedWindows(SlotOf(m, k), now, retention);
  }

  lemma PrunedWindows(s: Slot, now: Instant, retention: nat)
    ensures var post := PruneSlot(s, now, retention);
            && post.active == (if s.active.Some? && Unix(now) >= s.active.value.resetsAt + 120 then None else s.active)
            && post.cand == (if s.cand.Some? && (Unix(now) >= s.cand.value.window.resetsAt + 120 || s.cand.value.lastSeenAt < now - retention)
                             then None else s.cand)
            && post.adjs == KeepAdjustments(s.adjs, now - retention)
  {
    hide AppendEvent, KeepEvents, KeepAdjustments;
  }

  // ----- what is written -----

  /** What a commit leaves in memory and on disk, for every outcome of its writes: the sidecar is written first,
      the core file only if the sidecar needed no write or was written; whatever is not written stays due. */
  lemma CommitWrites(path: string, c: Change, d: Disk, t: Instant, sideOk: bool, coreOk: bool)
    requires MemInv(c.mem, t) && path != ""
    ensures var m, done := c.mem, CommitAt(path, c, d, sideOk, coreOk);
            var revision := m.revision + if c.history || c.adjustments then 1 else 0;
            var sideDue, coreDue := m.adjustmentsDirty || c.adjustments, m.dirty || c.history;
            var sideWritten := sideDue && sideOk;
            var coreWritten := coreDue && coreOk && (sideDue ==> sideOk);
            && done.disk.side == (if sideWritten then Some(SideFile(revision, m.adjustmentsTrackingSince, m.adjustments)) else d.side)
            && done.disk.core == (if coreWritten then Some(CoreFile(revision, m.trackingSince, m.accounts)) else d.core)
            && done.mem == m.(revision := revision, adjustmentsDirty := sideDue && !sideWritten, dirty := coreDue && !coreWritten,
                              coreRevision := if coreWritten then revision else m.coreRevision,
                              degraded := if sideDue || coreDue then sideDue != sideWritten || coreDue != coreWritten else m.degraded)
  {
    hide SlotsInv, ValidSide, ValidCore;
    var marked := Marked(c);
    RaiseKeeps(c.mem, marked, t);
    FilesValid(marked, t);
  }

  /** A report raises the change flags of exactly the parts it changes. */
  lemma FlagsExact(s: Slot, coreRevision: nat, now: Instant, p: Window, u: Usage, rebaseline: bool)
    requires SlotInv(s, coreRevision, now) && coreRevision >= 1 && Proposed(now, u) == Some(p)
    ensures var out := ReportSlot(s, coreRevision, now, p, rebaseline);
            && (out.changed <==> out.slot.active != s.active || out.slot.events != s.events)
            && (out.adjusted <==> out.slot.adjs != s.adjs)
  {
    hide AppendAdjustment, AppendEvent, EventsInv, CandidateInv, AdjustmentsInv, Proposed, ValidWindow, PlausibleTransition, Records;
    if s.active.Some? {
      AppendChanges(s.adjs, UsageDrop(now, s.active.value, p.used, coreRevision), coreRevision, now);
      if !Near(s.active.value.resetsAt, p.resetsAt) && MeaningfullyBefore(s.active.value.resetsAt, Unix(now)) {
        AppendChanges(s.adjs, ResetMove(now, s.active.value, p, coreRevision), coreRevision, now);
      }
    }
  }

  lemma AppendChanges(adjs: seq<Adjustment>, a: Adjustment, coreRevision: nat, now: Instant)
    requires AdjustmentsInv(adjs, coreRevision, now) && a.coreRevisionBefore <= coreRevision && a.detectedAt == now
    ensures Records(adjs, a) <==> AppendAdjustment(adjs, a) != adjs
  {
    if Records(adjs, a) {
      InsertAdjustmentKeeps(adjs, a);
      RecordedAmong(adjs, a);
      hide AdjustmentsInv, ValidAdjustment, InsertAdjustment;
      var r := AppendAdjustment(adjs, a);
      AddedLast(adjs, a, now);
      assert r == Newest(adjs + [a], MAX_ADJUSTMENTS) && r[|r| - 1] == a;
      assert a in r && a !in adjs;
    }
  }

  lemma AddedLast(adjs: seq<Adjustment>, a: Adjustment, now: Instant)
    requires a.detectedAt == now && forall x :: x in adjs ==> x.detectedAt <= now
    ensures InsertAdjustment(adjs, a) == adjs + [a]
  {
    if adjs != [] { assert adjs[|adjs| - 1] in adjs; }
  }

  // ----- what is refused -----

  /** A week as it may be stored: 604800 seconds long, after 1970, with a percentage. */
  predicate WeekInNumbers(startedAt: int, resetsAt: int, seenAt: Instant, used: int) {
    startedAt > 0 && resetsAt == startedAt + 604_800 && seenAt != 0 && 0 <= used <= 100
  }

  /** The core file is accepted exactly when it holds at most 128 well-named accounts of at most 1024 events each,
      all weeks being such weeks. */
  lemma CoreAccepted(f: CoreFile)
    ensures ValidCore(f) <==>
            && f.revision > 0 && f.trackingSince != 0 && |f.accounts| <= 128
            && forall k :: k in f.accounts ==>
                 && KeyInNumbers(k) && |f.accounts[k].events| <= 1024
                 && (f.accounts[k].active.Some? ==>
                       var w := f.accounts[k].active.value; WeekInNumbers(w.startedAt, w.resetsAt, w.firstObservedAt, w.used))
                 && forall e :: e in f.accounts[k].events ==> WeekInNumbers(e.startedAt, e.resetsAt, e.detectedAt, e.usedBefore)
  {
    forall k ensures KeyInNumbers(k) <==> ValidKey(k) { KeyIff(k); }
    forall e: Event ensures ValidEvent(e) <==> WeekInNumbers(e.startedAt, e.resetsAt, e.detectedAt, e.usedBefore) {}
    forall w: Window ensures ValidWindow(w) <==> WeekInNumbers(w.startedAt, w.resetsAt, w.firstObservedAt, w.used) {}
    hide KeyInNumbers, ValidKey, WeekInNumbers, ValidEvent, ValidWindow;
  }

  /** An account key is 64 lower-case hexadecimal digits. */
  predicate KeyInNumbers(key: Key) {
    |key| == 64 && forall i :: 0 <= i < 64 ==> 48 <= key[i] as int <= 57 || 97 <= key[i] as int <= 102
  }

  lemma KeyIff(key: Key)
    ensures KeyInNumbers(key) <==> ValidKey(key)
  {
  }

  /** An adjustment as it may be stored: between two weeks observed by the time of its detection, both of which reset later,
      the new one within seven days and five minutes; and its reasons are exactly what it says changed. */
  predicate AdjustmentInNumbers(a: Adjustment) {
    && a.detectedAt != 0 && a.coreRevisionBefore > 0
    && WeekInNumbers(a.before.startedAt, a.before.resetsAt, a.before.firstObservedAt, a.before.used)
    && WeekInNumbers(a.after.startedAt, a.after.resetsAt, a.after.firstObservedAt, a.after.used)
    && a.before.firstObservedAt <= a.detectedAt && a.after.firstObservedAt <= a.detectedAt
    && Unix(a.detectedAt) < a.before.resetsAt && Unix(a.detectedAt) < a.after.resetsAt <= Unix(a.detectedAt + WEEK_AND_FIVE_MINUTES)
    && a.reasons != []
    && a.reasons == (if a.before.resetsAt == a.after.resetsAt then (if a.after.used < a.before.used then [UsedPercentDecreased] else [])
                     else if a.after.used < a.before.used then [ResetTimestampChanged, UsedPercentDecreased] else [ResetTimestampChanged])
  }

  lemma AdjustmentIff(a: Adjustment)
    ensures ValidAdjustment(a) <==> AdjustmentInNumbers(a)
  {
    assert [ResetTimestampChanged] + [UsedPercentDecreased] == [ResetTimestampChanged, UsedPercentDecreased];
    assert [ResetTimestampChanged] + [] == [ResetTimestampChanged] && [] + [UsedPercentDecreased] == [UsedPercentDecreased];
    BeforeReset(a.detectedAt, a.before.resetsAt);
  }

  lemma BeforeReset(at: Instant, resetsAt: int)
    ensures at < FromUnix(resetsAt) <==> Unix(at) < resetsAt
  {
  }

  /** The sidecar is accepted exactly when it holds at most 128 well-named lists of at most 1024 such adjustments. */
  lemma SideAccepted(f: SideFile)
    ensures ValidSide(f) <==>
            && f.revision > 0 && f.trackingSince != 0 && |f.accounts| <= 128
            && forall k :: k in f.accounts ==>
                 KeyInNumbers(k) && |f.accounts[k]| <= 1024 && forall a :: a in f.accounts[k] ==> AdjustmentInNumbers(a)
  {
    forall k ensures KeyInNumbers(k) <==> ValidKey(k) { KeyIff(k); }
    forall a: Adjustment ensures ValidAdjustment(a) <==> AdjustmentInNumbers(a) { AdjustmentIff(a); }
    hide KeyInNumbers, ValidKey, ValidAdjustment, AdjustmentInNumbers;
  }

  /** Opening is refused, with the files as they are, exactly when the retention period is not between 7 and 366 days, the
      path is neither empty nor absolute, or a file is invalid. Without a path it starts from nothing, at revision 1. */
  lemma OpeningRefused(path: string, d: Disk, now: Instant, retention: nat, sideOk: bool, coreOk: bool)
    ensures retention < 604_800 * SECOND || retention > 31_622_400 * SECOND ==> OpenAt(path, d, now, retention, sideOk, coreOk) == Opened(None, d)
    ensures path != "" && path[0] != '/' ==> OpenAt(path, d, now, retention, sideOk, coreOk) == Opened(None, d)
    ensures path != "" && ((d.core.Some? && !ValidCore(d.core.value)) || (d.side.Some? && !ValidSide(d.side.value))) ==>
              OpenAt(path, d, now, retention, sideOk, coreOk) == Opened(None, d)
    ensures 604_800 * SECOND <= retention <= 31_622_400 * SECOND && path == "" ==>
              OpenAt(path, d, now, retention, sideOk, coreOk)
              == Opened(Some(Mem(map[], map[], map[], 1, 1, now, now, false, false, false)), d)
    ensures 604_800 * SECOND <= retention <= 31_622_400 * SECOND && path != "" && path[0] == '/' && Readable(d) ==>
              OpenAt(path, d, now, retention, sideOk, coreOk) == Open(d, now, retention, sideOk, coreOk)
  {
    hide ValidCore, ValidSide, Recovered, Persist;
  }
}
