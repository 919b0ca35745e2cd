/** What the per-account rules of HistoryModel keep, conserve and refuse. */
module HistoryRules {
  import opened Common
  import opened HistoryModel

  // ----- the invariant of one account, at clock time `t` -----

  predicate ActiveInv(active: Option<Window>, t: Instant) {
    active.Some? ==> ValidWindow(active.value) && active.value.firstObservedAt <= t
  }

  predicate Increasing(events: seq<Event>) {
    forall i, j :: 0 <= i < j < |events| ==> events[i].resetsAt < events[j].resetsAt
  }

  predicate EventsInv(events: seq<Event>, t: Instant) {
    && |events| <= MAX_EVENTS && Increasing(events)
    && forall e :: e in events ==> ValidEvent(e) && e.detectedAt <= t
  }

  predicate InDetectionOrder(adjs: seq<Adjustment>) {
    forall i, j :: 0 <= i < j < |adjs| ==> adjs[i].detectedAt <= adjs[j].detectedAt
  }

  /** A stored reset change is never mere jitter. */
  predicate NotJitter(a: Adjustment) {
    HasReason(a, ResetTimestampChanged) ==> !Equivalent(a.before.resetsAt, a.after.resetsAt)
  }

  predicate AdjustmentInv(a: Adjustment, coreRevision: nat, t: Instant) {
    ValidAdjustment(a) && NotJitter(a) && a.coreRevisionBefore <= coreRevision && a.detectedAt <= t
  }

  predicate AdjustmentsInv(adjs: seq<Adjustment>, coreRevision: nat, t: Instant) {
    && |adjs| <= MAX_ADJUSTMENTS && InDetectionOrder(adjs)
    && forall a :: a in adjs ==> AdjustmentInv(a, coreRevision, t)
  }

  predicate CandidateInv(c: Candidate, t: Instant) {
    && ValidWindow(c.window) && c.window.used == 0 && c.window.firstObservedAt == c.firstSeenAt
    && c.firstSeenAt <= c.lastSeenAt <= t && c.observations >= 1
  }

  predicate SlotInv(s: Slot, coreRevision: nat, t: Instant) {
    && ActiveInv(s.active, t) && EventsInv(s.events, t) && AdjustmentsInv(s.adjs, coreRevision, t)
    && (s.cand.Some? ==> CandidateInv(s.cand.value, t) && s.active.None?)
  }

  lemma IncreasingMore(events: seq<Event>, e: Event)
    requires Increasing(events) && forall x :: x in events ==> x.resetsAt < e.resetsAt
    ensures Increasing(events + [e])
  {
    assert forall i :: 0 <= i < |events| ==> events[i] in events;
  }

  lemma BeforeLast(events: seq<Event>, x: Event)
    requires Increasing(events) && events != [] && x in events[..|events| - 1]
    ensures x.resetsAt < events[|events| - 1].resetsAt
  {
    var i :| 0 <= i < |events| - 1 && events[i] == x;
  }

  lemma {:induction false} InsertEventKeeps(events: seq<Event>, e: Event, t: Instant)
    requires Increasing(events) && !EventExists(events, e.resetsAt)
    requires forall x :: x in events ==> ValidEvent(x) && x.detectedAt <= t
    requires ValidEvent(e) && e.detectedAt <= t
    ensures Increasing(InsertEvent(events, e)) && |InsertEvent(events, e)| == |events| + 1
    ensures forall x :: x in InsertEvent(events, e) <==> x in events || x == e
  {
    hide ValidEvent;
    if events == [] {
      assert InsertEvent(events, e) == [e];
    } else {
      var front, last := events[..|events| - 1], events[|events| - 1];
      assert events == front + [last];
      forall x | x in front ensures x.resetsAt < last.resetsAt { BeforeLast(events, x); }
      if last.resetsAt <= e.resetsAt {
        assert events[|events| - 1].resetsAt != e.resetsAt;
        hide Increasing;
        IncreasingMore(events, e);
      } else {
        assert !EventExists(front, e.resetsAt);
        InsertEventKeeps(front, e, t);
        hide Increasing;
        IncreasingMore(InsertEvent(front, e), last);
      }
    }
  }

  lemma AppendEventKeeps(events: seq<Event>, e: Event, t: Instant)
    requires EventsInv(events, t) && ValidEvent(e) && e.detectedAt <= t
    ensures EventsInv(AppendEvent(events, e), t)
    ensures |events| < MAX_EVENTS ==> EventExists(AppendEvent(events, e), e.resetsAt)
  {
    if !EventExists(events, e.resetsAt) {
      InsertEventKeeps(events, e, t);
      var r := InsertEvent(events, e);
      assert e in r;
      var i :| 0 <= i < |r| && r[i] == e;
    }
  }

  /** A full list of later events: adding an event that resets before all of them drops it at once. */
  predicate Outranked(events: seq<Event>, resetAt: int) {
    |events| == MAX_EVENTS && forall e :: e in events ==> resetAt < e.resetsAt
  }

  lemma {:induction false} InsertEventLast(events: seq<Event>, e: Event)
    requires events != [] && events[0].resetsAt <= e.resetsAt
    ensures |InsertEvent(events, e)| == |events| + 1 && e in InsertEvent(events, e)[1..]
  {
    var r := InsertEvent(events, e);
    if events[|events| - 1].resetsAt <= e.resetsAt {
      assert r[|events|] == e && r[1..][|events| - 1] == e;
    } else {
      var front := events[..|events| - 1];
      InsertEventLast(front, e);
      var q := InsertEvent(front, e);
      assert r[1..] == q[1..] + [events[|events| - 1]];
    }
  }

  lemma {:induction false} InsertEventFirst(events: seq<Event>, e: Event)
    requires forall x :: x in events ==> e.resetsAt < x.resetsAt
    ensures InsertEvent(events, e) == [e] + events
  {
    if events != [] {
      var front, last := events[..|events| - 1], events[|events| - 1];
      assert events == front + [last];
      InsertEventFirst(front, e);
    }
  }

  lemma EventIn(events: seq<Event>, e: Event)
    requires e in events
    ensures EventExists(events, e.resetsAt)
  {
    var i :| 0 <= i < |events| && events[i] == e;
  }

  /** An event is on record after being added, unless the list was full of later ones. */
  lemma AppendEventExact(events: seq<Event>, e: Event, t: Instant)
    requires EventsInv(events, t)
    ensures EventExists(AppendEvent(events, e), e.resetsAt) <==> !Outranked(events, e.resetsAt)
  {
    hide ValidEvent;
    if EventExists(events, e.resetsAt) {
      var i :| 0 <= i < |events| && events[i].resetsAt == e.resetsAt;
      assert events[i] in events;
    } else if events == [] || events[0].resetsAt <= e.resetsAt {
      AppendedStays(events, e);
    } else {
      forall x | x in events ensures e.resetsAt < x.resetsAt {
        var i :| 0 <= i < |events| && events[i] == x;
      }
      InsertEventFirst(events, e);
      if |events| < MAX_EVENTS {
        EventIn([e] + events, e);
      } else {
        assert ([e] + events)[1..] == events;
      }
    }
  }

  lemma AppendedStays(events: seq<Event>, e: Event)
    requires !EventExists(events, e.resetsAt) && |events| <= MAX_EVENTS
    requires events == [] || events[0].resetsAt <= e.resetsAt
    ensures EventExists(AppendEvent(events, e), e.resetsAt) && !Outranked(events, e.resetsAt)
  {
    var r := InsertEvent(events, e);
    if events == [] {
      assert r == [e];
      EventIn([e], e);
    } else {
      InsertEventLast(events, e);
      assert events[0] in events;
      assert e in r && (|r| > MAX_EVENTS ==> r[|r| - MAX_EVENTS..] == r[1..]);
      EventIn(Newest(r, MAX_EVENTS), e);
    }
  }

  lemma OrderedMore(adjs: seq<Adjustment>, a: Adjustment)
    requires InDetectionOrder(adjs) && forall x :: x in adjs ==> x.detectedAt <= a.detectedAt
    ensures InDetectionOrder(adjs + [a])
  {
    assert forall i :: 0 <= i < |adjs| ==> adjs[i] in adjs;
  }

  lemma NotAfterLast(adjs: seq<Adjustment>, x: Adjustment)
    requires InDetectionOrder(adjs) && adjs != [] && x in adjs[..|adjs| - 1]
    ensures x.detectedAt <= adjs[|adjs| - 1].detectedAt
  {
    var i :| 0 <= i < |adjs| - 1 && adjs[i] == x;
  }

  lemma {:induction false} InsertAdjustmentKeeps(adjs: seq<Adjustment>, a: Adjustment)
    requires InDetectionOrder(adjs)
    ensures InDetectionOrder(InsertAdjustment(adjs, a)) && |InsertAdjustment(adjs, a)| == |adjs| + 1
    ensures forall x :: x in InsertAdjustment(adjs, a) <==> x in adjs || x == a
  {
    if adjs == [] {
      assert InsertAdjustment(adjs, a) == [a];
    } else {
      var front, last := adjs[..|adjs| - 1], adjs[|adjs| - 1];
      assert adjs == front + [last];
      forall x | x in front ensures x.detectedAt <= last.detectedAt { NotAfterLast(adjs, x); }
      if last.detectedAt <= a.detectedAt {
        hide InDetectionOrder;
        OrderedMore(adjs, a);
      } else {
        InsertAdjustmentKeeps(front, a);
        hide InDetectionOrder;
        OrderedMore(InsertAdjustment(front, a), last);
      }
    }
  }

  /** Two adjustments that tell of the same window against the same core revision. */
  predicate SameRecord(a: Adjustment, b: Adjustment) {
    a.coreRevisionBefore == b.coreRevisionBefore && a.before == b.before
  }

  predicate UniqueRecords(adjs: seq<Adjustment>) {
    forall i, j :: 0 <= i < j < |adjs| ==> !SameRecord(adjs[i], adjs[j])
  }

  lemma UniqueMore(adjs: seq<Adjustment>, a: Adjustment)
    requires UniqueRecords(adjs) && forall x :: x in adjs ==> !SameRecord(x, a)
    ensures UniqueRecords(adjs + [a])
  {
    hide SameRecord;
    assert forall i :: 0 <= i < |adjs| ==> adjs[i] in adjs;
  }

  lemma UniqueFront(adjs: seq<Adjustment>)
    requires UniqueRecords(adjs) && adjs != []
    ensures UniqueRecords(adjs[..|adjs| - 1])
  {
    hide SameRecord;
  }

  lemma DiffersFromLast(adjs: seq<Adjustment>, x: Adjustment)
    requires UniqueRecords(adjs) && adjs != [] && x in adjs[..|adjs| - 1]
    ensures !SameRecord(x, adjs[|adjs| - 1])
  {
    hide SameRecord;
    var i :| 0 <= i < |adjs| - 1 && adjs[i] == x;
  }

  lemma {:induction false} InsertKeepsUnique(adjs: seq<Adjustment>, a: Adjustment)
    requires UniqueRecords(adjs) && forall x :: x in adjs ==> !SameRecord(x, a)
    ensures UniqueRecords(InsertAdjustment(adjs, a))
    ensures forall x :: x in InsertAdjustment(adjs, a) ==> x in adjs || x == a
  {
    hide UniqueRecords;
    if adjs == [] || adjs[|adjs| - 1].detectedAt <= a.detectedAt {
      UniqueMore(adjs, a);
    } else {
      var front, last := adjs[..|adjs| - 1], adjs[|adjs| - 1];
      UniqueFront(adjs);
      InsertKeepsUnique(front, a);
      assert last in adjs;
      forall x | x in InsertAdjustment(front, a) ensures !SameRecord(x, last) {
        if x == a {
          assert !SameRecord(last, a);
        } else {
          DiffersFromLast(adjs, x);
        }
      }
      UniqueMore(InsertAdjustment(front, a), last);
    }
  }

  lemma AppendKeepsUnique(adjs: seq<Adjustment>, a: Adjustment)
    requires UniqueRecords(adjs)
    ensures UniqueRecords(AppendAdjustment(adjs, a))
  {
    hide InsertAdjustment;
    if Records(adjs, a) {
      forall x | x in adjs ensures !SameRecord(x, a) {
        var i :| 0 <= i < |adjs| && adjs[i] == x;
      }
      InsertKeepsUnique(adjs, a);
    }
  }

  lemma AppendAdjustmentKeeps(adjs: seq<Adjustment>, a: Adjustment, coreRevision: nat, t: Instant, now: Instant)
    requires AdjustmentsInv(adjs, coreRevision, t) && t <= now
    requires a.coreRevisionBefore <= coreRevision && a.detectedAt == now && NotJitter(a)
    ensures AdjustmentsInv(AppendAdjustment(adjs, a), coreRevision, now)
    ensures Records(adjs, a) ==> AppendAdjustment(adjs, a) == Newest(adjs + [a], MAX_ADJUSTMENTS)
    ensures AlreadyRecorded(adjs, a) ==> AppendAdjustment(adjs, a) == adjs
    ensures UniqueRecords(adjs) ==> UniqueRecords(AppendAdjustment(adjs, a))
  {
    if UniqueRecords(adjs) { AppendKeepsUnique(adjs, a); }
    hide UniqueRecords;
    if Records(adjs, a) {
      InsertAdjustmentKeeps(adjs, a);
      assert adjs != [] ==> adjs[|adjs| - 1] in adjs;
    }
  }

  /** A report that moves the reset is always well-formed as an adjustment. */
  lemma ResetMoveValid(a: Window, p: Window, coreRevision: nat, now: Instant, u: Usage)
    requires ValidWindow(a) && a.firstObservedAt <= now && coreRevision >= 1
    requires Proposed(now, u) == Some(p)
    requires !Equivalent(a.resetsAt, p.resetsAt) && MeaningfullyBefore(a.resetsAt, Unix(now))
    ensures ValidAdjustment(ResetMove(now, a, p, coreRevision)) && NotJitter(ResetMove(now, a, p, coreRevision))
  {
  }

  lemma InstallKeeps(s: Slot, coreRevision: nat, now: Instant, p: Window, u: Usage, changed: bool, adjusted: bool)
    requires SlotInv(s, coreRevision, now) && s.active.None? && Proposed(now, u) == Some(p)
    ensures SlotInv(Install(s, now, p, changed, adjusted).slot, coreRevision, now)
  {
  }

  lemma SlotInvLater(s: Slot, coreRevision: nat, t: Instant, now: Instant)
    requires SlotInv(s, coreRevision, t) && t <= now
    ensures SlotInv(s, coreRevision, now)
  {
  }

  lemma ObserveKeeps(s: Slot, coreRevision: nat, t: Instant, now: Instant, p: Window, u: Usage)
    requires SlotInv(s, coreRevision, t) && t <= now && coreRevision >= 1 && Proposed(now, u) == Some(p)
    ensures SlotInv(ObserveSlot(s, coreRevision, now, p).slot, coreRevision, now)
  {
    SlotInvLater(s, coreRevision, t, now);
    if s.active.None? {
      InstallKeeps(s, coreRevision, now, p, u, false, false);
    } else {
      var a := s.active.value;
      if Equivalent(a.resetsAt, p.resetsAt) {
        AppendAdjustmentKeeps(s.adjs, UsageDrop(now, a, p.used, coreRevision), coreRevision, t, now);
      } else if MeaningfullyBefore(a.resetsAt, Unix(now)) {
        var move := ResetMove(now, a, p, coreRevision);
        AppendAdjustmentKeeps(s.adjs, move, coreRevision, t, now);
        InstallKeeps(Slot(None, s.events, AppendAdjustment(s.adjs, move), None), coreRevision, now, p, u, true, Records(s.adjs, move));
      } else {
        AppendEventKeeps(s.events, Completed(a, now), now);
        InstallKeeps(Slot(None, AppendEvent(s.events, Completed(a, now)), s.adjs, s.cand), coreRevision, now, p, u, true, false);
      }
    }
  }

  lemma RebaselineKeeps(s: Slot, coreRevision: nat, t: Instant, now: Instant, p: Window, u: Usage)
    requires SlotInv(s, coreRevision, t) && t <= now && coreRevision >= 1 && Proposed(now, u) == Some(p)
    ensures SlotInv(RebaselineSlot(s, coreRevision, now, p).slot, coreRevision, now)
  {
    SlotInvLater(s, coreRevision, t, now);
    ObserveKeeps(s, coreRevision, t, now, p, u);
  }

  // ----- pruning -----

  lemma {:induction false} KeepEventsElements(events: seq<Event>, cutoff: int)
    ensures |KeepEvents(events, cutoff)| <= |events|
    ensures forall e :: e in KeepEvents(events, cutoff) <==> e in events && e.resetsAt >= cutoff
    ensures KeepEvents(events, cutoff) == events || |KeepEvents(events, cutoff)| < |events|
  {
    if events != [] {
      var front, last := events[..|events| - 1], events[|events| - 1];
      assert events == front + [last];
      KeepEventsElements(front, cutoff);
    }
  }

  lemma {:induction false} KeepEventsIncreasing(events: seq<Event>, cutoff: int)
    requires Increasing(events)
    ensures Increasing(KeepEvents(events, cutoff))
  {
    if events != [] {
      var front, last := events[..|events| - 1], events[|events| - 1];
      KeepEventsIncreasing(front, cutoff);
      KeepEventsElements(front, cutoff);
      forall x | x in front ensures x.resetsAt < last.resetsAt { BeforeLast(events, x); }
      hide Increasing;
      var r := KeepEvents(front, cutoff);
      assert r + [] == r;
      IncreasingMore(r, last);
    }
  }

  lemma {:induction false} KeepAdjustmentsElements(adjs: seq<Adjustment>, cutoff: Instant)
    ensures |KeepAdjustments(adjs, cutoff)| <= |adjs|
    ensures forall a :: a in KeepAdjustments(adjs, cutoff) <==> a in adjs && a.detectedAt >= cutoff
    ensures KeepAdjustments(adjs, cutoff) == adjs || |KeepAdjustments(adjs, cutoff)| < |adjs|
  {
    if adjs != [] {
      var front, last := adjs[..|adjs| - 1], adjs[|adjs| - 1];
      assert adjs == front + [last];
      KeepAdjustmentsElements(front, cutoff);
    }
  }

  lemma {:induction false} KeepAdjustmentsOrdered(adjs: seq<Adjustment>, cutoff: Instant)
    requires InDetectionOrder(adjs)
    ensures InDetectionOrder(KeepAdjustments(adjs, cutoff))
  {
    if adjs != [] {
      var front, last := adjs[..|adjs| - 1], adjs[|adjs| - 1];
      KeepAdjustmentsOrdered(front, cutoff);
      KeepAdjustmentsElements(front, cutoff);
      forall x | x in front ensures x.detectedAt <= last.detectedAt { NotAfterLast(adjs, x); }
      hide InDetectionOrder;
      var r := KeepAdjustments(front, cutoff);
      assert r + [] == r;
      OrderedMore(r, last);
    }
  }

  lemma {:induction false} KeepAdjustmentsUnique(adjs: seq<Adjustment>, cutoff: Instant)
    requires UniqueRecords(adjs)
    ensures UniqueRecords(KeepAdjustments(adjs, cutoff))
  {
    hide UniqueRecords, SameRecord;
    if adjs != [] {
      var front, last := adjs[..|adjs| - 1], adjs[|adjs| - 1];
      UniqueFront(adjs);
      KeepAdjustmentsUnique(front, cutoff);
      KeepAdjustmentsElements(front, cutoff);
      var r := KeepAdjustments(front, cutoff);
      assert r + [] == r;
      if last.detectedAt >= cutoff {
        forall x | x in r ensures !SameRecord(x, last) { DiffersFromLast(adjs, x); }
        UniqueMore(r, last);
      }
    } else {
      NothingStored();
    }
  }

  lemma NothingStored()
    ensures UniqueRecords([])
  {
  }

  lemma PruneAccountKeeps(a: Account, t: Instant, now: Instant, retention: nat)
    requires ActiveInv(a.active, t) && EventsInv(a.events, t) && t <= now
    ensures ActiveInv(PruneAccount(a, now, retention).active, now)
    ensures EventsInv(PruneAccount(a, now, retention).events, now)
    ensures PruneAccount(a, now, retention).active in {a.active, None}
  {
    if a.active.Some? && Settled(a.active.value.resetsAt, Unix(now)) {
      AppendEventKeeps(a.events, Completed(a.active.value, now), now);
    }
    KeepEventsElements(SettleActive(a, now).events, Unix(now - retention));
    KeepEventsIncreasing(SettleActive(a, now).events, Unix(now - retention));
  }

  lemma KeepAdjustmentsKeeps(adjs: seq<Adjustment>, coreRevision: nat, t: Instant, now: Instant, cutoff: Instant)
    requires AdjustmentsInv(adjs, coreRevision, t) && t <= now
    ensures AdjustmentsInv(KeepAdjustments(adjs, cutoff), coreRevision, now)
  {
    KeepAdjustmentsElements(adjs, cutoff);
    KeepAdjustmentsOrdered(adjs, cutoff);
  }

  /** Pruning again at a later cutoff is pruning once. */
  lemma {:induction false} KeepAdjustmentsTwice(adjs: seq<Adjustment>, c1: Instant, c2: Instant)
    requires c1 <= c2
    ensures KeepAdjustments(KeepAdjustments(adjs, c1), c2) == KeepAdjustments(adjs, c2)
  {
    if adjs != [] {
      var front, last := adjs[..|adjs| - 1], adjs[|adjs| - 1];
      KeepAdjustmentsTwice(front, c1, c2);
      var kept := KeepAdjustments(front, c1);
      assert kept + [] == kept && (kept + [last])[..|kept|] == kept;
      assert KeepAdjustments(front, c2) + [] == KeepAdjustments(front, c2);
    }
  }

  lemma {:induction false} KeepEventsTwice(events: seq<Event>, c1: int, c2: int)
    requires c1 <= c2
    ensures KeepEvents(KeepEvents(events, c1), c2) == KeepEvents(events, c2)
  {
    if events != [] {
      var front, last := events[..|events| - 1], events[|events| - 1];
      KeepEventsTwice(front, c1, c2);
      var kept := KeepEvents(front, c1);
      assert kept + [] == kept && (kept + [last])[..|kept|] == kept;
      assert KeepEvents(front, c2) + [] == KeepEvents(front, c2);
    }
  }

  // ----- conservation -----

  /** What an observation of `p` puts on record about a window `a` that it moves in mid-week: the move
      itself, as the newest adjustment, unless an adjustment about `a` against the same core revision is
      stored already; then nothing. */
  predicate MoveLogged(adjs: seq<Adjustment>, a: Window, p: Window, coreRevision: nat, now: Instant,
                       logged: seq<Adjustment>, adjusted: bool) {
    var move := ResetMove(now, a, p, coreRevision);
    && (adjusted <==> !AlreadyRecorded(adjs, move))
    && logged == if adjusted then Newest(adjs + [move], MAX_ADJUSTMENTS) else adjs
  }

  lemma LogMove(s: Slot, coreRevision: nat, t: Instant, now: Instant, p: Window, u: Usage)
    requires SlotInv(s, coreRevision, t) && t <= now && coreRevision >= 1 && Proposed(now, u) == Some(p)
    requires s.active.Some? && !Equivalent(s.active.value.resetsAt, p.resetsAt)
    requires MeaningfullyBefore(s.active.value.resetsAt, Unix(now))
    ensures var move := ResetMove(now, s.active.value, p, coreRevision);
            MoveLogged(s.adjs, s.active.value, p, coreRevision, now, AppendAdjustment(s.adjs, move), Records(s.adjs, move))
  {
    var move := ResetMove(now, s.active.value, p, coreRevision);
    ResetMoveValid(s.active.value, p, coreRevision, now, u);
    AppendAdjustmentKeeps(s.adjs, move, coreRevision, t, now);
    hide ValidAdjustment, AlreadyRecorded, AppendAdjustment;
  }

  /** An observation removes or moves the anchored window exactly when the reset moved by more than the
      tolerance. It then records the move, in mid-week, or the completed event, at the boundary, never
      both. A mid-week move goes unrecorded if and only if an adjustment about the same window against the
      same core revision is stored, a completed event if and only if the list is full of later ones. */
  lemma WindowConserved(s: Slot, coreRevision: nat, t: Instant, now: Instant, p: Window, u: Usage)
    requires SlotInv(s, coreRevision, t) && t <= now && coreRevision >= 1 && Proposed(now, u) == Some(p)
    requires s.active.Some?
    ensures var o := ObserveSlot(s, coreRevision, now, p);
            var a, out := s.active.value, o.slot;
            && (out.active.None? || out.active.value.resetsAt != a.resetsAt <==> !Equivalent(a.resetsAt, p.resetsAt))
            && (Equivalent(a.resetsAt, p.resetsAt) ==> out.events == s.events)
            && (!Equivalent(a.resetsAt, p.resetsAt) ==> out.active in {None, Some(p)} && o.changed)
            && (!Equivalent(a.resetsAt, p.resetsAt) && MeaningfullyBefore(a.resetsAt, Unix(now)) ==>
                  out.events == s.events && MoveLogged(s.adjs, a, p, coreRevision, now, out.adjs, o.adjusted))
            && (!Equivalent(a.resetsAt, p.resetsAt) && !MeaningfullyBefore(a.resetsAt, Unix(now)) ==>
                  out.adjs == s.adjs && !o.adjusted && (EventExists(out.events, a.resetsAt) <==> !Outranked(s.events, a.resetsAt)))
  {
    hide AppendAdjustment, AppendEvent, MoveLogged, EventsInv, AdjustmentsInv, ActiveInv, Records, Proposed;
    var a := s.active.value;
    if !Equivalent(a.resetsAt, p.resetsAt) {
      if MeaningfullyBefore(a.resetsAt, Unix(now)) {
        LogMove(s, coreRevision, t, now, p, u);
      } else {
        AppendEventExact(s.events, Completed(a, now), t);
      }
    }
  }

  /** On a slot all of whose adjustments the core file has absorbed, the trace of a moved reset
      is this very transition, recorded last. */
  lemma MoveRecorded(s: Slot, coreRevision: nat, t: Instant, now: Instant, p: Window, u: Usage)
    requires SlotInv(s, coreRevision, t) && t <= now && coreRevision >= 1 && Proposed(now, u) == Some(p)
    requires forall a :: a in s.adjs ==> a.coreRevisionBefore < coreRevision
    requires s.active.Some? && !Equivalent(s.active.value.resetsAt, p.resetsAt)
    requires MeaningfullyBefore(s.active.value.resetsAt, Unix(now))
    ensures var out := ObserveSlot(s, coreRevision, now, p);
            var move := ResetMove(now, s.active.value, p, coreRevision);
            out.changed && out.adjusted && out.slot.adjs == Newest(s.adjs + [move], MAX_ADJUSTMENTS)
  {
    hide SlotInv, ObserveSlot, Proposed;
    WindowConserved(s, coreRevision, t, now, p, u);
    assert forall i :: 0 <= i < |s.adjs| ==> s.adjs[i] in s.adjs;
  }

  // ----- a move that is dropped -----

  /** Tuesday, 14 November 2023, 22:13:20 UTC. */
  const SAMPLE_SECONDS := 1_700_000_000

  /** A week that resets some 28 hours after the sample time and was half used 50 minutes before it. */
  const SAMPLE_WEEK := SampleWindow(50, 0, SAMPLE_SECONDS - 3_000)

  function SampleUsage(used: int, shift: int): Usage {
    Usage(used, Some(WEEK_MINUTES), Some(SAMPLE_SECONDS + 100_000 + shift))
  }

  function SampleWindow(used: int, shift: int, at: int): Window {
    Window(SAMPLE_SECONDS + 100_000 + shift - WEEK_SECONDS, SAMPLE_SECONDS + 100_000 + shift, FromUnix(at), used)
  }

  lemma UnixOfFromUnix(seconds: int)
    ensures Unix(FromUnix(seconds)) == seconds
  {
  }

  lemma SampleProposed(used: int, shift: int)
    requires 0 <= used <= 100 && 0 <= shift <= 100_000
    ensures Proposed(FromUnix(SAMPLE_SECONDS), SampleUsage(used, shift)) == Some(SampleWindow(used, shift, SAMPLE_SECONDS))
    ensures Unix(FromUnix(SAMPLE_SECONDS)) == SAMPLE_SECONDS
  {
    hide Unix;
    UnixOfFromUnix(SAMPLE_SECONDS);
    UnixOfFromUnix(SAMPLE_SECONDS + 7 * 86_400 + 300);
    assert FromUnix(SAMPLE_SECONDS) + ACCEPT_HORIZON == FromUnix(SAMPLE_SECONDS + 7 * 86_400 + 300);
  }

  /** Unless the core file is rewritten in between, a fall of usage that is taken back hides a later move
      of the reset: the usage falls to 40, returns to 50, and then the reset moves by 4000 seconds. The
      window is replaced, but only the old fall is on record. */
  lemma DroppedMove()
    ensures var at := FromUnix(SAMPLE_SECONDS);
            var drop := UsageDrop(FromUnix(SAMPLE_SECONDS - 2_000), SAMPLE_WEEK, 40, 5);
            var s := ObserveRun(Slot(Some(SAMPLE_WEEK), [], [], None), 5,
                                [Reading(FromUnix(SAMPLE_SECONDS - 2_000), SampleWindow(40, 0, SAMPLE_SECONDS - 2_000)),
                                 Reading(FromUnix(SAMPLE_SECONDS - 1_000), SampleWindow(50, 0, SAMPLE_SECONDS - 1_000))]);
            var o := ObserveSlot(s, 5, at, SampleWindow(50, 4_000, SAMPLE_SECONDS));
            && s == Slot(Some(SAMPLE_WEEK), [], [drop], None) && SlotInv(s, 5, at)
            && Proposed(at, SampleUsage(50, 4_000)) == Some(SampleWindow(50, 4_000, SAMPLE_SECONDS))
            && MeaningfullyBefore(SAMPLE_WEEK.resetsAt, Unix(at))
            && !o.adjusted && o.slot == Slot(Some(SampleWindow(50, 4_000, SAMPLE_SECONDS)), [], [drop], None)
  {
    SampleProposed(50, 4_000);
    hide Unix, Proposed;
    var first := Reading(FromUnix(SAMPLE_SECONDS - 2_000), SampleWindow(40, 0, SAMPLE_SECONDS - 2_000));
    var second := Reading(FromUnix(SAMPLE_SECONDS - 1_000), SampleWindow(50, 0, SAMPLE_SECONDS - 1_000));
    var start := Slot(Some(SAMPLE_WEEK), [], [], None);
    assert [first, second][..1] == [first] && [first][..0] == [];
    assert ObserveRun(start, 5, [first]) == ObserveSlot(start, 5, first.now, first.window).slot;
  }

  // ----- jitter cannot accumulate -----

  datatype Reading = Reading(now: Instant, window: Window)

  /** A run of observations of one account. */
  function ObserveRun(s: Slot, coreRevision: nat, readings: seq<Reading>): Slot {
    if readings == [] then s
    else
      var last := readings[|readings| - 1];
      ObserveSlot(ObserveRun(s, coreRevision, readings[..|readings| - 1]), coreRevision, last.now, last.window).slot
  }

  /** However many reports within two minutes of the anchor arrive, the anchor's reset time,
      start and first observation never move, and no event is recorded. */
  lemma {:induction false} JitterNeverMovesAnchor(s: Slot, coreRevision: nat, readings: seq<Reading>)
    requires s.active.Some?
    requires forall r :: r in readings ==> Equivalent(s.active.value.resetsAt, r.window.resetsAt)
    ensures var out := ObserveRun(s, coreRevision, readings);
            && out.events == s.events && out.active.Some?
            && out.active.value == s.active.value.(used := out.active.value.used)
            && (readings != [] ==> out.active.value.used == readings[|readings| - 1].window.used)
  {
    if readings != [] {
      assert forall r :: r in readings[..|readings| - 1] ==> r in readings;
      JitterNeverMovesAnchor(s, coreRevision, readings[..|readings| - 1]);
      assert readings[|readings| - 1] in readings;
    }
  }

  // ----- handoffs -----

  /** What publicResetPoints accepts as an inferred early reset. */
  predicate InferredPoint(a: Adjustment) {
    && HasReason(a, ResetTimestampChanged) && HasReason(a, UsedPercentDecreased)
    && a.after.used < a.before.used
    && PlausibleTransition(a.before.firstObservedAt, a.after.startedAt, a.detectedAt)
  }

  /** Rebaselining records at most one adjustment, and that one projects to an inferred early
      reset; any event it records is the ordinary rollover of a window at its boundary. */
  lemma RebaselineOnlyInfers(s: Slot, coreRevision: nat, t: Instant, now: Instant, p: Window, u: Usage)
    requires SlotInv(s, coreRevision, t) && t <= now && coreRevision >= 1 && Proposed(now, u) == Some(p)
    ensures var out := RebaselineSlot(s, coreRevision, now, p).slot;
            && (forall a :: a in out.adjs && a !in s.adjs ==>
                  InferredPoint(a) && s.active == Some(a.before) && a.after == p && a.detectedAt == now)
            && (out.events != s.events ==> s.active.Some? && BoundaryRollover(s.active.value, now) && out.adjs == s.adjs)
  {
    if s.active.Some? && !Equivalent(s.active.value.resetsAt, p.resetsAt) && !BoundaryRollover(s.active.value, now) {
      InsertAdjustmentKeeps(s.adjs, ResetMove(now, s.active.value, p, coreRevision));
    }
  }

  /** A handoff to a different window records the mid-week move exactly when it is an inferable early
      reset that is not stored already, and the completed event exactly at the boundary; otherwise the old
      window is replaced and nothing at all is recorded. */
  lemma RebaselineForgetsOnlyAmbiguous(s: Slot, coreRevision: nat, t: Instant, now: Instant, p: Window, u: Usage)
    requires SlotInv(s, coreRevision, t) && t <= now && coreRevision >= 1 && Proposed(now, u) == Some(p)
    requires s.active.Some? && !Equivalent(s.active.value.resetsAt, p.resetsAt)
    ensures var o := RebaselineSlot(s, coreRevision, now, p);
            var a, out := s.active.value, o.slot;
            && (BoundaryRollover(a, now) ==>
                  out.adjs == s.adjs && (EventExists(out.events, a.resetsAt) <==> !Outranked(s.events, a.resetsAt)))
            && (!BoundaryRollover(a, now) && InferredEarly(a, now, p) ==>
                  out.events == s.events && MoveLogged(s.adjs, a, p, coreRevision, now, out.adjs, o.adjusted))
            && (!BoundaryRollover(a, now) && !InferredEarly(a, now, p) ==>
                  out.events == s.events && out.adjs == s.adjs && out.active in {None, Some(p)})
  {
    hide SlotInv, Proposed, ObserveSlot, MoveLogged, Outranked, EventExists;
    WindowConserved(s, coreRevision, t, now, p, u);
  }

  /** With all adjustments absorbed by the core file, a rebaseline to a different window forgets the old
      one, recording neither event nor adjustment, if and only if it is mid-week and no early reset can be
      inferred, or the boundary's event cannot be added. */
  lemma RebaselineForgetsIff(s: Slot, coreRevision: nat, t: Instant, now: Instant, p: Window, u: Usage)
    requires SlotInv(s, coreRevision, t) && t <= now && coreRevision >= 1 && Proposed(now, u) == Some(p)
    requires forall x :: x in s.adjs ==> x.coreRevisionBefore < coreRevision
    requires s.active.Some? && !Equivalent(s.active.value.resetsAt, p.resetsAt)
    ensures var a, out := s.active.value, RebaselineSlot(s, coreRevision, now, p).slot;
            !EventExists(out.events, a.resetsAt) && out.adjs == s.adjs <==>
            if BoundaryRollover(a, now) then Outranked(s.events, a.resetsAt)
            else !InferredEarly(a, now, p) && !EventExists(s.events, a.resetsAt)
  {
    hide SlotInv, Proposed, RebaselineSlot, Outranked, EventExists;
    RebaselineForgetsOnlyAmbiguous(s, coreRevision, t, now, p, u);
    var a := s.active.value;
    if !BoundaryRollover(a, now) && InferredEarly(a, now, p) {
      var move := ResetMove(now, a, p, coreRevision);
      assert forall i :: 0 <= i < |s.adjs| ==> s.adjs[i] in s.adjs;
      assert Newest(s.adjs + [move], MAX_ADJUSTMENTS)[|Newest(s.adjs + [move], MAX_ADJUSTMENTS)| - 1] == move;
      assert move !in s.adjs;
    }
  }

  /** For instance: half a week was used, and the next collector reports 60 used and a reset 4000 seconds
      later. The old window is gone, and nothing tells of it. */
  lemma ForgottenWindow()
    ensures var s, at, p := Slot(Some(SAMPLE_WEEK), [], [], None), FromUnix(SAMPLE_SECONDS), SampleWindow(60, 4_000, SAMPLE_SECONDS);
            && SlotInv(s, 5, at) && Proposed(at, SampleUsage(60, 4_000)) == Some(p)
            && MeaningfullyBefore(SAMPLE_WEEK.resetsAt, Unix(at))
            && RebaselineSlot(s, 5, at, p) == Outcome(Slot(Some(p), [], [], None), true, false)
  {
    SampleProposed(60, 4_000);
    hide Unix, Proposed;
  }
}
