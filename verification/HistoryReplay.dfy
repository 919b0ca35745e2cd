/** Replaying the sidecar: what one file pair says about one account. */
module HistoryReplay {
  import opened Common
  import opened HistoryModel
  import opened HistoryRules

  lemma {:induction false} SanitizeIdentity(adjs: seq<Adjustment>)
    requires forall a :: a in adjs ==> NotJitter(a)
    ensures SanitizeAdjustments(adjs) == adjs
  {
    if adjs != [] {
      var front := adjs[..|adjs| - 1];
      assert adjs == front + [adjs[|adjs| - 1]];
      assert adjs[|adjs| - 1] in adjs;
      SanitizeIdentity(front);
    }
  }

  /** Sanitizing leaves no reset change that is only jitter, and drops or rewrites nothing else. */
  lemma {:induction false} SanitizeRemovesJitter(adjs: seq<Adjustment>)
    ensures forall a :: a in SanitizeAdjustments(adjs) ==> NotJitter(a)
    ensures forall a :: a in adjs && NotJitter(a) ==> a in SanitizeAdjustments(adjs)
    ensures forall a :: a in SanitizeAdjustments(adjs) && a !in adjs ==>
              a.reasons == [UsedPercentDecreased] && a.after.used < a.before.used && a.after.resetsAt == a.before.resetsAt
  {
    if adjs != [] {
      var front := adjs[..|adjs| - 1];
      assert adjs == front + [adjs[|adjs| - 1]];
      SanitizeRemovesJitter(front);
    }
  }

  /** Adjustments recorded against other core revisions are never replayed. */
  lemma {:induction false} ReplayIgnoresOthers(active: Window, adjs: seq<Adjustment>, coreRevision: nat)
    requires forall a :: a in adjs ==> a.coreRevisionBefore != coreRevision
    ensures ReplayAll(active, adjs, coreRevision) == Replay(Some(active), active, false)
  {
    if adjs != [] {
      assert adjs[|adjs| - 1] in adjs;
      assert forall a :: a in adjs[..|adjs| - 1] ==> a in adjs;
      ReplayIgnoresOthers(active, adjs[..|adjs| - 1], coreRevision);
    }
  }

  /** A chain: the first adjustment starts at `start`, each one where the one before ended, all
      recorded against `coreRevision`. */
  predicate Chain(start: Window, chain: seq<Adjustment>, coreRevision: nat) {
    && (forall a :: a in chain ==> a.coreRevisionBefore == coreRevision)
    && (chain != [] ==> chain[0].before == start)
    && forall i :: 0 < i < |chain| ==> chain[i].before == chain[i - 1].after
  }

  /** The window an adjustment leaves anchored. */
  function Leaves(a: Adjustment): Option<Window> {
    if HasReason(a, ResetTimestampChanged) && a.after.used == 0 then None else Some(a.after)
  }

  /** A chain recorded since the last core write is replayed end to end, whatever absorbed
      adjustments precede it. */
  lemma {:induction false} ReplayChain(active: Window, absorbed: seq<Adjustment>, chain: seq<Adjustment>, coreRevision: nat)
    requires forall a :: a in absorbed ==> a.coreRevisionBefore != coreRevision
    requires Chain(active, chain, coreRevision)
    ensures var r := ReplayAll(active, absorbed + chain, coreRevision);
            if chain == [] then r == Replay(Some(active), active, false)
            else r == Replay(Leaves(chain[|chain| - 1]), chain[|chain| - 1].after, true)
  {
    if chain == [] {
      assert absorbed + chain == absorbed;
      ReplayIgnoresOthers(active, absorbed, coreRevision);
    } else {
      var front, last := chain[..|chain| - 1], chain[|chain| - 1];
      assert last in chain && forall a :: a in front ==> a in chain;
      ReplayChain(active, absorbed, front, coreRevision);
      assert (absorbed + chain)[..|absorbed + chain| - 1] == absorbed + front;
    }
  }

  /** At most the newest adjustment awaits the core file, and it starts from the core file's window. */
  predicate PendingOk(active: Option<Window>, adjs: seq<Adjustment>, coreRevision: nat) {
    && (forall i :: 0 <= i < |adjs| - 1 ==> adjs[i].coreRevisionBefore < coreRevision)
    && (Pending(adjs, coreRevision) ==> active == Some(adjs[|adjs| - 1].before))
  }

  predicate Pending(adjs: seq<Adjustment>, coreRevision: nat) {
    adjs != [] && adjs[|adjs| - 1].coreRevisionBefore == coreRevision
  }

  lemma ReplayPending(a: Account, adjs: seq<Adjustment>, coreRevision: nat)
    requires PendingOk(a.active, adjs, coreRevision)
    ensures ReplayAccount(a, adjs, coreRevision) ==
            if Pending(adjs, coreRevision) then a.(active := Leaves(adjs[|adjs| - 1])) else a
    ensures a.active.Some? ==> (ReplayAll(a.active.value, adjs, coreRevision).changed <==> Pending(adjs, coreRevision))
  {
    if a.active.Some? {
      if Pending(adjs, coreRevision) {
        var front, last := adjs[..|adjs| - 1], adjs[|adjs| - 1];
        assert forall x :: x in front ==> x.coreRevisionBefore != coreRevision;
        assert adjs == front + [last];
        assert Chain(a.active.value, [last], coreRevision);
        ReplayChain(a.active.value, front, [last], coreRevision);
      } else {
        assert forall x :: x in adjs ==> x.coreRevisionBefore != coreRevision;
        ReplayIgnoresOthers(a.active.value, adjs, coreRevision);
      }
    }
  }

  /** `after` has one newest adjustment more than `before`; it is pending, starts at the old
      window and leaves the new one. */
  predicate Recorded(before: Slot, after: Slot, coreRevision: nat) {
    && after.adjs != [] && after.adjs == Newest(before.adjs + [after.adjs[|after.adjs| - 1]], MAX_ADJUSTMENTS)
    && after.events == before.events
    && var a := after.adjs[|after.adjs| - 1];
       a.coreRevisionBefore == coreRevision && before.active == Some(a.before) && after.active == Leaves(a)
  }

  /** The outcome of a report as the sidecar sees it: one recorded transition, or none. */
  predicate SidecarTells(s: Slot, out: Outcome, coreRevision: nat) {
    if out.adjusted then out.changed && Recorded(s, out.slot, coreRevision) else out.slot.adjs == s.adjs
  }

  lemma AppendedAtEnd(adjs: seq<Adjustment>, a: Adjustment, coreRevision: nat, t: Instant, now: Instant)
    requires AdjustmentsInv(adjs, coreRevision, t) && t <= now && a.coreRevisionBefore <= coreRevision && a.detectedAt == now && NotJitter(a)
    ensures var r := AppendAdjustment(adjs, a);
            if Records(adjs, a) then r != [] && r[|r| - 1] == a && r == Newest(adjs + [a], MAX_ADJUSTMENTS) else r == adjs
  {
    AppendAdjustmentKeeps(adjs, a, coreRevision, t, now);
    hide AdjustmentsInv, Records;
  }

  lemma LeavesDrop(a: Adjustment)
    ensures a.reasons == [UsedPercentDecreased] ==> Leaves(a) == Some(a.after) && NotJitter(a)
  {
  }

  lemma DropTold(s: Slot, coreRevision: nat, t: Instant, now: Instant, p: Window)
    requires AdjustmentsInv(s.adjs, coreRevision, t) && t <= now && s.active.Some?
    requires Equivalent(s.active.value.resetsAt, p.resetsAt)
    ensures SidecarTells(s, ObserveSlot(s, coreRevision, now, p), coreRevision)
  {
    hide AppendAdjustment, Records, AdjustmentsInv, Equivalent, AlreadyRecorded, Newest;
    var drop := UsageDrop(now, s.active.value, p.used, coreRevision);
    LeavesDrop(drop);
    AppendedAtEnd(s.adjs, drop, coreRevision, t, now);
    var out := ObserveSlot(s, coreRevision, now, p);
    if out.adjusted {
      assert out.slot.adjs[|out.slot.adjs| - 1] == drop;
    }
  }

  lemma MoveTold(s: Slot, coreRevision: nat, t: Instant, now: Instant, p: Window)
    requires AdjustmentsInv(s.adjs, coreRevision, t) && t <= now && s.active.Some? && p.used >= 0
    requires !Equivalent(s.active.value.resetsAt, p.resetsAt)
    ensures SidecarTells(s, ObserveSlot(s, coreRevision, now, p), coreRevision)
  {
    if MeaningfullyBefore(s.active.value.resetsAt, Unix(now)) {
      var move := ResetMove(now, s.active.value, p, coreRevision);
      if Records(s.adjs, move) {
        AppendAdjustmentKeeps(s.adjs, move, coreRevision, t, now);
        var out := ObserveSlot(s, coreRevision, now, p);
        assert out.slot.adjs[|out.slot.adjs| - 1] == move;
        assert Leaves(move) == if p.used == 0 then None else Some(p);
      }
    }
  }

  /** What a report records in the sidecar replays to exactly the window it leaves in memory. */
  lemma ReportTold(s: Slot, coreRevision: nat, t: Instant, now: Instant, p: Window)
    requires AdjustmentsInv(s.adjs, coreRevision, t) && t <= now && p.used >= 0
    ensures SidecarTells(s, ObserveSlot(s, coreRevision, now, p), coreRevision)
    ensures SidecarTells(s, RebaselineSlot(s, coreRevision, now, p), coreRevision)
  {
    if s.active.Some? {
      if Equivalent(s.active.value.resetsAt, p.resetsAt) {
        DropTold(s, coreRevision, t, now, p);
      } else {
        MoveTold(s, coreRevision, t, now, p);
      }
    }
  }

  lemma PendingParts(active: Option<Window>, front: seq<Adjustment>, last: Adjustment, coreRevision: nat)
    ensures PendingOk(active, front + [last], coreRevision) <==>
            && (forall x :: x in front ==> x.coreRevisionBefore < coreRevision)
            && (last.coreRevisionBefore == coreRevision ==> active == Some(last.before))
    ensures Pending(front + [last], coreRevision) <==> last.coreRevisionBefore == coreRevision
  {
    var adjs := front + [last];
    assert forall i :: 0 <= i < |front| ==> adjs[i] == front[i] && front[i] in front;
    if PendingOk(active, adjs, coreRevision) {
      forall x | x in front ensures x.coreRevisionBefore < coreRevision {
        var i :| 0 <= i < |front| && front[i] == x;
        assert adjs[i] == x;
      }
    }
  }

  lemma AbsorbedOk(active: Option<Window>, adjs: seq<Adjustment>, coreRevision: nat)
    requires forall x :: x in adjs ==> x.coreRevisionBefore < coreRevision
    ensures PendingOk(active, adjs, coreRevision) && !Pending(adjs, coreRevision)
  {
    assert forall i :: 0 <= i < |adjs| ==> adjs[i] in adjs;
  }

  lemma KeepPending(active: Option<Window>, adjs: seq<Adjustment>, coreRevision: nat, cutoff: Instant)
    requires PendingOk(active, adjs, coreRevision)
    ensures PendingOk(active, KeepAdjustments(adjs, cutoff), coreRevision)
    ensures Pending(adjs, coreRevision) && adjs[|adjs| - 1].detectedAt >= cutoff ==>
              var kept := KeepAdjustments(adjs, cutoff); Pending(kept, coreRevision) && kept[|kept| - 1] == adjs[|adjs| - 1]
    ensures !Pending(adjs, coreRevision) ==> !Pending(KeepAdjustments(adjs, cutoff), coreRevision)
  {
    if adjs != [] {
      var front, last := adjs[..|adjs| - 1], adjs[|adjs| - 1];
      assert adjs == front + [last];
      hide PendingOk;
      PendingParts(active, front, last, coreRevision);
      KeepAdjustmentsElements(front, cutoff);
      var kept := KeepAdjustments(front, cutoff);
      assert kept + [] == kept;
      PendingParts(active, kept, last, coreRevision);
      AbsorbedOk(active, kept, coreRevision);
    }
  }

  // ----- an account that pruning empties -----

  predicate Dead(a: Account, t: Instant, retention: nat) {
    PruneAccount(a, t, retention) == Account(None, [])
  }

  lemma AppendBelow(events: seq<Event>, e: Event, t: Instant, cutoff: int)
    requires EventsInv(events, t) && ValidEvent(e) && e.detectedAt <= t
    ensures (forall x :: x in AppendEvent(events, e) ==> x.resetsAt < cutoff) <==>
            e.resetsAt < cutoff && (forall x :: x in events ==> x.resetsAt < cutoff)
  {
    if !EventExists(events, e.resetsAt) {
      InsertEventKeeps(events, e, t);
      var r := InsertEvent(events, e);
      var kept := Newest(r, MAX_EVENTS);
      assert kept[|kept| - 1] == r[|r| - 1];
      assert kept[|kept| - 1] in kept;
    } else {
      var i :| 0 <= i < |events| && events[i].resetsAt == e.resetsAt;
      assert events[i] in events;
    }
  }

  /** Emptiness in closed form. */
  lemma DeadIff(a: Account, t0: Instant, t: Instant, retention: nat)
    requires ActiveInv(a.active, t0) && EventsInv(a.events, t0) && t0 <= t
    ensures Dead(a, t, retention) <==>
              && (forall x :: x in a.events ==> x.resetsAt < Unix(t - retention))
              && (a.active.Some? ==> Settled(a.active.value.resetsAt, Unix(t)) && a.active.value.resetsAt < Unix(t - retention))
  {
    var settled := SettleActive(a, t);
    var cutoff := Unix(t - retention);
    if a.active.Some? && Settled(a.active.value.resetsAt, Unix(t)) {
      AppendEventKeeps(a.events, Completed(a.active.value, t), t);
      AppendBelow(a.events, Completed(a.active.value, t), t, cutoff);
    }
    EmptiedIff(settled.events, cutoff);
  }

  lemma EmptiedIff(events: seq<Event>, cutoff: int)
    requires Increasing(events)
    ensures KeepEvents(events, cutoff) == [] <==> forall x :: x in events ==> x.resetsAt < cutoff
  {
    KeepEventsElements(events, cutoff);
    KeepEventsIncreasing(events, cutoff);
    var kept := KeepEvents(events, cutoff);
    assert kept != [] ==> kept[0] in kept;
  }

  lemma DeadStaysDead(a: Account, t0: Instant, t: Instant, later: Instant, retention: nat)
    requires ActiveInv(a.active, t0) && EventsInv(a.events, t0) && t0 <= t <= later
    requires Dead(a, t, retention)
    ensures Dead(a, later, retention)
  {
    DeadIff(a, t0, t, retention);
    DeadIff(a, t0, later, retention);
  }

  // ----- pruning twice -----

  /** In an increasing list the last element is the latest, and appears nowhere else. */
  lemma LastIsLatest(a: seq<Event>)
    requires a != [] && Increasing(a)
    ensures Increasing(a[..|a| - 1])
    ensures forall z :: z in a ==> z.resetsAt <= a[|a| - 1].resetsAt
    ensures forall z :: z in a[..|a| - 1] <==> z in a && z != a[|a| - 1]
  {
    assert a == a[..|a| - 1] + [a[|a| - 1]];
  }

  lemma {:induction false} IncreasingUnique(a: seq<Event>, b: seq<Event>)
    requires Increasing(a) && Increasing(b)
    requires forall x :: x in a <==> x in b
    ensures a == b
  {
    if a == [] {
      assert forall i :: 0 <= i < |b| ==> b[i] in b;
    } else {
      assert a[0] in b;
      LastIsLatest(a);
      LastIsLatest(b);
      SameLast(a, b);
      var fa, fb := a[..|a| - 1], b[..|b| - 1];
      forall z ensures z in fa <==> z in fb {
        assert z in fa <==> z in a && z != a[|a| - 1];
        assert z in fb <==> z in b && z != b[|b| - 1];
      }
      IncreasingUnique(fa, fb);
      assert a == a[..|a| - 1] + [a[|a| - 1]] && b == b[..|b| - 1] + [b[|b| - 1]];
    }
  }

  lemma SameLast(a: seq<Event>, b: seq<Event>)
    requires a != [] && b != [] && Increasing(a) && Increasing(b)
    requires forall x :: x in a <==> x in b
    ensures a[|a| - 1] == b[|b| - 1]
  {
    var x, y := a[|a| - 1], b[|b| - 1];
    assert x in b && y in a;
    var i :| 0 <= i < |b| && b[i] == x;
    var j :| 0 <= j < |a| && a[j] == y;
    assert x.resetsAt == y.resetsAt;
  }

  lemma KeptSame(a: seq<Event>, b: seq<Event>, cutoff: int)
    requires Increasing(a) && Increasing(b)
    requires forall x: Event :: x.resetsAt >= cutoff ==> (x in a <==> x in b)
    ensures KeepEvents(a, cutoff) == KeepEvents(b, cutoff)
  {
    hide Increasing;
    KeepEventsElements(a, cutoff);
    KeepEventsElements(b, cutoff);
    KeepEventsIncreasing(a, cutoff);
    KeepEventsIncreasing(b, cutoff);
    IncreasingUnique(KeepEvents(a, cutoff), KeepEvents(b, cutoff));
  }

  /** Dropping expired events before completing a window, or only after, ends the same. */
  lemma AppendAfterKeep(events: seq<Event>, e: Event, t: Instant, c1: int, c2: int)
    requires EventsInv(events, t) && ValidEvent(e) && e.detectedAt <= t && c1 <= c2
    ensures KeepEvents(AppendEvent(KeepEvents(events, c1), e), c2) == KeepEvents(AppendEvent(events, e), c2)
  {
    var kept := KeepEvents(events, c1);
    KeepEventsElements(events, c1);
    KeepEventsIncreasing(events, c1);
    if kept != events {
      var low := DroppedOne(events, c1);
      var l, r := AppendEvent(kept, e), AppendEvent(events, e);
      AppendElements(events, e, t, c2);
      AppendElements(kept, e, t, c2);
      ExistsIff(events, e.resetsAt);
      ExistsIff(kept, e.resetsAt);
      assert forall x: Event :: x.resetsAt >= c2 ==> (x in l <==> x in r);
      AppendEventKeeps(events, e, t);
      AppendEventKeeps(kept, e, t);
      hide EventsInv, Increasing, KeepEvents, AppendEvent;
      KeptSame(l, r, c2);
    }
  }

  lemma ExistsIff(events: seq<Event>, resetAt: int)
    ensures EventExists(events, resetAt) <==> exists x :: x in events && x.resetsAt == resetAt
  {
    if EventExists(events, resetAt) {
      var i :| 0 <= i < |events| && events[i].resetsAt == resetAt;
      assert events[i] in events;
    }
  }

  lemma {:induction false} DroppedOne(events: seq<Event>, cutoff: int) returns (low: Event)
    requires KeepEvents(events, cutoff) != events
    ensures low in events && low.resetsAt < cutoff
  {
    var front, last := events[..|events| - 1], events[|events| - 1];
    assert events == front + [last];
    if last.resetsAt < cutoff {
      low := last;
    } else {
      low := DroppedOne(front, cutoff);
    }
  }

  /** Above a cutoff that some event lies below, or while there is room, appending adds just the event. */
  lemma AppendElements(events: seq<Event>, e: Event, t: Instant, cutoff: int)
    requires EventsInv(events, t) && ValidEvent(e) && e.detectedAt <= t
    requires |events| < MAX_EVENTS || exists x :: x in events && x.resetsAt < cutoff
    ensures forall x: Event :: x.resetsAt >= cutoff ==>
              (x in AppendEvent(events, e) <==> x in events || (x == e && !EventExists(events, e.resetsAt)))
  {
    if !EventExists(events, e.resetsAt) {
      InsertEventKeeps(events, e, t);
      var r := InsertEvent(events, e);
      if |r| > MAX_EVENTS {
        var low :| low in events && low.resetsAt < cutoff;
        assert low in r;
        assert r == [r[0]] + r[1..];
        assert r[0].resetsAt <= low.resetsAt;
      }
    }
  }
}
