/** When an unused (0%) window becomes anchored, over whole runs of one account. */
module HistoryAnchoring {
  import opened Common
  import opened HistoryModel
  import opened HistoryRules

  /** One thing that can happen to an account while the tracker runs. Only accepted reports appear. */
  datatype Step =
    | Observed(now: Instant, window: Window, coreRevision: nat)
    | Rebaselined(now: Instant, window: Window, coreRevision: nat)
    | Pruned(now: Instant, retention: nat)
  {
    predicate Report() {
      !Pruned?
    }
  }

  function ApplyStep(s: Slot, step: Step): Slot {
    match step
    case Observed(now, w, rev) => ObserveSlot(s, rev, now, w).slot
    case Rebaselined(now, w, rev) => RebaselineSlot(s, rev, now, w).slot
    case Pruned(now, retention) => PruneSlot(s, now, retention)
  }

  function Run(s: Slot, steps: seq<Step>): Slot {
    if steps == [] then s else ApplyStep(Run(s, steps[..|steps| - 1]), steps[|steps| - 1])
  }

  /** However an account runs on, no two of its adjustments tell of the same window against the same core
      revision: what a retry finds stored is never stored again. */
  lemma {:induction false} RunKeepsUnique(s: Slot, steps: seq<Step>)
    requires UniqueRecords(s.adjs)
    ensures UniqueRecords(Run(s, steps).adjs)
  {
    hide UniqueRecords, AppendAdjustment, KeepAdjustments, PruneAccount, AppendEvent;
    if steps != [] {
      var front := Run(s, steps[..|steps| - 1]);
      RunKeepsUnique(s, steps[..|steps| - 1]);
      match steps[|steps| - 1]
      case Observed(now, w, rev) => ObserveKeepsUnique(front, rev, now, w);
      case Rebaselined(now, w, rev) => ObserveKeepsUnique(front, rev, now, w);
      case Pruned(now, retention) => KeepAdjustmentsUnique(front.adjs, now - retention);
    }
  }

  lemma ObserveKeepsUnique(s: Slot, coreRevision: nat, now: Instant, p: Window)
    requires UniqueRecords(s.adjs)
    ensures UniqueRecords(ObserveSlot(s, coreRevision, now, p).slot.adjs)
    ensures UniqueRecords(RebaselineSlot(s, coreRevision, now, p).slot.adjs)
  {
    hide UniqueRecords, AppendAdjustment, AppendEvent;
    if s.active.Some? {
      AppendKeepsUnique(s.adjs, UsageDrop(now, s.active.value, p.used, coreRevision));
      AppendKeepsUnique(s.adjs, ResetMove(now, s.active.value, p, coreRevision));
    }
  }

  /** From step `i` on, every accepted report is of an unused window resetting at `resetsAt`. */
  predicate ZeroSpan(steps: seq<Step>, i: nat, resetsAt: int) {
    && i < |steps| && steps[i].Report()
    && forall j :: i <= j < |steps| && steps[j].Report() ==>
         steps[j].window.resetsAt == resetsAt && steps[j].window.used == 0
  }

  /** Accepted reports propose valid windows. */
  predicate Accepted(steps: seq<Step>) {
    forall step :: step in steps && step.Report() ==> ValidWindow(step.window)
  }

  /** A candidate remembers the first report of an uninterrupted span of unused reports. */
  lemma {:induction false} CandidateSpan(s: Slot, steps: seq<Step>)
    requires s.cand.None? && Accepted(steps)
    ensures var c := Run(s, steps).cand;
            c.Some? ==> (c.value.window.used == 0
              && exists i: nat :: ZeroSpan(steps, i, c.value.window.resetsAt) && steps[i].now == c.value.firstSeenAt)
  {
    hide ApplyStep;
    if steps != [] {
      var n := |steps| - 1;
      var front, step := steps[..n], steps[n];
      var before := Run(s, front);
      CandidateSpan(s, front);
      CandidateStep(before, step);
      var c := Run(s, steps).cand;
      if c.Some? {
        if Continues(before.cand, c.value) {
          var i: nat :| ZeroSpan(front, i, c.value.window.resetsAt) && front[i].now == c.value.firstSeenAt;
          assert ZeroSpan(steps, i, c.value.window.resetsAt);
        } else {
          assert ZeroSpan(steps, n, c.value.window.resetsAt);
        }
      }
    }
  }

  predicate Continues(before: Option<Candidate>, c: Candidate) {
    before.Some? && before.value.window == c.window && before.value.firstSeenAt == c.firstSeenAt
  }

  /** After a step, a candidate either continues the one before or starts with this step's report;
      a report of use, or of another reset, never continues one. */
  lemma CandidateStep(s: Slot, step: Step)
    requires step.Report() ==> ValidWindow(step.window)
    ensures var c := ApplyStep(s, step).cand;
            c.Some? ==>
              || (Continues(s.cand, c.value) && (step.Report() ==> step.window.used == 0 && step.window.resetsAt == c.value.window.resetsAt))
              || (step.Report() && c.value.window == step.window && step.window.used == 0 && c.value.firstSeenAt == step.now)
  {
  }

  /** Observing anchors an unused window only from a candidate that is old enough. */
  lemma ZeroAnchorStep(s: Slot, step: Step)
    requires step.Observed? && ValidWindow(step.window) && s.active.None?
    requires var after := ApplyStep(s, step).active; after.Some? && after.value.used == 0
    requires s.cand.Some? ==> s.cand.value.window.used == 0
    ensures step.window.used == 0 && s.cand.Some? && s.cand.value.window.resetsAt == step.window.resetsAt
    ensures step.now - s.cand.value.firstSeenAt >= STABLE_AFTER
    ensures ApplyStep(s, step).active == Some(s.cand.value.window.(firstObservedAt := s.cand.value.firstSeenAt))
  {
  }

  /** An anchor at 0% whose first observation is report `i`, the start of a span of unused reports. */
  predicate AnchoredSince(steps: seq<Step>, i: nat, anchor: Window) {
    && i < |steps| - 1 && ZeroSpan(steps, i, anchor.resetsAt)
    && steps[|steps| - 1].now - steps[i].now >= STABLE_AFTER && anchor.firstObservedAt == steps[i].now
  }

  /** Observing anchors an unused window only after an earlier accepted report, at least 90 seconds
      older, with the same reset time, and with no report of another reset or of any use between. */
  lemma ZeroAnchorNeedsStableSpan(s: Slot, front: seq<Step>, last: Step)
    requires s.cand.None? && Accepted(front + [last]) && last.Observed?
    requires Run(s, front).active.None?
    requires var after := ApplyStep(Run(s, front), last).active; after.Some? && after.value.used == 0
    ensures exists i: nat :: AnchoredSince(front + [last], i, ApplyStep(Run(s, front), last).active.value)
  {
    var steps := front + [last];
    var before := Run(s, front);
    hide Run;
    assert last in steps && forall x :: x in front ==> x in steps;
    CandidateSpan(s, front);
    ZeroAnchorStep(before, last);
    var c := before.cand.value;
    var i: nat :| ZeroSpan(front, i, c.window.resetsAt) && front[i].now == c.firstSeenAt;
    assert ZeroSpan(steps, i, c.window.resetsAt) by {
      assert forall j :: 0 <= j < |front| ==> steps[j] == front[j];
    }
    assert AnchoredSince(steps, i, ApplyStep(before, last).active.value);
  }

  predicate InOrder(readings: seq<Reading>) {
    forall i, j :: 0 <= i < j < |readings| ==> readings[i].now <= readings[j].now
  }

  /** Identical unused reports anchor the window exactly when they span 90 seconds; the anchor's
      first observation is the first of them. */
  lemma {:induction false} StableZeroAnchors(s: Slot, coreRevision: nat, readings: seq<Reading>)
    requires s.active.None? && s.cand.None? && readings != [] && InOrder(readings)
    requires forall r :: r in readings ==> r.window.used == 0 && r.window.resetsAt == readings[0].window.resetsAt
    ensures var out := ObserveRun(s, coreRevision, readings);
            var first, last := readings[0], readings[|readings| - 1];
            && out.events == s.events && out.adjs == s.adjs
            && (last.now - first.now < STABLE_AFTER ==>
                  out.active.None? && out.cand == Some(Candidate(first.window, first.now, last.now, |readings|)))
            && (last.now - first.now >= STABLE_AFTER ==>
                  out.active == Some(first.window.(firstObservedAt := first.now)) && out.cand.None?)
  {
    var n := |readings| - 1;
    if n == 0 {
      assert ObserveRun(s, coreRevision, readings[..0]) == s;
    } else {
      assert forall r :: r in readings[..n] ==> r in readings;
      StableZeroAnchors(s, coreRevision, readings[..n]);
      assert readings[n] in readings;
      assert readings[0] in readings;
      assert readings[..n][n - 1] == readings[n - 1];
    }
  }

  /** A sliding unused window, whose reset time differs between any two consecutive reports, is
      never anchored and leaves no event and no adjustment. */
  lemma {:induction false} SlidingZeroNeverAnchors(s: Slot, coreRevision: nat, readings: seq<Reading>)
    requires s.active.None? && s.cand.None?
    requires forall r :: r in readings ==> r.window.used == 0
    requires forall i :: 0 < i < |readings| ==> readings[i - 1].window.resetsAt != readings[i].window.resetsAt
    ensures var out := ObserveRun(s, coreRevision, readings);
            && out.active.None? && out.events == s.events && out.adjs == s.adjs
            && (readings == [] ==> out.cand.None?)
            && (readings != [] ==> out.cand.Some? && out.cand.value.window.resetsAt == readings[|readings| - 1].window.resetsAt)
  {
    if readings != [] {
      var n := |readings| - 1;
      assert forall r :: r in readings[..n] ==> r in readings;
      SlidingZeroNeverAnchors(s, coreRevision, readings[..n]);
      assert readings[n] in readings;
      if n > 0 { assert readings[..n][n - 1] == readings[n - 1]; }
    }
  }
}
