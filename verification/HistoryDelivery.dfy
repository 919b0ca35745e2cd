/** Delivered reports, in plain numbers: which are accepted, what they show, when they anchor. */
module HistoryDelivery {
  import opened Common
  import opened HistoryModel
  import opened HistoryRules
  import opened HistoryCommit
  import opened HistoryRecovery
  import HistoryAnchoring
  import HistoryFaults
  import HistorySystem

  // ----- accepted reports -----

  const NINETY_SECONDS := 90_000_000_000
  const WEEK_AND_FIVE_MINUTES := 605_100_000_000_000

  /** A report is accepted exactly when it is of a week of 10080 minutes that resets in the future, within
      seven days and five minutes, and began after 1970, with a percentage used. */
  predicate Acceptable(now: Instant, u: Usage) {
    && u.durationMins == Some(10080) && u.resetsAt.Some? && now != 0 && 0 <= u.usedPercent <= 100
    && Unix(now) < u.resetsAt.value <= Unix(now + WEEK_AND_FIVE_MINUTES) && u.resetsAt.value > 604800
  }

  lemma AcceptedIff(now: Instant, u: Usage)
    ensures Proposed(now, u) == if Acceptable(now, u)
                                then Some(Window(u.resetsAt.value - 604800, u.resetsAt.value, now, u.usedPercent)) else None
  {
  }

  // ----- an unused window that is reported again and again -----

  /** What is known of an unused window reported since `first`, last at `last`, `count` times. */
  predicate Seen(s: Slot, w: Window, first: Instant, last: Instant, count: nat) {
    if last - first < NINETY_SECONDS then s.active.None? && s.cand == Some(Candidate(w, first, last, count))
    else s.active == Some(w.(firstObservedAt := first)) && s.cand.None?
  }

  lemma PruneKeepsSeen(s: Slot, now: Instant, retention: nat, w: Window, first: Instant, last: Instant, count: nat)
    requires Seen(s, w, first, last, count) && Unix(now) < w.resetsAt + 120 && now - retention <= last
    ensures Seen(PruneSlot(s, now, retention), w, first, last, count)
  {
    hide KeepEvents, KeepAdjustments;
  }

  lemma ObserveSeen(s: Slot, coreRevision: nat, now: Instant, p: Window, w: Window, first: Instant, last: Instant, count: nat)
    requires Seen(s, w, first, last, count) && w.used == 0 && p.used == 0 && p.resetsAt == w.resetsAt && first <= last <= now && count > 0
    ensures Seen(ObserveSlot(s, coreRevision, now, p).slot, w, first, now, count + 1)
  {
    hide AppendAdjustment, AppendEvent;
  }

  lemma FirstSeen(s: Slot, coreRevision: nat, now: Instant, p: Window)
    requires s.active.None? && s.cand.None? && p.used == 0
    ensures Seen(ObserveSlot(s, coreRevision, now, p).slot, p, now, now, 1)
    ensures Seen(RebaselineSlot(s, coreRevision, now, p).slot, p, now, now, 1)
  {
  }

  // ----- one account's steps -----

  /** The reports among the steps. */
  function Reports(steps: seq<HistoryAnchoring.Step>): (r: seq<HistoryAnchoring.Step>)
    ensures forall x :: x in r ==> !x.Pruned?
  {
    if steps == [] then []
    else
      var front, last := steps[..|steps| - 1], steps[|steps| - 1];
      if last.Pruned? then Reports(front) else Reports(front) + [last]
  }

  lemma {:induction false} ReportsAre(steps: seq<HistoryAnchoring.Step>)
    ensures forall r :: r in Reports(steps) ==> r in steps && !r.Pruned?
    ensures Reports(steps) == [] <==> forall x :: x in steps ==> x.Pruned?
  {
    if steps != [] {
      var front, last := steps[..|steps| - 1], steps[|steps| - 1];
      ReportsAre(front);
      assert steps == front + [last];
    }
  }

  /** Identical unused reports: the first of any kind, the others observations, in order of time; and the
      prunings between them come before the window's reset is 120 seconds past and while the latest report is
      inside the retention period. */
  predicate Repeated(steps: seq<HistoryAnchoring.Step>, resetsAt: int) {
    && (forall i :: 0 <= i < |steps| && !steps[i].Pruned? ==> steps[i].window.used == 0 && steps[i].window.resetsAt == resetsAt)
    && (forall i :: 0 <= i < |steps| && steps[i].Rebaselined? ==> Reports(steps[..i]) == [])
    && (forall i, j :: 0 <= i < j < |steps| ==> steps[i].now <= steps[j].now)
    && (forall i :: 0 <= i < |steps| && steps[i].Pruned? ==> Unix(steps[i].now) < resetsAt + 120)
    && (forall i :: 0 <= i < |steps| && steps[i].Pruned? && Reports(steps[..i]) != [] ==>
          steps[i].now - steps[i].retention <= Last(Reports(steps[..i])).now)
  }

  function Last(reports: seq<HistoryAnchoring.Step>): HistoryAnchoring.Step
    requires reports != []
  {
    reports[|reports| - 1]
  }

  lemma RepeatedFront(steps: seq<HistoryAnchoring.Step>, resetsAt: int)
    requires Repeated(steps, resetsAt) && steps != []
    ensures Repeated(steps[..|steps| - 1], resetsAt)
  {
    var front := steps[..|steps| - 1];
    forall i | 0 <= i < |front| ensures front[..i] == steps[..i] && front[i] == steps[i] {}
  }

  lemma {:induction false} RepeatedSeen(s: Slot, steps: seq<HistoryAnchoring.Step>, resetsAt: int)
    requires s.active.None? && s.cand.None? && Repeated(steps, resetsAt)
    ensures var out, reports := HistoryAnchoring.Run(s, steps), Reports(steps);
            if reports == [] then out.active.None? && out.cand.None?
            else
              && reports[0].window.used == 0 && reports[0].window.resetsAt == resetsAt && reports[0].now <= Last(reports).now
              && Seen(out, reports[0].window, reports[0].now, Last(reports).now, |reports|)
    decreases |steps|
  {
    hide HistoryAnchoring.ApplyStep, Seen;
    if steps != [] {
      var front, step := steps[..|steps| - 1], steps[|steps| - 1];
      RepeatedFront(steps, resetsAt);
      RepeatedSeen(s, front, resetsAt);
      ReportsAre(front);
      var before, reports := HistoryAnchoring.Run(s, front), Reports(front);
      if reports == [] {
        BlankStep(before, step);
      } else {
        assert reports[0] in reports && Last(reports) in reports;
        SeenStep(before, step, reports[0].window, reports[0].now, Last(reports).now, |reports|);
      }
    }
  }

  lemma BlankStep(s: Slot, step: HistoryAnchoring.Step)
    requires s.active.None? && s.cand.None? && (!step.Pruned? ==> step.window.used == 0)
    ensures var out := HistoryAnchoring.ApplyStep(s, step);
            if step.Pruned? then out.active.None? && out.cand.None? else Seen(out, step.window, step.now, step.now, 1)
  {
    hide Seen, KeepEvents, KeepAdjustments;
    if !step.Pruned? { FirstSeen(s, step.coreRevision, step.now, step.window); }
  }

  lemma SeenStep(s: Slot, step: HistoryAnchoring.Step, w: Window, first: Instant, last: Instant, count: nat)
    requires Seen(s, w, first, last, count) && first <= last <= step.now && count > 0 && !step.Rebaselined? && w.used == 0
    requires step.Observed? ==> step.window.used == 0 && step.window.resetsAt == w.resetsAt
    requires step.Pruned? ==> Unix(step.now) < w.resetsAt + 120 && step.now - step.retention <= last
    ensures var out := HistoryAnchoring.ApplyStep(s, step);
            if step.Pruned? then Seen(out, w, first, last, count) else Seen(out, w, first, step.now, count + 1)
  {
    if step.Pruned? {
      PruneKeepsSeen(s, step.now, step.retention, w, first, last, count);
    } else {
      ObserveSeen(s, step.coreRevision, step.now, step.window, w, first, last, count);
    }
    hide Seen, PruneSlot, ObserveSlot;
  }

  /** Identical unused reports anchor the window exactly when they span 90 seconds, with the times of the first
      of them, whatever prunings lie between; until then they are counted. */
  lemma RepeatedAnchors(s: Slot, steps: seq<HistoryAnchoring.Step>, resetsAt: int)
    requires s.active.None? && s.cand.None? && Repeated(steps, resetsAt) && Reports(steps) != []
    ensures var out, reports := HistoryAnchoring.Run(s, steps), Reports(steps);
            var first, last := reports[0], Last(reports);
            && (last.now - first.now >= 90_000_000_000 ==>
                  out.active == Some(first.window.(firstObservedAt := first.now)) && out.cand.None?)
            && (last.now - first.now < 90_000_000_000 ==>
                  out.active.None? && out.cand == Some(Candidate(first.window, first.now, last.now, |reports|)))
  {
    hide HistoryAnchoring.Run, Repeated;
    RepeatedSeen(s, steps, resetsAt);
  }

  // ----- whole runs of deliveries -----

  predicate About(a: HistorySystem.Action, k: Key) {
    a.Deliver? && a.report.account == Some(k)
  }

  /** The time of the latest report about the account. */
  function LatestAt(actions: seq<HistorySystem.Action>, k: Key): Instant {
    if actions == [] then 0
    else if About(actions[|actions| - 1], k) then actions[|actions| - 1].now
    else LatestAt(actions[..|actions| - 1], k)
  }

  function CountOf(actions: seq<HistorySystem.Action>, k: Key): nat {
    if actions == [] then 0
    else CountOf(actions[..|actions| - 1], k) + if About(actions[|actions| - 1], k) then 1 else 0
  }

  /** Deliveries of which those about the account, among them the first, report the same unused week; after
      the first they are observations. None comes when the reset has passed, or when the latest report about
      the account has left the retention period. Reads and other accounts' reports are as they may be. */
  predicate UnusedReports(actions: seq<HistorySystem.Action>, k: Key, resetsAt: int, retention: nat) {
    && actions != [] && About(actions[0], k)
    && (forall i :: 0 <= i < |actions| ==> actions[i].Deliver? && !actions[i].dies && Unix(actions[i].now) < resetsAt)
    && (forall i :: 0 <= i < |actions| && About(actions[i], k) ==> actions[i].report.usage == Some(Usage(0, Some(10080), Some(resetsAt))))
    && (forall i :: 0 < i < |actions| && About(actions[i], k) ==> !actions[i].rebaseline)
    && (forall i :: 0 < i < |actions| ==> actions[i].now - retention <= LatestAt(actions[..i], k))
    && 604800 < resetsAt <= Unix(actions[0].now + WEEK_AND_FIVE_MINUTES)
  }

  lemma UnusedFront(actions: seq<HistorySystem.Action>, k: Key, resetsAt: int, retention: nat)
    requires UnusedReports(actions, k, resetsAt, retention) && |actions| > 1
    ensures UnusedReports(actions[..|actions| - 1], k, resetsAt, retention)
  {
    var front := actions[..|actions| - 1];
    forall i | 0 <= i < |front| ensures front[..i] == actions[..i] && front[i] == actions[i] {}
  }

  lemma UnusedAccepted(now: Instant, first: Instant, resetsAt: int)
    requires Unix(now) < resetsAt && 604800 < resetsAt <= Unix(first + WEEK_AND_FIVE_MINUTES) && first <= now && now != 0
    ensures Proposed(now, Usage(0, Some(10080), Some(resetsAt))) == Some(Window(resetsAt - 604800, resetsAt, now, 0))
  {
    AcceptedIff(now, Usage(0, Some(10080), Some(resetsAt)));
    HistorySystem.UnixMonotone(first + WEEK_AND_FIVE_MINUTES, now + WEEK_AND_FIVE_MINUTES);
    hide Proposed;
  }

  /** There is room for the account: it is known, or fewer than 128 are. */
  predicate HasRoom(m: Mem, k: Key) {
    ValidKey(k) && (k in m.accounts || |m.accounts| < 128)
  }

  lemma RoomAdmits(m: Mem, t: Instant, now: Instant, retention: nat, r: Report, k: Key)
    requires MemInv(m, t) && t <= now && HasRoom(m, k) && r.account == Some(k)
    ensures k in Admitted(m, now, retention, r).mem.accounts
  {
    hide Prune, SlotsInv, ValidKey;
    var pruned := Prune(m, now, retention).mem;
    PruneKeeps(m, t, now, retention);
    if k in m.accounts && k !in pruned.accounts {
      SubsetSize(pruned.accounts.Keys + {k}, m.accounts.Keys);
      assert |pruned.accounts.Keys + {k}| == |pruned.accounts.Keys| + 1;
    }
  }

  lemma KnownAdmits(m: Mem, t: Instant, now: Instant, retention: nat, r: Report, k: Key)
    requires MemInv(m, t) && PruneSlot(SlotOf(m, k), now, retention) != Slot(None, [], [], None) && SlotOf(m, k) != Slot(None, [], [], None)
    ensures k in Admitted(m, now, retention, r).mem.accounts
  {
    hide PruneSlot, SlotsInv, Prune, Admitted;
    MemKeys(m, t);
    if k !in m.accounts { SlotOfAbsent(m, k); }
    PruneSlots(m, now, retention, k);
    AdmittedSlots(m, now, retention, r, k);
  }

  /** The slot of an account after one delivery, whatever becomes of the writes. */
  lemma StepSlot(m: Mem, d: Disk, t: Instant, a: HistorySystem.Action, retention: nat, k: Key)
    requires MemInv(m, t) && a.Deliver? && !a.dies
    ensures var s := HistorySystem.Step(HistorySystem.Running(m, d), a, retention);
            s.Running? && SlotOf(s.mem, k) == DeliverSlot(m, a.now, retention, a.report, a.rebaseline, k)
  {
    hide Deliver, DeliverSlot, SlotOf, SlotsInv, Commit;
    MemKeys(m, t);
    DeliverSlots(m, a.now, retention, a.report, a.rebaseline, k);
    HistorySystem.CommitSlots(Deliver(m, a.now, retention, a.report, a.rebaseline), d, a.sideOk, a.coreOk, k);
  }

  lemma FirstDelivery(m: Mem, t: Instant, a: HistorySystem.Action, retention: nat, k: Key, resetsAt: int)
    requires a.Deliver? && MemInv(m, t) && t <= a.now && a.now != 0 && HasRoom(m, k) && SlotOf(m, k).active.None? && SlotOf(m, k).cand.None?
    requires UnusedReports([a], k, resetsAt, retention)
    ensures Seen(DeliverSlot(m, a.now, retention, a.report, a.rebaseline, k), Window(resetsAt - 604800, resetsAt, a.now, 0), a.now, a.now, 1)
  {
    hide SlotOf, SlotsInv, Admitted, PruneSlot, Proposed, ObserveSlot, RebaselineSlot, Seen;
    var single := [a];
    assert About(single[0], k);
    RoomAdmits(m, t, a.now, retention, a.report, k);
    UnusedAccepted(a.now, a.now, resetsAt);
    var s := PruneSlot(SlotOf(m, k), a.now, retention);
    PruneBlank(SlotOf(m, k), a.now, retention);
    FirstSeen(s, m.coreRevision, a.now, Window(resetsAt - 604800, resetsAt, a.now, 0));
  }

  lemma PruneBlank(s: Slot, now: Instant, retention: nat)
    requires s.active.None? && s.cand.None?
    ensures PruneSlot(s, now, retention).active.None? && PruneSlot(s, now, retention).cand.None?
  {
    hide KeepEvents, KeepAdjustments;
  }

  lemma LaterDelivery(m: Mem, t: Instant, a: HistorySystem.Action, retention: nat, k: Key, resetsAt: int, first: Instant, last: Instant, count: nat)
    requires MemInv(m, t) && a.Deliver? && a.now != 0 && first <= last <= a.now && count > 0
    requires 604800 < resetsAt <= Unix(first + WEEK_AND_FIVE_MINUTES) && Unix(a.now) < resetsAt && a.now - retention <= last
    requires About(a, k) ==> a.report.usage == Some(Usage(0, Some(10080), Some(resetsAt))) && !a.rebaseline
    requires Seen(SlotOf(m, k), Window(resetsAt - 604800, resetsAt, first, 0), first, last, count)
    ensures var out := DeliverSlot(m, a.now, retention, a.report, a.rebaseline, k);
            if About(a, k) then Seen(out, Window(resetsAt - 604800, resetsAt, first, 0), first, a.now, count + 1)
            else Seen(out, Window(resetsAt - 604800, resetsAt, first, 0), first, last, count)
  {
    hide SlotOf, SlotsInv, Admitted, PruneSlot, Proposed, ObserveSlot, RebaselineSlot, Seen, Deliver;
    var w := Window(resetsAt - 604800, resetsAt, first, 0);
    var s := PruneSlot(SlotOf(m, k), a.now, retention);
    PruneKeepsSeen(SlotOf(m, k), a.now, retention, w, first, last, count);
    if About(a, k) {
      SeenIsSomething(s, w, first, last, count);
      SeenIsSomething(SlotOf(m, k), w, first, last, count);
      KnownAdmits(m, t, a.now, retention, a.report, k);
      UnusedAccepted(a.now, first, resetsAt);
      ObserveSeen(s, m.coreRevision, a.now, Window(resetsAt - 604800, resetsAt, a.now, 0), w, first, last, count);
    }
  }

  lemma SeenIsSomething(s: Slot, w: Window, first: Instant, last: Instant, count: nat)
    requires Seen(s, w, first, last, count)
    ensures s != Slot(None, [], [], None)
  {
  }

  lemma {:induction false} DeliveredSeen(m: Mem, d: Disk, t: Instant, actions: seq<HistorySystem.Action>, retention: nat, k: Key, resetsAt: int)
    requires HistoryFaults.FaultyInv(HistorySystem.Running(m, d), t) && HistorySystem.ClockOk(actions, t)
    requires UnusedReports(actions, k, resetsAt, retention) && HasRoom(m, k) && SlotOf(m, k).active.None? && SlotOf(m, k).cand.None?
    ensures var s, first, last := HistorySystem.Run(HistorySystem.Running(m, d), actions, retention), actions[0].now, LatestAt(actions, k);
            && s.Running? && first <= last <= HistorySystem.Clock(actions, t) && CountOf(actions, k) > 0
            && Seen(SlotOf(s.mem, k), Window(resetsAt - 604800, resetsAt, first, 0), first, last, CountOf(actions, k))
    decreases |actions|
  {
    hide HistorySystem.Step, SlotsInv, HistoryRecovery.FilesInv, Seen, SlotOf, DeliverSlot, HasRoom;
    var front, a := actions[..|actions| - 1], actions[|actions| - 1];
    var before := HistorySystem.Run(HistorySystem.Running(m, d), front, retention);
    assert HistorySystem.ClockOk(front, t);
    HistoryFaults.AnyRunKeeps(HistorySystem.Running(m, d), front, t, retention);
    if |actions| == 1 {
      assert actions == [a];
      FirstDelivery(m, t, a, retention, k, resetsAt);
      StepSlot(m, d, t, a, retention, k);
    } else {
      UnusedFront(actions, k, resetsAt, retention);
      DeliveredSeen(m, d, t, front, retention, k, resetsAt);
      LaterDelivery(before.mem, HistorySystem.Clock(front, t), a, retention, k, resetsAt, actions[0].now, LatestAt(front, k), CountOf(front, k));
      StepSlot(before.mem, before.disk, HistorySystem.Clock(front, t), a, retention, k);
    }
  }

  /** End to end: when the deliveries to a running tracker report an account's week as unused with the same
      reset time again and again, then, whatever writes fail and whatever else is delivered or read between,
      the week is anchored exactly when the reports about it span 90 seconds, as first seen by the first. */
  lemma DeliveredUnusedAnchors(m: Mem, d: Disk, t: Instant, actions: seq<HistorySystem.Action>, retention: nat, k: Key, resetsAt: int)
    requires HistoryFaults.FaultyInv(HistorySystem.Running(m, d), t) && HistorySystem.ClockOk(actions, t)
    requires UnusedReports(actions, k, resetsAt, retention) && ValidKey(k) && (k in m.accounts || |m.accounts| < 128)
    requires SlotOf(m, k).active.None? && SlotOf(m, k).cand.None?
    ensures var s, first, last := HistorySystem.Run(HistorySystem.Running(m, d), actions, retention), actions[0].now, LatestAt(actions, k);
            var week := Window(resetsAt - 604800, resetsAt, first, 0);
            && s.Running?
            && (last - first >= 90_000_000_000 ==> SlotOf(s.mem, k).active == Some(week) && SlotOf(s.mem, k).cand.None?)
            && (last - first < 90_000_000_000 ==>
                  SlotOf(s.mem, k).active.None? && SlotOf(s.mem, k).cand == Some(Candidate(week, first, last, CountOf(actions, k))))
  {
    hide HistorySystem.Run, UnusedReports, SlotOf, HistoryFaults.FaultyInv, ValidKey;
    DeliveredSeen(m, d, t, actions, retention, k, resetsAt);
  }
}
