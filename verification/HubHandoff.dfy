/** From the hub to the history tracker: what the hub's deliveries can make the tracker record. */
module HubHandoff {
  import opened Common
  import opened HubHistory
  import opened HubTrace
  import HubModel
  import HistoryModel
  import HistoryRules
  import HistoryCommit
  import HistoryRecovery
  import HistoryDelivery
  import HistoryNumbers

  /** What the tracker reads of a delivered snapshot: its account and its weekly window. */
  function Reported(s: HubModel.Snapshot): HistoryCommit.Report {
    HistoryCommit.Report(if s.state.Ok? && s.account != "" then Some(s.account) else None,
                         if s.quota.main.None? then None
                         else Some(HistoryModel.Usage(s.quota.main.value.used, s.quota.main.value.minutes, s.quota.main.value.resetsAt)))
  }

  function Handed(m: HistoryCommit.Mem, now: Instant, retention: nat, u: Update): HistoryCommit.Mem {
    HistoryCommit.Deliver(m, now, retention, Reported(u.snapshot), u.rebaseline).mem
  }

  lemma PruneAddsNothing(s: HistoryModel.Slot, now: Instant, retention: nat)
    ensures forall a :: a in HistoryModel.PruneSlot(s, now, retention).adjs ==> a in s.adjs
  {
    HistoryRules.KeepAdjustmentsElements(s.adjs, now - retention);
    hide HistoryModel.PruneAccount;
  }

  /** An adjustment that a delivery adds is about the delivered account; if it was a rebaseline, it tells
      of an inferred early reset of the window that was anchored. */
  lemma AddedAdjustment(m: HistoryCommit.Mem, t: Instant, now: Instant, retention: nat, u: Update, k: string, x: HistoryModel.Adjustment)
    requires HistoryRecovery.MemInv(m, t) && t <= now
    requires x in HistoryCommit.SlotOf(Handed(m, now, retention, u), k).adjs && x !in HistoryCommit.SlotOf(m, k).adjs
    ensures u.snapshot.state.Ok? && u.snapshot.account == k
    ensures u.rebaseline ==>
              && HistoryRules.InferredPoint(x) && x.detectedAt == now
              && HistoryCommit.SlotOf(m, k).active == Some(x.before)
  {
    hide HistoryCommit.Deliver, HistoryCommit.SlotOf, HistoryModel.PruneSlot, HistoryModel.ObserveSlot, HistoryModel.RebaselineSlot,
      HistoryRules.InferredPoint, HistoryRecovery.SlotsInv, HistoryRules.SlotInv, HistoryCommit.Admitted;
    HistoryRecovery.MemKeys(m, t);
    var r := Reported(u.snapshot);
    var s := HistoryCommit.SlotOf(m, k);
    HistoryRecovery.DeliverSlots(m, now, retention, r, u.rebaseline, k);
    PruneAddsNothing(s, now, retention);
    if u.rebaseline {
      RebaselineAdds(m, t, now, retention, r, k, x);
    }
  }

  lemma RebaselineAdds(m: HistoryCommit.Mem, t: Instant, now: Instant, retention: nat, r: HistoryCommit.Report, k: string, x: HistoryModel.Adjustment)
    requires HistoryRecovery.MemInv(m, t) && t <= now && HistoryRecovery.Reaches(m, now, retention, r, k)
    requires x in HistoryRecovery.DeliverSlot(m, now, retention, r, true, k).adjs && x !in HistoryCommit.SlotOf(m, k).adjs
    ensures HistoryRules.InferredPoint(x) && x.detectedAt == now && HistoryCommit.SlotOf(m, k).active == Some(x.before)
  {
    hide HistoryModel.PruneSlot, HistoryModel.RebaselineSlot, HistoryRules.InferredPoint, HistoryRules.SlotInv, HistoryCommit.Admitted,
      HistoryRecovery.SlotsInv;
    HistoryRecovery.MemKeys(m, t);
    var s := HistoryCommit.SlotOf(m, k);
    var pruned := HistoryModel.PruneSlot(s, now, retention);
    var p := HistoryModel.Proposed(now, r.usage.value).value;
    PruneAddsNothing(s, now, retention);
    HistoryRecovery.PruneParts(s, now, retention);
    AnySlotInv(m, t, k);
    HistoryRecovery.PruneSlotKeeps(s, m.coreRevision, t, now, retention);
    HistoryRules.RebaselineOnlyInfers(pruned, m.coreRevision, now, now, p, r.usage.value);
  }

  lemma AnySlotInv(m: HistoryCommit.Mem, t: Instant, k: string)
    requires HistoryRecovery.MemInv(m, t)
    ensures HistoryRules.SlotInv(HistoryCommit.SlotOf(m, k), m.coreRevision, t)
  {
    HistoryRecovery.MemKeys(m, t);
    if k in m.accounts {
      HistoryRecovery.SlotsFacts(m, t, k);
    } else {
      HistoryRecovery.SlotOfAbsent(m, k);
    }
  }

  /** Handoffs cannot manufacture history. In any run of the hub, whatever well-formed memory a delivery
      meets: an adjustment it adds belongs to the delivered account, and unless it is an inferred early
      reset, the account's previous delivery came from the same collector, which has neither signed out
      nor reported an API key or another account since. */
  lemma HandoffsManufactureNothing(h: Hub, ops: seq<Op>, staleAfter: int, i: nat, key: string,
                                   m: HistoryCommit.Mem, t: Instant, now: Instant, retention: nat, k: string, x: HistoryModel.Adjustment)
    requires i < |ops| && h.observed == map[] && EntriesInv(h.entries) && ValidOps(ops) && key in RoundAt(h, ops, staleAfter, i)
    requires HistoryRecovery.MemInv(m, t) && t <= now
    requires x in HistoryCommit.SlotOf(Handed(m, now, retention, RoundAt(h, ops, staleAfter, i)[key]), k).adjs
    requires x !in HistoryCommit.SlotOf(m, k).adjs
    ensures k == key
    ensures HistoryRules.InferredPoint(x) ||
            (var last := LastDelivery(h, ops, staleAfter, i, key);
             && last.Some? && last.value < i && key in RoundAt(h, ops, staleAfter, last.value)
             && RoundAt(h, ops, staleAfter, last.value)[key].source == RoundAt(h, ops, staleAfter, i)[key].source
             && forall n :: last.value < n <= i ==> !Breaks(h, ops, staleAfter, n, RoundAt(h, ops, staleAfter, i)[key].source.username))
  {
    hide RoundAt, LastDelivery, Breaks, Handed, HistoryRules.InferredPoint, HistoryCommit.SlotOf, HistoryRecovery.MemInv, ValidOps, EntriesInv, HubAt;
    var u := RoundAt(h, ops, staleAfter, i)[key];
    AddedAdjustment(m, t, now, retention, u, k, x);
    DeliveredOwn(h, ops, staleAfter, i, key);
    if !u.rebaseline { ObserveNeverBridges(h, ops, staleAfter, i, key); }
  }

  /** The week a snapshot reports: its main window, when that is one of 10080 minutes with an acceptable reset. */
  predicate ReportsWeek(s: HubModel.Snapshot, now: Instant, resetsAt: int) {
    && s.state.Ok? && s.account != "" && s.quota.main.Some? && s.quota.main.value.minutes == Some(10080)
    && s.quota.main.value.resetsAt == Some(resetsAt) && 0 <= s.quota.main.value.used <= 100 && now != 0
    && Unix(now) < resetsAt <= Unix(now + HistoryDelivery.WEEK_AND_FIVE_MINUTES) && resetsAt > 604800
  }

  /** What a delivery shows: the account of the snapshot has the week that the snapshot's main window reports, or still
      waits for an unused one to prove stable; no other account changes but by pruning. */
  lemma HandedShown(m: HistoryCommit.Mem, t: Instant, now: Instant, retention: nat, u: Update, resetsAt: int)
    requires HistoryRecovery.MemInv(m, t) && t <= now && HistoryDelivery.HasRoom(m, u.snapshot.account)
    requires ReportsWeek(u.snapshot, now, resetsAt)
    ensures var s, post := HistoryCommit.SlotOf(m, u.snapshot.account), HistoryCommit.SlotOf(Handed(m, now, retention, u), u.snapshot.account);
            var week := HistoryModel.Window(resetsAt - 604800, resetsAt, now, u.snapshot.quota.main.value.used);
            && post.active == HistoryNumbers.AnchorAfter(s, u.rebaseline, now, retention, week)
            && post.cand == HistoryNumbers.CandidateAfter(s, u.rebaseline, now, retention, week)
  {
    hide HistoryCommit.Deliver, HistoryCommit.SlotOf, HistoryRecovery.MemInv, HistoryDelivery.HasRoom, HistoryNumbers.AnchorAfter,
      HistoryNumbers.CandidateAfter, Unix;
    HistoryNumbers.DeliveredShown(m, t, now, retention, Reported(u.snapshot), u.rebaseline, u.snapshot.account);
  }

  lemma AcceptableWeek(s: HubModel.Snapshot, now: Instant)
    ensures Reported(s).account.Some? && Reported(s).usage.Some? && HistoryDelivery.Acceptable(now, Reported(s).usage.value) ==>
              exists resetsAt :: ReportsWeek(s, now, resetsAt)
  {
    var r := Reported(s);
    if r.account.Some? && r.usage.Some? && HistoryDelivery.Acceptable(now, r.usage.value) {
      assert ReportsWeek(s, now, r.usage.value.resetsAt.value);
    }
  }

  /** A snapshot without a good account or a week leaves every account to pruning. */
  lemma HandedNothing(m: HistoryCommit.Mem, t: Instant, now: Instant, retention: nat, u: Update, k: string)
    requires HistoryRecovery.MemInv(m, t) && t <= now && retention >= 604_800 * SECOND && now != 0
    requires u.snapshot.account != k || forall resetsAt :: !ReportsWeek(u.snapshot, now, resetsAt)
    ensures HistoryCommit.SlotOf(Handed(m, now, retention, u), k).active ==
            var a := HistoryCommit.SlotOf(m, k).active;
            if a.Some? && Unix(now) >= a.value.resetsAt + 120 then None else a
    ensures HistoryCommit.SlotOf(Handed(m, now, retention, u), k).adjs ==
            HistoryModel.KeepAdjustments(HistoryCommit.SlotOf(m, k).adjs, now - retention)
  {
    hide HistoryCommit.Deliver, HistoryCommit.SlotOf, HistoryRecovery.MemInv, Unix, HistoryModel.KeepAdjustments, HistoryNumbers.KeepsDue,
      HistoryNumbers.Completing;
    var r := Reported(u.snapshot);
    AcceptableWeek(u.snapshot, now);
    HistoryNumbers.OthersPruned(m, t, now, retention, r, u.rebaseline, k);
  }

  /** From a collector's submission to the account's page: while the account listens to a consumer with an unbroken sign-in,
      no anchor reports and no two reporters contradict each other, a good report of that consumer with a used week is
      what the account shows, with the anchored week's own times when the reset is within two minutes. */
  lemma HeldReportShown(h: Hub, ops: seq<Op>, staleAfter: int, i: nat, key: string, name: string,
                        m: HistoryCommit.Mem, t: Instant, now: Instant, retention: nat, resetsAt: int)
    requires i < |ops| && Starts(h) && ValidOps(ops) && Timed(ops) && key != "" && staleAfter > 0
    requires HeldSource(h, ops, staleAfter, i, key) == Some(name) && AttachedAt(h, ops, i)
    requires By(ops[i], name) && GoodAt(ops, i, name) && ops[i].report.snapshot.account == key
    requires (forall v :: !AnchorReportsNow(h, ops, staleAfter, i, key, v)) && !Contradict(h, ops, staleAfter, i, key)
    requires HistoryRecovery.MemInv(m, t) && t <= now && HistoryDelivery.HasRoom(m, key)
    requires ReportsWeek(ops[i].report.snapshot, now, resetsAt) && ops[i].report.snapshot.quota.main.value.used > 0
    ensures key in RoundAt(h, ops, staleAfter, i)
    ensures var before := HistoryCommit.SlotOf(m, key).active;
            var used := ops[i].report.snapshot.quota.main.value.used;
            HistoryCommit.SlotOf(Handed(m, now, retention, RoundAt(h, ops, staleAfter, i)[key]), key).active ==
              if before.Some? && -120 <= before.value.resetsAt - resetsAt <= 120 then Some(before.value.(used := used))
              else Some(HistoryModel.Window(resetsAt - 604800, resetsAt, now, used))
  {
    hide HubAt, RoundAt, HeldSource, ValidOps, Contradict, AnchorReportsNow, HistoryCommit.SlotOf, Handed, HistoryRecovery.MemInv,
      HistoryDelivery.HasRoom, Latest;
    HeldReportDelivered(h, ops, staleAfter, i, key, name);
    HandedShown(m, t, now, retention, RoundAt(h, ops, staleAfter, i)[key], resetsAt);
  }
}
