/** The tracker and its two files over whole runs, with the process allowed to die before, between
    or after the writes of any commit, including the commit made while opening. */
module HistorySystem {
  import opened Common
  import opened HistoryModel
  import opened HistoryRules
  import opened HistoryReplay
  import opened HistoryCommit
  import opened HistoryRecovery
  import opened HistoryOpening
  import HistoryAnchoring

  datatype System = Running(mem: Mem, disk: Disk) | Down(disk: Disk)

  /** `sideOk` and `coreOk` say which of the writes a commit attempts take effect; a delivery
      without an account is the pruning that reading a snapshot does. */
  datatype Action =
    | Deliver(now: Instant, report: Report, rebaseline: bool, sideOk: bool, coreOk: bool, dies: bool)
    | Stop
    | Start(now: Instant, sideOk: bool, coreOk: bool)

  function Step(s: System, a: Action, retention: nat): System {
    match a
    case Deliver(now, report, rebaseline, sideOk, coreOk, dies) =>
      if s.Down? then s
      else
        var done := Commit(HistoryCommit.Deliver(s.mem, now, retention, report, rebaseline), s.disk, sideOk, coreOk);
        if dies then Down(done.disk) else Running(done.mem, done.disk)
    case Stop => Down(s.disk)
    case Start(now, sideOk, coreOk) =>
      if s.Running? then s
      else
        var o := Open(s.disk, now, retention, sideOk, coreOk);
        if o.tracker.Some? then Running(o.tracker.value, o.disk) else Down(o.disk)
  }

  function Run(s: System, actions: seq<Action>, retention: nat): System {
    if actions == [] then s else Step(Run(s, actions[..|actions| - 1], retention), actions[|actions| - 1], retention)
  }

  /** A write only goes missing when the process dies with it. */
  predicate FaultFree(a: Action) {
    a.Deliver? ==> (a.sideOk && a.coreOk) || a.dies
  }

  function Time(a: Action, t: Instant): Instant {
    if a.Stop? then t else a.now
  }

  function Clock(actions: seq<Action>, t: Instant): Instant {
    if actions == [] then t else Time(actions[|actions| - 1], Clock(actions[..|actions| - 1], t))
  }

  /** The clock never runs backwards. */
  predicate ClockOk(actions: seq<Action>, t: Instant) {
    actions == [] ||
    var front := actions[..|actions| - 1];
    ClockOk(front, t) && Clock(front, t) <= Time(actions[|actions| - 1], Clock(front, t))
    && !IsZero(Time(actions[|actions| - 1], Clock(front, t)))
  }

  predicate SystemInv(s: System, t: Instant, retention: nat) {
    match s
    case Running(m, d) => MemInv(m, t) && Clean(m, d)
    case Down(d) => DownInv(d, t, retention)
  }

  // ----- every step keeps the invariant -----

  lemma DeliverStep(m: Mem, d: Disk, t: Instant, now: Instant, retention: nat, r: Report, rebaseline: bool, sideOk: bool, coreOk: bool)
    requires MemInv(m, t) && Clean(m, d) && t <= now
    ensures var done := Commit(HistoryCommit.Deliver(m, now, retention, r, rebaseline), d, sideOk, coreOk);
            && DownInv(done.disk, now, retention)
            && (sideOk && coreOk ==> MemInv(done.mem, now) && Clean(done.mem, done.disk))
  {
    hide HistoryCommit.Deliver, DownInv, FilesInv, SlotsInv;
    var c := HistoryCommit.Deliver(m, now, retention, r, rebaseline);
    DeliverCommittable(m, d, t, now, retention, r, rebaseline);
    CommittableFrame(m, d, c, now, retention);
    CommitKeeps(c, d, now, true, true);
    PersistedClean(m, d, c, now, retention);
    HalfIsDown(m, d, c, t, now, retention);
    CommitDisks(c, d, now, sideOk, coreOk);
    hide Committable, MemInv, Clean, Commit;
    CleanIsDown(m, d, t, retention);
    DownLater(d, t, now, retention);
    var done := Commit(c, d, true, true);
    CleanIsDown(done.mem, done.disk, now, retention);
    CommitSame(c, d, sideOk, coreOk);
  }

  lemma CommitSame(c: Change, d: Disk, sideOk: bool, coreOk: bool)
    ensures sideOk && coreOk ==> Commit(c, d, sideOk, coreOk) == Commit(c, d, true, true)
  {
  }

  lemma CommittableFrame(m: Mem, d: Disk, c: Change, now: Instant, retention: nat)
    requires Clean(m, d) && Committable(m, c, now, retention)
    ensures MemInv(c.mem, now) && !c.mem.dirty && !c.mem.adjustmentsDirty
  {
    hide SlotsInv, PendingOk, Pending, Dead;
  }

  lemma StepKeeps(s: System, a: Action, t: Instant, retention: nat)
    requires SystemInv(s, t, retention) && FaultFree(a) && t <= Time(a, t) && !IsZero(Time(a, t))
    ensures SystemInv(Step(s, a, retention), Time(a, t), retention)
  {
    hide MemInv, Clean, DownInv, FilesInv, Open, Commit, HistoryCommit.Deliver;
    match a
    case Deliver(now, report, rebaseline, sideOk, coreOk, dies) =>
      if s.Running? {
        DeliverStep(s.mem, s.disk, t, now, retention, report, rebaseline, sideOk, coreOk);
      } else {
        DownLater(s.disk, t, now, retention);
      }
    case Stop =>
      if s.Running? {
        CleanIsDown(s.mem, s.disk, t, retention);
      }
    case Start(now, sideOk, coreOk) =>
      if s.Down? {
        OpenSucceeds(s.disk, t, now, retention, sideOk, coreOk);
      } else {
        LaterKeeps(s.mem, t, now);
      }
  }

  lemma LaterKeeps(m: Mem, t: Instant, now: Instant)
    requires MemInv(m, t) && t <= now
    ensures MemInv(m, now)
  {
    SlotsInvLater(m, t, now);
    hide SlotsInv;
  }

  /** Over every run of deliveries, stops, crashes and restarts: a running tracker is well-formed,
      agrees with its files, and has no unabsorbed adjustment; a stopped one can be opened. */
  lemma {:induction false} RunKeeps(s: System, actions: seq<Action>, t: Instant, retention: nat)
    requires SystemInv(s, t, retention) && ClockOk(actions, t)
    requires forall a :: a in actions ==> FaultFree(a)
    ensures SystemInv(Run(s, actions, retention), Clock(actions, t), retention)
  {
    hide SystemInv, Step, FaultFree;
    if actions != [] {
      var front, last := actions[..|actions| - 1], actions[|actions| - 1];
      assert last in actions && forall a :: a in front ==> a in actions;
      RunKeeps(s, front, t, retention);
      StepKeeps(Run(s, front, retention), last, Clock(front, t), retention);
    }
  }

  /** A machine that never ran the tracker, and one whose core file predates the sidecar, may start. */
  lemma FreshInv(core: Option<CoreFile>, t: Instant, retention: nat)
    requires core.Some? ==> CoreInv(core.value, t)
    ensures SystemInv(Down(Disk(core, None)), t, retention)
  {
    hide ValidKey, EventsInv, ActiveInv;
    var d := Disk(core, None);
    if core.Some? {
      assert |core.value.accounts.Keys| == |core.value.accounts|;
      hide Dead;
      SubsetSize(Survivors(d, t, retention), core.value.accounts.Keys);
    }
  }

  /** In every reachable stopped state, an attempt to open whose writes succeed yields a tracker. */
  lemma OpenAlwaysSucceeds(actions: seq<Action>, t: Instant, now: Instant, retention: nat)
    requires ClockOk(actions, t) && Clock(actions, t) <= now && !IsZero(now)
    requires forall a :: a in actions ==> FaultFree(a)
    requires Run(Down(Disk(None, None)), actions, retention).Down?
    ensures Open(Run(Down(Disk(None, None)), actions, retention).disk, now, retention, true, true).tracker.Some?
  {
    FreshInv(None, t, retention);
    RunKeeps(Down(Disk(None, None)), actions, t, retention);
    hide Run, DownInv, FilesInv, Open;
    OpenSucceeds(Run(Down(Disk(None, None)), actions, retention).disk, Clock(actions, t), now, retention, true, true);
  }

  // ----- what the files say about one account -----

  function Stored(s: Slot): Slot {
    s.(cand := None)
  }

  /** Clean files say exactly what memory says: reopening them replays nothing. */
  lemma CleanRecovers(m: Mem, d: Disk, t: Instant, k: Key)
    requires MemInv(m, t) && Clean(m, d)
    ensures RecoveredSlot(d, k) == Stored(SlotOf(m, k))
    ensures !Pending(SideAdjustments(d, k), CoreRevision(d))
  {
    MemKeys(m, t);
    hide MemInv, ReplayAll;
    assert CoreAccount(d, k) == Account(SlotOf(m, k).active, SlotOf(m, k).events);
    assert SideAdjustments(d, k) == SlotOf(m, k).adjs;
    AbsorbedOk(SlotOf(m, k).active, SlotOf(m, k).adjs, m.coreRevision);
    ReplayPending(CoreAccount(d, k), SideAdjustments(d, k), m.coreRevision);
  }

  /** A new sidecar over the old core file. */
  lemma HalfRecovers(m: Mem, d: Disk, c: Change, t: Instant, now: Instant, retention: nat, k: Key)
    requires MemInv(m, t) && Clean(m, d) && Committable(m, c, now, retention)
    ensures var pre, post := SlotOf(m, k), SlotOf(c.mem, k);
            RecoveredSlot(d.(side := Some(SideOf(Marked(c)))), k) ==
              Slot(if Pending(post.adjs, m.coreRevision) then Leaves(post.adjs[|post.adjs| - 1]) else pre.active,
                   pre.events, post.adjs, None)
  {
    hide MemInv, ReplayAll, Leaves, PendingOk, Pending, Committable, ReplayAccount;
    MemKeys(m, t);
    CommittablePending(m, c, now, retention, k);
    HalfParts(m, d, c, k);
    var half := d.(side := Some(SideOf(Marked(c))));
    hide CoreAccount, SideAdjustments, SlotOf, Clean;
    ReplayPending(CoreAccount(half, k), SideAdjustments(half, k), m.coreRevision);
  }

  lemma CommittablePending(m: Mem, c: Change, now: Instant, retention: nat, k: Key)
    requires Committable(m, c, now, retention)
    ensures PendingOk(SlotOf(m, k).active, SlotOf(c.mem, k).adjs, m.coreRevision)
  {
    hide MemInv, Dead;
  }

  lemma HalfParts(m: Mem, d: Disk, c: Change, k: Key)
    requires Clean(m, d)
    ensures var half := d.(side := Some(SideOf(Marked(c))));
            && CoreAccount(half, k) == Account(SlotOf(m, k).active, SlotOf(m, k).events)
            && SideAdjustments(half, k) == SlotOf(c.mem, k).adjs && CoreRevision(half) == m.coreRevision
  {
  }

  /** Opening gives each account what the files say, pruned. */
  lemma OpenGives(d: Disk, t: Instant, now: Instant, retention: nat, k: Key)
    requires DownInv(d, t, retention) && t <= now && !IsZero(now)
    ensures var o := Open(d, now, retention, true, true);
            o.tracker.Some? && SlotOf(o.tracker.value, k) == PruneSlot(RecoveredSlot(d, k), now, retention)
  {
    hide DownInv, FilesInv, Recovered, RecoveredSlot, PruneSlot, ValidSide, ValidCore, Openable;
    DownFiles(d, t, retention);
    OpenIs(d, t, now, retention, true, true);
    RecoveredOpenable(d, t, now, retention);
    OpenedClean(d, Recovered(d, now, retention), now, retention);
    RecoveredSlots(d, t, now, retention, k);
    hide Clean, MemInv;
  }

  // ----- crash atomicity -----

  lemma UnixMonotone(a: Instant, b: Instant)
    requires a <= b
    ensures Unix(a) <= Unix(b)
  {
  }

  /** Pruning now and again later: the adjustments come out as if pruned once. */
  lemma PreCut(pre: Slot, adjs: seq<Adjustment>, now: Instant, later: Instant, retention: nat)
    requires now <= later && adjs == KeepAdjustments(pre.adjs, now - retention)
    ensures PruneSlot(Slot(pre.active, pre.events, adjs, None), later, retention) == PruneSlot(Stored(pre), later, retention)
  {
    KeepAdjustmentsTwice(pre.adjs, now - retention, later - retention);
    hide PruneAccount;
  }

  /** Pruned events plus later expiry come out as if expired once. */
  lemma PostCut(active: Option<Window>, events: seq<Event>, t: Instant, now: Instant, later: Instant, retention: nat)
    requires EventsInv(events, t) && ActiveInv(active, later) && t <= now <= later
    ensures PruneAccount(Account(active, events), later, retention) ==
            PruneAccount(Account(active, KeepEvents(events, Unix(now - retention))), later, retention)
  {
    UnixMonotone(now - retention, later - retention);
    if active.Some? && Settled(active.value.resetsAt, Unix(later)) {
      EventsInvLater(events, t, later);
      CompletedValid(active.value, later);
      AppendAfterKeep(events, Completed(active.value, later), later, Unix(now - retention), Unix(later - retention));
    } else {
      KeepEventsTwice(events, Unix(now - retention), Unix(later - retention));
    }
  }

  lemma CompletedValid(a: Window, now: Instant)
    requires ValidWindow(a) && Settled(a.resetsAt, Unix(now))
    ensures ValidEvent(Completed(a, now))
  {
  }

  /** Before the core file is written, an account shows its old state unless the sidecar holds a
      transition for it, in which case it already shows the new one. */
  lemma HalfIsPreOrPost(m: Mem, d: Disk, t: Instant, now: Instant, retention: nat, r: Report, rebaseline: bool, later: Instant, k: Key)
    requires MemInv(m, t) && Clean(m, d) && t <= now <= later
    ensures var c := HistoryCommit.Deliver(m, now, retention, r, rebaseline);
            var half := d.(side := Some(SideOf(Marked(c))));
            var told := Pending(SlotOf(c.mem, k).adjs, m.coreRevision);
            PruneSlot(RecoveredSlot(half, k), later, retention) ==
              PruneSlot(Stored(SlotOf(if told then c.mem else m, k)), later, retention)
  {
    hide HistoryCommit.Deliver, Clean, MemInv, PruneSlot, RecoveredSlot, ObserveSlot, RebaselineSlot, Leaves, Committable, AdjustmentsInv, SidecarTells, Pending, SlotOf;
    var c := HistoryCommit.Deliver(m, now, retention, r, rebaseline);
    DeliverCommittable(m, d, t, now, retention, r, rebaseline);
    HalfRecovers(m, d, c, t, now, retention, k);
    MemKeys(m, t);
    DeliverSlots(m, now, retention, r, rebaseline, k);
    PruneSlotAbsorbed(m, d, t, now, retention, k);
    DeliverAdjustments(m, d, t, now, retention, r, rebaseline, k);
    var pre, post := SlotOf(m, k), SlotOf(c.mem, k);
    var s := PruneSlot(pre, now, retention);
    if Reaches(m, now, retention, r, k) {
      var p := Proposed(now, r.usage.value).value;
      var out := ReportSlot(s, m.coreRevision, now, p, rebaseline);
      hide PendingOk, Reaches;
      ReportTold(s, m.coreRevision, now, now, p);
      ToldPending(s, out, m.coreRevision);
      ToldCut(pre, s, out, m.coreRevision, t, now, later, retention, k, m);
    } else {
      AbsorbedOk(s.active, s.adjs, m.coreRevision);
      PruneParts(pre, now, retention);
      PreCut(pre, s.adjs, now, later, retention);
    }
  }

  lemma DeliverAdjustments(m: Mem, d: Disk, t: Instant, now: Instant, retention: nat, r: Report, rebaseline: bool, k: Key)
    requires MemInv(m, t) && t <= now
    ensures AdjustmentsInv(SlotOf(HistoryCommit.Deliver(m, now, retention, r, rebaseline).mem, k).adjs, m.coreRevision, now)
  {
    DeliverKeeps(m, t, now, retention, r, rebaseline);
    DeliverFrame(m, now, retention, r, rebaseline);
    hide HistoryCommit.Deliver, AdjustmentsInv;
    var c := HistoryCommit.Deliver(m, now, retention, r, rebaseline).mem;
    MemKeys(c, now);
    if k in c.accounts { SlotFacts(c, now, k); }
    BlankSlotInv(m.coreRevision, now);
    NoAdjustments(m.coreRevision, now);
  }

  lemma NoAdjustments(coreRevision: nat, now: Instant)
    ensures AdjustmentsInv([], coreRevision, now)
  {
  }

  lemma ToldCut(pre: Slot, s: Slot, out: Outcome, coreRevision: nat, t: Instant, now: Instant, later: Instant, retention: nat, k: Key, m: Mem)
    requires MemInv(m, t) && pre == SlotOf(m, k) && t <= now <= later && coreRevision == m.coreRevision
    requires s == PruneSlot(pre, now, retention) && SidecarTells(s, out, coreRevision)
    requires out.adjusted <==> Pending(out.slot.adjs, coreRevision)
    requires AdjustmentsInv(out.slot.adjs, coreRevision, now)
    ensures PruneSlot(Slot(if out.adjusted then Leaves(out.slot.adjs[|out.slot.adjs| - 1]) else pre.active,
                           pre.events, out.slot.adjs, None), later, retention) ==
            PruneSlot(Stored(if out.adjusted then out.slot else pre), later, retention)
  {
    hide MemInv, AdjustmentsInv, PruneSlot, Leaves, Pending;
    PruneParts(pre, now, retention);
    if out.adjusted {
      LeavesInv(out.slot.adjs, coreRevision, now);
      SlotEvents(m, t, k);
      PostCut(out.slot.active, pre.events, t, now, later, retention);
      SamePruned(out.slot, pre.events, later, retention);
    } else {
      PreCut(pre, s.adjs, now, later, retention);
    }
  }

  lemma SlotEvents(m: Mem, t: Instant, k: Key)
    requires MemInv(m, t)
    ensures EventsInv(SlotOf(m, k).events, t)
  {
    if k in m.accounts { SlotFacts(m, t, k); }
    hide MemInv;
  }

  lemma SamePruned(s: Slot, events: seq<Event>, later: Instant, retention: nat)
    requires PruneAccount(Account(s.active, events), later, retention) == PruneAccount(Account(s.active, s.events), later, retention)
    ensures PruneSlot(Slot(s.active, events, s.adjs, None), later, retention) == PruneSlot(Stored(s), later, retention)
  {
    hide PruneAccount;
  }

  /** Kill the process anywhere in the commit of a delivery to a clean tracker, then open: every
      account has exactly its old or its new window, events and adjustments, up to the pruning that
      opening does itself. Which of the two is decided by what was written: nothing, old; both files,
      new; only the sidecar, new for the account whose transition it holds and old for the others. */
  lemma CrashAtomic(m: Mem, d: Disk, t: Instant, now: Instant, retention: nat, r: Report, rebaseline: bool,
                    sideOk: bool, coreOk: bool, later: Instant, k: Key)
    requires MemInv(m, t) && Clean(m, d) && t <= now <= later && !IsZero(later)
    ensures var c := HistoryCommit.Deliver(m, now, retention, r, rebaseline);
            var done := Commit(c, d, sideOk, coreOk);
            var o := Open(done.disk, later, retention, true, true);
            var old', new' := PruneSlot(Stored(SlotOf(m, k)), later, retention), PruneSlot(Stored(SlotOf(c.mem, k)), later, retention);
            && o.tracker.Some?
            && SlotOf(o.tracker.value, k) in {old', new'}
            && (done.disk == d ==> SlotOf(o.tracker.value, k) == old')
            && (done.ok ==> SlotOf(o.tracker.value, k) == new')
            && (c.adjustments && c.history && sideOk && !coreOk ==>
                  SlotOf(o.tracker.value, k) == if Pending(SlotOf(c.mem, k).adjs, m.coreRevision) then new' else old')
  {
    hide HistoryCommit.Deliver, Clean, MemInv, PruneSlot, RecoveredSlot, Open, SlotOf, DownInv, FilesInv, Pending, Commit;
    var c := HistoryCommit.Deliver(m, now, retention, r, rebaseline);
    var done := Commit(c, d, sideOk, coreOk);
    DeliverStep(m, d, t, now, retention, r, rebaseline, sideOk, coreOk);
    DeliverStep(m, d, t, now, retention, r, rebaseline, true, true);
    OpenGives(done.disk, now, later, retention, k);
    CleanRecovers(m, d, t, k);
    var full := Commit(c, d, true, true);
    CleanRecovers(full.mem, full.disk, now, k);
    CommitSlots(c, d, true, true, k);
    HalfIsPreOrPost(m, d, t, now, retention, r, rebaseline, later, k);
    CommitChoices(m, d, t, now, retention, r, rebaseline, sideOk, coreOk);
  }

  lemma CommitSlots(c: Change, d: Disk, sideOk: bool, coreOk: bool, k: Key)
    ensures SlotOf(Commit(c, d, sideOk, coreOk).mem, k) == SlotOf(c.mem, k)
  {
    CommitParts(c, d, sideOk, coreOk);
    hide Commit;
  }

  lemma CommitParts(c: Change, d: Disk, sideOk: bool, coreOk: bool)
    ensures var m := Commit(c, d, sideOk, coreOk).mem;
            m.accounts == c.mem.accounts && m.adjustments == c.mem.adjustments && m.candidates == c.mem.candidates
  {
    hide PersistSide, PersistCore;
    var marked := Marked(c);
    SideParts(marked, d, sideOk);
    var first := PersistSide(marked, d, sideOk);
    CoreParts(first.mem, first.disk, coreOk);
  }

  lemma SideParts(m: Mem, d: Disk, ok: bool)
    ensures var done := PersistSide(m, d, ok).mem;
            done.accounts == m.accounts && done.adjustments == m.adjustments && done.candidates == m.candidates
  {
    hide ValidSide;
  }

  lemma CoreParts(m: Mem, d: Disk, ok: bool)
    ensures var done := PersistCore(m, d, ok).mem;
            done.accounts == m.accounts && done.adjustments == m.adjustments && done.candidates == m.candidates
  {
    hide ValidCore;
  }

  lemma CommitChoices(m: Mem, d: Disk, t: Instant, now: Instant, retention: nat, r: Report, rebaseline: bool, sideOk: bool, coreOk: bool)
    requires MemInv(m, t) && Clean(m, d) && t <= now
    ensures var c := HistoryCommit.Deliver(m, now, retention, r, rebaseline);
            var done, full := Commit(c, d, sideOk, coreOk), Commit(c, d, true, true);
            && done.disk in {d, d.(side := Some(SideOf(Marked(c)))), full.disk}
            && (done.ok ==> done.disk == full.disk)
            && (c.adjustments && c.history && sideOk && !coreOk ==> done.disk == d.(side := Some(SideOf(Marked(c)))))
  {
    hide HistoryCommit.Deliver, MemInv, ValidSide, ValidCore, Committable;
    var c := HistoryCommit.Deliver(m, now, retention, r, rebaseline);
    DeliverCommittable(m, d, t, now, retention, r, rebaseline);
    CommittableFrame(m, d, c, now, retention);
    hide Clean;
    CommitDisks(c, d, now, sideOk, coreOk);
  }

  // ----- dying again while recovering -----

  /** The window the files give an account at time `now`. */
  function Anchored(d: Disk, k: Key, now: Instant): Option<Window> {
    var w := RecoveredSlot(d, k).active;
    if w.Some? && Settled(w.value.resetsAt, Unix(now)) then None else w
  }

  /** No transition still to be replayed for `k` has expired at `now`. */
  predicate PendingRetained(d: Disk, k: Key, now: Instant, retention: nat) {
    var adjs := SideAdjustments(d, k);
    Pending(adjs, CoreRevision(d)) ==> adjs[|adjs| - 1].detectedAt >= now - retention
  }

  /** Opening, whatever becomes of its own writes, leaves files that give the same window. */
  lemma OpenKeepsAnchor(d: Disk, t: Instant, now: Instant, later: Instant, retention: nat, sideOk: bool, coreOk: bool, k: Key)
    requires DownInv(d, t, retention) && t <= now <= later && !IsZero(now) && PendingRetained(d, k, later, retention)
    ensures var o := Open(d, now, retention, sideOk, coreOk);
            && Anchored(o.disk, k, later) == Anchored(d, k, later)
            && PendingRetained(o.disk, k, later, retention)
            && (o.tracker.Some? ==> SlotOf(o.tracker.value, k).active == Anchored(d, k, now))
  {
    hide DownInv, FilesInv, Recovered, RecoveredSlot, Openable, Clean, MemInv, Pending, SlotOf, PruneSlot, OpenedDisk;
    DownFiles(d, t, retention);
    var c := Recovered(d, now, retention);
    OpenIs(d, t, now, retention, sideOk, coreOk);
    RecoveredOpenable(d, t, now, retention);
    OpenDisks(d, c, now, retention, sideOk, coreOk);
    OpenedClean(d, c, now, retention);
    OpenedSlot(d, c, k);
    RecoveredSlots(d, t, now, retention, k);
    SettledOnly(RecoveredSlot(d, k), now, retention);
    SettledLater(RecoveredSlot(d, k).active, now, later);
    var full := OpenedDisk(d, c, true, true);
    CleanRecovers(full.mem, full.disk, now, k);
    HalfOpened(d, t, now, later, retention, k);
  }

  lemma OpenedSlot(d: Disk, c: Change, k: Key)
    ensures SlotOf(OpenedDisk(d, c, true, true).mem, k) == SlotOf(c.mem, k)
  {
    hide ValidSide, ValidCore;
  }

  lemma SettledOnly(s: Slot, now: Instant, retention: nat)
    ensures PruneSlot(s, now, retention).active ==
            if s.active.Some? && Settled(s.active.value.resetsAt, Unix(now)) then None else s.active
  {
    hide KeepEvents, AppendEvent, KeepAdjustments;
  }

  lemma SettledLater(w: Option<Window>, now: Instant, later: Instant)
    requires now <= later
    ensures w.Some? && Settled(w.value.resetsAt, Unix(now)) ==> Settled(w.value.resetsAt, Unix(later))
  {
  }

  /** The sidecar that a dying open leaves over the old core file gives the same window. */
  lemma HalfOpened(d: Disk, t: Instant, now: Instant, later: Instant, retention: nat, k: Key)
    requires DownInv(d, t, retention) && t <= now <= later && !IsZero(now) && PendingRetained(d, k, later, retention)
    ensures var half := d.(side := Some(SideOf(Marked(Recovered(d, now, retention)))));
            RecoveredSlot(half, k).active == RecoveredSlot(d, k).active && PendingRetained(half, k, later, retention)
  {
    hide DownInv, FilesInv, Recovered, RecoveredSlot, PruneSlot, SlotOf, PendingOk, AdjustmentsInv, Openable;
    DownFiles(d, t, retention);
    var c := Recovered(d, now, retention);
    var half := d.(side := Some(SideOf(Marked(c))));
    RecoveredSlots(d, t, now, retention, k);
    RecoveredAdjustments(d, k, now, retention);
    HalfAdjustments(d, c, k);
    var adjs := SideAdjustments(d, k);
    DownSide(d, t, retention, k);
    AdjustmentsOrdered(adjs, CoreRevision(d), t);
    KeepPending(CoreAccount(d, k).active, adjs, CoreRevision(d), now - retention);
    RecoveredSlotIs(d, t, retention, k);
    RecoveredOpenable(d, t, now, retention);
    OpenedHalf(d, c, now, retention);
    RecoveredSlotIs(half, now, retention, k);
  }

  lemma HalfAdjustments(d: Disk, c: Change, k: Key)
    ensures var half := d.(side := Some(SideOf(Marked(c))));
            && SideAdjustments(half, k) == SlotOf(c.mem, k).adjs
            && CoreAccount(half, k) == CoreAccount(d, k) && CoreRevision(half) == CoreRevision(d)
  {
  }

  lemma AdjustmentsOrdered(adjs: seq<Adjustment>, coreRevision: nat, t: Instant)
    requires AdjustmentsInv(adjs, coreRevision, t)
    ensures InDetectionOrder(adjs)
  {
  }

  datatype Attempt = Attempt(now: Instant, sideOk: bool, coreOk: bool)

  /** The files after a series of attempts to open, each of which dies, before or after succeeding. */
  function Attempted(d: Disk, attempts: seq<Attempt>, retention: nat): Disk {
    if attempts == [] then d
    else
      var last := attempts[|attempts| - 1];
      Open(Attempted(d, attempts[..|attempts| - 1], retention), last.now, retention, last.sideOk, last.coreOk).disk
  }

  predicate AttemptsBy(attempts: seq<Attempt>, t: Instant, later: Instant) {
    forall i :: 0 <= i < |attempts| ==>
      && !IsZero(attempts[i].now) && t <= attempts[i].now <= later
      && forall j :: 0 <= j < i ==> attempts[j].now <= attempts[i].now
  }

  function LastTime(attempts: seq<Attempt>, t: Instant): Instant {
    if attempts == [] then t else attempts[|attempts| - 1].now
  }

  lemma {:induction false} AttemptsKeepAnchor(d: Disk, t: Instant, attempts: seq<Attempt>, later: Instant, retention: nat, k: Key)
    requires DownInv(d, t, retention) && t <= later && AttemptsBy(attempts, t, later) && PendingRetained(d, k, later, retention)
    ensures var after := Attempted(d, attempts, retention);
            && DownInv(after, LastTime(attempts, t), retention)
            && Anchored(after, k, later) == Anchored(d, k, later) && PendingRetained(after, k, later, retention)
  {
    hide DownInv, FilesInv, Anchored, PendingRetained, Open;
    if attempts != [] {
      var front, last := attempts[..|attempts| - 1], attempts[|attempts| - 1];
      assert AttemptsBy(front, t, later);
      assert front != [] ==> front[|front| - 1] == attempts[|front| - 1];
      AttemptsKeepAnchor(d, t, front, later, retention, k);
      OpenSucceeds(Attempted(d, front, retention), LastTime(front, t), last.now, retention, last.sideOk, last.coreOk);
      OpenKeepsAnchor(Attempted(d, front, retention), LastTime(front, t), last.now, later, retention, last.sideOk, last.coreOk, k);
    }
  }

  /** However often the process dies while opening, the first open that completes anchors the same
      window as if none had died, as long as the transition to replay is inside retention. */
  lemma RecoveryIsIdempotent(d: Disk, t: Instant, attempts: seq<Attempt>, later: Instant, retention: nat, k: Key)
    requires DownInv(d, t, retention) && t <= later && !IsZero(later)
    requires AttemptsBy(attempts, t, later) && PendingRetained(d, k, later, retention)
    ensures var direct := Open(d, later, retention, true, true).tracker;
            var delayed := Open(Attempted(d, attempts, retention), later, retention, true, true).tracker;
            && direct.Some? && delayed.Some?
            && SlotOf(delayed.value, k).active == SlotOf(direct.value, k).active == Anchored(d, k, later)
  {
    hide DownInv, FilesInv, Anchored, PendingRetained, Open, SlotOf, Attempted;
    AttemptsKeepAnchor(d, t, attempts, later, retention, k);
    var after := Attempted(d, attempts, retention);
    OpenKeepsAnchor(d, t, later, later, retention, true, true, k);
    OpenSucceeds(d, t, later, retention, true, true);
    OpenKeepsAnchor(after, LastTime(attempts, t), later, later, retention, true, true, k);
    OpenSucceeds(after, LastTime(attempts, t), later, retention, true, true);
  }

  // ----- deliveries as steps of one account -----

  /** What a delivery does to an account is a pruning step, followed, for the account it reaches, by
      an observation or a rebaselining; so every run of one account is a run of such steps. */
  lemma DeliveryIsSteps(m: Mem, t: Instant, now: Instant, retention: nat, r: Report, rebaseline: bool, k: Key)
    requires MemInv(m, t)
    ensures var pruned := HistoryAnchoring.ApplyStep(SlotOf(m, k), HistoryAnchoring.Pruned(now, retention));
            SlotOf(HistoryCommit.Deliver(m, now, retention, r, rebaseline).mem, k) ==
              if !Reaches(m, now, retention, r, k) then pruned
              else
                var p := Proposed(now, r.usage.value).value;
                HistoryAnchoring.ApplyStep(pruned, if rebaseline then HistoryAnchoring.Rebaselined(now, p, m.coreRevision)
                                                   else HistoryAnchoring.Observed(now, p, m.coreRevision))
  {
    hide HistoryCommit.Deliver, PruneSlot, ObserveSlot, RebaselineSlot, SlotsInv, SlotOf;
    MemKeys(m, t);
    DeliverSlots(m, now, retention, r, rebaseline, k);
  }

  /** The completed event of a window that resets at `resetAt` is on record, or it could not be: the
      window ended before the retention cutoff, or the event list was full of later events. */
  predicate CompletedOnRecord(before: seq<Event>, after: seq<Event>, resetAt: int, cutoff: int) {
    EventExists(after, resetAt) || resetAt < cutoff || Outranked(before, resetAt)
  }

  /** No delivery of an observation to a clean tracker loses a window. If the anchored window is gone or
      resets at another time afterwards, then in mid-week the very move is the newest adjustment, and from
      the boundary on the completed event is on record. */
  lemma DeliveryConserves(m: Mem, d: Disk, t: Instant, now: Instant, retention: nat, r: Report, k: Key)
    requires MemInv(m, t) && Clean(m, d) && t <= now && SlotOf(m, k).active.Some?
    ensures var s, post := SlotOf(m, k), SlotOf(HistoryCommit.Deliver(m, now, retention, r, false).mem, k);
            var a := s.active.value;
            post.active.None? || post.active.value.resetsAt != a.resetsAt ==>
              if MeaningfullyBefore(a.resetsAt, Unix(now)) then
                && Reaches(m, now, retention, r, k)
                && var move := ResetMove(now, a, Proposed(now, r.usage.value).value, m.coreRevision);
                   post.adjs == Newest(KeepAdjustments(s.adjs, now - retention) + [move], MAX_ADJUSTMENTS)
              else CompletedOnRecord(s.events, post.events, a.resetsAt, Unix(now - retention))
  {
    hide HistoryCommit.Deliver, SlotsInv, ObserveSlot, PruneSlot, SlotInv, Reaches, CompletedOnRecord, Proposed;
    MemKeys(m, t);
    ActivePresent(m, k);
    SlotsFacts(m, t, k);
    DeliverSlots(m, now, retention, r, false, k);
    AbsorbedSlot(m, d, k);
    var s := SlotOf(m, k);
    hide SlotOf, Clean;
    PruneConserves(s, m.coreRevision, t, now, retention);
    if Reaches(m, now, retention, r, k) {
      ReachesProposes(m, now, retention, r, k);
      ObserveConserves(s, m.coreRevision, t, now, retention, Proposed(now, r.usage.value).value, r.usage.value);
    }
  }

  lemma ReachesProposes(m: Mem, now: Instant, retention: nat, r: Report, k: Key)
    requires Reaches(m, now, retention, r, k)
    ensures r.usage.Some? && Proposed(now, r.usage.value).Some?
  {
  }

  lemma AbsorbedSlot(m: Mem, d: Disk, k: Key)
    requires Clean(m, d) && k in m.adjustments
    ensures forall a :: a in SlotOf(m, k).adjs ==> a.coreRevisionBefore < m.coreRevision
  {
    assert SlotOf(m, k).adjs == m.adjustments[k];
  }

  lemma ActivePresent(m: Mem, k: Key)
    requires SlotOf(m, k).active.Some?
    ensures k in m.accounts
  {
  }

  lemma ObserveConserves(s: Slot, coreRevision: nat, t: Instant, now: Instant, retention: nat, p: Window, u: Usage)
    requires SlotInv(s, coreRevision, t) && t <= now && coreRevision >= 1 && Proposed(now, u) == Some(p)
    requires s.active.Some? && forall a :: a in s.adjs ==> a.coreRevisionBefore < coreRevision
    ensures var a, post := s.active.value, ObserveSlot(PruneSlot(s, now, retention), coreRevision, now, p).slot;
            post.active.None? || post.active.value.resetsAt != a.resetsAt ==>
              if MeaningfullyBefore(a.resetsAt, Unix(now)) then
                post.adjs == Newest(KeepAdjustments(s.adjs, now - retention) + [ResetMove(now, a, p, coreRevision)], MAX_ADJUSTMENTS)
              else CompletedOnRecord(s.events, post.events, a.resetsAt, Unix(now - retention))
  {
    hide SlotInv, ObserveSlot, PruneSlot, KeepAdjustments, KeepEvents, Outranked, MoveLogged, Proposed;
    var pruned := PruneSlot(s, now, retention);
    PruneSlotKeeps(s, coreRevision, t, now, retention);
    PruneConserves(s, coreRevision, t, now, retention);
    PruneParts(s, now, retention);
    if pruned.active.Some? {
      WindowConserved(pruned, coreRevision, now, now, p, u);
      KeepAdjustmentsElements(s.adjs, now - retention);
      var a := s.active.value;
      if !Equivalent(a.resetsAt, p.resetsAt) && MeaningfullyBefore(a.resetsAt, Unix(now)) {
        MoveRecorded(pruned, coreRevision, now, now, p, u);
      }
      EventsBounded(s, coreRevision, t);
      KeptOutranked(s.events, a.resetsAt, Unix(now - retention));
    } else {
      InstallKeepsEvents(pruned, now, p, coreRevision);
    }
  }

  lemma EventsBounded(s: Slot, coreRevision: nat, t: Instant)
    requires SlotInv(s, coreRevision, t)
    ensures |s.events| <= MAX_EVENTS
  {
  }

  lemma KeptOutranked(events: seq<Event>, resetAt: int, cutoff: int)
    requires |events| <= MAX_EVENTS
    ensures Outranked(KeepEvents(events, cutoff), resetAt) ==> Outranked(events, resetAt)
  {
    KeepEventsElements(events, cutoff);
  }

  lemma PruneConserves(s: Slot, coreRevision: nat, t: Instant, now: Instant, retention: nat)
    requires SlotInv(s, coreRevision, t) && t <= now && s.active.Some?
    ensures var pruned, a := PruneSlot(s, now, retention), s.active.value;
            if Settled(a.resetsAt, Unix(now)) then
              pruned.active.None? && CompletedOnRecord(s.events, pruned.events, a.resetsAt, Unix(now - retention))
            else pruned.active == s.active
  {
    hide AdjustmentsInv, CandidateInv, KeepAdjustments, AppendEvent, KeepEvents;
    var a := s.active.value;
    if Settled(a.resetsAt, Unix(now)) {
      CompletedKept(s.events, Completed(a, now), t, Unix(now - retention));
    }
  }

  lemma CompletedKept(events: seq<Event>, e: Event, t: Instant, cutoff: int)
    requires EventsInv(events, t)
    ensures CompletedOnRecord(events, KeepEvents(AppendEvent(events, e), cutoff), e.resetsAt, cutoff)
  {
    hide ValidEvent, AppendEvent, KeepEvents, Increasing;
    var all := AppendEvent(events, e);
    AppendEventExact(events, e, t);
    KeepEventsElements(all, cutoff);
    ExistsIff(all, e.resetsAt);
    ExistsIff(KeepEvents(all, cutoff), e.resetsAt);
  }

  lemma InstallKeepsEvents(s: Slot, now: Instant, p: Window, coreRevision: nat)
    requires s.active.None?
    ensures ObserveSlot(s, coreRevision, now, p).slot.events == s.events
  {
  }
}
