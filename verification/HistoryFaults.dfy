/** Runs in which any write may fail at any time, whether or not the process lives on. */
module HistoryFaults {
  import opened Common
  import opened HistoryModel
  import opened HistoryRules
  import opened HistoryCommit
  import opened HistoryRecovery
  import opened HistoryOpening
  import HistorySystem

  /** Memory and files are well-formed, though they need not agree. */
  predicate FaultyInv(s: HistorySystem.System, t: Instant) {
    match s
    case Running(m, d) => MemInv(m, t) && FilesInv(d, t) && d.core.Some? && CoreRevision(d) == m.coreRevision
    case Down(d) => FilesInv(d, t)
  }

  // ----- writing -----

  lemma CoreWritten(m: Mem, t: Instant)
    requires SlotsInv(m, t) && |m.accounts| <= MAX_ACCOUNTS && m.revision >= 1 && !IsZero(m.trackingSince)
    ensures CoreInv(CoreOf(m), t)
  {
    hide ValidKey, ActiveInv, EventsInv, AdjustmentsInv, CandidateInv, SlotInv;
    forall k | k in m.accounts ensures ValidKey(k) && ActiveInv(m.accounts[k].active, t) && EventsInv(m.accounts[k].events, t) {
      SlotsFacts(m, t, k);
    }
    hide SlotsInv;
  }

  lemma SideWritten(m: Mem, t: Instant)
    requires SlotsInv(m, t) && |m.adjustments| <= MAX_ACCOUNTS && m.revision >= 1 && !IsZero(m.adjustmentsTrackingSince)
    ensures SideInv(SideOf(m), m.coreRevision, t)
  {
    hide ValidKey, AdjustmentsInv, SlotInv;
    forall k | k in m.adjustments ensures ValidKey(k) && AdjustmentsInv(m.adjustments[k], m.coreRevision, t) {
      SlotAdjustments(m, t, k);
    }
    hide SlotsInv;
  }

  lemma SideRaised(f: SideFile, coreRevision: nat, raised: nat, t: Instant)
    requires SideInv(f, coreRevision, t) && coreRevision <= raised
    ensures SideInv(f, raised, t)
  {
    hide ValidKey, ValidAdjustment;
  }

  lemma FilesLater(d: Disk, t: Instant, now: Instant)
    requires FilesInv(d, t) && t <= now
    ensures FilesInv(d, now)
  {
    CoreLater(d, t, now);
    SideLater(d, t, now);
    hide CoreInv, SideInv;
  }

  lemma PersistSideFiles(m: Mem, d: Disk, t: Instant, sideOk: bool)
    requires SlotsInv(m, t) && FilesInv(d, t) && CoreRevision(d) == m.coreRevision
    requires m.revision >= 1 && !IsZero(m.adjustmentsTrackingSince) && (d.core.None? ==> m.adjustments == map[])
    ensures var done := PersistSide(m, d, sideOk);
            && FilesInv(done.disk, t) && done.disk.core == d.core
            && done.mem == m.(adjustmentsDirty := done.mem.adjustmentsDirty)
            && (done.ok && m.adjustmentsDirty ==> |m.adjustments| <= MAX_ACCOUNTS)
  {
    hide SlotsInv, CoreInv, SideInv, ValidKey, ValidAdjustments;
    if m.adjustmentsDirty && ValidSide(SideOf(m)) { SideWritten(m, t); }
  }

  lemma PersistCoreFiles(m: Mem, d: Disk, t: Instant, coreOk: bool)
    requires SlotsInv(m, t) && FilesInv(d, t) && CoreRevision(d) == m.coreRevision <= m.revision
    requires m.revision >= 1 && !IsZero(m.trackingSince)
    ensures var done := PersistCore(m, d, coreOk);
            && FilesInv(done.disk, t) && CoreRevision(done.disk) == done.mem.coreRevision <= m.revision
            && m.coreRevision <= done.mem.coreRevision
            && done.mem == m.(dirty := done.mem.dirty, coreRevision := done.mem.coreRevision)
            && (d.core.Some? || (done.ok && m.dirty) ==> done.disk.core.Some?)
            && (done.ok && m.dirty ==> |m.accounts| <= MAX_ACCOUNTS)
  {
    hide SlotsInv, CoreInv, SideInv, ValidKey, ValidAccount;
    if m.dirty && ValidCore(CoreOf(m)) {
      CoreWritten(m, t);
      if d.side.Some? { SideRaised(d.side.value, m.coreRevision, m.revision, t); }
    }
  }

  lemma PersistFiles(m: Mem, d: Disk, t: Instant, sideOk: bool, coreOk: bool)
    requires SlotsInv(m, t) && FilesInv(d, t) && CoreRevision(d) == m.coreRevision <= m.revision
    requires m.revision >= 1 && !IsZero(m.trackingSince) && !IsZero(m.adjustmentsTrackingSince)
    requires d.core.None? ==> m.adjustments == map[]
    ensures var done := Persist(m, d, sideOk, coreOk);
            && FilesInv(done.disk, t) && CoreRevision(done.disk) == done.mem.coreRevision <= m.revision
            && m.coreRevision <= done.mem.coreRevision
            && done.mem == m.(dirty := done.mem.dirty, adjustmentsDirty := done.mem.adjustmentsDirty, coreRevision := done.mem.coreRevision)
            && (d.core.Some? || (done.ok && m.dirty) ==> done.disk.core.Some?)
            && (done.ok && m.dirty ==> |m.accounts| <= MAX_ACCOUNTS)
            && (done.ok && m.adjustmentsDirty ==> |m.adjustments| <= MAX_ACCOUNTS)
  {
    hide SlotsInv, FilesInv, PersistSide, PersistCore;
    PersistSideFiles(m, d, t, sideOk);
    var first := PersistSide(m, d, sideOk);
    SlotsFrame(m, first.mem, t);
    PersistCoreFiles(first.mem, first.disk, t, coreOk);
  }

  lemma SlotsFrame(m: Mem, n: Mem, t: Instant)
    requires SlotsInv(m, t) && n.accounts == m.accounts && n.adjustments == m.adjustments && n.candidates == m.candidates
    requires n.coreRevision == m.coreRevision
    ensures SlotsInv(n, t)
  {
    RaiseKeeps(m, n, t);
    hide SlotsInv;
  }

  // ----- steps -----

  lemma DeliverFaulty(m: Mem, d: Disk, t: Instant, now: Instant, retention: nat, r: Report, rebaseline: bool, sideOk: bool, coreOk: bool)
    requires FaultyInv(HistorySystem.Running(m, d), t) && t <= now
    ensures var done := Commit(Deliver(m, now, retention, r, rebaseline), d, sideOk, coreOk);
            FaultyInv(HistorySystem.Running(done.mem, done.disk), now)
  {
    hide Deliver, SlotsInv, FilesInv, Persist;
    var c := Deliver(m, now, retention, r, rebaseline);
    DeliverKeeps(m, t, now, retention, r, rebaseline);
    DeliverFrame(m, now, retention, r, rebaseline);
    FilesLater(d, t, now);
    CommitKeeps(c, d, now, sideOk, coreOk);
    RaiseKeeps(c.mem, Marked(c), now);
    PersistFiles(Marked(c), d, now, sideOk, coreOk);
  }

  lemma OpenFaulty(d: Disk, t: Instant, now: Instant, retention: nat, sideOk: bool, coreOk: bool)
    requires FilesInv(d, t) && t <= now && !IsZero(now)
    ensures var o := Open(d, now, retention, sideOk, coreOk);
            && FilesInv(o.disk, now)
            && (o.tracker.Some? ==> FaultyInv(HistorySystem.Running(o.tracker.value, o.disk), now))
  {
    hide SlotsInv, FilesInv, Recovered, Persist, Readable;
    FilesReadable(d, t);
    FilesLater(d, t, now);
    FilesFacts(d, t);
    RecoveredSlotsInv(d, t, now, retention);
    RecoveredFrame(d, t, now, retention);
    RecoveredWithoutCore(d, t, now, retention);
    var c := Recovered(d, now, retention);
    if c.history || c.adjustments {
      var m := Marked(c);
      RaiseKeeps(c.mem, m, now);
      PersistFiles(m, d, now, sideOk, coreOk);
      var done := Persist(m, d, sideOk, coreOk);
      FilesFacts(done.disk, now);
      RaiseKeeps(m, done.mem, now);
      SlotsSize(m, now);
    }
  }

  lemma SlotsSize(m: Mem, t: Instant)
    requires SlotsInv(m, t)
    ensures |m.adjustments| == |m.accounts|
  {
    SameSize(m);
  }

  lemma FilesFacts(d: Disk, t: Instant)
    requires FilesInv(d, t)
    ensures d.core.Some? ==> d.core.value.revision >= 1 && !IsZero(d.core.value.trackingSince) && |d.core.value.accounts| <= MAX_ACCOUNTS
    ensures d.side.Some? ==> d.side.value.revision >= 1 && !IsZero(d.side.value.trackingSince)
  {
    hide ValidKey, ActiveInv, EventsInv, AdjustmentsInv;
  }

  lemma StepFaulty(s: HistorySystem.System, a: HistorySystem.Action, t: Instant, retention: nat)
    requires FaultyInv(s, t) && t <= HistorySystem.Time(a, t) && !IsZero(HistorySystem.Time(a, t))
    ensures FaultyInv(HistorySystem.Step(s, a, retention), HistorySystem.Time(a, t))
  {
    hide MemInv, FilesInv, Open, Commit, Deliver;
    match a
    case Deliver(now, report, rebaseline, sideOk, coreOk, dies) =>
      if s.Running? {
        DeliverFaulty(s.mem, s.disk, t, now, retention, report, rebaseline, sideOk, coreOk);
      } else {
        FilesLater(s.disk, t, now);
      }
    case Stop =>
    case Start(now, sideOk, coreOk) =>
      if s.Down? {
        OpenFaulty(s.disk, t, now, retention, sideOk, coreOk);
      } else {
        FilesLater(s.disk, t, now);
        HistorySystem.LaterKeeps(s.mem, t, now);
      }
  }

  /** Over every run of deliveries, reads, stops, crashes and restarts, with any writes failing: a running
      tracker is well-formed and knows the core file's revision, and so are the two files. */
  lemma {:induction false} AnyRunKeeps(s: HistorySystem.System, actions: seq<HistorySystem.Action>, t: Instant, retention: nat)
    requires FaultyInv(s, t) && HistorySystem.ClockOk(actions, t)
    ensures FaultyInv(HistorySystem.Run(s, actions, retention), HistorySystem.Clock(actions, t))
  {
    hide FaultyInv, HistorySystem.Step;
    if actions != [] {
      var front, last := actions[..|actions| - 1], actions[|actions| - 1];
      AnyRunKeeps(s, front, t, retention);
      StepFaulty(HistorySystem.Run(s, front, retention), last, HistorySystem.Clock(front, t), retention);
    }
  }

  /** In every state that can be reached at all, each file passes the validators that reading it applies,
      and so would the files written from a running tracker's memory. */
  lemma EveryStateValid(actions: seq<HistorySystem.Action>, t: Instant, retention: nat)
    requires HistorySystem.ClockOk(actions, t)
    ensures var s := HistorySystem.Run(HistorySystem.Down(Disk(None, None)), actions, retention);
            && Readable(s.disk)
            && (s.Running? ==> MemInv(s.mem, HistorySystem.Clock(actions, t)) && ValidSide(SideOf(s.mem)) && ValidCore(CoreOf(s.mem)))
  {
    AnyRunKeeps(HistorySystem.Down(Disk(None, None)), actions, t, retention);
    hide HistorySystem.Run, SlotsInv, FilesInv, Readable, ValidSide, ValidCore;
    var s := HistorySystem.Run(HistorySystem.Down(Disk(None, None)), actions, retention);
    FilesReadable(s.disk, HistorySystem.Clock(actions, t));
    if s.Running? { FilesValid(s.mem, HistorySystem.Clock(actions, t)); }
  }
}
