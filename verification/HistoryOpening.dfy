/** Opening the two files after a clean stop or a crash. */
module HistoryOpening {
  import opened Common
  import opened HistoryModel
  import opened HistoryRules
  import opened HistoryReplay
  import opened HistoryCommit
  import opened HistoryRecovery

  function CoreAccount(d: Disk, k: Key): Account {
    if d.core.Some? && k in d.core.value.accounts then d.core.value.accounts[k] else Account(None, [])
  }

  function SideAdjustments(d: Disk, k: Key): seq<Adjustment> {
    if d.side.Some? && k in d.side.value.accounts then d.side.value.accounts[k] else []
  }

  function SideRevision(d: Disk): nat {
    if d.side.Some? then d.side.value.revision else 0
  }

  function Named(d: Disk): set<Key> {
    (if d.core.Some? then d.core.value.accounts.Keys else {}) + (if d.side.Some? then d.side.value.accounts.Keys else {})
  }

  /** What the two files together say about an account, before pruning. */
  function RecoveredSlot(d: Disk, k: Key): Slot {
    var a := ReplayAccount(CoreAccount(d, k), SideAdjustments(d, k), CoreRevision(d));
    Slot(a.active, a.events, SideAdjustments(d, k), None)
  }

  lemma LoadSlots(d: Disk, now: Instant, k: Key)
    ensures var m := Load(d, now).mem;
            && KeysAgree(m) && m.accounts.Keys == Named(d)
            && SlotOf(m, k) == Slot(CoreAccount(d, k).active, CoreAccount(d, k).events, SideAdjustments(d, k), None)
  {
  }

  lemma LoadFrame(d: Disk, now: Instant)
    ensures var c := Load(d, now);
            && c.mem.coreRevision == CoreRevision(d) && c.mem.revision == Max(CoreRevision(d), SideRevision(d))
            && !c.mem.dirty && !c.mem.adjustmentsDirty && !c.mem.degraded && c.mem.candidates == map[]
            && c.mem.trackingSince == (if d.core.Some? then d.core.value.trackingSince else now)
            && c.mem.adjustmentsTrackingSince == (if d.side.Some? then d.side.value.trackingSince else now)
            && (!c.history ==> d.core.Some? && c.mem.accounts == d.core.value.accounts)
            && (!c.adjustments ==> d.side.Some? && c.mem.adjustments == d.side.value.accounts)
  {
  }

  lemma SanitizeNothing(m: Mem)
    requires forall k :: k in m.adjustments ==> forall a :: a in m.adjustments[k] ==> NotJitter(a)
    ensures Sanitize(m) == Change(m, false, false)
  {
    forall k | k in m.adjustments ensures SanitizeAdjustments(m.adjustments[k]) == m.adjustments[k] {
      SanitizeIdentity(m.adjustments[k]);
    }
    assert Sanitize(m).mem.adjustments == m.adjustments;
  }

  lemma ReconcileSlots(m: Mem, k: Key)
    requires KeysAgree(m) && m.candidates == map[]
    ensures var out := Reconcile(m).mem;
            && KeysAgree(out) && out.accounts.Keys == m.accounts.Keys && out.adjustments == m.adjustments
            && out.candidates == map[]
            && var s := SlotOf(m, k);
               var a := ReplayAccount(Account(s.active, s.events), s.adjs, m.coreRevision);
               SlotOf(out, k) == Slot(a.active, a.events, s.adjs, None)
  {
    hide ReplayAll;
  }

  lemma ReconcileFrame(m: Mem)
    ensures var c := Reconcile(m);
            && c.mem == m.(accounts := c.mem.accounts, candidates := c.mem.candidates)
            && !c.adjustments
            && (!c.history ==> c.mem.accounts == m.accounts)
  {
    var c := Reconcile(m);
    if !c.history {
      forall k | k in m.accounts ensures ReplayAccount(m.accounts[k], SlotOf(m, k).adjs, m.coreRevision) == m.accounts[k] {
        if m.accounts[k].active.Some? {
          assert !Replays(m, k);
          UnchangedReplay(m.accounts[k].active.value, SlotOf(m, k).adjs, m.coreRevision);
        }
      }
    }
  }

  lemma {:induction false} UnchangedReplay(active: Window, adjs: seq<Adjustment>, coreRevision: nat)
    requires !ReplayAll(active, adjs, coreRevision).changed
    ensures ReplayAll(active, adjs, coreRevision) == Replay(Some(active), active, false)
  {
    if adjs != [] {
      UnchangedReplay(active, adjs[..|adjs| - 1], coreRevision);
    }
  }

  /** The memory right after replaying, before pruning. */
  function Replayed(d: Disk, now: Instant): Change {
    var loaded := Load(d, now);
    Then(loaded, Reconcile(loaded.mem))
  }

  lemma ReplayedSlots(d: Disk, now: Instant, k: Key)
    ensures var m := Replayed(d, now).mem;
            KeysAgree(m) && m.accounts.Keys == Named(d) && SlotOf(m, k) == RecoveredSlot(d, k)
  {
    LoadSlots(d, now, k);
    LoadFrame(d, now);
    hide Load, ReplayAccount, SlotOf, KeysAgree;
    ReconcileSlots(Load(d, now).mem, k);
    hide Reconcile;
  }

  lemma NoJitterStored(d: Disk, t: Instant, now: Instant)
    requires FilesInv(d, t)
    ensures var m := Load(d, now).mem; forall k :: k in m.adjustments ==> forall a :: a in m.adjustments[k] ==> NotJitter(a)
  {
    hide ValidKey, ValidAdjustment, EventsInv, ActiveInv, Dead, PendingOk, NotJitter;
    var m := Load(d, now).mem;
    forall k, a | k in m.adjustments && a in m.adjustments[k] ensures NotJitter(a) {
      assert m.adjustments[k] == SideAdjustments(d, k);
      assert AdjustmentInv(a, CoreRevision(d), t);
    }
  }

  lemma RecoveredIs(d: Disk, t: Instant, now: Instant, retention: nat)
    requires FilesInv(d, t)
    ensures Recovered(d, now, retention) == Then(Replayed(d, now), Prune(Replayed(d, now).mem, now, retention))
  {
    NoJitterStored(d, t, now);
    hide FilesInv, Load, Reconcile, Prune, NotJitter;
    SanitizeNothing(Load(d, now).mem);
  }

  lemma RecoveredSlots(d: Disk, t: Instant, now: Instant, retention: nat, k: Key)
    requires FilesInv(d, t)
    ensures var m := Recovered(d, now, retention).mem;
            && KeysAgree(m) && m.accounts.Keys <= Named(d)
            && SlotOf(m, k) == PruneSlot(RecoveredSlot(d, k), now, retention)
  {
    RecoveredIs(d, t, now, retention);
    hide FilesInv, Recovered, Prune, KeysAgree, SlotOf, RecoveredSlot, PruneSlot;
    var r := Replayed(d, now).mem;
    ReplayedSlots(d, now, k);
    hide Replayed;
    PruneSlots(r, now, retention, k);
    PruneKeys(r, now, retention);
  }

  // ----- the facts about one account of a stopped tracker -----

  lemma FilesCore(d: Disk, t: Instant, k: Key)
    requires FilesInv(d, t)
    ensures ActiveInv(CoreAccount(d, k).active, t) && EventsInv(CoreAccount(d, k).events, t)
    ensures CoreActive(d, k) == CoreAccount(d, k).active
  {
    hide SideInv, ValidKey, ValidWindow, ValidEvent;
    if d.core.Some? { assert CoreInv(d.core.value, t); }
  }

  lemma FilesSide(d: Disk, t: Instant, k: Key)
    requires FilesInv(d, t)
    ensures AdjustmentsInv(SideAdjustments(d, k), CoreRevision(d), t)
    ensures k in Named(d) ==> ValidKey(k)
  {
    hide ActiveInv, EventsInv, AdjustmentInv, ValidKey;
    if d.side.Some? { assert SideInv(d.side.value, CoreRevision(d), t); }
    if d.core.Some? { assert CoreInv(d.core.value, t); }
  }

  lemma DownSide(d: Disk, t: Instant, retention: nat, k: Key)
    requires DownInv(d, t, retention)
    ensures AdjustmentsInv(SideAdjustments(d, k), CoreRevision(d), t)
    ensures PendingOk(CoreAccount(d, k).active, SideAdjustments(d, k), CoreRevision(d))
    ensures k in Named(d) ==> ValidKey(k)
  {
    hide ActiveInv, EventsInv, AdjustmentInv, Dead, ValidKey, SideInv, CoreInv;
    DownFiles(d, t, retention);
    FilesSide(d, t, k);
    assert CoreActive(d, k) == CoreAccount(d, k).active;
  }

  /** What replay does to an account of a stopped tracker: at most its newest adjustment counts. */
  lemma RecoveredSlotIs(d: Disk, t: Instant, retention: nat, k: Key)
    requires DownInv(d, t, retention)
    ensures var a, adjs := CoreAccount(d, k), SideAdjustments(d, k);
            RecoveredSlot(d, k) ==
              Slot(if Pending(adjs, CoreRevision(d)) then Leaves(adjs[|adjs| - 1]) else a.active, a.events, adjs, None)
  {
    DownSide(d, t, retention, k);
    hide DownInv, FilesInv, PendingOk, Pending, Leaves, CoreAccount, SideAdjustments, CoreRevision, ReplayAccount, AdjustmentsInv;
    ReplayPending(CoreAccount(d, k), SideAdjustments(d, k), CoreRevision(d));
  }

  lemma LeavesInv(adjs: seq<Adjustment>, coreRevision: nat, t: Instant)
    requires AdjustmentsInv(adjs, coreRevision, t) && adjs != []
    ensures ActiveInv(Leaves(adjs[|adjs| - 1]), t)
  {
    assert AdjustmentInv(adjs[|adjs| - 1], coreRevision, t);
  }

  /** Replaying well-formed adjustments leaves a well-formed window. */
  lemma {:induction false} ReplayInv(active: Window, adjs: seq<Adjustment>, coreRevision: nat, replayed: nat, t: Instant)
    requires ActiveInv(Some(active), t) && forall a :: a in adjs ==> AdjustmentInv(a, coreRevision, t)
    ensures ActiveInv(ReplayAll(active, adjs, replayed).active, t)
  {
    if adjs != [] {
      var front, last := adjs[..|adjs| - 1], adjs[|adjs| - 1];
      assert last in adjs && forall a :: a in front ==> a in adjs;
      ReplayInv(active, front, coreRevision, replayed, t);
    }
  }

  lemma RecoveredSlotInv(d: Disk, t: Instant, k: Key)
    requires FilesInv(d, t)
    ensures SlotInv(RecoveredSlot(d, k), CoreRevision(d), t)
  {
    FilesCore(d, t, k);
    FilesSide(d, t, k);
    hide FilesInv, EventsInv, AdjustmentInv, ReplayAll, CoreAccount, SideAdjustments;
    var a := CoreAccount(d, k);
    if a.active.Some? {
      ReplayInv(a.active.value, SideAdjustments(d, k), CoreRevision(d), CoreRevision(d), t);
    }
  }

  lemma RecoveredSlotsInv(d: Disk, t: Instant, now: Instant, retention: nat)
    requires FilesInv(d, t) && t <= now
    ensures SlotsInv(Recovered(d, now, retention).mem, now)
  {
    RecoveredFrame(d, t, now, retention);
    hide FilesInv, Recovered, SlotInv, ValidKey, SlotOf, PruneSlot, RecoveredSlot;
    var m := Recovered(d, now, retention).mem;
    RecoveredSlots(d, t, now, retention, "");
    forall k | k in m.accounts ensures ValidKey(k) && SlotInv(SlotOf(m, k), m.coreRevision, now) {
      RecoveredSlots(d, t, now, retention, k);
      RecoveredSlotInv(d, t, k);
      FilesSide(d, t, k);
      PruneSlotKeeps(RecoveredSlot(d, k), CoreRevision(d), t, now, retention);
    }
  }

  lemma RecoveredFrame(d: Disk, t: Instant, now: Instant, retention: nat)
    requires FilesInv(d, t)
    ensures var c := Recovered(d, now, retention);
            && c.mem.coreRevision == CoreRevision(d) && c.mem.revision == Max(CoreRevision(d), SideRevision(d))
            && !c.mem.dirty && !c.mem.adjustmentsDirty && !c.mem.degraded
            && c.mem.trackingSince == (if d.core.Some? then d.core.value.trackingSince else now)
            && c.mem.adjustmentsTrackingSince == (if d.side.Some? then d.side.value.trackingSince else now)
            && (!c.history ==> d.core.Some? && c.mem.accounts == d.core.value.accounts)
            && (!c.adjustments ==> d.side.Some? && c.mem.adjustments == d.side.value.accounts)
            && (!c.history ==> !Reconcile(Load(d, now).mem).history)
  {
    RecoveredIs(d, t, now, retention);
    LoadFrame(d, now);
    ReconcileFrame(Load(d, now).mem);
    PruneFrame(Replayed(d, now).mem, now, retention);
    PruneFlags(Replayed(d, now).mem, now, retention);
    hide FilesInv, Load, Reconcile, Prune, Recovered;
  }

  /** Nothing left to replay means every stored adjustment is absorbed. */
  lemma NothingReplayed(d: Disk, t: Instant, now: Instant, retention: nat, k: Key)
    requires DownInv(d, t, retention) && !Reconcile(Load(d, now).mem).history
    ensures !Pending(SideAdjustments(d, k), CoreRevision(d)) || d.core.None?
  {
    DownSide(d, t, retention, k);
    LoadSlots(d, now, k);
    LoadFrame(d, now);
    var m := Load(d, now).mem;
    assert !Replays(m, k) by {
      assert k in m.accounts ==> !Replays(m, k);
    }
    hide DownInv, FilesInv, Load, Reconcile, AdjustmentsInv, PendingOk;
    ReplayPending(CoreAccount(d, k), SideAdjustments(d, k), CoreRevision(d));
    if Pending(SideAdjustments(d, k), CoreRevision(d)) {
      PendingActive(CoreAccount(d, k).active, SideAdjustments(d, k), CoreRevision(d));
    }
  }

  lemma PendingActive(active: Option<Window>, adjs: seq<Adjustment>, coreRevision: nat)
    requires PendingOk(active, adjs, coreRevision) && Pending(adjs, coreRevision)
    ensures active.Some?
  {
  }

  // ----- how many accounts -----

  lemma SurvivorsShrink(d: Disk, t: Instant, now: Instant, retention: nat)
    requires DownInv(d, t, retention) && t <= now
    ensures Survivors(d, now, retention) <= Survivors(d, t, retention)
  {
    forall k | k in Survivors(d, now, retention) ensures k in Survivors(d, t, retention) {
      if d.core.Some? && k in d.core.value.accounts && Dead(d.core.value.accounts[k], t, retention) {
        FilesCore(d, t, k);
        hide DownInv, FilesInv, ActiveInv, EventsInv, Dead;
        DeadStaysDead(CoreAccount(d, k), t, t, now, retention);
      }
    }
  }

  lemma RecoveredSurvives(d: Disk, t: Instant, now: Instant, retention: nat)
    requires DownInv(d, t, retention) && t <= now
    ensures Recovered(d, now, retention).mem.accounts.Keys <= Survivors(d, now, retention)
  {
    DownFiles(d, t, retention);
    var m := Recovered(d, now, retention).mem;
    forall k | k in m.accounts ensures k in Survivors(d, now, retention) {
      RecoveredSlots(d, t, now, retention, k);
      RecoveredVacant(d, t, now, retention, k);
      RecoveredSlotIs(d, t, retention, k);
      hide DownInv, FilesInv, Recovered, RecoveredSlot;
    }
  }

  lemma RecoveredVacant(d: Disk, t: Instant, now: Instant, retention: nat, k: Key)
    requires DownInv(d, t, retention) && k in Recovered(d, now, retention).mem.accounts
    ensures PruneSlot(RecoveredSlot(d, k), now, retention) != Slot(None, [], [], None)
  {
    DownFiles(d, t, retention);
    RecoveredIs(d, t, now, retention);
    ReplayedSlots(d, now, k);
    hide DownInv, FilesInv, Recovered, Replayed, RecoveredSlot, PruneSlot;
    PruneSlots(Replayed(d, now).mem, now, retention, k);
    hide Prune;
  }

  lemma RecoveredSize(d: Disk, t: Instant, now: Instant, retention: nat)
    requires DownInv(d, t, retention) && t <= now
    ensures |Recovered(d, now, retention).mem.accounts| <= MAX_ACCOUNTS
  {
    RecoveredSurvives(d, t, now, retention);
    SurvivorsShrink(d, t, now, retention);
    assert |Survivors(d, t, retention)| <= MAX_ACCOUNTS;
    hide DownInv, FilesInv, Recovered, Survivors;
    SubsetSize(Recovered(d, now, retention).mem.accounts.Keys, Survivors(d, t, retention));
  }

  // ----- what opening leaves -----

  /** The facts about a recovered memory that writing it out relies on. */
  predicate Openable(d: Disk, c: Change, now: Instant, retention: nat) {
    && SlotsInv(c.mem, now) && |c.mem.accounts| <= MAX_ACCOUNTS
    && c.mem.coreRevision == CoreRevision(d) && c.mem.revision == Max(CoreRevision(d), SideRevision(d))
    && !c.mem.dirty && !c.mem.adjustmentsDirty
    && !IsZero(c.mem.trackingSince) && !IsZero(c.mem.adjustmentsTrackingSince)
    && (d.core.Some? ==> CoreInv(d.core.value, now) && c.mem.trackingSince == d.core.value.trackingSince)
    && (d.side.Some? ==> d.side.value.revision >= 1 && c.mem.adjustmentsTrackingSince == d.side.value.trackingSince)
    && (d.core.None? ==> c.mem.adjustments == map[])
    && (!c.history ==> d.core.Some? && c.mem.accounts == d.core.value.accounts)
    && (!c.adjustments ==> d.side.Some? && c.mem.adjustments == d.side.value.accounts)
    && (forall k :: k in c.mem.adjustments ==>
          && PendingOk(CoreActive(d, k), c.mem.adjustments[k], CoreRevision(d))
          && (Pending(c.mem.adjustments[k], CoreRevision(d)) ==> c.history))
    && |c.mem.accounts.Keys + Survivors(d.(side := None), now, retention)| <= MAX_ACCOUNTS
  }

  lemma RecoveredOpenable(d: Disk, t: Instant, now: Instant, retention: nat)
    requires DownInv(d, t, retention) && t <= now && !IsZero(now)
    ensures Openable(d, Recovered(d, now, retention), now, retention)
  {
    hide DownInv, FilesInv, Recovered, SlotsInv, Survivors, CoreInv, PendingOk, Pending, KeysAgree, Load, Reconcile;
    DownFiles(d, t, retention);
    var c := Recovered(d, now, retention);
    RecoveredSlotsInv(d, t, now, retention);
    RecoveredFrame(d, t, now, retention);
    RecoveredSize(d, t, now, retention);
    RecoveredWithCore(d, t, now, retention);
    CoreLater(d, t, now);
    forall k | k in c.mem.adjustments
      ensures PendingOk(CoreActive(d, k), c.mem.adjustments[k], CoreRevision(d))
              && (Pending(c.mem.adjustments[k], CoreRevision(d)) ==> c.history)
    {
      RecoveredPending(d, t, now, retention, k);
    }
    RecoveredWithoutCore(d, t, now, retention);
  }

  lemma CoreLater(d: Disk, t: Instant, now: Instant)
    requires FilesInv(d, t) && t <= now
    ensures d.core.Some? ==> CoreInv(d.core.value, now)
    ensures d.core.Some? ==> !IsZero(d.core.value.trackingSince)
    ensures d.side.Some? ==> d.side.value.revision >= 1 && !IsZero(d.side.value.trackingSince)
  {
    if d.core.Some? {
      assert CoreInv(d.core.value, t);
      forall k | k in d.core.value.accounts
        ensures ValidKey(k) && ActiveInv(d.core.value.accounts[k].active, now) && EventsInv(d.core.value.accounts[k].events, now)
      {
        hide FilesInv, ValidKey;
        EventsInvLater(d.core.value.accounts[k].events, t, now);
      }
      hide EventsInv, ActiveInv, ValidKey, Dead, AdjustmentsInv, PendingOk;
    }
  }

  lemma RecoveredWithoutCore(d: Disk, t: Instant, now: Instant, retention: nat)
    requires FilesInv(d, t)
    ensures d.core.None? ==> Recovered(d, now, retention).mem.adjustments == map[]
  {
    if d.core.None? {
      assert Named(d) == {};
      RecoveredSlots(d, t, now, retention, "");
      hide FilesInv, Recovered, SlotOf, PruneSlot, RecoveredSlot;
      assert Recovered(d, now, retention).mem.adjustments.Keys == {};
    }
  }

  /** With its own sidecar in place, a recovered memory and the live core accounts still fit. */
  lemma RecoveredWithCore(d: Disk, t: Instant, now: Instant, retention: nat)
    requires DownInv(d, t, retention) && t <= now
    ensures |Recovered(d, now, retention).mem.accounts.Keys + Survivors(d.(side := None), now, retention)| <= MAX_ACCOUNTS
  {
    RecoveredSurvives(d, t, now, retention);
    SurvivorsShrink(d, t, now, retention);
    assert |Survivors(d, t, retention)| <= MAX_ACCOUNTS;
    assert Survivors(d.(side := None), now, retention) <= Survivors(d, now, retention);
    hide DownInv, FilesInv, Recovered, Survivors;
    SubsetSize(Recovered(d, now, retention).mem.accounts.Keys + Survivors(d.(side := None), now, retention),
               Survivors(d, t, retention));
  }

  lemma RecoveredPending(d: Disk, t: Instant, now: Instant, retention: nat, k: Key)
    requires DownInv(d, t, retention) && t <= now && k in Recovered(d, now, retention).mem.adjustments
    ensures var c := Recovered(d, now, retention);
            && PendingOk(CoreActive(d, k), c.mem.adjustments[k], CoreRevision(d))
            && (Pending(c.mem.adjustments[k], CoreRevision(d)) ==> c.history)
  {
    hide DownInv, FilesInv, Recovered, PruneSlot, RecoveredSlot, PendingOk, Pending, Load, Reconcile, EventsInv, ActiveInv, AdjustmentInv, CoreAccount;
    DownFiles(d, t, retention);
    var c := Recovered(d, now, retention);
    RecoveredWithoutCore(d, t, now, retention);
    RecoveredSlots(d, t, now, retention, k);
    RecoveredFrame(d, t, now, retention);
    FilesCore(d, t, k);
    DownSide(d, t, retention, k);
    RecoveredAdjustments(d, k, now, retention);
    assert c.mem.adjustments[k] == KeepAdjustments(SideAdjustments(d, k), now - retention);
    KeepPending(CoreAccount(d, k).active, SideAdjustments(d, k), CoreRevision(d), now - retention);
    if !c.history {
      NothingReplayed(d, t, now, retention, k);
    }
  }

  lemma RecoveredAdjustments(d: Disk, k: Key, now: Instant, retention: nat)
    ensures PruneSlot(RecoveredSlot(d, k), now, retention).adjs == KeepAdjustments(SideAdjustments(d, k), now - retention)
  {
    hide ReplayAccount, PruneAccount, KeepAdjustments, SideAdjustments;
  }

  function OpenedDisk(d: Disk, c: Change, sideOk: bool, coreOk: bool): Committed {
    Persist(Marked(c), d, sideOk, coreOk)
  }

  lemma FilesReadable(d: Disk, t: Instant)
    requires FilesInv(d, t)
    ensures Readable(d)
  {
    hide ValidKey, ValidWindow, ValidEvent, ValidAdjustment, Dead, PendingOk;
    if d.core.Some? { assert CoreInv(d.core.value, t); }
    if d.side.Some? { assert SideInv(d.side.value, CoreRevision(d), t); }
  }

  /** What was recovered is written as a clean pair of files. */
  lemma OpenedClean(d: Disk, c: Change, now: Instant, retention: nat)
    requires Openable(d, c, now, retention)
    ensures var done := OpenedDisk(d, c, true, true);
            done.ok && Clean(done.mem, done.disk) && MemInv(done.mem, now)
  {
    hide SlotsInv, ValidSide, ValidCore, PendingOk, Pending, Survivors, CoreInv;
    OpenedMem(d, c, now, retention);
    OpenedAbsorbed(d, c, now, retention);
    OpenedRevision(d, c, now, retention);
    hide MemInv;
  }

  lemma OpenedMem(d: Disk, c: Change, now: Instant, retention: nat)
    requires Openable(d, c, now, retention)
    ensures var done := OpenedDisk(d, c, true, true); done.ok && MemInv(done.mem, now)
    ensures ValidSide(SideOf(Marked(c))) && ValidCore(CoreOf(Marked(c)))
  {
    hide SlotsInv, ValidSide, ValidCore, PendingOk, Pending, Survivors, CoreInv;
    OpenedRevision(d, c, now, retention);
    RaiseKeeps(c.mem, Marked(c), now);
    FilesValid(Marked(c), now);
    RaiseKeeps(c.mem, OpenedDisk(d, c, true, true).mem, now);
  }

  lemma OpenedRevision(d: Disk, c: Change, now: Instant, retention: nat)
    requires Openable(d, c, now, retention)
    ensures Marked(c).revision >= 1 && (!c.history ==> CoreRevision(d) >= 1)
    ensures c.mem.coreRevision <= Marked(c).revision && (c.history ==> c.mem.coreRevision < Marked(c).revision)
  {
    hide SlotsInv, PendingOk, Pending, Survivors, ValidKey, EventsInv, ActiveInv;
  }

  lemma OpenedAbsorbed(d: Disk, c: Change, now: Instant, retention: nat)
    requires Openable(d, c, now, retention)
    ensures forall k :: k in c.mem.adjustments ==> forall a :: a in c.mem.adjustments[k] ==>
              a.coreRevisionBefore < if c.history then c.mem.revision + 1 else c.mem.coreRevision
  {
    hide CoreInv, Survivors, PendingOk, Pending;
    forall k, a | k in c.mem.adjustments && a in c.mem.adjustments[k]
      ensures a.coreRevisionBefore < if c.history then c.mem.revision + 1 else c.mem.coreRevision
    {
      assert k in c.mem.accounts;
      SlotsFacts(c.mem, now, k);
      assert SlotOf(c.mem, k).adjs == c.mem.adjustments[k];
      assert AdjustmentInv(a, c.mem.coreRevision, now);
      hide SlotsInv, ValidAdjustment;
      PendingAbsorbed(CoreActive(d, k), c.mem.adjustments[k], CoreRevision(d), now);
    }
  }

  /** A crash between the two writes of opening leaves a state that can be opened again. */
  lemma OpenedHalf(d: Disk, c: Change, now: Instant, retention: nat)
    requires Openable(d, c, now, retention)
    ensures DownInv(d.(side := Some(SideOf(Marked(c)))), now, retention)
  {
    hide SlotsInv, CoreInv, SideInv, Survivors, PendingOk, Pending, KeysAgree;
    var half := d.(side := Some(SideOf(Marked(c))));
    OpenedHalfSide(d, c, now, retention);
    HalfSurvivors(d, SideOf(Marked(c)), now, retention);
    OpenedKeys(c, now);
    assert half.side.value.accounts == c.mem.adjustments;
    assert forall k :: CoreActive(half, k) == CoreActive(d, k);
  }

  lemma OpenedKeys(c: Change, now: Instant)
    requires SlotsInv(c.mem, now)
    ensures SideOf(Marked(c)).accounts.Keys == c.mem.accounts.Keys
  {
  }

  lemma HalfSurvivors(d: Disk, side: SideFile, now: Instant, retention: nat)
    ensures Survivors(d.(side := Some(side)), now, retention) == side.accounts.Keys + Survivors(d.(side := None), now, retention)
  {
    hide Dead;
  }

  lemma SlotAdjustments(m: Mem, t: Instant, k: Key)
    requires SlotsInv(m, t) && k in m.adjustments
    ensures ValidKey(k) && AdjustmentsInv(m.adjustments[k], m.coreRevision, t)
  {
    hide SlotInv, ValidKey, AdjustmentsInv, ActiveInv, EventsInv;
    assert k in m.accounts;
    SlotsFacts(m, t, k);
  }

  lemma OpenedHalfSide(d: Disk, c: Change, now: Instant, retention: nat)
    requires Openable(d, c, now, retention)
    ensures SideInv(SideOf(Marked(c)), CoreRevision(d), now)
  {
    hide SlotInv, CoreInv, ValidKey, AdjustmentsInv, PendingOk, Pending, Survivors, Dead;
    OpenedRevision(d, c, now, retention);
    SameSize(c.mem);
    forall k | k in c.mem.adjustments ensures ValidKey(k) && AdjustmentsInv(c.mem.adjustments[k], CoreRevision(d), now) {
      SlotAdjustments(c.mem, now, k);
    }
    hide SlotsInv;
  }

  /** The files opening can leave: the ones it found, the new sidecar over the old core, or both new. */
  lemma OpenDisks(d: Disk, c: Change, now: Instant, retention: nat, sideOk: bool, coreOk: bool)
    requires Openable(d, c, now, retention)
    ensures var done := OpenedDisk(d, c, sideOk, coreOk);
            && (sideOk && coreOk ==> done.ok)
            && (done.ok ==> done == OpenedDisk(d, c, true, true))
            && (!done.ok ==> done.disk in {d, d.(side := Some(SideOf(Marked(c))))})
            && (!done.ok && done.disk != d ==> c.adjustments)
  {
    OpenedRevision(d, c, now, retention);
    hide SlotsInv, ValidSide, ValidCore, PendingOk, Pending, Survivors, CoreInv;
    RaiseKeeps(c.mem, Marked(c), now);
    FilesValid(Marked(c), now);
  }

  lemma DownLater(d: Disk, t: Instant, now: Instant, retention: nat)
    requires DownInv(d, t, retention) && t <= now
    ensures DownInv(d, now, retention)
  {
    DownFiles(d, t, retention);
    CoreLater(d, t, now);
    SideLater(d, t, now);
    SurvivorsShrink(d, t, now, retention);
    SubsetSize(Survivors(d, now, retention), Survivors(d, t, retention));
    hide CoreInv, SideInv, Survivors, PendingOk;
  }

  lemma SideLater(d: Disk, t: Instant, now: Instant)
    requires FilesInv(d, t) && t <= now
    ensures d.side.Some? ==> SideInv(d.side.value, CoreRevision(d), now)
  {
    if d.side.Some? {
      assert SideInv(d.side.value, CoreRevision(d), t);
      hide FilesInv, ValidKey;
      forall k | k in d.side.value.accounts ensures AdjustmentsInv(d.side.value.accounts[k], CoreRevision(d), now) {
        AdjustmentsInvLater(d.side.value.accounts[k], CoreRevision(d), t, now);
      }
      hide AdjustmentsInv;
    }
  }

  lemma AdjustmentsInvLater(adjs: seq<Adjustment>, coreRevision: nat, t: Instant, now: Instant)
    requires AdjustmentsInv(adjs, coreRevision, t) && t <= now
    ensures AdjustmentsInv(adjs, coreRevision, now)
  {
    hide ValidAdjustment;
  }

  /** Opening what a stopped tracker left succeeds unless a write fails; it yields a clean tracker,
      and if it dies half-way the files can be opened again. */
  lemma OpenSucceeds(d: Disk, t: Instant, now: Instant, retention: nat, sideOk: bool, coreOk: bool)
    requires DownInv(d, t, retention) && t <= now && !IsZero(now)
    ensures var o := Open(d, now, retention, sideOk, coreOk);
            && (sideOk && coreOk ==> o.tracker.Some?)
            && (o.tracker.Some? ==> MemInv(o.tracker.value, now) && Clean(o.tracker.value, o.disk))
            && DownInv(o.disk, now, retention)
  {
    hide DownInv, FilesInv, Recovered, Openable, MemInv, Clean, Readable;
    DownFiles(d, t, retention);
    FilesReadable(d, t);
    DownLater(d, t, now, retention);
    var c := Recovered(d, now, retention);
    RecoveredOpenable(d, t, now, retention);
    OpenedClean(d, c, now, retention);
    OpenedHalf(d, c, now, retention);
    OpenDisks(d, c, now, retention, sideOk, coreOk);
    OpenIs(d, t, now, retention, sideOk, coreOk);
    var done := OpenedDisk(d, c, true, true);
    CleanIsDown(done.mem, done.disk, now, retention);
  }

  /** Opening, in terms of the recovered memory. */
  lemma OpenIs(d: Disk, t: Instant, now: Instant, retention: nat, sideOk: bool, coreOk: bool)
    requires DownInv(d, t, retention)
    ensures var done := OpenedDisk(d, Recovered(d, now, retention), sideOk, coreOk);
            Open(d, now, retention, sideOk, coreOk) == Opened(if done.ok then Some(done.mem) else None, done.disk)
  {
    hide DownInv, FilesInv, Recovered, Readable, Load, Reconcile, ValidCore, ValidSide;
    DownFiles(d, t, retention);
    FilesReadable(d, t);
    RecoveredFrame(d, t, now, retention);
  }

  // ----- opening any two valid files -----

  /** What becomes of one stored adjustment: one whose reset times differ by at most 120 seconds told of jitter; it is dropped,
      or tells only of the usage that fell with it. */
  function Sane(a: Adjustment): Option<Adjustment> {
    if !(ResetTimestampChanged in a.reasons && -120 <= a.before.resetsAt - a.after.resetsAt <= 120) then Some(a)
    else if a.after.used >= a.before.used then None
    else Some(a.(reasons := [UsedPercentDecreased], after := a.before.(used := a.after.used)))
  }

  lemma {:induction false} SanitizedAre(adjs: seq<Adjustment>)
    ensures forall a :: a in SanitizeAdjustments(adjs) <==> exists x :: x in adjs && Sane(x) == Some(a)
  {
    if adjs != [] {
      var front, last := adjs[..|adjs| - 1], adjs[|adjs| - 1];
      assert adjs == front + [last];
      SanitizedAre(front);
      assert last in adjs;
      assert SanitizeAdjustments(adjs) == SanitizeAdjustments(front) + if Sane(last).Some? then [Sane(last).value] else [];
    }
  }

  lemma SanitizeSlots(m: Mem, k: Key)
    requires KeysAgree(m)
    ensures KeysAgree(Sanitize(m).mem)
    ensures SlotOf(Sanitize(m).mem, k) == SlotOf(m, k).(adjs := SanitizeAdjustments(SlotOf(m, k).adjs))
  {
    if k !in m.adjustments { assert SanitizeAdjustments([]) == []; }
    hide SanitizeAdjustments;
  }

  lemma SanitizeFlag(m: Mem, k: Key)
    ensures Sanitize(m).mem == m.(adjustments := Sanitize(m).mem.adjustments)
    ensures k in m.adjustments && SanitizeAdjustments(m.adjustments[k]) != m.adjustments[k] ==> Sanitize(m).adjustments
  {
    hide SanitizeAdjustments;
  }

  /** What opening makes of an account in any two files that it accepts, those of earlier versions included: the stored
      adjustments without jitter, the window replayed from them, all pruned; and if there was jitter, the sidecar is due. */
  lemma AnyFileOpened(d: Disk, now: Instant, retention: nat, k: Key)
    ensures var sane := SanitizeAdjustments(SideAdjustments(d, k));
            var replayed := ReplayAccount(CoreAccount(d, k), sane, CoreRevision(d));
            && SlotOf(Recovered(d, now, retention).mem, k) == PruneSlot(Slot(replayed.active, CoreAccount(d, k).events, sane, None), now, retention)
            && (sane != SideAdjustments(d, k) ==> Recovered(d, now, retention).adjustments)
  {
    hide Load, Sanitize, Reconcile, Prune, ReplayAccount, PruneSlot, KeysAgree, SlotOf;
    var loaded := Load(d, now).mem;
    LoadSlots(d, now, k);
    LoadFrame(d, now);
    SanitizeSlots(loaded, k);
    SanitizeFlag(loaded, k);
    AdjustmentsIn(loaded, k);
    var sane := Sanitize(loaded).mem;
    ReconcileSlots(sane, k);
    PruneSlots(Reconcile(sane).mem, now, retention, k);
    EventsReplayed(CoreAccount(d, k), SanitizeAdjustments(SideAdjustments(d, k)), CoreRevision(d));
  }

  lemma EventsReplayed(a: Account, adjs: seq<Adjustment>, coreRevision: nat)
    ensures ReplayAccount(a, adjs, coreRevision).events == a.events
  {
  }

  lemma AdjustmentsIn(m: Mem, k: Key)
    ensures SlotOf(m, k).adjs == if k in m.adjustments then m.adjustments[k] else []
    ensures SanitizeAdjustments([]) == []
  {
  }
}
