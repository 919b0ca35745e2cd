/** The tracker as a system that runs, crashes and reopens: its invariant, and what recovery yields. */
module HistoryRecovery {
  import opened Common
  import opened HistoryModel
  import opened HistoryRules
  import opened HistoryReplay
  import opened HistoryCommit

  // ----- invariants -----

  /** Every account in memory is well-formed. */
  predicate SlotsInv(m: Mem, t: Instant) {
    && KeysAgree(m)
    && forall k :: k in m.accounts ==> ValidKey(k) && SlotInv(SlotOf(m, k), m.coreRevision, t)
  }

  predicate MemInv(m: Mem, t: Instant) {
    && SlotsInv(m, t) && |m.accounts| <= MAX_ACCOUNTS && 1 <= m.coreRevision <= m.revision
    && !IsZero(m.trackingSince) && !IsZero(m.adjustmentsTrackingSince)
  }

  function Max(a: nat, b: nat): nat {
    if a > b then a else b
  }

  /** Memory and files agree, and the core file has absorbed every adjustment. */
  predicate Clean(m: Mem, d: Disk) {
    && !m.dirty && !m.adjustmentsDirty && d.side.Some?
    && d.core == Some(CoreFile(m.coreRevision, m.trackingSince, m.accounts))
    && d.side.value == SideFile(d.side.value.revision, m.adjustmentsTrackingSince, m.adjustments)
    && d.side.value.revision >= 1 && m.revision == Max(m.coreRevision, d.side.value.revision)
    && forall k :: k in m.adjustments ==> forall a :: a in m.adjustments[k] ==> a.coreRevisionBefore < m.coreRevision
  }

  predicate CoreInv(f: CoreFile, t: Instant) {
    && f.revision >= 1 && !IsZero(f.trackingSince) && |f.accounts| <= MAX_ACCOUNTS
    && forall k :: k in f.accounts ==> ValidKey(k) && ActiveInv(f.accounts[k].active, t) && EventsInv(f.accounts[k].events, t)
  }

  predicate SideInv(f: SideFile, coreRevision: nat, t: Instant) {
    && f.revision >= 1 && !IsZero(f.trackingSince) && |f.accounts| <= MAX_ACCOUNTS
    && forall k :: k in f.accounts ==> ValidKey(k) && AdjustmentsInv(f.accounts[k], coreRevision, t)
  }

  /** The accounts opening at `t` may have to keep. */
  function Survivors(d: Disk, t: Instant, retention: nat): set<Key> {
    (if d.side.Some? then d.side.value.accounts.Keys else {}) +
    (if d.core.Some? then set k | k in d.core.value.accounts && !Dead(d.core.value.accounts[k], t, retention) else {})
  }

  function CoreActive(d: Disk, k: Key): Option<Window> {
    if d.core.Some? && k in d.core.value.accounts then d.core.value.accounts[k].active else None
  }

  function CoreRevision(d: Disk): nat {
    if d.core.Some? then d.core.value.revision else 0
  }

  /** Each file by itself is well-formed, and the sidecar refers to no later core file. */
  predicate FilesInv(d: Disk, t: Instant) {
    && (d.core.Some? ==> CoreInv(d.core.value, t))
    && (d.side.Some? ==> SideInv(d.side.value, CoreRevision(d), t))
    && (d.core.None? && d.side.Some? ==> d.side.value.accounts == map[])
  }

  /** What a stopped tracker may have left on disk: possibly no file, possibly a sidecar one
      commit ahead of the core file. */
  predicate DownInv(d: Disk, t: Instant, retention: nat) {
    && FilesInv(d, t)
    && (d.core.Some? && d.side.Some? ==> forall k :: k in d.side.value.accounts ==>
          PendingOk(CoreActive(d, k), d.side.value.accounts[k], d.core.value.revision))
    && |Survivors(d, t, retention)| <= MAX_ACCOUNTS
  }

  lemma DownFiles(d: Disk, t: Instant, retention: nat)
    requires DownInv(d, t, retention)
    ensures FilesInv(d, t)
  {
    hide FilesInv, Survivors, PendingOk;
  }

  // ----- pruning, account by account -----

  lemma PruneSlots(m: Mem, now: Instant, retention: nat, k: Key)
    requires KeysAgree(m)
    ensures SlotOf(Prune(m, now, retention).mem, k) == PruneSlot(SlotOf(m, k), now, retention)
    ensures k in Prune(m, now, retention).mem.accounts <==>
              k in m.accounts && PruneSlot(SlotOf(m, k), now, retention) != Slot(None, [], [], None)
  {
  }

  lemma PruneSlotKeeps(s: Slot, coreRevision: nat, t: Instant, now: Instant, retention: nat)
    requires SlotInv(s, coreRevision, t) && t <= now
    ensures SlotInv(PruneSlot(s, now, retention), coreRevision, now)
  {
    PruneAccountKeeps(Account(s.active, s.events), t, now, retention);
    KeepAdjustmentsKeeps(s.adjs, coreRevision, t, now, now - retention);
  }

  predicate KeysAgree(m: Mem) {
    m.accounts.Keys == m.adjustments.Keys && m.candidates.Keys <= m.accounts.Keys
  }

  lemma PruneKeys(m: Mem, now: Instant, retention: nat)
    requires KeysAgree(m)
    ensures KeysAgree(Prune(m, now, retention).mem)
    ensures Prune(m, now, retention).mem.accounts.Keys <= m.accounts.Keys
    ensures Prune(m, now, retention).mem.coreRevision == m.coreRevision
  {
    var out := Prune(m, now, retention).mem;
    forall k | k in out.candidates ensures k in out.accounts {
      PruneSlots(m, now, retention, k);
      assert SlotOf(out, k).cand.Some?;
    }
  }

  lemma PruneKeeps(m: Mem, t: Instant, now: Instant, retention: nat)
    requires SlotsInv(m, t) && t <= now
    ensures SlotsInv(Prune(m, now, retention).mem, now)
    ensures Prune(m, now, retention).mem.accounts.Keys <= m.accounts.Keys
    ensures |Prune(m, now, retention).mem.accounts| <= |m.accounts|
  {
    hide Prune, SlotInv, ValidKey, SlotOf, PruneSlot;
    var out := Prune(m, now, retention).mem;
    PruneKeys(m, now, retention);
    forall k | k in out.accounts ensures ValidKey(k) && SlotInv(SlotOf(out, k), m.coreRevision, now) {
      PruneSlots(m, now, retention, k);
      PruneSlotKeeps(SlotOf(m, k), m.coreRevision, t, now, retention);
    }
    SubsetSize(out.accounts.Keys, m.accounts.Keys);
  }

  // ----- one delivery -----

  /** The account a report is about, after pruning and admission. */
  predicate Reaches(m: Mem, now: Instant, retention: nat, r: Report, k: Key) {
    && r.account == Some(k) && r.usage.Some? && Proposed(now, r.usage.value).Some?
    && k in Admitted(m, now, retention, r).mem.accounts
  }

  function ReportSlot(s: Slot, coreRevision: nat, now: Instant, p: Window, rebaseline: bool): Outcome {
    if rebaseline then RebaselineSlot(s, coreRevision, now, p) else ObserveSlot(s, coreRevision, now, p)
  }

  /** A delivery acts on each account by itself: pruning for all, the report for the one it reaches. */
  function DeliverSlot(m: Mem, now: Instant, retention: nat, r: Report, rebaseline: bool, k: Key): Slot {
    var s := PruneSlot(SlotOf(m, k), now, retention);
    if Reaches(m, now, retention, r, k) then ReportSlot(s, m.coreRevision, now, Proposed(now, r.usage.value).value, rebaseline).slot
    else s
  }

  lemma EnsureSlots(m: Mem, k: Key, j: Key)
    requires KeysAgree(m)
    ensures KeysAgree(Ensure(m, k).mem) && SlotOf(Ensure(m, k).mem, j) == SlotOf(m, j)
  {
  }

  lemma WithSlotSlots(m: Mem, k: Key, s: Slot, j: Key)
    requires KeysAgree(m) && k in m.accounts
    ensures KeysAgree(WithSlot(m, k, s)) && WithSlot(m, k, s).accounts.Keys == m.accounts.Keys
    ensures SlotOf(WithSlot(m, k, s), j) == if j == k then s else SlotOf(m, j)
  {
  }

  lemma AdmittedSlots(m: Mem, now: Instant, retention: nat, r: Report, k: Key)
    requires KeysAgree(m)
    ensures var out := Admitted(m, now, retention, r).mem;
            && KeysAgree(out) && SlotOf(out, k) == PruneSlot(SlotOf(m, k), now, retention)
            && (k in Prune(m, now, retention).mem.accounts ==> k in out.accounts)
            && out.coreRevision == m.coreRevision
  {
    PruneSlots(m, now, retention, k);
    PruneKeys(m, now, retention);
    var pruned := Prune(m, now, retention).mem;
    hide PruneSlot, Prune, KeysAgree, SlotOf;
    if r.account.Some? {
      EnsureSlots(pruned, r.account.value, k);
    }
  }

  lemma ReportSlots(m: Mem, j: Key, now: Instant, u: Usage, rebaseline: bool, k: Key)
    requires KeysAgree(m)
    ensures var out := ReportWindow(m, j, now, u, rebaseline).mem;
            && KeysAgree(out) && out.accounts.Keys == m.accounts.Keys
            && SlotOf(out, k) == if k == j && j in m.accounts && Proposed(now, u).Some?
                                 then ReportSlot(SlotOf(m, k), m.coreRevision, now, Proposed(now, u).value, rebaseline).slot
                                 else SlotOf(m, k)
  {
    hide ObserveSlot, RebaselineSlot, KeysAgree;
    if j in m.accounts && Proposed(now, u).Some? {
      WithSlotSlots(m, j, ReportSlot(SlotOf(m, j), m.coreRevision, now, Proposed(now, u).value, rebaseline).slot, k);
    }
  }

  lemma DeliverSlots(m: Mem, now: Instant, retention: nat, r: Report, rebaseline: bool, k: Key)
    requires KeysAgree(m)
    ensures SlotOf(Deliver(m, now, retention, r, rebaseline).mem, k) == DeliverSlot(m, now, retention, r, rebaseline, k)
    ensures k in Prune(m, now, retention).mem.accounts ==> k in Deliver(m, now, retention, r, rebaseline).mem.accounts
  {
    AdmittedSlots(m, now, retention, r, k);
    var admitted := Admitted(m, now, retention, r).mem;
    hide PruneSlot, Prune, KeysAgree, SlotOf, Admitted, ReportWindow, ReportSlot;
    if r.account.Some? && r.usage.Some? {
      ReportSlots(admitted, r.account.value, now, r.usage.value, rebaseline, k);
    }
  }

  lemma EnsureKeeps(m: Mem, t: Instant, k: Key)
    requires SlotsInv(m, t) && |m.accounts| <= MAX_ACCOUNTS
    ensures var c := Ensure(m, k); SlotsInv(c.mem, t) && |c.mem.accounts| <= MAX_ACCOUNTS
    ensures var c := Ensure(m, k); (!c.history ==> c.mem == m) && (c.history <==> c.adjustments)
  {
    hide SlotInv, ValidKey, SlotOf;
    var c := Ensure(m, k);
    if Admits(m, k) {
      assert c.mem.accounts.Keys == m.accounts.Keys + {k};
      BlankSlotInv(m.coreRevision, t);
      SlotOfAbsent(m, k);
      forall j | j in c.mem.accounts ensures ValidKey(j) && SlotInv(SlotOf(c.mem, j), m.coreRevision, t) {
        EnsureSlots(m, k, j);
      }
    }
  }

  lemma SlotOfAbsent(m: Mem, k: Key)
    requires KeysAgree(m) && k !in m.accounts
    ensures SlotOf(m, k) == Slot(None, [], [], None)
  {
  }

  lemma BlankSlotInv(coreRevision: nat, t: Instant)
    ensures SlotInv(Slot(None, [], [], None), coreRevision, t)
  {
  }

  lemma SlotsInvLater(m: Mem, t: Instant, now: Instant)
    requires SlotsInv(m, t) && t <= now
    ensures SlotsInv(m, now)
  {
    forall j | j in m.accounts ensures ValidKey(j) && SlotInv(SlotOf(m, j), m.coreRevision, now) {
      SlotInvLater(SlotOf(m, j), m.coreRevision, t, now);
    }
  }

  lemma SlotsFacts(m: Mem, t: Instant, k: Key)
    requires SlotsInv(m, t) && k in m.accounts
    ensures ValidKey(k) && KeysAgree(m) && SlotInv(SlotOf(m, k), m.coreRevision, t)
    ensures AdjustmentsInv(SlotOf(m, k).adjs, m.coreRevision, t) && ActiveInv(SlotOf(m, k).active, t)
    ensures EventsInv(SlotOf(m, k).events, t)
  {
    hide ValidKey, ActiveInv, EventsInv, AdjustmentsInv, CandidateInv;
  }

  lemma WithSlotKeeps(m: Mem, k: Key, s: Slot, t: Instant)
    requires SlotsInv(m, t) && k in m.accounts && SlotInv(s, m.coreRevision, t)
    ensures SlotsInv(WithSlot(m, k, s), t)
  {
    hide SlotInv;
    forall j | j in m.accounts ensures ValidKey(j) && SlotInv(SlotOf(WithSlot(m, k, s), j), m.coreRevision, t) {
      WithSlotSlots(m, k, s, j);
    }
    WithSlotSlots(m, k, s, k);
  }

  lemma ProposedUsed(now: Instant, u: Usage)
    requires Proposed(now, u).Some?
    ensures Proposed(now, u).value.used >= 0
  {
  }

  lemma ReportSlotKeeps(s: Slot, coreRevision: nat, t: Instant, now: Instant, u: Usage, rebaseline: bool)
    requires SlotInv(s, coreRevision, t) && t <= now && coreRevision >= 1 && Proposed(now, u).Some?
    ensures SlotInv(ReportSlot(s, coreRevision, now, Proposed(now, u).value, rebaseline).slot, coreRevision, now)
  {
    hide SlotInv, Proposed, ObserveSlot, RebaselineSlot;
    var p := Proposed(now, u).value;
    ObserveKeeps(s, coreRevision, t, now, p, u);
    RebaselineKeeps(s, coreRevision, t, now, p, u);
  }

  lemma ReportKeeps(m: Mem, k: Key, t: Instant, now: Instant, u: Usage, rebaseline: bool)
    requires SlotsInv(m, t) && t <= now && m.coreRevision >= 1
    ensures var c := ReportWindow(m, k, now, u, rebaseline);
            && SlotsInv(c.mem, now) && c.mem.accounts.Keys == m.accounts.Keys
            && (!c.history ==> c.mem.accounts == m.accounts) && (!c.adjustments ==> c.mem.adjustments == m.adjustments)
  {
    hide SlotInv, ValidKey, SlotsInv, AdjustmentsInv, ActiveInv, EventsInv, Proposed, ObserveSlot, RebaselineSlot;
    SlotsInvLater(m, t, now);
    if k in m.accounts && Proposed(now, u).Some? {
      var p := Proposed(now, u).value;
      var s := SlotOf(m, k);
      SlotsFacts(m, t, k);
      ProposedUsed(now, u);
      ReportSlotKeeps(s, m.coreRevision, t, now, u, rebaseline);
      ReportFlags(m, k, t, now, p, rebaseline);
      var out := ReportSlot(s, m.coreRevision, now, p, rebaseline);
      WithSlotKeeps(m, k, out.slot, now);
    }
  }

  lemma ReportFlags(m: Mem, k: Key, t: Instant, now: Instant, p: Window, rebaseline: bool)
    requires k in m.accounts && k in m.adjustments && AdjustmentsInv(SlotOf(m, k).adjs, m.coreRevision, t) && t <= now && p.used >= 0
    ensures var out := ReportSlot(SlotOf(m, k), m.coreRevision, now, p, rebaseline);
            && (!out.changed ==> WithSlot(m, k, out.slot).accounts == m.accounts)
            && (!out.adjusted ==> WithSlot(m, k, out.slot).adjustments == m.adjustments)
  {
    var s := SlotOf(m, k);
    FlagsSound(s, m.coreRevision, now, p);
    ReportTold(s, m.coreRevision, t, now, p);
    hide ObserveSlot, RebaselineSlot;
    assert s == Slot(m.accounts[k].active, m.accounts[k].events, m.adjustments[k], s.cand);
  }

  /** An unset change flag means the window and events are as before. */
  lemma FlagsSound(s: Slot, coreRevision: nat, now: Instant, p: Window)
    ensures var out := ObserveSlot(s, coreRevision, now, p);
            !out.changed ==> out.slot.active == s.active && out.slot.events == s.events
    ensures var out := RebaselineSlot(s, coreRevision, now, p);
            !out.changed ==> out.slot.active == s.active && out.slot.events == s.events
  {
  }

  lemma AdmittedKeeps(m: Mem, t: Instant, now: Instant, retention: nat, r: Report)
    requires MemInv(m, t) && t <= now
    ensures var c := Admitted(m, now, retention, r);
            && MemInv(c.mem, now)
            && (!c.history ==> c.mem.accounts == m.accounts) && (!c.adjustments ==> c.mem.adjustments == m.adjustments)
  {
    hide SlotsInv, Prune, ValidKey;
    var pruned := Prune(m, now, retention);
    PruneKeeps(m, t, now, retention);
    PruneFrame(m, now, retention);
    PruneFlags(m, now, retention);
    if r.account.Some? {
      EnsureKeeps(pruned.mem, now, r.account.value);
    }
  }

  lemma PruneFrame(m: Mem, now: Instant, retention: nat)
    ensures var p := Prune(m, now, retention).mem;
            m == p.(accounts := m.accounts, adjustments := m.adjustments, candidates := m.candidates)
  {
  }

  lemma ReportFrame(m: Mem, k: Key, now: Instant, u: Usage, rebaseline: bool)
    ensures var p := ReportWindow(m, k, now, u, rebaseline).mem;
            m == p.(accounts := m.accounts, adjustments := m.adjustments, candidates := m.candidates)
  {
    hide ObserveSlot, RebaselineSlot;
  }

  lemma PruneFlags(m: Mem, now: Instant, retention: nat)
    ensures var c := Prune(m, now, retention);
            (!c.history ==> c.mem.accounts == m.accounts) && (!c.adjustments ==> c.mem.adjustments == m.adjustments)
  {
  }

  /** Every delivery keeps the memory well-formed, whatever the state of the files, and sets the
      change flags of everything it changes. */
  lemma DeliverKeeps(m: Mem, t: Instant, now: Instant, retention: nat, r: Report, rebaseline: bool)
    requires MemInv(m, t) && t <= now
    ensures var c := Deliver(m, now, retention, r, rebaseline);
            && MemInv(c.mem, now)
            && (!c.history ==> c.mem.accounts == m.accounts) && (!c.adjustments ==> c.mem.adjustments == m.adjustments)
  {
    hide SlotsInv, Admitted, Prune;
    AdmittedKeeps(m, t, now, retention, r);
    var admitted := Admitted(m, now, retention, r).mem;
    if r.account.Some? && r.usage.Some? {
      ReportKeeps(admitted, r.account.value, now, now, r.usage.value, rebaseline);
      ReportFrame(admitted, r.account.value, now, r.usage.value, rebaseline);
      hide ReportWindow;
      SubsetSize(ReportWindow(admitted, r.account.value, now, r.usage.value, rebaseline).mem.accounts.Keys, admitted.accounts.Keys);
    }
  }

  // ----- committing -----

  lemma SlotFacts(m: Mem, t: Instant, k: Key)
    requires MemInv(m, t) && k in m.accounts
    ensures ValidKey(k) && k in m.adjustments && SlotOf(m, k).adjs == m.adjustments[k]
    ensures SlotOf(m, k).active == m.accounts[k].active && SlotOf(m, k).events == m.accounts[k].events
    ensures ActiveInv(m.accounts[k].active, t) && EventsInv(m.accounts[k].events, t)
    ensures AdjustmentsInv(m.adjustments[k], m.coreRevision, t)
  {
    SlotsFacts(m, t, k);
    hide ActiveInv, EventsInv, AdjustmentsInv, ValidKey;
  }

  lemma SameSize(m: Mem)
    requires KeysAgree(m)
    ensures |m.adjustments| == |m.accounts| == |m.accounts.Keys|
  {
    assert |m.accounts| == |m.accounts.Keys| && |m.adjustments.Keys| == |m.adjustments|;
  }

  /** Whatever a well-formed memory holds, its two files pass their validators. */
  lemma FilesValid(m: Mem, t: Instant)
    requires SlotsInv(m, t) && |m.accounts| <= MAX_ACCOUNTS && m.revision >= 1
    requires !IsZero(m.trackingSince) && !IsZero(m.adjustmentsTrackingSince)
    ensures ValidSide(SideOf(m)) && ValidCore(CoreOf(m))
  {
    hide ValidKey, ValidWindow, ValidEvent, ValidAdjustment;
    forall k | k in m.accounts ensures ValidKey(k) && ValidAccount(m.accounts[k]) && ValidAdjustments(m.adjustments[k]) {
      SlotsFacts(m, t, k);
    }
    SameSize(m);
  }

  /** The facts about a change in memory that committing it relies on. */
  predicate Committable(m: Mem, c: Change, now: Instant, retention: nat) {
    && MemInv(c.mem, now)
    && c.mem == m.(accounts := c.mem.accounts, adjustments := c.mem.adjustments, candidates := c.mem.candidates)
    && (!c.history ==> c.mem.accounts == m.accounts) && (!c.adjustments ==> c.mem.adjustments == m.adjustments)
    && (forall k :: k in c.mem.adjustments ==>
          && PendingOk(SlotOf(m, k).active, c.mem.adjustments[k], m.coreRevision)
          && (Pending(c.mem.adjustments[k], m.coreRevision) ==> c.history))
    && (forall k :: k in m.accounts && !Dead(m.accounts[k], now, retention) ==> k in c.mem.accounts)
  }

  lemma PendingAbsorbed(active: Option<Window>, adjs: seq<Adjustment>, coreRevision: nat, t: Instant)
    requires PendingOk(active, adjs, coreRevision) && AdjustmentsInv(adjs, coreRevision, t)
    ensures !Pending(adjs, coreRevision) ==> forall a :: a in adjs ==> a.coreRevisionBefore < coreRevision
  {
    hide ValidAdjustment;
    if adjs != [] {
      assert adjs[|adjs| - 1] in adjs;
      assert adjs == adjs[..|adjs| - 1] + [adjs[|adjs| - 1]];
    }
  }

  lemma CleanSide(m: Mem, d: Disk, t: Instant)
    requires MemInv(m, t) && Clean(m, d)
    ensures SideInv(d.side.value, m.coreRevision, t)
  {
    SameSize(m);
    forall k | k in m.adjustments ensures ValidKey(k) && AdjustmentsInv(m.adjustments[k], m.coreRevision, t) {
      assert k in m.accounts;
      SlotFacts(m, t, k);
    }
    hide SlotsInv, ValidKey, AdjustmentsInv;
  }

  lemma CleanIsDown(m: Mem, d: Disk, t: Instant, retention: nat)
    requires MemInv(m, t) && Clean(m, d)
    ensures DownInv(d, t, retention)
  {
    hide SlotsInv, CoreInv, SideInv, Survivors, PendingOk, ValidKey;
    HalfCore(m, d, t, t);
    CleanSide(m, d, t);
    CleanSurvivors(m, d, t, retention);
    forall k | k in m.adjustments ensures PendingOk(CoreActive(d, k), m.adjustments[k], m.coreRevision) {
      AbsorbedOk(CoreActive(d, k), m.adjustments[k], m.coreRevision);
    }
  }

  lemma CleanSurvivors(m: Mem, d: Disk, t: Instant, retention: nat)
    requires MemInv(m, t) && Clean(m, d)
    ensures |Survivors(d, t, retention)| <= MAX_ACCOUNTS
  {
    hide SlotInv, ValidKey, Dead;
    SameSize(m);
    assert Survivors(d, t, retention) <= m.accounts.Keys;
    SubsetSize(Survivors(d, t, retention), m.accounts.Keys);
  }

  lemma HalfCore(m: Mem, d: Disk, t: Instant, now: Instant)
    requires MemInv(m, t) && Clean(m, d) && t <= now
    ensures CoreInv(d.core.value, now)
  {
    forall k | k in m.accounts
      ensures ValidKey(k) && ActiveInv(m.accounts[k].active, now) && EventsInv(m.accounts[k].events, now)
    {
      SlotFacts(m, t, k);
      hide SlotsInv;
      EventsInvLater(m.accounts[k].events, t, now);
    }
    hide SlotsInv, ValidKey, EventsInv;
  }

  lemma HalfSide(m: Mem, c: Change, now: Instant, retention: nat)
    requires Committable(m, c, now, retention)
    ensures SideInv(SideOf(Marked(c)), m.coreRevision, now)
  {
    SameSize(c.mem);
    forall k | k in c.mem.adjustments ensures ValidKey(k) && AdjustmentsInv(c.mem.adjustments[k], m.coreRevision, now) {
      assert k in c.mem.accounts;
      hide Dead, PendingOk;
      SlotFacts(c.mem, now, k);
    }
    hide SlotsInv, Dead, PendingOk, ValidKey, AdjustmentsInv;
  }

  /** The sidecar of a change over the core file from before it. */
  lemma HalfIsDown(m: Mem, d: Disk, c: Change, t: Instant, now: Instant, retention: nat)
    requires MemInv(m, t) && Clean(m, d) && t <= now && Committable(m, c, now, retention)
    ensures DownInv(d.(side := Some(SideOf(Marked(c)))), now, retention)
  {
    hide SlotInv, CoreInv, SideInv, Dead, PendingOk, Pending, ValidKey;
    HalfCore(m, d, t, now);
    HalfSide(m, c, now, retention);
    HalfSurvivors(m, d, c, now, retention);
    var half := d.(side := Some(SideOf(Marked(c))));
    forall k | k in c.mem.adjustments ensures PendingOk(CoreActive(half, k), c.mem.adjustments[k], m.coreRevision) {
      assert CoreActive(half, k) == SlotOf(m, k).active;
    }
    hide Survivors, SlotsInv;
    assert half.side.value.accounts == c.mem.adjustments;
  }

  lemma HalfSurvivors(m: Mem, d: Disk, c: Change, now: Instant, retention: nat)
    requires Clean(m, d) && Committable(m, c, now, retention)
    ensures |Survivors(d.(side := Some(SideOf(Marked(c)))), now, retention)| <= MAX_ACCOUNTS
  {
    hide SlotInv, ValidKey, Dead, PendingOk, Pending;
    var half := d.(side := Some(SideOf(Marked(c))));
    assert half.side.value.accounts == c.mem.adjustments;
    assert Survivors(half, now, retention) <= c.mem.accounts.Keys;
    SubsetSize(Survivors(half, now, retention), c.mem.accounts.Keys);
    SameSize(c.mem);
  }

  lemma EventsInvLater(events: seq<Event>, t: Instant, now: Instant)
    requires EventsInv(events, t) && t <= now
    ensures EventsInv(events, now)
  {
  }

  /** Revisions and flags may move on; the accounts stay well-formed. */
  lemma RaiseKeeps(m: Mem, raised: Mem, t: Instant)
    requires SlotsInv(m, t) && m.coreRevision <= raised.coreRevision
    requires raised.accounts == m.accounts && raised.adjustments == m.adjustments && raised.candidates == m.candidates
    ensures SlotsInv(raised, t)
  {
    hide ValidKey;
    forall k | k in m.accounts ensures ValidKey(k) && SlotInv(SlotOf(raised, k), raised.coreRevision, t) {
      RaiseSlot(SlotOf(m, k), m.coreRevision, raised.coreRevision, t);
    }
  }

  lemma RaiseSlot(s: Slot, coreRevision: nat, raised: nat, t: Instant)
    requires SlotInv(s, coreRevision, t) && coreRevision <= raised
    ensures SlotInv(s, raised, t)
  {
    hide ValidAdjustment, ValidEvent, ValidWindow;
  }

  /** The revision the core file has once a change is committed exceeds every recorded one. */
  lemma AllAbsorbed(m: Mem, c: Change, now: Instant, retention: nat)
    requires Committable(m, c, now, retention)
    ensures forall k :: k in c.mem.adjustments ==> forall a :: a in c.mem.adjustments[k] ==>
              a.coreRevisionBefore < if c.history then m.revision + 1 else m.coreRevision
  {
    hide ValidKey, Dead, PendingOk;
    forall k, a | k in c.mem.adjustments && a in c.mem.adjustments[k]
      ensures a.coreRevisionBefore < if c.history then m.revision + 1 else m.coreRevision
    {
      assert SlotInv(SlotOf(c.mem, k), m.coreRevision, now);
      assert AdjustmentInv(a, m.coreRevision, now);
      PendingAbsorbed(SlotOf(m, k).active, c.mem.adjustments[k], m.coreRevision, now);
    }
  }

  /** Committing any delivery keeps the memory well-formed whether or not the writes succeed; so
      the validators never refuse a write, and only a failing write leaves a dirty flag set. */
  lemma CommitKeeps(c: Change, d: Disk, now: Instant, sideOk: bool, coreOk: bool)
    requires MemInv(c.mem, now)
    ensures var done := Commit(c, d, sideOk, coreOk);
            && MemInv(done.mem, now)
            && (sideOk && coreOk ==> done.ok && !done.mem.dirty && !done.mem.adjustmentsDirty)
            && (done.ok ==> !done.mem.dirty && !done.mem.adjustmentsDirty)
  {
    hide SlotsInv, ValidSide, ValidCore;
    RaiseKeeps(c.mem, Marked(c), now);
    FilesValid(Marked(c), now);
    RaiseKeeps(c.mem, Commit(c, d, sideOk, coreOk).mem, now);
  }

  lemma FreshMemoryInv(now: Instant)
    requires !IsZero(now)
    ensures MemInv(FreshMemory(now), now)
  {
  }

  /** A tracker without a path behaves exactly like one whose writes never fail. */
  lemma InMemoryAsIfWritten(c: Change, d: Disk, now: Instant, sideOk: bool, coreOk: bool)
    requires MemInv(c.mem, now)
    ensures CommitAt("", c, d, sideOk, coreOk).mem == Commit(c, d, true, true).mem
    ensures CommitAt("", c, d, sideOk, coreOk).ok && CommitAt("", c, d, sideOk, coreOk).disk == d
  {
    hide SlotsInv, ValidSide, ValidCore;
    RaiseKeeps(c.mem, Marked(c), now);
    FilesValid(Marked(c), now);
  }

  /** Both writes done: memory and files agree again. */
  lemma PersistedClean(m: Mem, d: Disk, c: Change, now: Instant, retention: nat)
    requires Clean(m, d) && Committable(m, c, now, retention)
    ensures var done := Commit(c, d, true, true); Clean(done.mem, done.disk)
  {
    AllAbsorbed(m, c, now, retention);
    hide SlotsInv, ValidSide, ValidCore, PendingOk, SlotOf, Dead;
    RaiseKeeps(c.mem, Marked(c), now);
    FilesValid(Marked(c), now);
  }

  /** What a commit can leave on disk: the old files, the new sidecar over the old core file, or
      the new files. */
  lemma CommitDisks(c: Change, d: Disk, now: Instant, sideOk: bool, coreOk: bool)
    requires MemInv(c.mem, now) && !c.mem.dirty && !c.mem.adjustmentsDirty
    ensures var disk := Commit(c, d, sideOk, coreOk).disk;
            if sideOk && coreOk then disk == Commit(c, d, true, true).disk
            else disk in {d, d.(side := Some(SideOf(Marked(c)))), Commit(c, d, true, true).disk}
    ensures !c.history && !c.adjustments ==> Commit(c, d, sideOk, coreOk).disk == d
    ensures c.adjustments && !sideOk ==> Commit(c, d, sideOk, coreOk).disk == d
    ensures c.adjustments && c.history && sideOk && !coreOk ==>
              Commit(c, d, sideOk, coreOk).disk == d.(side := Some(SideOf(Marked(c))))
  {
    hide SlotsInv, ValidSide, ValidCore;
    RaiseKeeps(c.mem, Marked(c), now);
    FilesValid(Marked(c), now);
  }

  lemma DeliverFrame(m: Mem, now: Instant, retention: nat, r: Report, rebaseline: bool)
    ensures var p := Deliver(m, now, retention, r, rebaseline).mem;
            p == m.(accounts := p.accounts, adjustments := p.adjustments, candidates := p.candidates)
  {
    hide Prune, ReportWindow;
    PruneFrame(m, now, retention);
    var admitted := Admitted(m, now, retention, r).mem;
    if r.account.Some? && r.usage.Some? {
      ReportFrame(admitted, r.account.value, now, r.usage.value, rebaseline);
    }
  }

  /** An account that pruning does not empty stays. */
  lemma LiveStays(m: Mem, t: Instant, now: Instant, retention: nat, r: Report, rebaseline: bool, k: Key)
    requires KeysAgree(m) && k in m.accounts && !Dead(m.accounts[k], now, retention)
    ensures k in Deliver(m, now, retention, r, rebaseline).mem.accounts
  {
    DeliverSlots(m, now, retention, r, rebaseline, k);
    PruneSlots(m, now, retention, k);
    hide Prune, Deliver;
  }

  /** After a delivery to a clean tracker, at most the newest adjustment of the reported account is
      not yet absorbed by the core file, and then the core file is due to be rewritten. */
  lemma DeliverTold(m: Mem, d: Disk, t: Instant, now: Instant, retention: nat, r: Report, rebaseline: bool, k: Key)
    requires MemInv(m, t) && Clean(m, d) && t <= now
    requires k in Deliver(m, now, retention, r, rebaseline).mem.adjustments
    ensures var c := Deliver(m, now, retention, r, rebaseline);
            && PendingOk(SlotOf(m, k).active, c.mem.adjustments[k], m.coreRevision)
            && (Pending(c.mem.adjustments[k], m.coreRevision) ==> c.history)
  {
    hide MemInv, Clean, PruneSlot, ObserveSlot, RebaselineSlot, Prune, ValidKey, PendingOk, Pending, AdjustmentsInv;
    var c := Deliver(m, now, retention, r, rebaseline);
    var s := PruneSlot(SlotOf(m, k), now, retention);
    MemKeys(m, t);
    PruneSlotAbsorbed(m, d, t, now, retention, k);
    DeliverSlots(m, now, retention, r, rebaseline, k);
    assert SlotOf(c.mem, k).adjs == c.mem.adjustments[k];
    if Reaches(m, now, retention, r, k) {
      var p := Proposed(now, r.usage.value).value;
      ReportTold(s, m.coreRevision, now, now, p);
      var out := ReportSlot(s, m.coreRevision, now, p, rebaseline);
      AdmittedSlots(m, now, retention, r, k);
      assert out.changed ==> c.history;
      ToldPending(s, out, m.coreRevision);
      hide Deliver, SlotOf;
      ActiveWeaker(s.active, SlotOf(m, k).active, c.mem.adjustments[k], m.coreRevision);
    } else {
      AbsorbedOk(SlotOf(m, k).active, s.adjs, m.coreRevision);
    }
  }

  lemma MemKeys(m: Mem, t: Instant)
    requires MemInv(m, t)
    ensures KeysAgree(m) && m.coreRevision >= 1
  {
  }

  lemma ActiveWeaker(a: Option<Window>, b: Option<Window>, adjs: seq<Adjustment>, coreRevision: nat)
    requires PendingOk(a, adjs, coreRevision) && (a.Some? ==> a == b)
    ensures PendingOk(b, adjs, coreRevision)
  {
  }

  lemma NewestOf<T>(s: seq<T>, x: T, n: nat)
    requires n >= 1
    ensures var r := Newest(s + [x], n);
            r != [] && r[|r| - 1] == x && forall i :: 0 <= i < |r| - 1 ==> r[i] in s
  {
  }

  lemma ToldPending(s: Slot, out: Outcome, coreRevision: nat)
    requires SidecarTells(s, out, coreRevision) && forall a :: a in s.adjs ==> a.coreRevisionBefore < coreRevision
    ensures PendingOk(s.active, out.slot.adjs, coreRevision)
    ensures Pending(out.slot.adjs, coreRevision) <==> out.adjusted
    ensures out.adjusted ==> out.changed
  {
    if out.adjusted {
      NewestOf(s.adjs, out.slot.adjs[|out.slot.adjs| - 1], MAX_ADJUSTMENTS);
    } else {
      AbsorbedOk(s.active, s.adjs, coreRevision);
    }
  }

  lemma PruneSlotAbsorbed(m: Mem, d: Disk, t: Instant, now: Instant, retention: nat, k: Key)
    requires MemInv(m, t) && Clean(m, d) && t <= now
    ensures var s := PruneSlot(SlotOf(m, k), now, retention);
            && AdjustmentsInv(s.adjs, m.coreRevision, now)
            && (forall a :: a in s.adjs ==> a.coreRevisionBefore < m.coreRevision)
            && (s.active.Some? ==> s.active == SlotOf(m, k).active)
  {
    if k in m.accounts {
      SlotFacts(m, t, k);
      assert forall a :: a in m.adjustments[k] ==> a.coreRevisionBefore < m.coreRevision;
      var s := SlotOf(m, k);
      hide MemInv, Clean, SlotOf;
      PruneAbsorbed(s, m.coreRevision, t, now, retention);
    } else {
      assert KeysAgree(m);
      SlotOfAbsent(m, k);
    }
  }

  lemma PruneAbsorbed(s: Slot, coreRevision: nat, t: Instant, now: Instant, retention: nat)
    requires AdjustmentsInv(s.adjs, coreRevision, t) && t <= now
    requires forall a :: a in s.adjs ==> a.coreRevisionBefore < coreRevision
    ensures var pruned := PruneSlot(s, now, retention);
            && AdjustmentsInv(pruned.adjs, coreRevision, now)
            && (forall a :: a in pruned.adjs ==> a.coreRevisionBefore < coreRevision)
            && (pruned.active.Some? ==> pruned.active == s.active)
  {
    hide PruneSlot, KeepAdjustments, AdjustmentInv;
    PruneParts(s, now, retention);
    KeepAdjustmentsKeeps(s.adjs, coreRevision, t, now, now - retention);
    KeepAdjustmentsElements(s.adjs, now - retention);
  }

  lemma PruneParts(s: Slot, now: Instant, retention: nat)
    ensures var pruned := PruneSlot(s, now, retention);
            && pruned.adjs == KeepAdjustments(s.adjs, now - retention)
            && (pruned.active.Some? ==> pruned.active == s.active)
            && (pruned.active.Some? ==> pruned.events == KeepEvents(s.events, Unix(now - retention)))
  {
    hide KeepEvents, AppendEvent, KeepAdjustments;
  }

  lemma DeliverCommittable(m: Mem, d: Disk, t: Instant, now: Instant, retention: nat, r: Report, rebaseline: bool)
    requires MemInv(m, t) && Clean(m, d) && t <= now
    ensures Committable(m, Deliver(m, now, retention, r, rebaseline), now, retention)
  {
    hide Deliver, PendingOk, Dead, Clean, SlotOf, SlotsInv;
    var c := Deliver(m, now, retention, r, rebaseline);
    MemKeys(m, t);
    DeliverKeeps(m, t, now, retention, r, rebaseline);
    DeliverFrame(m, now, retention, r, rebaseline);
    forall k | k in c.mem.adjustments
      ensures PendingOk(SlotOf(m, k).active, c.mem.adjustments[k], m.coreRevision)
              && (Pending(c.mem.adjustments[k], m.coreRevision) ==> c.history)
    {
      DeliverTold(m, d, t, now, retention, r, rebaseline, k);
    }
    forall k | k in m.accounts && !Dead(m.accounts[k], now, retention) ensures k in c.mem.accounts {
      LiveStays(m, t, now, retention, r, rebaseline, k);
    }
  }
}
