/** The whole tracker as a value: every account in memory, the two files, and how a change is
    committed to them and read back. */
module HistoryCommit {
  import opened Common
  import opened HistoryModel

  datatype Mem = Mem(accounts: map<Key, Account>, adjustments: map<Key, seq<Adjustment>>,
                     candidates: map<Key, Candidate>, revision: nat, coreRevision: nat,
                     trackingSince: Instant, adjustmentsTrackingSince: Instant,
                     dirty: bool, adjustmentsDirty: bool, degraded: bool)

  datatype CoreFile = CoreFile(revision: nat, trackingSince: Instant, accounts: map<Key, Account>)
  datatype SideFile = SideFile(revision: nat, trackingSince: Instant, accounts: map<Key, seq<Adjustment>>)

  /** The two files; each is replaced as a whole or not at all. */
  datatype Disk = Disk(core: Option<CoreFile>, side: Option<SideFile>)

  /** The part of a collector snapshot the tracker reads: the account of an OK snapshot with an
      email, and the weekly window. */
  datatype Report = Report(account: Option<Key>, usage: Option<Usage>)

  datatype Change = Change(mem: Mem, history: bool, adjustments: bool)

  // ----- file validators -----

  predicate ValidAccount(a: Account) {
    && |a.events| <= MAX_EVENTS && (a.active.Some? ==> ValidWindow(a.active.value))
    && forall e :: e in a.events ==> ValidEvent(e)
  }

  predicate ValidCore(f: CoreFile) {
    && f.revision != 0 && !IsZero(f.trackingSince) && |f.accounts| <= MAX_ACCOUNTS
    && forall k :: k in f.accounts ==> ValidKey(k) && ValidAccount(f.accounts[k])
  }

  predicate ValidAdjustments(adjs: seq<Adjustment>) {
    |adjs| <= MAX_ADJUSTMENTS && forall a :: a in adjs ==> ValidAdjustment(a)
  }

  predicate ValidSide(f: SideFile) {
    && f.revision != 0 && !IsZero(f.trackingSince) && |f.accounts| <= MAX_ACCOUNTS
    && forall k :: k in f.accounts ==> ValidKey(k) && ValidAdjustments(f.accounts[k])
  }

  // ----- slots of a memory -----

  /** What is known about `k`, an absent account being one about which nothing is known. */
  function SlotOf(m: Mem, k: Key): Slot {
    Slot(if k in m.accounts then m.accounts[k].active else None,
         if k in m.accounts then m.accounts[k].events else [],
         if k in m.adjustments then m.adjustments[k] else [],
         if k in m.candidates then Some(m.candidates[k]) else None)
  }

  function WithSlot(m: Mem, k: Key, s: Slot): Mem {
    m.(accounts := m.accounts[k := Account(s.active, s.events)],
       adjustments := m.adjustments[k := s.adjs],
       candidates := if s.cand.Some? then m.candidates[k := s.cand.value] else m.candidates - {k})
  }

  // ----- changes in memory -----

  predicate Vacant(m: Mem, k: Key) {
    var s := SlotOf(m, k);
    s.active.None? && s.events == [] && s.adjs == [] && s.cand.None?
  }

  function TrimmedAccounts(accounts: map<Key, Account>, now: Instant, retention: nat): map<Key, Account> {
    map k | k in accounts :: PruneAccount(accounts[k], now, retention)
  }

  function TrimmedAdjustments(adjustments: map<Key, seq<Adjustment>>, cutoff: Instant): map<Key, seq<Adjustment>> {
    map k | k in adjustments :: KeepAdjustments(adjustments[k], cutoff)
  }

  function TrimmedCandidates(candidates: map<Key, Candidate>, now: Instant, retention: nat): map<Key, Candidate> {
    map k | k in candidates && !CandidateExpired(candidates[k], now, retention) :: candidates[k]
  }

  function Trimmed(m: Mem, now: Instant, retention: nat): Mem {
    m.(accounts := TrimmedAccounts(m.accounts, now, retention),
       adjustments := TrimmedAdjustments(m.adjustments, now - retention),
       candidates := TrimmedCandidates(m.candidates, now, retention))
  }

  function DropVacant(m: Mem): Mem {
    var vacant := set k | k in m.accounts && Vacant(m, k);
    m.(accounts := m.accounts - vacant, adjustments := m.adjustments - vacant)
  }

  /** Pruning sets each change flag exactly when the corresponding map changes. */
  function Prune(m: Mem, now: Instant, retention: nat): Change {
    var pruned := DropVacant(Trimmed(m, now, retention));
    Change(pruned, pruned.accounts != m.accounts, pruned.adjustments != m.adjustments)
  }

  predicate Admits(m: Mem, k: Key) {
    ValidKey(k) && k !in m.accounts && |m.accounts| < MAX_ACCOUNTS
  }

  function Ensure(m: Mem, k: Key): Change {
    if Admits(m, k) then
      Change(m.(accounts := m.accounts[k := Account(None, [])], adjustments := m.adjustments[k := []]), true, true)
    else Change(m, false, false)
  }

  function ReportWindow(m: Mem, k: Key, now: Instant, u: Usage, rebaseline: bool): Change {
    if k !in m.accounts || Proposed(now, u).None? then Change(m, false, false)
    else
      var p := Proposed(now, u).value;
      var out := if rebaseline then RebaselineSlot(SlotOf(m, k), m.coreRevision, now, p)
                 else ObserveSlot(SlotOf(m, k), m.coreRevision, now, p);
      Change(WithSlot(m, k, out.slot), out.changed, out.adjusted)
  }

  function Then(c: Change, d: Change): Change {
    Change(d.mem, c.history || d.history, c.adjustments || d.adjustments)
  }

  /** What every delivery starts with: pruning, then admitting the reported account. */
  function Admitted(m: Mem, now: Instant, retention: nat, r: Report): Change {
    var pruned := Prune(m, now, retention);
    if r.account.None? then pruned else Then(pruned, Ensure(pruned.mem, r.account.value))
  }

  /** One delivered snapshot, before it is committed. */
  function Deliver(m: Mem, now: Instant, retention: nat, r: Report, rebaseline: bool): Change {
    var admitted := Admitted(m, now, retention, r);
    if r.account.None? || r.usage.None? then admitted
    else Then(admitted, ReportWindow(admitted.mem, r.account.value, now, r.usage.value, rebaseline))
  }

  // ----- committing -----

  datatype Committed = Committed(mem: Mem, disk: Disk, ok: bool)

  function CoreOf(m: Mem): CoreFile {
    CoreFile(m.revision, m.trackingSince, m.accounts)
  }

  function SideOf(m: Mem): SideFile {
    SideFile(m.revision, m.adjustmentsTrackingSince, m.adjustments)
  }

  function PersistSide(m: Mem, d: Disk, sideOk: bool): Committed {
    if !m.adjustmentsDirty then Committed(m, d, true)
    else if ValidSide(SideOf(m)) && sideOk then
      Committed(m.(adjustmentsDirty := false), d.(side := Some(SideOf(m))), true)
    else Committed(m, d, false)
  }

  function PersistCore(m: Mem, d: Disk, coreOk: bool): Committed {
    if !m.dirty then Committed(m, d, true)
    else if ValidCore(CoreOf(m)) && coreOk then
      Committed(m.(coreRevision := m.revision, dirty := false), d.(core := Some(CoreOf(m))), true)
    else Committed(m, d, false)
  }

  /** The sidecar is written first; the core file only if that succeeded. */
  function Persist(m: Mem, d: Disk, sideOk: bool, coreOk: bool): Committed {
    var first := PersistSide(m, d, sideOk);
    if first.ok then PersistCore(first.mem, first.disk, coreOk) else first
  }

  function Marked(c: Change): Mem {
    if c.history || c.adjustments then
      c.mem.(revision := c.mem.revision + 1, dirty := c.mem.dirty || c.history,
             adjustmentsDirty := c.mem.adjustmentsDirty || c.adjustments)
    else c.mem
  }

  function Commit(c: Change, d: Disk, sideOk: bool, coreOk: bool): Committed {
    var m := Marked(c);
    if !m.dirty && !m.adjustmentsDirty then Committed(m, d, true)
    else
      var done := Persist(m, d, sideOk, coreOk);
      done.(mem := done.mem.(degraded := !done.ok))
  }

  /** Without a path nothing is written, and everything counts as written. */
  function Remembered(m: Mem): Mem {
    m.(coreRevision := if m.dirty then m.revision else m.coreRevision, dirty := false, adjustmentsDirty := false, degraded := false)
  }

  function CommitAt(path: string, c: Change, d: Disk, sideOk: bool, coreOk: bool): Committed {
    var m := Marked(c);
    if path != "" || (!m.dirty && !m.adjustmentsDirty) then Commit(c, d, sideOk, coreOk)
    else Committed(Remembered(m), d, true)
  }

  // ----- opening -----

  function Blank(now: Instant): Mem {
    Mem(map[], map[], map[], 0, 0, now, now, false, false, false)
  }

  /** Reading both files. An account named by only one file gets an empty half. */
  function Load(d: Disk, now: Instant): Change {
    var core := if d.core.Some? then d.core.value.accounts else map[];
    var m := Blank(now).(accounts := core, adjustments := map k | k in core :: []);
    var m1 := if d.core.Some? then m.(revision := d.core.value.revision, coreRevision := d.core.value.revision,
                                      trackingSince := d.core.value.trackingSince) else m;
    if d.side.None? then Change(m1, d.core.None?, true)
    else
      var side := d.side.value;
      var all := core.Keys + side.accounts.Keys;
      Change(m1.(revision := if side.revision > m1.revision then side.revision else m1.revision,
                 adjustmentsTrackingSince := side.trackingSince,
                 accounts := map k | k in all :: if k in core then core[k] else Account(None, []),
                 adjustments := map k | k in all :: if k in side.accounts then side.accounts[k] else []),
             d.core.None? || !(side.accounts.Keys <= core.Keys),
             !(core.Keys <= side.accounts.Keys))
  }

  function Sanitize(m: Mem): Change {
    var sane := map k | k in m.adjustments :: SanitizeAdjustments(m.adjustments[k]);
    Change(m.(adjustments := sane), false, sane != m.adjustments)
  }

  predicate Replays(m: Mem, k: Key) {
    && k in m.accounts && m.accounts[k].active.Some?
    && ReplayAll(m.accounts[k].active.value, SlotOf(m, k).adjs, m.coreRevision).changed
  }

  function Reconcile(m: Mem): Change {
    Change(m.(accounts := map k | k in m.accounts :: ReplayAccount(m.accounts[k], SlotOf(m, k).adjs, m.coreRevision),
              candidates := m.candidates - (set k | k in m.accounts && Replays(m, k))),
           exists k :: k in m.accounts && Replays(m, k), false)
  }

  predicate Readable(d: Disk) {
    (d.core.Some? ==> ValidCore(d.core.value)) && (d.side.Some? ==> ValidSide(d.side.value))
  }

  function Recovered(d: Disk, now: Instant, retention: nat): Change {
    var loaded := Load(d, now);
    var sane := Then(loaded, Sanitize(loaded.mem));
    var replayed := Then(sane, Reconcile(sane.mem));
    Then(replayed, Prune(replayed.mem, now, retention))
  }

  datatype Opened = Opened(tracker: Option<Mem>, disk: Disk)

  /** Opening either yields a tracker or an error; files may have been rewritten in both cases. */
  function Open(d: Disk, now: Instant, retention: nat, sideOk: bool, coreOk: bool): Opened {
    if !Readable(d) then Opened(None, d)
    else
      var c := Recovered(d, now, retention);
      if !c.history && !c.adjustments then Opened(Some(c.mem), d)
      else
        var done := Persist(c.mem.(revision := c.mem.revision + 1, dirty := c.history, adjustmentsDirty := c.adjustments),
                            d, sideOk, coreOk);
        Opened(if done.ok then Some(done.mem) else None, done.disk)
  }

  const MIN_RETENTION := 7 * DAY
  const MAX_RETENTION := 366 * DAY

  function FreshMemory(now: Instant): Mem {
    Blank(now).(revision := 1, coreRevision := 1)
  }

  /** Opening at a path: the retention period is checked first, and without a path there are no files. */
  function OpenAt(path: string, d: Disk, now: Instant, retention: nat, sideOk: bool, coreOk: bool): Opened {
    if !(MIN_RETENTION <= retention <= MAX_RETENTION) then Opened(None, d)
    else if path == "" then Opened(Some(FreshMemory(now)), d)
    else if path[0] != '/' then Opened(None, d)
    else Open(d, now, retention, sideOk, coreOk)
  }
}
