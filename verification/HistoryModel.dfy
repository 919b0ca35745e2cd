/** The per-account rules of the reset-history tracker: what one report, one pruning and one
    validation do to one account. Nothing here knows about files. */
module HistoryModel {
  import opened Common

  type Key = string

  const WEEK_MINUTES := 10_080
  const WEEK_SECONDS := WEEK_MINUTES * 60
  const MAX_ACCOUNTS := 128
  const MAX_EVENTS := 1024
  const MAX_ADJUSTMENTS := 1024
  const STABLE_AFTER := 90 * SECOND
  const JITTER_SECONDS := 120
  const FUTURE_SKEW_SECONDS := 300
  const MAX_LAG_SECONDS := 86_400
  const ACCEPT_HORIZON := 7 * DAY + 5 * MINUTE

  /** A weekly window. Anchored windows and the before/after observations of an adjustment
      have the same fields. */
  datatype Window = Window(startedAt: int, resetsAt: int, firstObservedAt: Instant, used: int)

  datatype Event = Event(startedAt: int, resetsAt: int, detectedAt: Instant, usedBefore: int)

  datatype Reason = ResetTimestampChanged | UsedPercentDecreased

  datatype Adjustment = Adjustment(detectedAt: Instant, reasons: seq<Reason>,
                                   before: Window, after: Window, coreRevisionBefore: nat)

  datatype Candidate = Candidate(window: Window, firstSeenAt: Instant, lastSeenAt: Instant, observations: nat)

  datatype Account = Account(active: Option<Window>, events: seq<Event>)

  /** Everything the tracker knows about one account. */
  datatype Slot = Slot(active: Option<Window>, events: seq<Event>, adjs: seq<Adjustment>, cand: Option<Candidate>)

  /** A slot after one report, with the two change flags the caller turns into dirty files. */
  datatype Outcome = Outcome(slot: Slot, changed: bool, adjusted: bool)

  /** The weekly window a collector reports. */
  datatype Usage = Usage(usedPercent: int, durationMins: Option<int>, resetsAt: Option<int>)

  // ----- timestamp rules -----

  predicate Equivalent(left: int, right: int) {
    if left > right then left - right <= JITTER_SECONDS else right - left <= JITTER_SECONDS
  }

  predicate Settled(resetAt: int, now: int) {
    now >= resetAt && now - resetAt >= JITTER_SECONDS
  }

  predicate MeaningfullyBefore(resetAt: int, now: int) {
    now < resetAt && resetAt - now > JITTER_SECONDS
  }

  predicate PlausibleStart(startedAt: int, detectedAt: Instant) {
    -FUTURE_SKEW_SECONDS <= Unix(detectedAt) - startedAt <= MAX_LAG_SECONDS
  }

  predicate PlausibleTransition(previousObservedAt: Instant, startedAt: int, detectedAt: Instant) {
    startedAt >= Unix(previousObservedAt) && PlausibleStart(startedAt, detectedAt)
  }

  // ----- validators -----

  predicate HexDigit(c: char) {
    '0' <= c <= '9' || 'a' <= c <= 'f'
  }

  predicate ValidKey(key: Key) {
    |key| == 64 && forall i :: 0 <= i < |key| ==> HexDigit(key[i])
  }

  predicate ValidWindow(w: Window) {
    && w.startedAt > 0 && w.resetsAt > w.startedAt && w.resetsAt - w.startedAt == WEEK_SECONDS
    && !IsZero(w.firstObservedAt) && 0 <= w.used <= 100
  }

  predicate ValidEvent(e: Event) {
    && e.startedAt > 0 && e.resetsAt > e.startedAt && e.resetsAt - e.startedAt == WEEK_SECONDS
    && !IsZero(e.detectedAt) && 0 <= e.usedBefore <= 100
  }

  /** The reasons an adjustment must carry, given what it says changed. */
  function WantedReasons(before: Window, after: Window): seq<Reason> {
    (if before.resetsAt != after.resetsAt then [ResetTimestampChanged] else []) +
    (if after.used < before.used then [UsedPercentDecreased] else [])
  }

  predicate ValidAdjustment(a: Adjustment) {
    && !IsZero(a.detectedAt) && a.coreRevisionBefore != 0
    && ValidWindow(a.before) && ValidWindow(a.after)
    && a.before.firstObservedAt <= a.detectedAt && a.after.firstObservedAt <= a.detectedAt
    && a.before.resetsAt > Unix(a.detectedAt) && a.after.resetsAt > Unix(a.detectedAt)
    && a.after.resetsAt <= Unix(a.detectedAt + ACCEPT_HORIZON)
    && (a.before.resetsAt != a.after.resetsAt ==> a.detectedAt < FromUnix(a.before.resetsAt))
    && (a.before.resetsAt != a.after.resetsAt || a.after.used < a.before.used)
    && a.reasons == WantedReasons(a.before, a.after)
  }

  predicate HasReason(a: Adjustment, reason: Reason) {
    reason in a.reasons
  }

  // ----- bounded, ordered lists -----

  /** The newest `n` elements. */
  function Newest<T>(s: seq<T>, n: nat): (r: seq<T>)
    ensures |r| <= n && (|s| <= n ==> r == s)
    ensures forall x :: x in r ==> x in s
  {
    if |s| > n then s[|s| - n..] else s
  }

  predicate EventExists(events: seq<Event>, resetAt: int) {
    exists i :: 0 <= i < |events| && events[i].resetsAt == resetAt
  }

  /** Sorting a list that is sorted except for its new last element moves only that element. */
  function InsertEvent(events: seq<Event>, e: Event): seq<Event> {
    if events == [] || events[|events| - 1].resetsAt <= e.resetsAt then events + [e]
    else InsertEvent(events[..|events| - 1], e) + [events[|events| - 1]]
  }

  function AppendEvent(events: seq<Event>, e: Event): seq<Event> {
    if EventExists(events, e.resetsAt) then events else Newest(InsertEvent(events, e), MAX_EVENTS)
  }

  function InsertAdjustment(adjs: seq<Adjustment>, a: Adjustment): seq<Adjustment> {
    if adjs == [] || adjs[|adjs| - 1].detectedAt <= a.detectedAt then adjs + [a]
    else InsertAdjustment(adjs[..|adjs| - 1], a) + [adjs[|adjs| - 1]]
  }

  /** A retry of the same transition against the same core revision. */
  predicate AlreadyRecorded(adjs: seq<Adjustment>, a: Adjustment) {
    exists i :: 0 <= i < |adjs| && adjs[i].coreRevisionBefore == a.coreRevisionBefore && adjs[i].before == a.before
  }

  predicate Records(adjs: seq<Adjustment>, a: Adjustment) {
    ValidAdjustment(a) && !AlreadyRecorded(adjs, a)
  }

  function AppendAdjustment(adjs: seq<Adjustment>, a: Adjustment): seq<Adjustment> {
    if Records(adjs, a) then Newest(InsertAdjustment(adjs, a), MAX_ADJUSTMENTS) else adjs
  }

  // ----- one report -----

  /** The window a report proposes, if the report is accepted at all. */
  function Proposed(now: Instant, u: Usage): Option<Window> {
    if u.durationMins != Some(WEEK_MINUTES) || u.resetsAt.None? then None
    else if u.resetsAt.value <= Unix(now) || u.resetsAt.value > Unix(now + ACCEPT_HORIZON) then None
    else
      var w := Window(u.resetsAt.value - WEEK_SECONDS, u.resetsAt.value, now, u.usedPercent);
      if ValidWindow(w) then Some(w) else None
  }

  function UsageDrop(now: Instant, a: Window, used: int, coreRevision: nat): Adjustment {
    Adjustment(now, [UsedPercentDecreased], a, a.(used := used), coreRevision)
  }

  function ResetMove(now: Instant, a: Window, p: Window, coreRevision: nat): Adjustment {
    Adjustment(now, [ResetTimestampChanged] + (if p.used < a.used then [UsedPercentDecreased] else []), a, p, coreRevision)
  }

  function Completed(a: Window, detectedAt: Instant): Event {
    Event(a.startedAt, a.resetsAt, detectedAt, a.used)
  }

  /** Observing window `p` at `now`. */
  function ObserveSlot(s: Slot, coreRevision: nat, now: Instant, p: Window): Outcome {
    if s.active.None? then
      Install(s, now, p, false, false)
    else
      var a := s.active.value;
      if Equivalent(a.resetsAt, p.resetsAt) then
        var drop := UsageDrop(now, a, p.used, coreRevision);
        var adjs := if p.used < a.used then AppendAdjustment(s.adjs, drop) else s.adjs;
        Outcome(Slot(Some(a.(used := p.used)), s.events, adjs, None),
                a.used != p.used, p.used < a.used && Records(s.adjs, drop))
      else if MeaningfullyBefore(a.resetsAt, Unix(now)) then
        var move := ResetMove(now, a, p, coreRevision);
        Install(Slot(None, s.events, AppendAdjustment(s.adjs, move), None), now, p, true, Records(s.adjs, move))
      else
        Install(Slot(None, AppendEvent(s.events, Completed(a, now)), s.adjs, s.cand), now, p, true, false)
  }

  /** The second half of an observation: no window is anchored any more, `p` may become one. */
  function Install(s: Slot, now: Instant, p: Window, changed: bool, adjusted: bool): Outcome
  {
    if p.used > 0 then
      Outcome(s.(active := Some(p), cand := None), true, adjusted)
    else if s.cand.None? || s.cand.value.window.resetsAt != p.resetsAt then
      Outcome(s.(cand := Some(Candidate(p, now, now, 1))), changed, adjusted)
    else
      var c := s.cand.value.(lastSeenAt := now, observations := s.cand.value.observations + 1);
      if c.observations >= 2 && c.lastSeenAt - c.firstSeenAt >= STABLE_AFTER then
        Outcome(s.(active := Some(c.window.(firstObservedAt := c.firstSeenAt)), cand := None), true, adjusted)
      else
        Outcome(s.(cand := Some(c)), changed, adjusted)
  }

  predicate BoundaryRollover(a: Window, now: Instant) {
    !MeaningfullyBefore(a.resetsAt, Unix(now))
  }

  predicate InferredEarly(a: Window, now: Instant, p: Window) {
    p.used < a.used && PlausibleTransition(a.firstObservedAt, p.startedAt, now)
  }

  /** Observing window `p` right after the reporting collector changed. */
  function RebaselineSlot(s: Slot, coreRevision: nat, now: Instant, p: Window): Outcome {
    if s.active.Some? && Equivalent(s.active.value.resetsAt, p.resetsAt) then
      Outcome(s.(active := Some(s.active.value.(used := p.used)), cand := None), s.active.value.used != p.used, false)
    else if s.active.Some? && (BoundaryRollover(s.active.value, now) || InferredEarly(s.active.value, now, p)) then
      ObserveSlot(s, coreRevision, now, p)
    else if p.used > 0 then
      Outcome(s.(active := Some(p), cand := None), true, false)
    else
      Outcome(s.(active := None, cand := Some(Candidate(p, now, now, 1))), s.active.Some?, false)
  }

  // ----- pruning -----

  function SettleActive(a: Account, now: Instant): Account {
    if a.active.Some? && Settled(a.active.value.resetsAt, Unix(now)) then
      Account(None, AppendEvent(a.events, Completed(a.active.value, now)))
    else a
  }

  function KeepEvents(events: seq<Event>, cutoff: int): seq<Event> {
    if events == [] then []
    else
      KeepEvents(events[..|events| - 1], cutoff) +
      (if events[|events| - 1].resetsAt >= cutoff then [events[|events| - 1]] else [])
  }

  function KeepAdjustments(adjs: seq<Adjustment>, cutoff: Instant): seq<Adjustment> {
    if adjs == [] then []
    else
      KeepAdjustments(adjs[..|adjs| - 1], cutoff) +
      (if adjs[|adjs| - 1].detectedAt >= cutoff then [adjs[|adjs| - 1]] else [])
  }

  function PruneAccount(a: Account, now: Instant, retention: nat): Account {
    var settled := SettleActive(a, now);
    settled.(events := KeepEvents(settled.events, Unix(now - retention)))
  }

  predicate CandidateExpired(c: Candidate, now: Instant, retention: nat) {
    Settled(c.window.resetsAt, Unix(now)) || c.lastSeenAt < now - retention
  }

  function PruneSlot(s: Slot, now: Instant, retention: nat): Slot {
    var a := PruneAccount(Account(s.active, s.events), now, retention);
    Slot(a.active, a.events, KeepAdjustments(s.adjs, now - retention),
         if s.cand.Some? && !CandidateExpired(s.cand.value, now, retention) then s.cand else None)
  }

  // ----- opening -----

  /** What opening does to a stored adjustment whose reset times differ only by jitter. */
  function SanitizeAdjustments(adjs: seq<Adjustment>): seq<Adjustment> {
    if adjs == [] then []
    else
      var a := adjs[|adjs| - 1];
      SanitizeAdjustments(adjs[..|adjs| - 1]) +
      (if !HasReason(a, ResetTimestampChanged) || !Equivalent(a.before.resetsAt, a.after.resetsAt) then [a]
       else if a.after.used >= a.before.used then []
       else [a.(reasons := [UsedPercentDecreased],
                after := Window(a.before.startedAt, a.before.resetsAt, a.before.firstObservedAt, a.after.used))])
  }

  /** One step of the replay: the window expected next, the window recovered so far. */
  datatype Replay = Replay(active: Option<Window>, expected: Window, changed: bool)

  function ReplayStep(r: Replay, a: Adjustment, coreRevision: nat): Replay {
    if a.coreRevisionBefore != coreRevision || a.before != r.expected then r
    else Replay(if HasReason(a, ResetTimestampChanged) && a.after.used == 0 then None else Some(a.after), a.after, true)
  }

  /** Replaying, oldest first, the stored adjustments the core file had not yet absorbed. */
  function ReplayAll(active: Window, adjs: seq<Adjustment>, coreRevision: nat): Replay {
    if adjs == [] then Replay(Some(active), active, false)
    else ReplayStep(ReplayAll(active, adjs[..|adjs| - 1], coreRevision), adjs[|adjs| - 1], coreRevision)
  }

  function ReplayAccount(a: Account, adjs: seq<Adjustment>, coreRevision: nat): Account {
    if a.active.None? then a else a.(active := ReplayAll(a.active.value, adjs, coreRevision).active)
  }
}
