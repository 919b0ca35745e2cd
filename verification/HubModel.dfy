/** The hub's rules: which snapshots it accepts, what it remembers of a user, what it publishes. */
module HubModel {
  import opened Common

  const RUNTIME_GRACE := 90 * SECOND

  datatype State = Ok | SignedOut | ApiKey | Unavailable

  /** An App Server session; creation and update are Unix seconds, 0 when unknown. */
  datatype Thread = Thread(name: string, createdAt: int, updatedAt: int, running: bool)

  datatype Window = Window(used: int, remaining: int, minutes: Option<int>, resetsAt: Option<int>)

  datatype Individual = Individual(limit: string, remaining: int, resetsAt: int)

  datatype Credits = Credits(has: bool, unlimited: bool, balance: Option<string>)

  /** One rate-limit bucket. `name` and `plan` stand for the normalised display texts. */
  datatype RateLimit = RateLimit(id: string, name: Option<string>, plan: Option<string>, primary: Option<Window>,
                                 secondary: Option<Window>, credits: Option<Credits>, individual: Option<Individual>,
                                 spendControl: Option<bool>, reachedType: Option<string>)

  /** What collectors of one account are compared by. */
  datatype Quota = Quota(plan: string, main: Option<Window>, resetCredits: Option<int>, limits: seq<RateLimit>)

  /** A validated snapshot. `account` is the key of the signed-in account, empty when there is none. */
  datatype Snapshot = Snapshot(state: State, account: string, observedAt: Instant, quota: Quota,
                               lifetime: Option<int>, lifetimeRead: bool,
                               recent: map<string, string>, recentRead: bool,
                               runtime: map<string, Thread>, runtimeRead: bool)

  predicate UniqueIds(limits: seq<RateLimit>) {
    forall i, j :: 0 <= i < j < |limits| ==> limits[i].id != limits[j].id
  }

  /** What snapshot validation guarantees. */
  predicate ValidSnapshot(s: Snapshot) {
    && !IsZero(s.observedAt)
    && (s.state.Ok? ==> s.account != "")
    && (!s.state.Ok? ==> s.account == "" && !s.lifetimeRead && !s.recentRead && !s.runtimeRead)
    && (s.lifetime.Some? ==> s.lifetimeRead) && (s.recent != map[] ==> s.recentRead)
    && (s.runtime != map[] ==> s.runtimeRead) && "" !in s.runtime
    && UniqueIds(s.quota.limits)
  }

  /** What the hub keeps of one user. `expected` is the configured account of an anchor, empty for a
      consumer. */
  datatype Entry = Entry(expected: string, current: Snapshot, lastSeenAt: Instant,
                         lastGood: Option<Snapshot>, lastGoodAt: Option<Instant>, membership: string,
                         lifetime: Option<int>, lifetimeAt: Instant, recent: map<string, string>,
                         runtime: map<string, Thread>, runtimeAt: Instant,
                         quarantine: set<string>, pending: bool, accountVersion: nat)

  const BLANK := Snapshot(Unavailable, "", 0, Quota("", None, None, []), None, false, map[], false, map[], false)

  function FreshEntry(expected: string): Entry {
    Entry(expected, BLANK, 0, None, None, "", None, 0, map[], map[], 0, {}, false, 0)
  }

  predicate Consumer(e: Entry) {
    e.expected == ""
  }

  function GoodAccount(e: Entry): string {
    if e.lastGood.Some? then e.lastGood.value.account else ""
  }

  // ----- accepting a snapshot -----

  /** A duplicate or delayed snapshot. */
  predicate Late(e: Entry, s: Snapshot) {
    !IsZero(e.current.observedAt) && s.observedAt <= e.current.observedAt
  }

  predicate AccountChanges(e: Entry, s: Snapshot) {
    s.state.Ok? && GoodAccount(e) != "" && GoodAccount(e) != s.account
  }

  /** An accepted snapshot that ends the sign-in known so far: a sign-out, an API key or another account. */
  predicate EndsSignIn(e: Entry, s: Snapshot) {
    !Late(e, s) && (s.state in {SignedOut, ApiKey} || AccountChanges(e, s))
  }

  predicate ConsumerSwitch(e: Entry, s: Snapshot) {
    Consumer(e) && AccountChanges(e, s) && s.account != ""
  }

  predicate Complete(s: Snapshot) {
    s.state.Ok? && s.runtimeRead
  }

  predicate RuntimeRecent(e: Entry, now: Instant) {
    !IsZero(e.runtimeAt) && (now < e.runtimeAt || now - e.runtimeAt <= RUNTIME_GRACE)
  }

  predicate Retains(e: Entry, s: Snapshot, now: Instant) {
    Consumer(e) && s.state.Ok? && !ConsumerSwitch(e, s) && !s.runtimeRead && RuntimeRecent(e, now)
  }

  function NextQuarantine(e: Entry, s: Snapshot, hooks: set<string>): set<string> {
    if !Consumer(e) then e.quarantine
    else if Complete(s) then
      (set x | x in e.quarantine && (x in s.runtime || x in hooks))
      + (if ConsumerSwitch(e, s) || e.pending then s.runtime.Keys else {})
      + (if ConsumerSwitch(e, s) then hooks else {})
    else if ConsumerSwitch(e, s) then e.quarantine + hooks
    else e.quarantine
  }

  predicate NextPending(e: Entry, s: Snapshot) {
    if !Consumer(e) then e.pending
    else if Complete(s) then false
    else ConsumerSwitch(e, s) || e.pending
  }

  function NextRuntime(e: Entry, s: Snapshot, hooks: set<string>, now: Instant): map<string, Thread> {
    if Consumer(e) && Complete(s) then s.runtime - NextQuarantine(e, s, hooks)
    else if Retains(e, s, now) then e.runtime
    else map[]
  }

  function NextRuntimeAt(e: Entry, s: Snapshot, now: Instant): Instant {
    if Consumer(e) && Complete(s) && !ConsumerSwitch(e, s) then now
    else if Retains(e, s, now) then e.runtimeAt
    else 0
  }

  /** The private bookkeeping of sessions after an accepted snapshot. */
  function Tracked(e: Entry, s: Snapshot, hooks: set<string>, now: Instant): Entry {
    e.(runtime := NextRuntime(e, s, hooks, now), runtimeAt := NextRuntimeAt(e, s, now),
       quarantine := NextQuarantine(e, s, hooks), pending := NextPending(e, s),
       current := s.(runtime := map[], runtimeRead := false), lastSeenAt := now)
  }

  /** The account bookkeeping after an accepted snapshot. */
  function Accounted(e: Entry, s: Snapshot, now: Instant): Entry {
    match s.state
    case Ok =>
      var changed := AccountChanges(e, s);
      e.(accountVersion := if changed then e.accountVersion + 1 else e.accountVersion,
         lastGood := Some(s.(runtime := map[], runtimeRead := false)), lastGoodAt := Some(now),
         membership := if Consumer(e) then s.account else e.membership,
         lifetime := if s.lifetimeRead && s.lifetime.Some? then s.lifetime else if changed then None else e.lifetime,
         lifetimeAt := if s.lifetimeRead && s.lifetime.Some? then s.observedAt else if changed then 0 else e.lifetimeAt,
         recent := if s.recentRead then s.recent else if changed then map[] else e.recent)
    case Unavailable => e
    case _ =>
      e.(accountVersion := e.accountVersion + 1, membership := if Consumer(e) then "" else e.membership,
         lifetime := None, lifetimeAt := 0, recent := map[])
  }

  function Accept(e: Entry, s: Snapshot, hooks: set<string>, now: Instant): Entry {
    var t := Tracked(e, s, hooks, now);
    var a := Accounted(e, s, now);
    t.(accountVersion := a.accountVersion, lastGood := a.lastGood, lastGoodAt := a.lastGoodAt, membership := a.membership,
       lifetime := a.lifetime, lifetimeAt := a.lifetimeAt, recent := a.recent)
  }

  /** A snapshot as received, with the session ids hooks report for the user at that moment. */
  datatype Report = Report(snapshot: Snapshot, hooks: set<string>, now: Instant)

  function Receive(e: Entry, r: Report): Entry {
    if Late(e, r.snapshot) then e else Accept(e, r.snapshot, r.hooks, r.now)
  }

  // ----- publishing chats -----

  predicate EntryStale(e: Entry, now: Instant, staleAfter: int) {
    IsZero(e.lastSeenAt) || e.current.state.Unavailable? || now - e.lastSeenAt > staleAfter
  }

  predicate ShowsRuntime(e: Entry, account: string, now: Instant, staleAfter: int) {
    Consumer(e) && e.membership == account && e.current.state.Ok? && !EntryStale(e, now, staleAfter) && RuntimeRecent(e, now)
  }

  predicate ShowsHook(e: Entry, account: string, id: string) {
    id != "" && Consumer(e) && e.membership == account && !e.pending && id !in e.quarantine
  }

  /** The sessions of a user that are shown under an account, given the ids hooks report now. */
  function Shown(e: Entry, account: string, hooks: set<string>, now: Instant, staleAfter: int): set<string> {
    (if ShowsRuntime(e, account, now, staleAfter) then e.runtime.Keys - {""} else {})
    + set x | x in hooks && ShowsHook(e, account, x)
  }

  datatype ChatKey = ChatKey(username: string, session: string)

  datatype ActivityRef = ActivityRef(username: string, session: string, startedAt: Instant, updatedAt: Instant, running: bool)

  datatype ActiveChat = ActiveChat(name: string, startedAt: Instant, updatedAt: Instant, running: bool)

  type Entries = map<string, Entry>

  function HookIds(refs: seq<ActivityRef>, username: string): set<string> {
    set i | 0 <= i < |refs| && refs[i].username == username && refs[i].session != "" :: refs[i].session
  }

  function NormalTimes(startedAt: Instant, updatedAt: Instant, fallback: Instant): (Instant, Instant) {
    var other := if IsZero(fallback) then FromUnix(0) else fallback;
    if IsZero(startedAt) && IsZero(updatedAt) then (other, other)
    else
      var a := if IsZero(startedAt) then updatedAt else startedAt;
      var b := if IsZero(updatedAt) then startedAt else updatedAt;
      if b < a then (b, a) else (a, b)
  }

  function RuntimeChat(t: Thread, e: Entry, now: Instant): ActiveChat {
    var seen := if IsZero(e.current.observedAt) then e.lastSeenAt else e.current.observedAt;
    var times := NormalTimes(if t.createdAt != 0 then FromUnix(t.createdAt) else 0,
                             if t.updatedAt != 0 then FromUnix(t.updatedAt) else 0,
                             if IsZero(seen) then now else seen);
    ActiveChat(t.name, times.0, times.1, t.running)
  }

  function EarlierTime(a: Instant, b: Instant): Instant {
    if IsZero(a) || (!IsZero(b) && b < a) then b else a
  }

  function LaterTime(a: Instant, b: Instant): Instant {
    if IsZero(a) || b > a then b else a
  }

  function FromRuntime(entries: Entries, account: string, now: Instant, staleAfter: int): map<ChatKey, ActiveChat> {
    map u, x | u in entries && ShowsRuntime(entries[u], account, now, staleAfter) && x in entries[u].runtime && x != "" ::
      ChatKey(u, x) := RuntimeChat(entries[u].runtime[x], entries[u], now)
  }

  predicate HookCounts(entries: Entries, account: string, ref: ActivityRef) {
    ref.username in entries && ShowsHook(entries[ref.username], account, ref.session)
  }

  /** One hook report merged into the chats found so far. */
  function Merged(chats: map<ChatKey, ActiveChat>, entries: Entries, account: string, ref: ActivityRef, now: Instant)
    : map<ChatKey, ActiveChat>
  {
    if !HookCounts(entries, account, ref) then chats
    else
      var k := ChatKey(ref.username, ref.session);
      var times := NormalTimes(ref.startedAt, ref.updatedAt, now);
      if k in chats then
        chats[k := chats[k].(startedAt := EarlierTime(chats[k].startedAt, times.0),
                             updatedAt := LaterTime(chats[k].updatedAt, times.1),
                             running := chats[k].running || ref.running)]
      else
        var recent := entries[ref.username].recent;
        var name := if ref.session in recent then recent[ref.session] else "Active Codex task";
        chats[k := ActiveChat(name, times.0, times.1, ref.running)]
  }

  function Projected(entries: Entries, account: string, refs: seq<ActivityRef>, now: Instant, staleAfter: int)
    : map<ChatKey, ActiveChat>
  {
    if refs == [] then FromRuntime(entries, account, now, staleAfter)
    else
      Merged(Projected(entries, account, refs[..|refs| - 1], now, staleAfter), entries, account, refs[|refs| - 1], now)
  }
}
