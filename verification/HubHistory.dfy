/** How the hub feeds account history: which collector it listens to and what it hands on. */
module HubHistory {
  import opened Common
  import opened HubModel
  import opened HubQuarantine
  import HubQuota

  /** A collector during one uninterrupted sign-in. */
  datatype Source = Source(username: string, accountVersion: nat)

  datatype Signature = Signature(observedAt: Instant, used: int, resetsAt: int, hasWindow: bool)

  datatype SourceState = SourceState(source: Source, signature: Signature)

  datatype Canonical = Canonical(snapshot: Snapshot, source: Source)

  /** A snapshot handed to the history tracker, to be rebaselined or observed. */
  datatype Update = Update(snapshot: Snapshot, source: Source, rebaseline: bool)

  type Observed = map<string, SourceState>

  function SignatureOf(s: Snapshot): Signature {
    if s.quota.main.Some? && s.quota.main.value.resetsAt.Some?
    then Signature(s.observedAt, s.quota.main.value.used, s.quota.main.value.resetsAt.value, true)
    else Signature(s.observedAt, 0, 0, false)
  }

  // ----- candidates -----

  predicate Belongs(e: Entry, key: string) {
    if Consumer(e) then e.membership == key else e.expected == key
  }

  /** A collector whose latest report is good, recent and of the account. */
  predicate Fresh(e: Entry, key: string, now: Instant, staleAfter: int) {
    && Belongs(e, key) && e.lastGood.Some? && e.current.state.Ok? && !EntryStale(e, now, staleAfter)
    && (Consumer(e) || e.current.account == key)
  }

  function FreshNames(entries: Entries, key: string, now: Instant, staleAfter: int): set<string> {
    set u | u in entries && Fresh(entries[u], key, now, staleAfter)
  }

  function FreshAnchors(entries: Entries, key: string, now: Instant, staleAfter: int): set<string> {
    set u | u in entries && !Consumer(entries[u]) && Fresh(entries[u], key, now, staleAfter)
  }

  predicate IsLeast(names: set<string>, n: string) {
    n in names && forall m :: m in names && m != n ==> LexLess(n, m)
  }

  lemma {:induction false} LeastExists(names: set<string>)
    requires names != {}
    ensures exists n :: IsLeast(names, n)
    decreases |names|
  {
    hide LexLess;
    var n :| n in names;
    var rest := names - {n};
    if rest == {} {
      assert names == {n};
      assert IsLeast(names, n);
    } else {
      LeastExists(rest);
      var m :| IsLeast(rest, m);
      LexTotal(n, m);
      if LexLess(m, n) {
        assert IsLeast(names, m);
      } else {
        forall k | k in names && k != n ensures LexLess(n, k) {
          if k != m { LexTransitive(n, m, k); }
        }
        assert IsLeast(names, n);
      }
    }
  }

  lemma LeastUnique(names: set<string>, m: string, n: string)
    requires IsLeast(names, m) && IsLeast(names, n)
    ensures m == n
  {
    LexTotal(m, n);
    hide LexLess;
  }

  ghost function Least(names: set<string>): (n: string)
    requires names != {}
    ensures IsLeast(names, n)
  {
    LeastExists(names);
    var n :| IsLeast(names, n);
    n
  }

  // ----- selection -----

  /** The previous source still has the sign-in it was chosen for. */
  predicate Holds(entries: Entries, observed: Observed, key: string) {
    key in observed &&
    var source := observed[key].source;
    && source.username in entries && entries[source.username].accountVersion == source.accountVersion
    && GoodAccount(entries[source.username]) == key
  }

  predicate InGrace(e: Entry, now: Instant, staleAfter: int) {
    e.lastGoodAt.Some? && (now < e.lastGoodAt.value || now - e.lastGoodAt.value <= staleAfter)
  }

  /** The collector that feeds an account's history now, if any. */
  ghost function Select(entries: Entries, observed: Observed, key: string, now: Instant, staleAfter: int): Option<string> {
    var anchors := FreshAnchors(entries, key, now, staleAfter);
    var able := FreshNames(entries, key, now, staleAfter);
    if anchors != {} then Some(Least(anchors))
    else if Holds(entries, observed, key) && observed[key].source.username in able then Some(observed[key].source.username)
    else if Holds(entries, observed, key) && InGrace(entries[observed[key].source.username], now, staleAfter) then None
    else if able != {} then Some(Least(able))
    else None
  }

  predicate Disagree(a: Entry, b: Entry) {
    a.lastGood.Some? && b.lastGood.Some? && !HubQuota.Agrees(a.lastGood.value.quota, b.lastGood.value.quota)
  }

  /** Two fresh collectors of the account disagree about its quota. */
  predicate Conflict(entries: Entries, key: string, now: Instant, staleAfter: int) {
    exists u, v :: u in FreshNames(entries, key, now, staleAfter) && v in FreshNames(entries, key, now, staleAfter) && LexLess(u, v)
      && Disagree(entries[u], entries[v])
  }

  ghost function CanonicalAt(entries: Entries, observed: Observed, key: string, now: Instant, staleAfter: int): Option<Canonical> {
    var pick := Select(entries, observed, key, now, staleAfter);
    if pick.None? || (Conflict(entries, key, now, staleAfter) && Consumer(entries[pick.value])) then None
    else Some(Canonical(entries[pick.value].lastGood.value, Source(pick.value, entries[pick.value].accountVersion)))
  }

  /** The accounts the hub knows: those of its anchors and those consumers are signed in to. */
  function Accounts(entries: Entries): set<string> {
    (set u | u in entries && !Consumer(entries[u]) :: entries[u].expected)
    + set u | u in entries && Consumer(entries[u]) && entries[u].membership != "" :: entries[u].membership
  }

  ghost function Canonicals(entries: Entries, observed: Observed, now: Instant, staleAfter: int): map<string, Canonical> {
    map key | key in Accounts(entries) && CanonicalAt(entries, observed, key, now, staleAfter).Some? ::
      CanonicalAt(entries, observed, key, now, staleAfter).value
  }

  // ----- updates -----

  predicate Repeats(observed: Observed, key: string, c: Canonical) {
    key in observed && observed[key] == SourceState(c.source, SignatureOf(c.snapshot))
  }

  function UpdateFor(observed: Observed, key: string, c: Canonical): Update {
    Update(c.snapshot, c.source, key !in observed || observed[key].source != c.source)
  }

  function Updates(observed: Observed, canonicals: map<string, Canonical>): map<string, Update> {
    map key | key in canonicals && !Repeats(observed, key, canonicals[key]) :: UpdateFor(observed, key, canonicals[key])
  }

  function Remember(observed: Observed, canonicals: map<string, Canonical>): Observed {
    map key | key in observed.Keys + canonicals.Keys ::
      if key in canonicals then SourceState(canonicals[key].source, SignatureOf(canonicals[key].snapshot)) else observed[key]
  }

  // ----- one choice -----

  /** Whatever is handed to an account's history is a good snapshot of that very account, with the
      sign-in of its collector. */
  lemma OwnAccount(entries: Entries, observed: Observed, key: string, now: Instant, staleAfter: int)
    requires forall u :: u in entries ==> EntryInv(entries[u])
    requires key != "" && CanonicalAt(entries, observed, key, now, staleAfter).Some?
    ensures var c := CanonicalAt(entries, observed, key, now, staleAfter).value;
            && c.snapshot.state.Ok? && c.snapshot.account == key && c.snapshot.runtime == map[]
            && c.source.username in entries && entries[c.source.username].accountVersion == c.source.accountVersion
            && Fresh(entries[c.source.username], key, now, staleAfter)
  {
    hide Conflict;
    var u := Select(entries, observed, key, now, staleAfter).value;
    SelectIsFresh(entries, observed, key, now, staleAfter);
    assert EntryInv(entries[u]);
    hide Select, EntryStale;
  }

  lemma SelectIsFresh(entries: Entries, observed: Observed, key: string, now: Instant, staleAfter: int)
    requires Select(entries, observed, key, now, staleAfter).Some?
    ensures Select(entries, observed, key, now, staleAfter).value in FreshNames(entries, key, now, staleAfter)
  {
    hide Fresh, Holds, InGrace;
  }

  /** The source is sticky: without a fresh anchor it changes only once the previous collector has left
      the sign-in it was chosen for or has not reported well for longer than the staleness limit. */
  lemma SourceIsSticky(entries: Entries, observed: Observed, key: string, now: Instant, staleAfter: int)
    requires key in observed && CanonicalAt(entries, observed, key, now, staleAfter).Some?
    requires CanonicalAt(entries, observed, key, now, staleAfter).value.source != observed[key].source
    ensures var c, prior := CanonicalAt(entries, observed, key, now, staleAfter).value, observed[key].source;
            || c.source.username in FreshAnchors(entries, key, now, staleAfter)
            || prior.username !in entries
            || entries[prior.username].accountVersion != prior.accountVersion
            || GoodAccount(entries[prior.username]) != key
            || entries[prior.username].lastGoodAt.None?
            || now - entries[prior.username].lastGoodAt.value > staleAfter
  {
    hide Fresh, Conflict, LexLess;
  }

  /** Disagreement among collectors pauses history unless an anchor decides. */
  lemma ConflictNeedsAnchor(entries: Entries, observed: Observed, key: string, now: Instant, staleAfter: int)
    requires Conflict(entries, key, now, staleAfter)
    ensures FreshAnchors(entries, key, now, staleAfter) == {} ==> CanonicalAt(entries, observed, key, now, staleAfter).None?
  {
    var pick := Select(entries, observed, key, now, staleAfter);
    if pick.Some? {
      SelectIsFresh(entries, observed, key, now, staleAfter);
      assert !Consumer(entries[pick.value]) ==> pick.value in FreshAnchors(entries, key, now, staleAfter);
    }
    hide Select, Conflict, EntryStale;
  }

  // ----- whole runs -----

  /** An accepted submission of a known user, or the history tracker being attached or detached. */
  datatype Op = Submit(username: string, report: Report) | Attach(on: bool, at: Instant)

  datatype Hub = Hub(entries: Entries, observed: Observed, attached: bool)

  function Submitted(h: Hub, op: Op): Entries {
    if op.Submit? && op.username in h.entries then h.entries[op.username := Receive(h.entries[op.username], op.report)]
    else h.entries
  }

  /** Whether the operation leads to deliveries at all: a late report does not. */
  predicate Delivers(h: Hub, op: Op) {
    match op
    case Submit(u, r) => h.attached && u in h.entries && !Late(h.entries[u], r.snapshot)
    case Attach(on, _) => on
  }

  function Starting(h: Hub, op: Op): Observed {
    if op.Attach? then map[] else h.observed
  }

  function When(op: Op): Instant {
    match op
    case Submit(_, r) => r.now
    case Attach(_, at) => at
  }

  ghost function Round(h: Hub, op: Op, staleAfter: int): map<string, Update> {
    if !Delivers(h, op) then map[]
    else Updates(Starting(h, op), Canonicals(Submitted(h, op), Starting(h, op), When(op), staleAfter))
  }

  ghost function Step(h: Hub, op: Op, staleAfter: int): Hub {
    Hub(Submitted(h, op),
        if Delivers(h, op) then Remember(Starting(h, op), Canonicals(Submitted(h, op), Starting(h, op), When(op), staleAfter))
        else Starting(h, op),
        if op.Attach? then op.on else h.attached)
  }

  ghost function HubAt(h: Hub, ops: seq<Op>, staleAfter: int, i: nat): Hub
    requires i <= |ops|
  {
    if i == 0 then h else Step(HubAt(h, ops, staleAfter, i - 1), ops[i - 1], staleAfter)
  }

  ghost function RoundAt(h: Hub, ops: seq<Op>, staleAfter: int, i: nat): map<string, Update>
    requires i < |ops|
  {
    Round(HubAt(h, ops, staleAfter, i), ops[i], staleAfter)
  }

  /** The operation at which an account's history last received something before operation `i`, since
      the tracker was attached. */
  ghost function LastDelivery(h: Hub, ops: seq<Op>, staleAfter: int, i: nat, key: string): Option<nat>
    requires i <= |ops|
  {
    if i == 0 then None
    else if key in RoundAt(h, ops, staleAfter, i - 1) then Some(i - 1)
    else if ops[i - 1].Attach? then None
    else LastDelivery(h, ops, staleAfter, i - 1, key)
  }

  lemma RoundFacts(h: Hub, op: Op, staleAfter: int, key: string)
    ensures var r, s := Round(h, op, staleAfter), Step(h, op, staleAfter);
            && (key in r ==>
                  && key in s.observed && s.observed[key] == SourceState(r[key].source, SignatureOf(r[key].snapshot))
                  && (r[key].rebaseline <==> key !in Starting(h, op) || Starting(h, op)[key].source != r[key].source)
                  && (key in Starting(h, op) ==> Starting(h, op)[key] != s.observed[key]))
            && (key !in r ==>
                  && (key in s.observed <==> key in Starting(h, op))
                  && (key in s.observed ==> s.observed[key] == Starting(h, op)[key]))
  {
    hide Canonicals, Submitted, Delivers, SignatureOf;
  }

  /** What the hub remembers of an account is the latest delivery to it. */
  lemma {:induction false} RememberedIsLast(h: Hub, ops: seq<Op>, staleAfter: int, i: nat, key: string)
    requires i <= |ops| && h.observed == map[]
    ensures var s, last := HubAt(h, ops, staleAfter, i), LastDelivery(h, ops, staleAfter, i, key);
            && (key in s.observed <==> last.Some?)
            && (last.Some? ==>
                  && last.value < i && key in RoundAt(h, ops, staleAfter, last.value)
                  && var u := RoundAt(h, ops, staleAfter, last.value)[key];
                     s.observed[key] == SourceState(u.source, SignatureOf(u.snapshot)))
  {
    hide Round, Step, SignatureOf;
    if i > 0 {
      RememberedIsLast(h, ops, staleAfter, i - 1, key);
      RoundFacts(HubAt(h, ops, staleAfter, i - 1), ops[i - 1], staleAfter, key);
    }
  }

  /** Every delivery is an observation exactly when the account's previous delivery came from the same
      sign-in of the same collector, and otherwise a rebaseline; the same report is never delivered twice. */
  lemma DeliveryKind(h: Hub, ops: seq<Op>, staleAfter: int, i: nat, key: string)
    requires i < |ops| && h.observed == map[] && key in RoundAt(h, ops, staleAfter, i)
    ensures var u := RoundAt(h, ops, staleAfter, i)[key];
            var last := if ops[i].Attach? then None else LastDelivery(h, ops, staleAfter, i, key);
            && (last.Some? ==> last.value < i && key in RoundAt(h, ops, staleAfter, last.value))
            && (!u.rebaseline <==> last.Some? && RoundAt(h, ops, staleAfter, last.value)[key].source == u.source)
            && (!u.rebaseline ==> SignatureOf(RoundAt(h, ops, staleAfter, last.value)[key].snapshot) != SignatureOf(u.snapshot))
  {
    RememberedIsLast(h, ops, staleAfter, i, key);
    RoundFacts(HubAt(h, ops, staleAfter, i), ops[i], staleAfter, key);
    hide Round, Step, HubAt, LastDelivery, SignatureOf;
  }

  // ----- observations never bridge a change of account -----

  /** Operation `k` ends the user's sign-in: an accepted sign-out, API key or other account. */
  ghost predicate Breaks(h: Hub, ops: seq<Op>, staleAfter: int, k: nat, u: string)
    requires k < |ops|
  {
    && ops[k].Submit? && ops[k].username == u && u in HubAt(h, ops, staleAfter, k).entries
    && EndsSignIn(HubAt(h, ops, staleAfter, k).entries[u], ops[k].report.snapshot)
  }

  lemma EntryStep(h: Hub, ops: seq<Op>, staleAfter: int, k: nat, u: string)
    requires k < |ops| && u in HubAt(h, ops, staleAfter, k).entries
    ensures var e, f := HubAt(h, ops, staleAfter, k).entries, HubAt(h, ops, staleAfter, k + 1).entries;
            u in f && f[u] == if ops[k].Submit? && ops[k].username == u then Receive(e[u], ops[k].report) else e[u]
  {
    var s := HubAt(h, ops, staleAfter, k);
    assert HubAt(h, ops, staleAfter, k + 1).entries == Submitted(s, ops[k]);
    hide HubAt, Receive, Canonicals, Step;
  }

  lemma {:induction false} UserStays(h: Hub, ops: seq<Op>, staleAfter: int, m: nat, n: nat, u: string)
    requires m <= n <= |ops| && u in HubAt(h, ops, staleAfter, m).entries
    ensures u in HubAt(h, ops, staleAfter, n).entries
    decreases n
  {
    hide Step;
    if m < n {
      UserStays(h, ops, staleAfter, m, n - 1, u);
      EntryStep(h, ops, staleAfter, n - 1, u);
    }
  }

  ghost function VersionOf(h: Hub, ops: seq<Op>, staleAfter: int, u: string, i: nat): int {
    if i <= |ops| && u in HubAt(h, ops, staleAfter, i).entries then HubAt(h, ops, staleAfter, i).entries[u].accountVersion else 0
  }

  ghost predicate BreaksAt(h: Hub, ops: seq<Op>, staleAfter: int, u: string, i: nat) {
    i < |ops| && Breaks(h, ops, staleAfter, i, u)
  }

  lemma VersionOfStep(h: Hub, ops: seq<Op>, staleAfter: int, m: nat, i: nat, u: string)
    requires m <= i < |ops| && u in HubAt(h, ops, staleAfter, m).entries
    ensures VersionOf(h, ops, staleAfter, u, i + 1) ==
            VersionOf(h, ops, staleAfter, u, i) + if BreaksAt(h, ops, staleAfter, u, i) then 1 else 0
  {
    hide HubAt, Receive, EndsSignIn;
    UserStays(h, ops, staleAfter, m, i, u);
    EntryStep(h, ops, staleAfter, i, u);
    if ops[i].Submit? { ReceiveVersion(HubAt(h, ops, staleAfter, i).entries[u], ops[i].report); }
  }

  lemma VersionsTell(h: Hub, ops: seq<Op>, staleAfter: int, m: nat, n: nat, u: string)
    requires m <= n <= |ops| && u in HubAt(h, ops, staleAfter, m).entries
    ensures u in HubAt(h, ops, staleAfter, n).entries
    ensures var a, b := HubAt(h, ops, staleAfter, m).entries[u].accountVersion, HubAt(h, ops, staleAfter, n).entries[u].accountVersion;
            a <= b && (a == b <==> forall k :: m <= k < n ==> !Breaks(h, ops, staleAfter, k, u))
  {
    hide HubAt, Breaks;
    UserStays(h, ops, staleAfter, m, n, u);
    assert VersionOf(h, ops, staleAfter, u, m) == HubAt(h, ops, staleAfter, m).entries[u].accountVersion;
    assert VersionOf(h, ops, staleAfter, u, n) == HubAt(h, ops, staleAfter, n).entries[u].accountVersion;
    assert forall i: nat :: m <= i < n ==> BreaksAt(h, ops, staleAfter, u, i) == Breaks(h, ops, staleAfter, i, u);
    hide VersionOf, BreaksAt;
    forall i: nat | m <= i < n
      ensures VersionOf(h, ops, staleAfter, u, i + 1) ==
              VersionOf(h, ops, staleAfter, u, i) + if BreaksAt(h, ops, staleAfter, u, i) then 1 else 0
    {
      VersionOfStep(h, ops, staleAfter, m, i, u);
    }
    var raises := (i: nat) => BreaksAt(h, ops, staleAfter, u, i);
    CounterTells((i: nat) => VersionOf(h, ops, staleAfter, u, i), raises, m, n);
    assert forall i: nat :: m <= i < n ==> raises(i) == Breaks(h, ops, staleAfter, i, u);
  }

  lemma DeliveredVersion(h: Hub, ops: seq<Op>, staleAfter: int, i: nat, key: string)
    requires i < |ops| && key in RoundAt(h, ops, staleAfter, i)
    ensures var u := RoundAt(h, ops, staleAfter, i)[key].source;
            && u.username in HubAt(h, ops, staleAfter, i + 1).entries
            && HubAt(h, ops, staleAfter, i + 1).entries[u.username].accountVersion == u.accountVersion
  {
    var s, op := HubAt(h, ops, staleAfter, i), ops[i];
    var entries, observed := Submitted(s, op), Starting(s, op);
    assert HubAt(h, ops, staleAfter, i + 1).entries == entries;
    hide HubAt, Submitted, Starting, Delivers, Conflict;
    CanonicalNames(entries, observed, key, When(op), staleAfter);
    hide CanonicalAt;
  }

  lemma CanonicalNames(entries: Entries, observed: Observed, key: string, now: Instant, staleAfter: int)
    requires CanonicalAt(entries, observed, key, now, staleAfter).Some?
    ensures var c := CanonicalAt(entries, observed, key, now, staleAfter).value.source;
            c.username in entries && entries[c.username].accountVersion == c.accountVersion
  {
    SelectIsFresh(entries, observed, key, now, staleAfter);
    hide Select, Conflict, Fresh;
  }

  /** A handoff cannot manufacture history: when a snapshot is observed rather than rebaselined, the
      account's previous delivery came from the same collector, and since then that collector has
      neither signed out nor reported an API key or another account. */
  lemma ObserveNeverBridges(h: Hub, ops: seq<Op>, staleAfter: int, i: nat, key: string)
    requires i < |ops| && h.observed == map[]
    requires key in RoundAt(h, ops, staleAfter, i) && !RoundAt(h, ops, staleAfter, i)[key].rebaseline
    ensures var last := LastDelivery(h, ops, staleAfter, i, key);
            && last.Some? && last.value < i && key in RoundAt(h, ops, staleAfter, last.value)
            && var u := RoundAt(h, ops, staleAfter, i)[key].source.username;
               && RoundAt(h, ops, staleAfter, last.value)[key].source == RoundAt(h, ops, staleAfter, i)[key].source
               && forall k :: last.value < k <= i ==> !Breaks(h, ops, staleAfter, k, u)
  {
    hide RoundAt, HubAt, Breaks, LastDelivery, SignatureOf;
    DeliveryKind(h, ops, staleAfter, i, key);
    var j := LastDelivery(h, ops, staleAfter, i, key).value;
    var u := RoundAt(h, ops, staleAfter, i)[key].source.username;
    DeliveredVersion(h, ops, staleAfter, j, key);
    DeliveredVersion(h, ops, staleAfter, i, key);
    VersionsTell(h, ops, staleAfter, j + 1, i + 1, u);
  }

  // ----- a source is left only for a reason -----

  /** Every submitted snapshot has passed validation. */
  predicate ValidOps(ops: seq<Op>) {
    forall i :: 0 <= i < |ops| && ops[i].Submit? ==> ValidSnapshot(ops[i].report.snapshot)
  }

  predicate EntriesInv(entries: Entries) {
    forall u :: u in entries ==> EntryInv(entries[u])
  }

  lemma {:induction false} EntriesKeep(h: Hub, ops: seq<Op>, staleAfter: int, i: nat)
    requires i <= |ops| && EntriesInv(h.entries) && ValidOps(ops)
    ensures EntriesInv(HubAt(h, ops, staleAfter, i).entries)
  {
    hide EntryInv, Accept, Late, Canonicals, Delivers, ValidSnapshot;
    if i > 0 {
      EntriesKeep(h, ops, staleAfter, i - 1);
      var s, op := HubAt(h, ops, staleAfter, i - 1), ops[i - 1];
      if op.Submit? && op.username in s.entries {
        AcceptKeeps(s.entries[op.username], op.report.snapshot, op.report.hooks, op.report.now);
      }
    }
  }

  lemma ReceiveAccount(e: Entry, r: Report)
    ensures GoodAccount(e) != "" && !EndsSignIn(e, r.snapshot) ==> GoodAccount(Receive(e, r)) == GoodAccount(e)
  {
    hide NextQuarantine, NextRuntime, NextRuntimeAt, NextPending;
  }

  /** While nothing ends a sign-in, its account stays the last good one. */
  lemma {:induction false} AccountStays(h: Hub, ops: seq<Op>, staleAfter: int, m: nat, n: nat, u: string)
    requires m <= n <= |ops| && u in HubAt(h, ops, staleAfter, m).entries && GoodAccount(HubAt(h, ops, staleAfter, m).entries[u]) != ""
    requires forall k :: m <= k < n ==> !Breaks(h, ops, staleAfter, k, u)
    ensures u in HubAt(h, ops, staleAfter, n).entries
    ensures GoodAccount(HubAt(h, ops, staleAfter, n).entries[u]) == GoodAccount(HubAt(h, ops, staleAfter, m).entries[u])
    decreases n
  {
    hide HubAt, Receive, EndsSignIn, GoodAccount;
    if m < n {
      AccountStays(h, ops, staleAfter, m, n - 1, u);
      EntryStep(h, ops, staleAfter, n - 1, u);
      assert !Breaks(h, ops, staleAfter, n - 1, u);
      if ops[n - 1].Submit? { ReceiveAccount(HubAt(h, ops, staleAfter, n - 1).entries[u], ops[n - 1].report); }
    }
  }

  /** What one delivery was chosen from. */
  lemma DeliveredFrom(h: Hub, ops: seq<Op>, staleAfter: int, i: nat, key: string)
    requires i < |ops| && key in RoundAt(h, ops, staleAfter, i)
    ensures var entries, observed, u := HubAt(h, ops, staleAfter, i + 1).entries, Starting(HubAt(h, ops, staleAfter, i), ops[i]), RoundAt(h, ops, staleAfter, i)[key];
            && key in Accounts(entries)
            && CanonicalAt(entries, observed, key, When(ops[i]), staleAfter) == Some(Canonical(u.snapshot, u.source))
  {
    var s, op := HubAt(h, ops, staleAfter, i), ops[i];
    assert HubAt(h, ops, staleAfter, i + 1).entries == Submitted(s, op);
    hide HubAt, Submitted, Starting, Delivers, CanonicalAt, Accounts;
  }

  lemma AccountNamed(entries: Entries, key: string)
    requires key in Accounts(entries)
    ensures key != ""
  {
  }

  lemma CanonicalIsLastGood(entries: Entries, observed: Observed, key: string, now: Instant, staleAfter: int)
    requires CanonicalAt(entries, observed, key, now, staleAfter).Some?
    ensures var c := CanonicalAt(entries, observed, key, now, staleAfter).value;
            && c.source.username in entries && entries[c.source.username].lastGood == Some(c.snapshot)
  {
    SelectIsFresh(entries, observed, key, now, staleAfter);
    hide Select, Conflict, EntryStale;
  }

  /** Whatever a run delivers to an account is a good snapshot of that account: its collector's last. */
  lemma DeliveredOwn(h: Hub, ops: seq<Op>, staleAfter: int, i: nat, key: string)
    requires i < |ops| && EntriesInv(h.entries) && ValidOps(ops) && key in RoundAt(h, ops, staleAfter, i)
    ensures var entries, u := HubAt(h, ops, staleAfter, i + 1).entries, RoundAt(h, ops, staleAfter, i)[key];
            && key != "" && u.snapshot.state.Ok? && u.snapshot.account == key
            && u.source.username in entries && GoodAccount(entries[u.source.username]) == key
  {
    hide HubAt, RoundAt, CanonicalAt, Accounts, ValidOps, EntryInv, Starting;
    EntriesKeep(h, ops, staleAfter, i + 1);
    DeliveredFrom(h, ops, staleAfter, i, key);
    var entries, observed := HubAt(h, ops, staleAfter, i + 1).entries, Starting(HubAt(h, ops, staleAfter, i), ops[i]);
    AccountNamed(entries, key);
    OwnAccount(entries, observed, key, When(ops[i]), staleAfter);
    CanonicalIsLastGood(entries, observed, key, When(ops[i]), staleAfter);
  }

  /** Over whole runs, two consecutive deliveries to an account come from different sources only if the
      later one is a fresh anchor, or the earlier collector ended its sign-in in between, or it has sent no
      good report for longer than the staleness limit. */
  lemma SourceLeftForReason(h: Hub, ops: seq<Op>, staleAfter: int, i: nat, key: string)
    requires i < |ops| && h.observed == map[] && EntriesInv(h.entries) && ValidOps(ops)
    requires key in RoundAt(h, ops, staleAfter, i) && !ops[i].Attach? && LastDelivery(h, ops, staleAfter, i, key).Some?
    ensures var j := LastDelivery(h, ops, staleAfter, i, key).value;
            && j < i && key in RoundAt(h, ops, staleAfter, j)
            && var prior, source := RoundAt(h, ops, staleAfter, j)[key].source, RoundAt(h, ops, staleAfter, i)[key].source;
               var entries := HubAt(h, ops, staleAfter, i + 1).entries;
               prior.username in entries &&
               (prior != source ==>
                  || source.username in FreshAnchors(entries, key, When(ops[i]), staleAfter)
                  || (exists k :: j < k <= i && Breaks(h, ops, staleAfter, k, prior.username))
                  || (entries[prior.username].lastGoodAt.Some?
                      && When(ops[i]) - entries[prior.username].lastGoodAt.value > staleAfter))
  {
    hide HubAt, RoundAt, Breaks, LastDelivery, SignatureOf, CanonicalAt, ValidOps, FreshAnchors, Starting, Accounts;
    RememberedIsLast(h, ops, staleAfter, i, key);
    var j := LastDelivery(h, ops, staleAfter, i, key).value;
    var prior := RoundAt(h, ops, staleAfter, j)[key].source;
    DeliveredVersion(h, ops, staleAfter, j, key);
    VersionsTell(h, ops, staleAfter, j + 1, i + 1, prior.username);
    if prior != RoundAt(h, ops, staleAfter, i)[key].source && forall k :: j < k <= i ==> !Breaks(h, ops, staleAfter, k, prior.username) {
      DeliveredOwn(h, ops, staleAfter, j, key);
      AccountStays(h, ops, staleAfter, j + 1, i + 1, prior.username);
      EntriesKeep(h, ops, staleAfter, i + 1);
      DeliveredFrom(h, ops, staleAfter, i, key);
      StartingObserved(HubAt(h, ops, staleAfter, i), ops[i]);
      var entries := HubAt(h, ops, staleAfter, i + 1).entries;
      SourceIsSticky(entries, HubAt(h, ops, staleAfter, i).observed, key, When(ops[i]), staleAfter);
      KeptGood(entries[prior.username]);
    }
  }

  lemma StartingObserved(h: Hub, op: Op)
    requires !op.Attach?
    ensures Starting(h, op) == h.observed
  {
  }

  lemma KeptGood(e: Entry)
    requires EntryInv(e) && GoodAccount(e) != ""
    ensures e.lastGoodAt.Some?
  {
  }

  // ----- each user's entry -----

  /** The reports of one user among the first `i` operations. */
  function ReportsOf(ops: seq<Op>, i: nat, u: string): seq<Report>
    requires i <= |ops|
  {
    if i == 0 then []
    else if ops[i - 1].Submit? && ops[i - 1].username == u then ReportsOf(ops, i - 1, u) + [ops[i - 1].report]
    else ReportsOf(ops, i - 1, u)
  }

  lemma {:induction false} AtPrefix(expected: string, run: seq<Report>, more: seq<Report>, i: nat)
    requires i <= |run|
    ensures At(expected, run + more, i) == At(expected, run, i)
  {
    hide Receive;
    if i > 0 { AtPrefix(expected, run, more, i - 1); }
  }

  /** In a hub started with fresh entries, every user's entry is that of the user's own reports alone:
      the results about one user's run hold of every user of every hub run. */
  lemma {:induction false} EntryIsOwnRun(h: Hub, ops: seq<Op>, staleAfter: int, i: nat, u: string)
    requires i <= |ops| && u in h.entries && h.entries[u] == FreshEntry(h.entries[u].expected)
    ensures var s, run := HubAt(h, ops, staleAfter, i), ReportsOf(ops, i, u);
            u in s.entries && s.entries[u] == At(h.entries[u].expected, run, |run|)
  {
    hide Receive, Canonicals, Delivers;
    if i > 0 {
      EntryIsOwnRun(h, ops, staleAfter, i - 1, u);
      var expected, before := h.entries[u].expected, ReportsOf(ops, i - 1, u);
      if ops[i - 1].Submit? && ops[i - 1].username == u {
        AtPrefix(expected, before, [ops[i - 1].report], |before|);
      }
    }
  }
}
