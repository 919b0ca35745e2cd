/** The hub's deliveries, read off the submissions alone. */
module HubTrace {
  import opened Common
  import opened HubModel
  import opened HubQuarantine
  import opened HubHistory
  import HubQuota

  // ----- what the submissions say -----

  predicate By(op: Op, u: string) {
    op.Submit? && op.username == u
  }

  /** The user's latest report that counts among the first `i` operations: a report counts when it is newer than
      those before. */
  function Latest(ops: seq<Op>, i: nat, u: string): (k: Option<nat>)
    requires i <= |ops|
    ensures k.Some? ==> k.value < i && By(ops[k.value], u)
  {
    if i == 0 then None
    else
      var before := Latest(ops, i - 1, u);
      if By(ops[i - 1], u) && (before.None? || ops[before.value].report.snapshot.observedAt < ops[i - 1].report.snapshot.observedAt)
      then Some(i - 1) else before
  }

  /** The report counts and is good. */
  predicate GoodAt(ops: seq<Op>, k: nat, u: string)
    requires k < |ops|
  {
    Latest(ops, k + 1, u) == Some(k) && ops[k].report.snapshot.state.Ok?
  }

  /** The user's latest good report that counts. */
  function LatestGood(ops: seq<Op>, i: nat, u: string): (k: Option<nat>)
    requires i <= |ops|
    ensures k.Some? ==> k.value < i && GoodAt(ops, k.value, u)
  {
    if i == 0 then None else if GoodAt(ops, i - 1, u) then Some(i - 1) else LatestGood(ops, i - 1, u)
  }

  /** The account a consumer is signed in to: that of the latest report that counts, looking past those that
      were unavailable. */
  function SignedInTo(ops: seq<Op>, i: nat, u: string): string
    requires i <= |ops|
  {
    if i == 0 then ""
    else if Latest(ops, i, u) != Some(i - 1) then SignedInTo(ops, i - 1, u)
    else
      match ops[i - 1].report.snapshot.state
      case Ok => ops[i - 1].report.snapshot.account
      case Unavailable => SignedInTo(ops, i - 1, u)
      case _ => ""
  }

  /** A snapshot as it is kept: without session ids. */
  function Kept(s: Snapshot): Snapshot {
    s.(runtime := map[], runtimeRead := false)
  }

  // ----- what the hub keeps of it -----

  /** The entry says what the submissions say. */
  ghost predicate Traced(e: Entry, ops: seq<Op>, i: nat, u: string)
    requires i <= |ops|
  {
    var k, g := Latest(ops, i, u), LatestGood(ops, i, u);
    && (k.None? ==> IsZero(e.current.observedAt) && e.current.state.Unavailable? && IsZero(e.lastSeenAt))
    && (k.Some? ==> e.current == Kept(ops[k.value].report.snapshot) && e.lastSeenAt == ops[k.value].report.now)
    && (g.None? ==> e.lastGood.None? && e.lastGoodAt.None?)
    && (g.Some? ==> e.lastGood == Some(Kept(ops[g.value].report.snapshot)) && e.lastGoodAt == Some(ops[g.value].report.now))
    && (Consumer(e) ==> e.membership == SignedInTo(ops, i, u))
  }

  lemma ReceiveTraces(e: Entry, ops: seq<Op>, i: nat, u: string)
    requires i < |ops| && Traced(e, ops, i, u) && ValidOps(ops)
    ensures Traced(if By(ops[i], u) then Receive(e, ops[i].report) else e, ops, i + 1, u)
  {
    hide ValidSnapshot, ValidOps, Accept, SignedInTo, LatestGood, Traced;
    if By(ops[i], u) {
      LateTraced(e, ops, i, u);
      if Late(e, ops[i].report.snapshot) { LateChangesNothing(e, ops, i, u); } else { AcceptTraces(e, ops, i, u); }
    } else {
      LateChangesNothing(e, ops, i, u);
    }
  }

  lemma LateTraced(e: Entry, ops: seq<Op>, i: nat, u: string)
    requires i < |ops| && Traced(e, ops, i, u) && ValidOps(ops) && By(ops[i], u)
    ensures Latest(ops, i + 1, u) == if Late(e, ops[i].report.snapshot) then Latest(ops, i, u) else Some(i)
  {
    var k := Latest(ops, i, u);
    if k.Some? { assert ValidSnapshot(ops[k.value].report.snapshot); }
    hide LatestGood, SignedInTo;
  }

  lemma LateChangesNothing(e: Entry, ops: seq<Op>, i: nat, u: string)
    requires i < |ops| && Traced(e, ops, i, u) && Latest(ops, i + 1, u) == Latest(ops, i, u)
    ensures Traced(e, ops, i + 1, u)
  {
  }

  lemma AcceptTraces(e: Entry, ops: seq<Op>, i: nat, u: string)
    requires i < |ops| && Traced(e, ops, i, u) && By(ops[i], u) && Latest(ops, i + 1, u) == Some(i)
    ensures Traced(Accept(e, ops[i].report.snapshot, ops[i].report.hooks, ops[i].report.now), ops, i + 1, u)
  {
    AcceptFields(e, ops[i].report);
    hide Accept, Latest;
  }

  /** The fields of an entry that an accepted report determines. */
  lemma AcceptFields(e: Entry, r: Report)
    ensures var s, f := r.snapshot, Accept(e, r.snapshot, r.hooks, r.now);
            && f.expected == e.expected && f.current == Kept(s) && f.lastSeenAt == r.now
            && f.lastGood == (if s.state.Ok? then Some(Kept(s)) else e.lastGood)
            && f.lastGoodAt == (if s.state.Ok? then Some(r.now) else e.lastGoodAt)
            && (Consumer(e) ==> f.membership == if s.state.Ok? then s.account else if s.state.Unavailable? then e.membership else "")
  {
    hide NextQuarantine, NextRuntime, NextRuntimeAt, NextPending, AccountChanges;
  }

  /** The hub and its history tracker start empty. */
  ghost predicate Starts(h: Hub) {
    h.observed == map[] && forall u :: u in h.entries ==> h.entries[u] == FreshEntry(h.entries[u].expected)
  }

  lemma {:induction false} EntryTraced(h: Hub, ops: seq<Op>, staleAfter: int, i: nat, u: string)
    requires i <= |ops| && Starts(h) && ValidOps(ops) && u in h.entries
    ensures u in HubAt(h, ops, staleAfter, i).entries
    ensures HubAt(h, ops, staleAfter, i).entries[u].expected == h.entries[u].expected
    ensures Traced(HubAt(h, ops, staleAfter, i).entries[u], ops, i, u)
  {
    hide HubAt, Receive, Traced;
    if i == 0 {
      StartTraced(h, ops, staleAfter, u);
    } else {
      EntryTraced(h, ops, staleAfter, i - 1, u);
      EntryStep(h, ops, staleAfter, i - 1, u);
      ReceiveTraces(HubAt(h, ops, staleAfter, i - 1).entries[u], ops, i - 1, u);
      if By(ops[i - 1], u) { ReceiveExpected(HubAt(h, ops, staleAfter, i - 1).entries[u], ops[i - 1].report); }
    }
  }

  lemma StartTraced(h: Hub, ops: seq<Op>, staleAfter: int, u: string)
    requires Starts(h) && u in h.entries
    ensures HubAt(h, ops, staleAfter, 0) == h && Traced(h.entries[u], ops, 0, u)
  {
    assert h.entries[u] == FreshEntry(h.entries[u].expected);
  }

  lemma ReceiveExpected(e: Entry, r: Report)
    ensures Receive(e, r).expected == e.expected
  {
  }

  lemma {:induction false} OnlyKnown(h: Hub, ops: seq<Op>, staleAfter: int, i: nat)
    requires i <= |ops|
    ensures HubAt(h, ops, staleAfter, i).entries.Keys == h.entries.Keys
  {
    hide Receive, Canonicals, Delivers;
    if i > 0 { OnlyKnown(h, ops, staleAfter, i - 1); }
  }

  /** The membership of a consumer, in terms of the submissions: kept while its reports fail, ended by a sign-out
      or an API key. */
  lemma MembershipTraced(h: Hub, ops: seq<Op>, staleAfter: int, i: nat, u: string)
    requires i <= |ops| && Starts(h) && ValidOps(ops) && u in h.entries && h.entries[u].expected == ""
    ensures u in HubAt(h, ops, staleAfter, i).entries
    ensures HubAt(h, ops, staleAfter, i).entries[u].membership == SignedInTo(ops, i, u)
  {
    EntryTraced(h, ops, staleAfter, i, u);
    hide HubAt;
  }

  // ----- who reports an account now -----

  /** The user's latest report that counts is a good one of the account, at most `staleAfter` old; an anchor
      reports only the account it is configured for. */
  predicate ReportsNow(h: Hub, ops: seq<Op>, staleAfter: int, i: nat, key: string, u: string)
    requires i < |ops|
  {
    u in h.entries && h.entries[u].expected in {"", key} &&
    var k := Latest(ops, i + 1, u);
    && k.Some? && ops[k.value].report.snapshot.state.Ok? && ops[k.value].report.snapshot.account == key
    && When(ops[i]) - ops[k.value].report.now <= staleAfter
  }

  predicate AnchorReportsNow(h: Hub, ops: seq<Op>, staleAfter: int, i: nat, key: string, u: string)
    requires i < |ops|
  {
    ReportsNow(h, ops, staleAfter, i, key, u) && h.entries[u].expected != ""
  }

  /** Reports are received at times after the zero time. */
  predicate Timed(ops: seq<Op>) {
    forall i :: 0 <= i < |ops| && ops[i].Submit? ==> ops[i].report.now != 0
  }

  lemma FreshTraced(h: Hub, ops: seq<Op>, staleAfter: int, i: nat, key: string, u: string)
    requires i < |ops| && Starts(h) && ValidOps(ops) && Timed(ops) && key != ""
    ensures var names := FreshNames(HubAt(h, ops, staleAfter, i + 1).entries, key, When(ops[i]), staleAfter);
            u in names <==> ReportsNow(h, ops, staleAfter, i, key, u)
    ensures var names := FreshAnchors(HubAt(h, ops, staleAfter, i + 1).entries, key, When(ops[i]), staleAfter);
            u in names <==> AnchorReportsNow(h, ops, staleAfter, i, key, u)
  {
    hide HubAt;
    OnlyKnown(h, ops, staleAfter, i + 1);
    if u in h.entries {
      EntryTraced(h, ops, staleAfter, i + 1, u);
      var e := HubAt(h, ops, staleAfter, i + 1).entries[u];
      EntryFresh(e, ops, i + 1, u, key, When(ops[i]), staleAfter);
    }
  }

  lemma EntryFresh(e: Entry, ops: seq<Op>, i: nat, u: string, key: string, now: Instant, staleAfter: int)
    requires i <= |ops| && Traced(e, ops, i, u) && ValidOps(ops) && Timed(ops) && key != ""
    ensures var k := Latest(ops, i, u);
            Fresh(e, key, now, staleAfter) <==>
            && e.expected in {"", key} && k.Some? && ops[k.value].report.snapshot.state.Ok?
            && ops[k.value].report.snapshot.account == key && now - ops[k.value].report.now <= staleAfter
  {
    var k := Latest(ops, i, u);
    if k.Some? {
      assert ValidSnapshot(ops[k.value].report.snapshot);
      if ops[k.value].report.snapshot.state.Ok? {
        LatestIsGood(ops, i, u);
        LatestSignsIn(ops, i, u);
      }
    }
    hide Latest, LatestGood;
  }

  lemma {:induction false} LatestIsGood(ops: seq<Op>, i: nat, u: string)
    requires i <= |ops| && Latest(ops, i, u).Some? && ops[Latest(ops, i, u).value].report.snapshot.state.Ok?
    ensures LatestGood(ops, i, u) == Latest(ops, i, u)
  {
    if Latest(ops, i, u) != Some(i - 1) { LatestIsGood(ops, i - 1, u); }
  }

  lemma {:induction false} LatestSignsIn(ops: seq<Op>, i: nat, u: string)
    requires i <= |ops| && Latest(ops, i, u).Some? && ops[Latest(ops, i, u).value].report.snapshot.state.Ok?
    ensures SignedInTo(ops, i, u) == ops[Latest(ops, i, u).value].report.snapshot.account
  {
    if Latest(ops, i, u) != Some(i - 1) { LatestSignsIn(ops, i - 1, u); }
  }

  // ----- the collector an account listens to -----

  /** None of the operations after `j` up to `i` ends the user's sign-in. */
  ghost predicate Unbroken(h: Hub, ops: seq<Op>, staleAfter: int, j: nat, i: nat, u: string)
    requires i < |ops|
  {
    forall n :: j < n <= i ==> !Breaks(h, ops, staleAfter, n, u)
  }

  /** The collector of the account's previous delivery, as long as nothing has ended that sign-in. */
  ghost function HeldSource(h: Hub, ops: seq<Op>, staleAfter: int, i: nat, key: string): Option<string>
    requires i < |ops|
  {
    var last := if ops[i].Attach? then None else LastDelivery(h, ops, staleAfter, i, key);
    if last.Some? && last.value < i && key in RoundAt(h, ops, staleAfter, last.value) then
      var u := RoundAt(h, ops, staleAfter, last.value)[key].source.username;
      if Unbroken(h, ops, staleAfter, last.value, i, u) then Some(u) else None
    else None
  }

  /** The user's latest good report is at most `staleAfter` old, whatever came since. */
  predicate WithinGrace(ops: seq<Op>, staleAfter: int, i: nat, u: string)
    requires i < |ops|
  {
    var g := LatestGood(ops, i + 1, u);
    g.Some? && When(ops[i]) - ops[g.value].report.now <= staleAfter
  }

  /** Two users report the account now, and their quotas do not agree. */
  ghost predicate Contradict(h: Hub, ops: seq<Op>, staleAfter: int, i: nat, key: string)
    requires i < |ops|
  {
    exists u, v :: u != v && ReportsNow(h, ops, staleAfter, i, key, u) && ReportsNow(h, ops, staleAfter, i, key, v) && Differ(ops, i, u, v)
  }

  predicate Differ(ops: seq<Op>, i: nat, u: string, v: string)
    requires i < |ops|
  {
    !HubQuota.Agrees(QuotaOf(ops, i, u), QuotaOf(ops, i, v))
  }

  function QuotaOf(ops: seq<Op>, i: nat, u: string): Quota
    requires i < |ops|
  {
    var k := Latest(ops, i + 1, u);
    if k.Some? then ops[k.value].report.snapshot.quota else BLANK.quota
  }

  ghost predicate FirstReporter(h: Hub, ops: seq<Op>, staleAfter: int, i: nat, key: string, u: string)
    requires i < |ops|
  {
    && ReportsNow(h, ops, staleAfter, i, key, u)
    && forall v :: ReportsNow(h, ops, staleAfter, i, key, v) && v != u ==> LexLess(u, v)
  }

  ghost predicate FirstAnchor(h: Hub, ops: seq<Op>, staleAfter: int, i: nat, key: string, u: string)
    requires i < |ops|
  {
    && AnchorReportsNow(h, ops, staleAfter, i, key, u)
    && forall v :: AnchorReportsNow(h, ops, staleAfter, i, key, v) && v != u ==> LexLess(u, v)
  }

  /** The collector that the account's history listens to at operation `i`: an anchor that reports the account now;
      without one, and unless two reporters contradict each other, the collector of the previous delivery if it
      reports now; the first reporter if there is no such collector, or its last good report is too old. */
  ghost predicate Heard(h: Hub, ops: seq<Op>, staleAfter: int, i: nat, key: string, u: string)
    requires i < |ops|
  {
    if exists v :: AnchorReportsNow(h, ops, staleAfter, i, key, v) then FirstAnchor(h, ops, staleAfter, i, key, u)
    else if Contradict(h, ops, staleAfter, i, key) then false
    else
      var held := HeldSource(h, ops, staleAfter, i, key);
      if held.Some? && ReportsNow(h, ops, staleAfter, i, key, held.value) then u == held.value
      else if held.Some? && WithinGrace(ops, staleAfter, i, held.value) then false
      else FirstReporter(h, ops, staleAfter, i, key, u)
  }

  // ----- the selection is that -----

  lemma HoldsTraced(h: Hub, ops: seq<Op>, staleAfter: int, i: nat, key: string)
    requires i < |ops| && Starts(h) && ValidOps(ops)
    ensures var s := HubAt(h, ops, staleAfter, i);
            var entries, observed := HubAt(h, ops, staleAfter, i + 1).entries, Starting(s, ops[i]);
            var held := HeldSource(h, ops, staleAfter, i, key);
            && (Holds(entries, observed, key) <==> held.Some?)
            && (held.Some? ==> observed[key].source.username == held.value && held.value in entries)
  {
    hide HubAt, RoundAt, Breaks, LastDelivery, SignatureOf, ValidOps;
    RememberedIsLast(h, ops, staleAfter, i, key);
    var last := LastDelivery(h, ops, staleAfter, i, key);
    if !ops[i].Attach? && last.Some? {
      var u := RoundAt(h, ops, staleAfter, last.value)[key].source.username;
      DeliveredVersion(h, ops, staleAfter, last.value, key);
      VersionsTell(h, ops, staleAfter, last.value + 1, i + 1, u);
      StartsInv(h);
      DeliveredOwn(h, ops, staleAfter, last.value, key);
      if Unbroken(h, ops, staleAfter, last.value, i, u) {
        AccountStays(h, ops, staleAfter, last.value + 1, i + 1, u);
      }
    }
  }

  lemma StartsInv(h: Hub)
    requires Starts(h)
    ensures EntriesInv(h.entries) && h.observed == map[]
  {
  }

  lemma ReporterKept(h: Hub, ops: seq<Op>, staleAfter: int, i: nat, key: string, u: string)
    requires i < |ops| && Starts(h) && ValidOps(ops) && ReportsNow(h, ops, staleAfter, i, key, u)
    ensures var entries := HubAt(h, ops, staleAfter, i + 1).entries;
            && u in entries && entries[u].lastGood == Some(Kept(ops[Latest(ops, i + 1, u).value].report.snapshot))
            && (Consumer(entries[u]) <==> h.entries[u].expected == "")
  {
    hide HubAt;
    EntryTraced(h, ops, staleAfter, i + 1, u);
    LatestIsGood(ops, i + 1, u);
  }

  lemma UniqueQuota(ops: seq<Op>, i: nat, u: string)
    requires i < |ops| && ValidOps(ops)
    ensures UniqueIds(QuotaOf(ops, i, u).limits)
  {
    var k := Latest(ops, i + 1, u);
    if k.Some? { assert ValidSnapshot(ops[k.value].report.snapshot); }
  }

  lemma ConflictTraced(h: Hub, ops: seq<Op>, staleAfter: int, i: nat, key: string)
    requires i < |ops| && Starts(h) && ValidOps(ops) && Timed(ops) && key != ""
    ensures Conflict(HubAt(h, ops, staleAfter, i + 1).entries, key, When(ops[i]), staleAfter) <==> Contradict(h, ops, staleAfter, i, key)
  {
    hide HubAt, FreshNames, ReportsNow, HubQuota.Agrees, LexLess;
    var entries, now := HubAt(h, ops, staleAfter, i + 1).entries, When(ops[i]);
    var names := FreshNames(entries, key, now, staleAfter);
    forall u ensures u in names <==> ReportsNow(h, ops, staleAfter, i, key, u) { FreshTraced(h, ops, staleAfter, i, key, u); }
    forall u, v | u in names && v in names
      ensures u in entries && v in entries && (Disagree(entries[u], entries[v]) <==> Differ(ops, i, u, v))
      ensures Differ(ops, i, u, v) <==> Differ(ops, i, v, u)
    {
      QuotaTraced(h, ops, staleAfter, i, key, u);
      QuotaTraced(h, ops, staleAfter, i, key, v);
      UniqueQuota(ops, i, u);
      UniqueQuota(ops, i, v);
      HubQuota.AgreesSymmetric(QuotaOf(ops, i, u), QuotaOf(ops, i, v));
    }
    hide Disagree, Differ;
    if Contradict(h, ops, staleAfter, i, key) {
      var u, v :| u != v && ReportsNow(h, ops, staleAfter, i, key, u) && ReportsNow(h, ops, staleAfter, i, key, v) && Differ(ops, i, u, v);
      LexTotal(u, v);
      assert Disagree(entries[u], entries[v]) && Disagree(entries[v], entries[u]);
    }
    if Conflict(entries, key, now, staleAfter) {
      var u, v :| u in names && v in names && LexLess(u, v) && Disagree(entries[u], entries[v]);
      LexTotal(u, v);
      assert u != v;
    }
  }

  lemma QuotaTraced(h: Hub, ops: seq<Op>, staleAfter: int, i: nat, key: string, u: string)
    requires i < |ops| && Starts(h) && ValidOps(ops) && ReportsNow(h, ops, staleAfter, i, key, u)
    ensures var entries := HubAt(h, ops, staleAfter, i + 1).entries;
            u in entries && entries[u].lastGood.Some? && entries[u].lastGood.value.quota == QuotaOf(ops, i, u)
  {
    hide HubAt;
    ReporterKept(h, ops, staleAfter, i, key, u);
  }

  lemma GraceTraced(h: Hub, ops: seq<Op>, staleAfter: int, i: nat, u: string)
    requires i < |ops| && Starts(h) && ValidOps(ops) && u in h.entries && staleAfter > 0
    ensures u in HubAt(h, ops, staleAfter, i + 1).entries
    ensures InGrace(HubAt(h, ops, staleAfter, i + 1).entries[u], When(ops[i]), staleAfter) <==> WithinGrace(ops, staleAfter, i, u)
  {
    hide HubAt;
    EntryTraced(h, ops, staleAfter, i + 1, u);
  }

  lemma LeastIs(names: set<string>, u: string)
    requires names != {}
    ensures u == Least(names) <==> IsLeast(names, u)
  {
    if IsLeast(names, u) { LeastUnique(names, u, Least(names)); }
    hide IsLeast;
  }

  /** The selection, case by case. */
  lemma SelectCases(entries: Entries, observed: Observed, key: string, now: Instant, staleAfter: int, u: string)
    requires var names, anchors := FreshNames(entries, key, now, staleAfter), FreshAnchors(entries, key, now, staleAfter);
             anchors <= names && forall v :: v in names ==> v in entries && (Consumer(entries[v]) <==> v !in anchors)
    ensures var names, anchors := FreshNames(entries, key, now, staleAfter), FreshAnchors(entries, key, now, staleAfter);
            var c := CanonicalAt(entries, observed, key, now, staleAfter);
            c.Some? && c.value.source.username == u <==>
            if anchors != {} then IsLeast(anchors, u)
            else if Conflict(entries, key, now, staleAfter) then false
            else if Holds(entries, observed, key) && observed[key].source.username in names then u == observed[key].source.username
            else if Holds(entries, observed, key) && InGrace(entries[observed[key].source.username], now, staleAfter) then false
            else IsLeast(names, u)
  {
    hide FreshNames, FreshAnchors, Conflict, LexLess, InGrace, IsLeast;
    var names, anchors := FreshNames(entries, key, now, staleAfter), FreshAnchors(entries, key, now, staleAfter);
    LeastIn(names);
    LeastIn(anchors);
    if anchors != {} { LeastIs(anchors, u); }
    if names != {} { LeastIs(names, u); }
    LeastOf(names, u);
    hide Consumer;
  }

  lemma LeastIn(names: set<string>)
    ensures names != {} ==> Least(names) in names
  {
  }

  lemma LeastOf(names: set<string>, u: string)
    ensures IsLeast(names, u) ==> names != {}
  {
  }

  lemma AnchorsReport(h: Hub, ops: seq<Op>, staleAfter: int, i: nat, key: string)
    requires i < |ops| && Starts(h) && ValidOps(ops) && Timed(ops) && key != ""
    ensures var entries := HubAt(h, ops, staleAfter, i + 1).entries;
            var names, anchors := FreshNames(entries, key, When(ops[i]), staleAfter), FreshAnchors(entries, key, When(ops[i]), staleAfter);
            && anchors <= names && (forall v :: v in names ==> v in entries && (Consumer(entries[v]) <==> v !in anchors))
            && (forall v :: v in names <==> ReportsNow(h, ops, staleAfter, i, key, v))
            && (forall v :: v in anchors <==> AnchorReportsNow(h, ops, staleAfter, i, key, v))
  {
    hide HubAt, FreshNames, FreshAnchors, ReportsNow;
    var entries, now := HubAt(h, ops, staleAfter, i + 1).entries, When(ops[i]);
    var names, anchors := FreshNames(entries, key, now, staleAfter), FreshAnchors(entries, key, now, staleAfter);
    forall v ensures (v in names <==> ReportsNow(h, ops, staleAfter, i, key, v)) && (v in anchors <==> AnchorReportsNow(h, ops, staleAfter, i, key, v)) {
      FreshTraced(h, ops, staleAfter, i, key, v);
    }
    forall v | v in names ensures v in entries && (Consumer(entries[v]) <==> v !in anchors) {
      ReporterKept(h, ops, staleAfter, i, key, v);
    }
  }

  /** The hub's choice is the collector that is heard. */
  lemma HeardIsChosen(h: Hub, ops: seq<Op>, staleAfter: int, i: nat, key: string, u: string)
    requires i < |ops| && Starts(h) && ValidOps(ops) && Timed(ops) && key != "" && staleAfter > 0
    ensures var c := CanonicalAt(HubAt(h, ops, staleAfter, i + 1).entries, Starting(HubAt(h, ops, staleAfter, i), ops[i]), key, When(ops[i]), staleAfter);
            c.Some? && c.value.source.username == u <==> Heard(h, ops, staleAfter, i, key, u)
  {
    hide HubAt, FreshNames, FreshAnchors, ReportsNow, AnchorReportsNow, Conflict, Contradict, LexLess, HeldSource, WithinGrace, InGrace, Holds,
      Starting, CanonicalAt, Consumer;
    var entries, observed, now := HubAt(h, ops, staleAfter, i + 1).entries, Starting(HubAt(h, ops, staleAfter, i), ops[i]), When(ops[i]);
    var names, anchors := FreshNames(entries, key, now, staleAfter), FreshAnchors(entries, key, now, staleAfter);
    AnchorsReport(h, ops, staleAfter, i, key);
    SelectCases(entries, observed, key, now, staleAfter, u);
    ConflictTraced(h, ops, staleAfter, i, key);
    HoldsTraced(h, ops, staleAfter, i, key);
    HoldsIn(entries, observed, key);
    var held := HeldSource(h, ops, staleAfter, i, key);
    if held.Some? {
      OnlyKnown(h, ops, staleAfter, i + 1);
      GraceTraced(h, ops, staleAfter, i, held.value);
    }
    assert FirstAnchor(h, ops, staleAfter, i, key, u) <==> IsLeast(anchors, u);
    assert FirstReporter(h, ops, staleAfter, i, key, u) <==> IsLeast(names, u);
    hide FirstAnchor, FirstReporter, IsLeast;
  }

  lemma HoldsIn(entries: Entries, observed: Observed, key: string)
    ensures Holds(entries, observed, key) ==> key in observed && observed[key].source.username in entries
  {
  }

  // ----- every delivery -----

  function AttachedAt(h: Hub, ops: seq<Op>, i: nat): bool
    requires i <= |ops|
  {
    if i == 0 then h.attached else if ops[i - 1].Attach? then ops[i - 1].on else AttachedAt(h, ops, i - 1)
  }

  /** The operation is one after which history hears of the accounts: a report that counts, or attaching it. */
  predicate Counts(h: Hub, ops: seq<Op>, i: nat)
    requires i < |ops|
  {
    match ops[i]
    case Submit(u, _) => AttachedAt(h, ops, i) && u in h.entries && Latest(ops, i + 1, u) == Some(i)
    case Attach(on, _) => on
  }

  lemma {:induction false} AttachedTraced(h: Hub, ops: seq<Op>, staleAfter: int, i: nat)
    requires i <= |ops|
    ensures HubAt(h, ops, staleAfter, i).attached == AttachedAt(h, ops, i)
  {
    hide Submitted, Canonicals, Delivers, Starting;
    if i > 0 { AttachedTraced(h, ops, staleAfter, i - 1); }
  }

  lemma CountsTraced(h: Hub, ops: seq<Op>, staleAfter: int, i: nat)
    requires i < |ops| && Starts(h) && ValidOps(ops)
    ensures Delivers(HubAt(h, ops, staleAfter, i), ops[i]) <==> Counts(h, ops, i)
  {
    hide HubAt, ValidOps, Traced, Latest;
    OnlyKnown(h, ops, staleAfter, i);
    AttachedTraced(h, ops, staleAfter, i);
    if ops[i].Submit? && ops[i].username in h.entries {
      var u := ops[i].username;
      EntryTraced(h, ops, staleAfter, i, u);
      LateTraced(HubAt(h, ops, staleAfter, i).entries[u], ops, i, u);
      NotYet(ops, i, u);
    }
  }

  lemma NotYet(ops: seq<Op>, i: nat, u: string)
    requires i < |ops|
    ensures Latest(ops, i, u) != Some(i)
  {
  }

  lemma {:induction false} LatestGrows(ops: seq<Op>, m: nat, n: nat, u: string)
    requires m <= n <= |ops|
    ensures Latest(ops, m, u).Some? ==> Latest(ops, n, u).Some?
    ensures Latest(ops, n, u).Some? && Latest(ops, n, u).value < m ==> Latest(ops, m, u) == Latest(ops, n, u)
    ensures Latest(ops, m, u).Some? && Latest(ops, m, u) != Latest(ops, n, u) ==>
              ops[Latest(ops, m, u).value].report.snapshot.observedAt < ops[Latest(ops, n, u).value].report.snapshot.observedAt
    decreases n
  {
    if m < n { LatestGrows(ops, m, n - 1, u); }
  }

  lemma ReporterKnown(h: Hub, ops: seq<Op>, staleAfter: int, i: nat, key: string, u: string)
    requires i < |ops| && Starts(h) && ValidOps(ops) && key != "" && ReportsNow(h, ops, staleAfter, i, key, u)
    ensures key in Accounts(HubAt(h, ops, staleAfter, i + 1).entries)
  {
    hide HubAt;
    EntryTraced(h, ops, staleAfter, i + 1, u);
    LatestSignsIn(ops, i + 1, u);
    var e := HubAt(h, ops, staleAfter, i + 1).entries[u];
    assert if Consumer(e) then e.membership == key else e.expected == key;
  }

  lemma HeardReports(h: Hub, ops: seq<Op>, staleAfter: int, i: nat, key: string, u: string)
    requires i < |ops| && Heard(h, ops, staleAfter, i, key, u)
    ensures ReportsNow(h, ops, staleAfter, i, key, u)
  {
    hide ReportsNow, HeldSource, Contradict, WithinGrace, LexLess;
  }

  /** What the chosen collector is listened to for: its latest report, with its present sign-in. */
  lemma ChosenContent(h: Hub, ops: seq<Op>, staleAfter: int, i: nat, key: string, c: Canonical)
    requires i < |ops| && Starts(h) && ValidOps(ops) && Timed(ops) && key != "" && staleAfter > 0
    requires CanonicalAt(HubAt(h, ops, staleAfter, i + 1).entries, Starting(HubAt(h, ops, staleAfter, i), ops[i]), key, When(ops[i]), staleAfter) == Some(c)
    ensures var u, entries := c.source.username, HubAt(h, ops, staleAfter, i + 1).entries;
            && Heard(h, ops, staleAfter, i, key, u) && Latest(ops, i + 1, u).Some?
            && c.snapshot == Kept(ops[Latest(ops, i + 1, u).value].report.snapshot)
            && u in entries && entries[u].accountVersion == c.source.accountVersion && GoodAccount(entries[u]) == key
  {
    hide HubAt, Heard, CanonicalAt, ValidOps, Starting, Latest;
    var u := c.source.username;
    HeardIsChosen(h, ops, staleAfter, i, key, u);
    HeardReports(h, ops, staleAfter, i, key, u);
    ReporterKept(h, ops, staleAfter, i, key, u);
    CanonicalIsLastGood(HubAt(h, ops, staleAfter, i + 1).entries, Starting(HubAt(h, ops, staleAfter, i), ops[i]), key, When(ops[i]), staleAfter);
    CanonicalNames(HubAt(h, ops, staleAfter, i + 1).entries, Starting(HubAt(h, ops, staleAfter, i), ops[i]), key, When(ops[i]), staleAfter);
  }

  /** The collector is the held one and has sent no report that counts since the delivery. */
  ghost predicate NothingNew(h: Hub, ops: seq<Op>, staleAfter: int, i: nat, key: string, u: string)
    requires i < |ops|
  {
    && HeldSource(h, ops, staleAfter, i, key) == Some(u)
    && var j, k := LastDelivery(h, ops, staleAfter, i, key), Latest(ops, i + 1, u);
       j.Some? && k.Some? && k.value <= j.value
  }

  lemma RepeatsTraced(h: Hub, ops: seq<Op>, staleAfter: int, i: nat, key: string, c: Canonical)
    requires i < |ops| && Starts(h) && ValidOps(ops) && Timed(ops) && key != "" && staleAfter > 0
    requires CanonicalAt(HubAt(h, ops, staleAfter, i + 1).entries, Starting(HubAt(h, ops, staleAfter, i), ops[i]), key, When(ops[i]), staleAfter) == Some(c)
    ensures var observed := Starting(HubAt(h, ops, staleAfter, i), ops[i]);
            && (Repeats(observed, key, c) <==> NothingNew(h, ops, staleAfter, i, key, c.source.username))
            && (key in observed && observed[key].source == c.source <==> HeldSource(h, ops, staleAfter, i, key) == Some(c.source.username))
  {
    hide HubAt, RoundAt, CanonicalAt, ValidOps, Latest, LastDelivery, Unbroken, Heard;
    var u := c.source.username;
    var observed := Starting(HubAt(h, ops, staleAfter, i), ops[i]);
    ChosenContent(h, ops, staleAfter, i, key, c);
    HoldsTraced(h, ops, staleAfter, i, key);
    RememberedIsLast(h, ops, staleAfter, i, key);
    var last := LastDelivery(h, ops, staleAfter, i, key);
    if key in observed && observed[key].source == c.source {
      LastContent(h, ops, staleAfter, last.value, key);
      LatestGrows(ops, last.value + 1, i + 1, u);
    }
  }

  lemma LastContent(h: Hub, ops: seq<Op>, staleAfter: int, j: nat, key: string)
    requires j < |ops| && Starts(h) && ValidOps(ops) && Timed(ops) && key != "" && staleAfter > 0 && key in RoundAt(h, ops, staleAfter, j)
    ensures var r := RoundAt(h, ops, staleAfter, j)[key];
            && Heard(h, ops, staleAfter, j, key, r.source.username) && Latest(ops, j + 1, r.source.username).Some?
            && r.snapshot == Kept(ops[Latest(ops, j + 1, r.source.username).value].report.snapshot)
  {
    hide HubAt, RoundAt, CanonicalAt, ValidOps, Heard, Starting, Latest, Accounts;
    DeliveredFrom(h, ops, staleAfter, j, key);
    var r := RoundAt(h, ops, staleAfter, j)[key];
    ChosenContent(h, ops, staleAfter, j, key, Canonical(r.snapshot, r.source));
  }

  lemma RoundIs(h: Hub, ops: seq<Op>, staleAfter: int, i: nat, key: string)
    requires i < |ops|
    ensures var s := HubAt(h, ops, staleAfter, i);
            var entries, observed := HubAt(h, ops, staleAfter, i + 1).entries, Starting(s, ops[i]);
            var c := CanonicalAt(entries, observed, key, When(ops[i]), staleAfter);
            && (key in RoundAt(h, ops, staleAfter, i) <==>
                  Delivers(s, ops[i]) && key in Accounts(entries) && c.Some? && !Repeats(observed, key, c.value))
            && (key in RoundAt(h, ops, staleAfter, i) ==>
                  RoundAt(h, ops, staleAfter, i)[key] ==
                  Update(c.value.snapshot, c.value.source, !(key in observed && observed[key].source == c.value.source)))
  {
    var s, op := HubAt(h, ops, staleAfter, i), ops[i];
    assert HubAt(h, ops, staleAfter, i + 1).entries == Submitted(s, op);
    hide HubAt, Submitted, Starting, Delivers, CanonicalAt, Accounts, SignatureOf;
  }

  /** Exactly when an account's history receives something: after an operation that counts, if some collector is
      heard, unless that is the one of the previous delivery and it has sent nothing new. */
  lemma DeliveredIff(h: Hub, ops: seq<Op>, staleAfter: int, i: nat, key: string)
    requires i < |ops| && Starts(h) && ValidOps(ops) && Timed(ops) && key != "" && staleAfter > 0
    ensures key in RoundAt(h, ops, staleAfter, i) <==>
            Counts(h, ops, i) && exists u :: Heard(h, ops, staleAfter, i, key, u) && !NothingNew(h, ops, staleAfter, i, key, u)
  {
    hide HubAt, RoundAt, CanonicalAt, ValidOps, Heard, Starting, Delivers, Counts, NothingNew, Repeats, Accounts;
    RoundIs(h, ops, staleAfter, i, key);
    CountsTraced(h, ops, staleAfter, i);
    var c := CanonicalAt(HubAt(h, ops, staleAfter, i + 1).entries, Starting(HubAt(h, ops, staleAfter, i), ops[i]), key, When(ops[i]), staleAfter);
    if c.Some? {
      ChosenContent(h, ops, staleAfter, i, key, c.value);
      RepeatsTraced(h, ops, staleAfter, i, key, c.value);
      HeardReports(h, ops, staleAfter, i, key, c.value.source.username);
      ReporterKnown(h, ops, staleAfter, i, key, c.value.source.username);
    }
    forall u | Heard(h, ops, staleAfter, i, key, u) ensures c.Some? && c.value.source.username == u {
      HeardIsChosen(h, ops, staleAfter, i, key, u);
    }
  }

  /** What it receives: the latest report of the collector that is heard, without session ids, to be observed if
      that is the collector of the previous delivery with an unbroken sign-in, and rebaselined otherwise. */
  lemma DeliveredContent(h: Hub, ops: seq<Op>, staleAfter: int, i: nat, key: string)
    requires i < |ops| && Starts(h) && ValidOps(ops) && Timed(ops) && key != "" && staleAfter > 0 && key in RoundAt(h, ops, staleAfter, i)
    ensures var r := RoundAt(h, ops, staleAfter, i)[key];
            var u := r.source.username;
            && Heard(h, ops, staleAfter, i, key, u) && Latest(ops, i + 1, u).Some?
            && r.snapshot == Kept(ops[Latest(ops, i + 1, u).value].report.snapshot)
            && (r.rebaseline <==> HeldSource(h, ops, staleAfter, i, key) != Some(u))
  {
    hide HubAt, RoundAt, CanonicalAt, ValidOps, Heard, Starting, Delivers, Repeats, Accounts, Latest, HeldSource;
    RoundIs(h, ops, staleAfter, i, key);
    var c := CanonicalAt(HubAt(h, ops, staleAfter, i + 1).entries, Starting(HubAt(h, ops, staleAfter, i), ops[i]), key, When(ops[i]), staleAfter);
    ChosenContent(h, ops, staleAfter, i, key, c.value);
    RepeatsTraced(h, ops, staleAfter, i, key, c.value);
  }

  // ----- what follows for each kind of collector -----

  /** While an account listens to a consumer whose sign-in is unbroken, every good report of it that counts is
      delivered as an observation, unless an anchor reports or two reporters contradict each other. */
  lemma HeldReportDelivered(h: Hub, ops: seq<Op>, staleAfter: int, i: nat, key: string, u: string)
    requires i < |ops| && Starts(h) && ValidOps(ops) && Timed(ops) && key != "" && staleAfter > 0
    requires HeldSource(h, ops, staleAfter, i, key) == Some(u) && AttachedAt(h, ops, i)
    requires By(ops[i], u) && GoodAt(ops, i, u) && ops[i].report.snapshot.account == key
    requires (forall v :: !AnchorReportsNow(h, ops, staleAfter, i, key, v)) && !Contradict(h, ops, staleAfter, i, key)
    ensures key in RoundAt(h, ops, staleAfter, i)
    ensures var r, j := RoundAt(h, ops, staleAfter, i)[key], LastDelivery(h, ops, staleAfter, i, key);
            && r.snapshot == ops[i].report.snapshot.(runtime := map[], runtimeRead := false) && !r.rebaseline
            && r.source.username == u && j.Some? && j.value < i
            && key in RoundAt(h, ops, staleAfter, j.value) && r.source == RoundAt(h, ops, staleAfter, j.value)[key].source
  {
    hide HubAt, RoundAt, ValidOps, LastDelivery, Contradict, Unbroken, WithinGrace, Latest;
    HeldIsKnown(h, ops, staleAfter, i, key, u);
    assert ReportsNow(h, ops, staleAfter, i, key, u);
    assert Heard(h, ops, staleAfter, i, key, u);
    hide Heard, ReportsNow;
    assert !NothingNew(h, ops, staleAfter, i, key, u);
    DeliveredIff(h, ops, staleAfter, i, key);
    DeliveredContent(h, ops, staleAfter, i, key);
    OneHeard(h, ops, staleAfter, i, key, u, RoundAt(h, ops, staleAfter, i)[key].source.username);
    StartsInv(h);
    ObserveNeverBridges(h, ops, staleAfter, i, key);
  }

  lemma HeldIsKnown(h: Hub, ops: seq<Op>, staleAfter: int, i: nat, key: string, u: string)
    requires i < |ops| && Starts(h) && ValidOps(ops) && Timed(ops) && key != "" && staleAfter > 0
    requires HeldSource(h, ops, staleAfter, i, key) == Some(u)
    ensures u in h.entries && h.entries[u].expected in {"", key}
    ensures var j := LastDelivery(h, ops, staleAfter, i, key); j.Some? && j.value < i && !ops[i].Attach?
  {
    hide HubAt, RoundAt, ValidOps, LastDelivery, Unbroken, Latest, Heard;
    var j := LastDelivery(h, ops, staleAfter, i, key).value;
    LastContent(h, ops, staleAfter, j, key);
    HeardReports(h, ops, staleAfter, j, key, u);
  }

  /** At most one collector is heard. */
  lemma OneHeard(h: Hub, ops: seq<Op>, staleAfter: int, i: nat, key: string, u: string, v: string)
    requires i < |ops| && Heard(h, ops, staleAfter, i, key, u) && Heard(h, ops, staleAfter, i, key, v)
    ensures u == v
  {
    LexTotal(u, v);
    hide ReportsNow, HeldSource, Contradict, WithinGrace, LexLess;
  }

  /** The account's anchor, while it reports, is the only source; and each of its good reports that counts is
      delivered, whatever consumers say. */
  lemma AnchorReportDelivered(h: Hub, ops: seq<Op>, staleAfter: int, i: nat, key: string, a: string)
    requires i < |ops| && Starts(h) && ValidOps(ops) && Timed(ops) && key != "" && staleAfter > 0
    requires a in h.entries && h.entries[a].expected == key && forall v :: v in h.entries && h.entries[v].expected == key ==> v == a
    ensures ReportsNow(h, ops, staleAfter, i, key, a) && key in RoundAt(h, ops, staleAfter, i) ==>
              RoundAt(h, ops, staleAfter, i)[key].source.username == a
    ensures AttachedAt(h, ops, i) && By(ops[i], a) && GoodAt(ops, i, a) && ops[i].report.snapshot.account == key ==>
              && key in RoundAt(h, ops, staleAfter, i) && RoundAt(h, ops, staleAfter, i)[key].source.username == a
              && RoundAt(h, ops, staleAfter, i)[key].snapshot == ops[i].report.snapshot.(runtime := map[], runtimeRead := false)
  {
    hide HubAt, RoundAt, ValidOps, Contradict, WithinGrace, Latest, HeldSource, LexLess;
    if ReportsNow(h, ops, staleAfter, i, key, a) {
      assert AnchorReportsNow(h, ops, staleAfter, i, key, a);
      assert FirstAnchor(h, ops, staleAfter, i, key, a);
      assert Heard(h, ops, staleAfter, i, key, a);
    }
    hide Heard;
    DeliveredIff(h, ops, staleAfter, i, key);
    if key in RoundAt(h, ops, staleAfter, i) { DeliveredContent(h, ops, staleAfter, i, key); }
    if ReportsNow(h, ops, staleAfter, i, key, a) && key in RoundAt(h, ops, staleAfter, i) {
      OneHeard(h, ops, staleAfter, i, key, a, RoundAt(h, ops, staleAfter, i)[key].source.username);
    }
    if AttachedAt(h, ops, i) && By(ops[i], a) && GoodAt(ops, i, a) && ops[i].report.snapshot.account == key {
      assert ReportsNow(h, ops, staleAfter, i, key, a);
      NewReport(h, ops, staleAfter, i, key, a);
    }
  }

  lemma NewReport(h: Hub, ops: seq<Op>, staleAfter: int, i: nat, key: string, u: string)
    requires i < |ops| && Starts(h) && ValidOps(ops) && Timed(ops) && key != "" && staleAfter > 0 && Latest(ops, i + 1, u) == Some(i)
    ensures !NothingNew(h, ops, staleAfter, i, key, u)
  {
    hide HubAt, RoundAt, LastDelivery, Unbroken, ValidOps, HeldSource;
    if HeldSource(h, ops, staleAfter, i, key) == Some(u) { HeldIsKnown(h, ops, staleAfter, i, key, u); }
  }

  /** When the account listens to no one, or the last good report of the one it listened to is too old, the first
      reporter is delivered as a rebaseline after any operation that counts. */
  lemma HandoffDelivered(h: Hub, ops: seq<Op>, staleAfter: int, i: nat, key: string, u: string)
    requires i < |ops| && Starts(h) && ValidOps(ops) && Timed(ops) && key != "" && staleAfter > 0 && Counts(h, ops, i)
    requires (forall v :: !AnchorReportsNow(h, ops, staleAfter, i, key, v)) && !Contradict(h, ops, staleAfter, i, key)
    requires var held := HeldSource(h, ops, staleAfter, i, key);
             held.None? || (!ReportsNow(h, ops, staleAfter, i, key, held.value) && !WithinGrace(ops, staleAfter, i, held.value))
    requires ReportsNow(h, ops, staleAfter, i, key, u)
    ensures key in RoundAt(h, ops, staleAfter, i) && RoundAt(h, ops, staleAfter, i)[key].rebaseline
    ensures FirstReporter(h, ops, staleAfter, i, key, RoundAt(h, ops, staleAfter, i)[key].source.username)
  {
    hide HubAt, RoundAt, ValidOps, LastDelivery, Contradict, Unbroken, WithinGrace, Latest, HeldSource, ReportsNow, AnchorReportsNow, Counts;
    var first := FirstExists(h, ops, staleAfter, i, key, u);
    assert Heard(h, ops, staleAfter, i, key, first) && !NothingNew(h, ops, staleAfter, i, key, first);
    DeliveredIff(h, ops, staleAfter, i, key);
    DeliveredContent(h, ops, staleAfter, i, key);
  }

  lemma FirstExists(h: Hub, ops: seq<Op>, staleAfter: int, i: nat, key: string, u: string) returns (first: string)
    requires i < |ops| && ReportsNow(h, ops, staleAfter, i, key, u)
    ensures FirstReporter(h, ops, staleAfter, i, key, first)
  {
    var names := set v | v in h.entries && ReportsNow(h, ops, staleAfter, i, key, v);
    assert u in names;
    LeastExists(names);
    first :| IsLeast(names, first);
    hide LexLess;
  }

  /** Nothing is delivered while no anchor reports and two reporters contradict each other, or while the collector
      listened to fails but has sent a good report recently. */
  lemma PausedDelivers(h: Hub, ops: seq<Op>, staleAfter: int, i: nat, key: string)
    requires i < |ops| && Starts(h) && ValidOps(ops) && Timed(ops) && key != "" && staleAfter > 0
    requires forall v :: !AnchorReportsNow(h, ops, staleAfter, i, key, v)
    requires var held := HeldSource(h, ops, staleAfter, i, key);
             || Contradict(h, ops, staleAfter, i, key)
             || (held.Some? && !ReportsNow(h, ops, staleAfter, i, key, held.value) && WithinGrace(ops, staleAfter, i, held.value))
    ensures key !in RoundAt(h, ops, staleAfter, i)
  {
    hide HubAt, RoundAt, ValidOps, LastDelivery, Contradict, Unbroken, WithinGrace, Latest, HeldSource, ReportsNow, AnchorReportsNow, Counts;
    DeliveredIff(h, ops, staleAfter, i, key);
  }
}
