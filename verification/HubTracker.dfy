/** The hub object: the loops and map updates that carry out the rules. */
module HubTracker {
  import opened Common
  import opened KeyOrder
  import opened HubModel
  import opened HubQuarantine
  import opened HubHistory
  import HubPublishing
  import HubQuota

  // ----- one user's entry -----

  method SessionIds(refs: seq<ActivityRef>, username: string) returns (ids: set<string>)
    ensures ids == HookIds(refs, username)
  {
    ids := {};
    for i := 0 to |refs|
      invariant ids == set j | 0 <= j < i && refs[j].username == username && refs[j].session != "" :: refs[j].session
    {
      if refs[i].username == username && refs[i].session != "" { ids := ids + {refs[i].session}; }
    }
  }

  /** The quarantined ids that an observation does not show gone. */
  method StillPresent(quarantine: set<string>, observed: map<string, Thread>, hooks: set<string>) returns (kept: set<string>)
    ensures kept == set x | x in quarantine && (x in observed || x in hooks)
  {
    kept := {};
    var todo := quarantine;
    while todo != {}
      invariant todo <= quarantine
      invariant kept == set x | x in quarantine - todo && (x in observed || x in hooks)
      decreases todo
    {
      var x :| x in todo;
      todo := todo - {x};
      if x in observed || x in hooks { kept := kept + {x}; }
    }
  }

  method AddAll(ids: set<string>, more: set<string>) returns (r: set<string>)
    ensures r == ids + more
  {
    r := ids;
    var todo := more;
    while todo != {}
      invariant todo <= more && r == ids + (more - todo)
      decreases todo
    {
      var x :| x in todo;
      todo := todo - {x};
      r := r + {x};
    }
  }

  /** The observed sessions that are not quarantined. */
  method Unquarantined(observed: map<string, Thread>, quarantine: set<string>) returns (r: map<string, Thread>)
    ensures r == observed - quarantine
  {
    r := map[];
    var todo := observed.Keys;
    while todo != {}
      invariant todo <= observed.Keys
      invariant forall x :: x in r <==> x in observed && x !in todo && x !in quarantine
      invariant forall x :: x in r ==> r[x] == observed[x]
      decreases todo
    {
      var x :| x in todo;
      todo := todo - {x};
      if x !in quarantine { r := r[x := observed[x]]; }
    }
  }

  /** The session bookkeeping of one accepted snapshot, step by step. */
  method TrackSessions(e: Entry, s: Snapshot, refs: seq<ActivityRef>, username: string, now: Instant) returns (r: Entry)
    ensures r == Tracked(e, s, HookIds(refs, username), now)
  {
    hide HookIds, RuntimeRecent;
    r := e;
    var switches := ConsumerSwitch(e, s);
    var ids := {};
    if Consumer(e) && (switches || Complete(s)) { ids := SessionIds(refs, username); }
    if !Retains(e, s, now) { r := r.(runtime := map[], runtimeAt := 0); }
    if Consumer(e) {
      if Complete(s) {
        var next := StillPresent(e.quarantine, s.runtime, ids);
        if switches || e.pending {
          next := AddAll(next, s.runtime.Keys);
          r := r.(pending := false);
        }
        if switches { next := AddAll(next, ids); }
        var visible := Unquarantined(s.runtime, next);
        r := r.(quarantine := next, runtime := visible);
        if !switches { r := r.(runtimeAt := now); }
      } else if switches {
        var next := AddAll(e.quarantine, ids);
        r := r.(pending := true, quarantine := next);
      }
    }
    r := r.(current := s.(runtime := map[], runtimeRead := false), lastSeenAt := now);
  }

  method UpdateGood(e: Entry, s: Snapshot, now: Instant) returns (r: Entry)
    requires s.state.Ok?
    ensures r == Accounted(e, s, now)
  {
    r := e;
    var priorAccount := GoodAccount(e);
    if priorAccount != "" && priorAccount != s.account {
      r := r.(accountVersion := r.accountVersion + 1, lifetime := None, lifetimeAt := 0, recent := map[]);
    }
    hide GoodAccount;
    r := r.(lastGood := Some(s.(runtime := map[], runtimeRead := false)), lastGoodAt := Some(now));
    if Consumer(e) { r := r.(membership := s.account); }
    if s.lifetimeRead && s.lifetime.Some? { r := r.(lifetime := s.lifetime, lifetimeAt := s.observedAt); }
    if s.recentRead { r := r.(recent := s.recent); }
  }

  method UpdateAccount(e: Entry, s: Snapshot, now: Instant) returns (r: Entry)
    ensures r == Accounted(e, s, now)
  {
    match s.state {
      case Ok => r := UpdateGood(e, s, now);
      case SignedOut => r := Forget(e);
      case ApiKey => r := Forget(e);
      case Unavailable => r := e;
    }
  }

  method Forget(e: Entry) returns (r: Entry)
    ensures r == e.(accountVersion := e.accountVersion + 1, membership := if Consumer(e) then "" else e.membership,
                    lifetime := None, lifetimeAt := 0, recent := map[])
  {
    r := e.(accountVersion := e.accountVersion + 1);
    if Consumer(e) { r := r.(membership := ""); }
    r := r.(lifetime := None, lifetimeAt := 0, recent := map[]);
  }

  method AcceptEntry(e: Entry, s: Snapshot, refs: seq<ActivityRef>, username: string, now: Instant) returns (r: Entry)
    ensures r == Accept(e, s, HookIds(refs, username), now) && r.expected == e.expected
  {
    hide Accounted, NextQuarantine, NextRuntime, NextRuntimeAt, NextPending, HookIds;
    r := TrackSessions(e, s, refs, username, now);
    var a := UpdateAccount(e, s, now);
    r := r.(accountVersion := a.accountVersion, lastGood := a.lastGood, lastGoodAt := a.lastGoodAt, membership := a.membership,
            lifetime := a.lifetime, lifetimeAt := a.lifetimeAt, recent := a.recent);
  }

  // ----- one account's source -----

  datatype Candidate = Candidate(username: string, anchor: bool, able: bool)

  /** The candidates are as the entries say, and include every fresh collector. */
  predicate Lists(candidates: seq<Candidate>, entries: Entries, key: string, now: Instant, staleAfter: int) {
    && (forall i :: 0 <= i < |candidates| ==>
          && candidates[i].username in entries
          && candidates[i].anchor == !Consumer(entries[candidates[i].username])
          && candidates[i].able == Fresh(entries[candidates[i].username], key, now, staleAfter))
    && (forall u :: u in FreshNames(entries, key, now, staleAfter) ==>
          exists i :: 0 <= i < |candidates| && candidates[i].username == u)
  }

  /** A collector with good data is a candidate unless it is an anchor that is not fresh. */
  method Consider(u: string, e: Entry, key: string, now: Instant, staleAfter: int) returns (c: Option<Candidate>)
    ensures c.Some? ==> c.value == Candidate(u, !Consumer(e), Fresh(e, key, now, staleAfter))
    ensures c.None? ==> !Fresh(e, key, now, staleAfter)
  {
    hide EntryStale;
    if !Belongs(e, key) || e.lastGood.None? { return None; }
    var able := e.current.state.Ok? && !EntryStale(e, now, staleAfter);
    if !Consumer(e) {
      if e.current.account == key && able { return Some(Candidate(u, true, true)); }
      return None;
    }
    c := Some(Candidate(u, false, able));
  }

  method Gather(order: seq<string>, entries: Entries, key: string, now: Instant, staleAfter: int)
    returns (candidates: seq<Candidate>, names: seq<string>)
    requires OrderOf(order, entries.Keys)
    ensures Lists(candidates, entries, key, now, staleAfter)
    ensures OrderOf(names, FreshNames(entries, key, now, staleAfter))
  {
    hide LexLess, Fresh;
    candidates, names := [], [];
    for i := 0 to |order|
      invariant forall j :: 0 <= j < |candidates| ==>
                  && candidates[j].username in entries
                  && candidates[j].anchor == !Consumer(entries[candidates[j].username])
                  && candidates[j].able == Fresh(entries[candidates[j].username], key, now, staleAfter)
      invariant SortedKeys(names)
      invariant forall u :: u in names <==> u in order[..i] && u in FreshNames(entries, key, now, staleAfter)
      invariant forall u :: u in names ==> exists k :: 0 <= k < |candidates| && candidates[k].username == u
    {
      var u := order[i];
      assert u in order;
      var c := Consider(u, entries[u], key, now, staleAfter);
      if c.Some? {
        var before := candidates;
        candidates := candidates + [c.value];
        assert candidates[|before|].username == u;
        assert forall k :: 0 <= k < |before| ==> candidates[k] == before[k];
        if c.value.able {
          NamesBelow(order, i, names);
          names := names + [u];
        }
      }
      assert order[..i + 1] == order[..i] + [u];
    }
    assert order[..|order|] == order;
  }

  lemma NamesBelow(order: seq<string>, i: nat, names: seq<string>)
    requires SortedKeys(order) && i < |order| && forall u :: u in names ==> u in order[..i]
    ensures forall j :: 0 <= j < |names| ==> LexLess(names[j], order[i])
  {
    hide LexLess;
    forall j | 0 <= j < |names| ensures LexLess(names[j], order[i]) {
      assert names[j] in names;
      var k :| 0 <= k < i && order[k] == names[j];
    }
  }

  method Conflicting(names: seq<string>, entries: Entries, ghost key: string, ghost now: Instant, ghost staleAfter: int)
    returns (conflict: bool)
    requires OrderOf(names, FreshNames(entries, key, now, staleAfter))
    ensures conflict <==> Conflict(entries, key, now, staleAfter)
  {
    hide LexLess, Fresh, HubQuota.Agrees;
    assert forall i :: 0 <= i < |names| ==> names[i] in names;
    FreshHaveGood(entries, key, now, staleAfter);
    for i := 0 to |names|
      invariant forall a, b :: 0 <= a < i && a < b < |names| ==> !Disagree(entries[names[a]], entries[names[b]])
    {
      for j := i + 1 to |names|
        invariant forall b :: i < b < j ==> !Disagree(entries[names[i]], entries[names[b]])
      {
        var agree := HubQuota.Compare(entries[names[i]].lastGood.value.quota, entries[names[j]].lastGood.value.quota);
        if !agree {
          assert LexLess(names[i], names[j]) && Disagree(entries[names[i]], entries[names[j]]);
          return true;
        }
      }
    }
    conflict := false;
    NoPairNoConflict(names, entries, key, now, staleAfter);
  }

  lemma FreshHaveGood(entries: Entries, key: string, now: Instant, staleAfter: int)
    ensures forall u :: u in FreshNames(entries, key, now, staleAfter) ==> u in entries && entries[u].lastGood.Some?
  {
  }

  lemma NoPairNoConflict(names: seq<string>, entries: Entries, key: string, now: Instant, staleAfter: int)
    requires OrderOf(names, FreshNames(entries, key, now, staleAfter))
    requires forall i :: 0 <= i < |names| ==> names[i] in entries
    requires forall a, b :: 0 <= a < b < |names| ==> !Disagree(entries[names[a]], entries[names[b]])
    ensures !Conflict(entries, key, now, staleAfter)
  {
    hide LexLess, Fresh, Disagree;
    forall u, v | u in names && v in names && LexLess(u, v) ensures !Disagree(entries[u], entries[v]) {
      var a :| 0 <= a < |names| && names[a] == u;
      var b :| 0 <= b < |names| && names[b] == v;
      if b < a { LexTotal(u, v); }
      if a == b { LexTotal(u, u); }
    }
  }

  /** The collector to listen to; whatever the order of the candidates, it is the one the rules name. */
  method SelectSource(candidates: seq<Candidate>, entries: Entries, observed: Observed, key: string, now: Instant, staleAfter: int)
    returns (r: Option<string>)
    requires Lists(candidates, entries, key, now, staleAfter)
    requires forall u, v :: u in FreshAnchors(entries, key, now, staleAfter) && v in FreshAnchors(entries, key, now, staleAfter) ==> u == v
    ensures r == Select(entries, observed, key, now, staleAfter)
  {
    hide LexLess, Fresh, GoodAccount, InGrace;
    ghost var anchors := FreshAnchors(entries, key, now, staleAfter);
    ghost var names := FreshNames(entries, key, now, staleAfter);
    for i := 0 to |candidates|
      invariant forall j :: 0 <= j < i ==> !(candidates[j].able && candidates[j].anchor)
    {
      if candidates[i].able && candidates[i].anchor {
        assert candidates[i].username in anchors;
        return Some(candidates[i].username);
      }
    }
    NoAnchor(candidates, entries, key, now, staleAfter);
    if key in observed {
      var prior := observed[key].source;
      if prior.username in entries && entries[prior.username].accountVersion == prior.accountVersion
         && GoodAccount(entries[prior.username]) == key {
        for i := 0 to |candidates|
          invariant forall j :: 0 <= j < i ==> !(candidates[j].able && candidates[j].username == prior.username)
        {
          if candidates[i].able && candidates[i].username == prior.username {
            return Some(candidates[i].username);
          }
        }
        assert prior.username !in names;
        if InGrace(entries[prior.username], now, staleAfter) { return None; }
      }
    }
    r := LeastCandidate(candidates, entries, key, now, staleAfter);
  }

  lemma NoAnchor(candidates: seq<Candidate>, entries: Entries, key: string, now: Instant, staleAfter: int)
    requires Lists(candidates, entries, key, now, staleAfter)
    requires forall j :: 0 <= j < |candidates| ==> !(candidates[j].able && candidates[j].anchor)
    ensures FreshAnchors(entries, key, now, staleAfter) == {}
  {
    hide Fresh;
    forall u | u in FreshNames(entries, key, now, staleAfter) ensures Consumer(entries[u]) {
      var i :| 0 <= i < |candidates| && candidates[i].username == u;
    }
  }

  method LeastCandidate(candidates: seq<Candidate>, entries: Entries, key: string, now: Instant, staleAfter: int)
    returns (r: Option<string>)
    requires Lists(candidates, entries, key, now, staleAfter) && FreshAnchors(entries, key, now, staleAfter) == {}
    ensures var names := FreshNames(entries, key, now, staleAfter); r == if names == {} then None else Some(Least(names))
  {
    hide LexLess, Fresh;
    ghost var names := FreshNames(entries, key, now, staleAfter);
    r := None;
    ghost var seen: set<string> := {};
    for i := 0 to |candidates|
      invariant seen == set j | 0 <= j < i && candidates[j].able :: candidates[j].username
      invariant if r.None? then seen == {} else IsLeast(seen, r.value)
    {
      var c := candidates[i];
      if c.able {
        if r.None? || LexLess(c.username, r.value) {
          if r.Some? { LeastExtends(seen, r.value, c.username); }
          r := Some(c.username);
        } else {
          LeastExtends(seen, r.value, c.username);
        }
        seen := seen + {c.username};
      }
    }
    assert seen == names;
    if names != {} { LeastUnique(names, r.value, Least(names)); }
  }

  lemma LeastExtends(seen: set<string>, least: string, n: string)
    requires IsLeast(seen, least)
    ensures IsLeast(seen + {n}, if LexLess(n, least) then n else least)
  {
    hide LexLess;
    LexTotal(n, least);
    if LexLess(n, least) {
      forall m | m in seen && m != n ensures LexLess(n, m) {
        if m != least { LexTransitive(n, least, m); }
      }
    }
  }

  /** At most one anchor is configured for an account. */
  predicate OneAnchor(entries: Entries) {
    forall u, v :: u in entries && v in entries && !Consumer(entries[u]) && entries[u].expected == entries[v].expected ==> u == v
  }

  lemma OneFreshAnchor(entries: Entries, key: string, now: Instant, staleAfter: int)
    requires OneAnchor(entries)
    ensures forall u, v :: u in FreshAnchors(entries, key, now, staleAfter) && v in FreshAnchors(entries, key, now, staleAfter) ==> u == v
  {
    hide EntryStale;
  }

  method CanonicalFor(order: seq<string>, entries: Entries, observed: Observed, key: string, now: Instant, staleAfter: int)
    returns (r: Option<Canonical>)
    requires OrderOf(order, entries.Keys) && OneAnchor(entries)
    ensures r == CanonicalAt(entries, observed, key, now, staleAfter)
  {
    hide OrderOf, Lists, Conflict, Select, FreshAnchors;
    var candidates, names := Gather(order, entries, key, now, staleAfter);
    var conflict := Conflicting(names, entries, key, now, staleAfter);
    OneFreshAnchor(entries, key, now, staleAfter);
    var pick := SelectSource(candidates, entries, observed, key, now, staleAfter);
    if pick.None? { return None; }
    SelectIsFresh(entries, observed, key, now, staleAfter);
    FreshHaveGood(entries, key, now, staleAfter);
    if conflict && Consumer(entries[pick.value]) { return None; }
    r := Some(Canonical(entries[pick.value].lastGood.value, Source(pick.value, entries[pick.value].accountVersion)));
  }

  method AccountKeys(order: seq<string>, entries: Entries) returns (keys: set<string>)
    requires OrderOf(order, entries.Keys)
    ensures keys == Accounts(entries)
  {
    keys := {};
    for i := 0 to |order|
      invariant forall u :: u in order[..i] ==> u in entries
      invariant forall k :: k in keys <==> exists u :: u in order[..i] && KeyOf(entries[u]) == Some(k)
    {
      var u := order[i];
      assert u in order && order[..i + 1] == order[..i] + [u];
      var e := entries[u];
      if !Consumer(e) {
        keys := keys + {e.expected};
      } else if e.membership != "" {
        keys := keys + {e.membership};
      }
    }
    assert order[..|order|] == order;
    hide SortedKeys;
    forall k ensures k in keys <==> k in Accounts(entries) {
      if k in keys { var u :| u in order && KeyOf(entries[u]) == Some(k); }
      if k in Accounts(entries) { var u :| u in entries && KeyOf(entries[u]) == Some(k); assert u in order; }
    }
  }

  function KeyOf(e: Entry): Option<string> {
    if !Consumer(e) then Some(e.expected) else if e.membership != "" then Some(e.membership) else None
  }

  method CollectCanonicals(order: seq<string>, entries: Entries, observed: Observed, now: Instant, staleAfter: int)
    returns (r: map<string, Canonical>)
    requires OrderOf(order, entries.Keys) && OneAnchor(entries)
    ensures r == Canonicals(entries, observed, now, staleAfter)
  {
    hide OrderOf, OneAnchor, CanonicalAt, Accounts;
    var keys := AccountKeys(order, entries);
    r := map[];
    var todo := keys;
    while todo != {}
      invariant todo <= keys
      invariant forall k :: k in r <==> k in keys && k !in todo && CanonicalAt(entries, observed, k, now, staleAfter).Some?
      invariant forall k :: k in r ==> r[k] == CanonicalAt(entries, observed, k, now, staleAfter).value
      decreases todo
    {
      var key :| key in todo;
      todo := todo - {key};
      var c := CanonicalFor(order, entries, observed, key, now, staleAfter);
      if c.Some? { r := r[key := c.value]; }
    }
  }

  method NewUpdates(observed: Observed, canonicals: map<string, Canonical>)
    returns (next: Observed, updates: map<string, Update>, sorted: seq<string>)
    ensures next == Remember(observed, canonicals)
    ensures updates == Updates(observed, canonicals)
    ensures OrderOf(sorted, updates.Keys)
  {
    hide SignatureOf, OrderOf;
    next, updates := observed, map[];
    var todo := canonicals.Keys;
    while todo != {}
      invariant todo <= canonicals.Keys
      invariant forall k :: k in next <==> k in observed || (k in canonicals && k !in todo)
      invariant forall k :: k in next ==>
                  next[k] == (if k in canonicals && k !in todo then SourceState(canonicals[k].source, SignatureOf(canonicals[k].snapshot))
                              else observed[k])
      invariant forall k :: k in updates <==> k in canonicals && k !in todo && !Repeats(observed, k, canonicals[k])
      invariant forall k :: k in updates ==> updates[k] == UpdateFor(observed, k, canonicals[k])
      decreases todo
    {
      var key :| key in todo;
      todo := todo - {key};
      var c := canonicals[key];
      var signature := SignatureOf(c.snapshot);
      if !(key in next && next[key].source == c.source && next[key].signature == signature) {
        updates := updates[key := Update(c.snapshot, c.source, key !in next || next[key].source != c.source)];
        next := next[key := SourceState(c.source, signature)];
      }
    }
    assert next.Keys == observed.Keys + canonicals.Keys;
    sorted := SortKeys(updates.Keys);
  }

  // ----- the hub -----

  datatype Verdict = Accepted | Untrusted | Impostor

  class Tracker {
    const staleAfter: int
    const byUID: map<nat, string>
    const order: seq<string>
    var entries: Entries
    var observed: Observed
    var attached: bool
    var revision: nat

    /** The parts of the state that the rules are about. */
    ghost function State(): Hub
      reads this
    {
      Hub(entries, observed, attached)
    }

    ghost predicate Valid()
      reads this
    {
      && OrderOf(order, entries.Keys) && OneAnchor(entries)
      && (forall uid :: uid in byUID ==> byUID[uid] in entries)
      && (forall u :: u in entries ==> EntryInv(entries[u]))
    }

    constructor (expected: map<string, string>, bound: map<nat, string>, limit: int)
      requires forall uid :: uid in bound ==> bound[uid] in expected
      requires forall u, v :: u in expected && v in expected && expected[u] != "" && expected[u] == expected[v] ==> u == v
      ensures Valid() && byUID == bound && staleAfter == limit
      ensures State() == Hub(map u | u in expected :: FreshEntry(expected[u]), map[], false)
    {
      hide EntryInv, OrderOf;
      var sorted := SortKeys(expected.Keys);
      staleAfter, byUID, order := limit, bound, sorted;
      entries, observed, attached, revision := map u | u in expected :: FreshEntry(expected[u]), map[], false, 0;
      new;
      forall u | u in entries ensures EntryInv(entries[u]) { FreshValid(expected[u]); }
      assert entries.Keys == expected.Keys;
    }

    static lemma FreshValid(expected: string)
      ensures EntryInv(FreshEntry(expected))
    {
    }

    /** Hands the accounts' current sources to history: every account at most once, in key order. */
    method Deliver(now: Instant) returns (updates: map<string, Update>, sorted: seq<string>)
      requires Valid()
      modifies `observed
      ensures Valid()
      ensures observed == Remember(old(observed), Canonicals(entries, old(observed), now, staleAfter))
      ensures updates == Updates(old(observed), Canonicals(entries, old(observed), now, staleAfter))
      ensures OrderOf(sorted, updates.Keys)
    {
      hide OrderOf, OneAnchor, EntryInv, Canonicals, Remember, Updates;
      var canonicals := CollectCanonicals(order, entries, observed, now, staleAfter);
      observed, updates, sorted := NewUpdates(observed, canonicals);
    }

    /** A snapshot from a collector. Only the user the peer is bound to can be updated; a late snapshot
        is acknowledged and changes nothing. */
    method Apply(uid: nat, username: string, incoming: Snapshot, refs: seq<ActivityRef>, now: Instant)
      returns (v: Verdict, updates: map<string, Update>, sorted: seq<string>)
      requires Valid() && ValidSnapshot(incoming)
      modifies `entries, `observed, `revision
      ensures Valid()
      ensures v == if uid !in byUID then Untrusted else if byUID[uid] != username then Impostor else Accepted
      ensures v != Accepted ==> State() == old(State()) && updates == map[] && revision == old(revision)
      ensures v == Accepted ==>
                var op := Submit(username, Report(incoming, HookIds(refs, username), now));
                && State() == Step(old(State()), op, staleAfter)
                && updates == Round(old(State()), op, staleAfter)
                && revision == old(revision) + if Late(old(entries)[username], incoming) then 0 else 1
      ensures OrderOf(sorted, updates.Keys)
    {
      hide OrderOf, OneAnchor, EntryInv, Canonicals, Remember, Updates, Accept, HookIds;
      updates, sorted := map[], [];
      NoKeys(updates);
      if uid !in byUID { return Untrusted, updates, sorted; }
      if byUID[uid] != username { return Impostor, updates, sorted; }
      v := Accepted;
      var stored := entries[username];
      if !IsZero(stored.current.observedAt) && incoming.observedAt <= stored.current.observedAt {
        assert entries[username := stored] == entries;
        return;
      }
      var next := AcceptEntry(stored, incoming, refs, username, now);
      AcceptKeeps(stored, incoming, HookIds(refs, username), now);
      KeepsAnchors(entries, username, next);
      KeepsOrder(order, entries, username, next);
      entries := entries[username := next];
      revision := revision + 1;
      if attached { updates, sorted := Deliver(now); }
    }

    static lemma NoKeys(none: map<string, Update>)
      requires none == map[]
      ensures OrderOf([], none.Keys)
    {
    }

    static lemma KeepsAnchors(entries: Entries, u: string, e: Entry)
      requires u in entries && OneAnchor(entries) && e.expected == entries[u].expected
      ensures OneAnchor(entries[u := e])
    {
    }

    static lemma KeepsOrder(order: seq<string>, entries: Entries, u: string, e: Entry)
      requires u in entries && OrderOf(order, entries.Keys)
      ensures OrderOf(order, entries[u := e].Keys)
    {
      assert entries[u := e].Keys == entries.Keys;
    }

    /** A history tracker is attached or detached: everything is delivered afresh, or nothing. */
    method SetHistory(on: bool, now: Instant) returns (updates: map<string, Update>, sorted: seq<string>)
      requires Valid()
      modifies `observed, `attached
      ensures Valid()
      ensures State() == Step(old(State()), Attach(on, now), staleAfter)
      ensures updates == Round(old(State()), Attach(on, now), staleAfter)
      ensures OrderOf(sorted, updates.Keys)
    {
      hide OrderOf, OneAnchor, EntryInv, Canonicals, Remember, Updates;
      attached := on;
      observed := map[];
      updates, sorted := map[], [];
      NoKeys(updates);
      if on { updates, sorted := Deliver(now); }
    }

    /** The public chats of an account, in display order: exactly the running ones among those the
        projection holds, each once. The keys are private; only the values leave the hub. */
    method Chats(account: string, refs: seq<ActivityRef>, now: Instant) returns (running: map<ChatKey, ActiveChat>, keys: seq<ChatKey>)
      requires Valid()
      ensures forall k :: k in running <==>
                k in Projected(entries, account, refs, now, staleAfter) && Projected(entries, account, refs, now, staleAfter)[k].running
      ensures forall k :: k in running ==> running[k] == Projected(entries, account, refs, now, staleAfter)[k]
      ensures multiset(keys) == multiset(running.Keys)
      ensures (forall i :: 0 <= i < |keys| ==> keys[i] in running) && HubPublishing.NewestFirst(keys, running)
    {
      running := HubPublishing.ActiveChats(entries, account, refs, now, staleAfter);
      keys := HubPublishing.ListChats(running);
    }
  }
}
