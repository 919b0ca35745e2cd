/** What the projection of private session ids onto public chats contains. */
module HubPublishing {
  import opened Common
  import opened HubModel

  lemma HookIdsStep(refs: seq<ActivityRef>, u: string)
    requires refs != []
    ensures var front, last := refs[..|refs| - 1], refs[|refs| - 1];
            HookIds(refs, u) == HookIds(front, u) + (if last.username == u && last.session != "" then {last.session} else {})
  {
  }

  lemma ShownStep(e: Entry, account: string, hooks: set<string>, id: string, now: Instant, staleAfter: int)
    ensures Shown(e, account, hooks + {id}, now, staleAfter)
            == Shown(e, account, hooks, now, staleAfter) + (if ShowsHook(e, account, id) then {id} else {})
  {
    hide ShowsRuntime, ShowsHook;
  }

  lemma MergedKeys(chats: map<ChatKey, ActiveChat>, entries: Entries, account: string, ref: ActivityRef, now: Instant)
    ensures Merged(chats, entries, account, ref, now).Keys
            == chats.Keys + (if HookCounts(entries, account, ref) then {ChatKey(ref.username, ref.session)} else {})
  {
    hide HookCounts, NormalTimes;
  }

  /** The projection holds a chat for exactly the sessions that are shown. */
  lemma {:induction false} ProjectedExactly(entries: Entries, account: string, refs: seq<ActivityRef>, now: Instant,
                                            staleAfter: int, u: string, x: string)
    requires x != ""
    ensures ChatKey(u, x) in Projected(entries, account, refs, now, staleAfter)
            <==> u in entries && x in Shown(entries[u], account, HookIds(refs, u), now, staleAfter)
  {
    hide ShowsRuntime, RuntimeChat, NormalTimes, ShowsHook, Merged;
    if refs == [] {
      assert HookIds(refs, u) == {};
    } else {
      var front, last := refs[..|refs| - 1], refs[|refs| - 1];
      ProjectedExactly(entries, account, front, now, staleAfter, u, x);
      HookIdsStep(refs, u);
      MergedKeys(Projected(entries, account, front, now, staleAfter), entries, account, last, now);
      NoIdNeverShows(entries, account, last);
      hide FromRuntime;
      if u in entries && last.username == u && last.session != "" {
        ShownStep(entries[u], account, HookIds(front, u), last.session, now, staleAfter);
      }
      hide Shown;
    }
  }

  lemma NoIdNeverShows(entries: Entries, account: string, ref: ActivityRef)
    ensures HookCounts(entries, account, ref) ==> ref.session != ""
    ensures HookCounts(entries, account, ref) <==> ref.username in entries && ShowsHook(entries[ref.username], account, ref.session)
  {
  }

  /** Some hook report of the session says it is running. */
  predicate HookRuns(refs: seq<ActivityRef>, k: ChatKey) {
    exists i :: 0 <= i < |refs| && refs[i].username == k.username && refs[i].session == k.session && refs[i].running
  }

  predicate RuntimeRuns(entries: Entries, account: string, now: Instant, staleAfter: int, k: ChatKey) {
    && k.username in entries && ShowsRuntime(entries[k.username], account, now, staleAfter)
    && k.session in entries[k.username].runtime && entries[k.username].runtime[k.session].running
  }

  lemma HookRunsStep(refs: seq<ActivityRef>, k: ChatKey)
    requires refs != []
    ensures var front, last := refs[..|refs| - 1], refs[|refs| - 1];
            HookRuns(refs, k) <==> HookRuns(front, k) || (ChatKey(last.username, last.session) == k && last.running)
  {
    var front, last := refs[..|refs| - 1], refs[|refs| - 1];
    if HookRuns(front, k) {
      var i :| 0 <= i < |front| && front[i].username == k.username && front[i].session == k.session && front[i].running;
      assert refs[i] == front[i];
    }
    if HookRuns(refs, k) {
      var i :| 0 <= i < |refs| && refs[i].username == k.username && refs[i].session == k.session && refs[i].running;
      assert i < |front| ==> front[i] == refs[i];
    }
  }

  lemma MergedRunning(chats: map<ChatKey, ActiveChat>, entries: Entries, account: string, ref: ActivityRef, now: Instant, k: ChatKey)
    requires k in Merged(chats, entries, account, ref, now)
    ensures var m, own := Merged(chats, entries, account, ref, now), ChatKey(ref.username, ref.session);
            if k == own && HookCounts(entries, account, ref) then m[k].running == ((k in chats && chats[k].running) || ref.running)
            else k in chats && m[k].running == chats[k].running
  {
    hide HookCounts, NormalTimes;
  }

  lemma ShownCounts(entries: Entries, account: string, refs: seq<ActivityRef>, ref: ActivityRef, now: Instant, staleAfter: int)
    requires !HookCounts(entries, account, ref) && ChatKey(ref.username, ref.session) in Projected(entries, account, refs, now, staleAfter)
    ensures ChatKey(ref.username, ref.session) in FromRuntime(entries, account, now, staleAfter)
            && (ref.username in entries ==> (entries[ref.username].pending || ref.session in entries[ref.username].quarantine))
  {
    hide FromRuntime, Merged;
    var k := ChatKey(ref.username, ref.session);
    OnlyCounted(entries, account, refs, now, staleAfter, k);
    FromRuntimeShows(entries, account, now, staleAfter, k);
  }

  lemma FromRuntimeShows(entries: Entries, account: string, now: Instant, staleAfter: int, k: ChatKey)
    ensures k in FromRuntime(entries, account, now, staleAfter) <==>
            && k.username in entries && ShowsRuntime(entries[k.username], account, now, staleAfter)
            && k.session in entries[k.username].runtime && k.session != ""
    ensures k in FromRuntime(entries, account, now, staleAfter) ==>
              FromRuntime(entries, account, now, staleAfter)[k].running == entries[k.username].runtime[k.session].running
  {
    hide ShowsRuntime, NormalTimes;
  }

  lemma {:induction false} OnlyCounted(entries: Entries, account: string, refs: seq<ActivityRef>, now: Instant, staleAfter: int, k: ChatKey)
    requires k in Projected(entries, account, refs, now, staleAfter)
    ensures k in FromRuntime(entries, account, now, staleAfter) ||
            (k.username in entries && ShowsHook(entries[k.username], account, k.session))
  {
    hide FromRuntime, Merged, ShowsHook;
    if refs != [] {
      var front, last := refs[..|refs| - 1], refs[|refs| - 1];
      MergedKeys(Projected(entries, account, front, now, staleAfter), entries, account, last, now);
      if k in Projected(entries, account, front, now, staleAfter) {
        OnlyCounted(entries, account, front, now, staleAfter, k);
      }
    }
  }

  /** Sessions of the inventory and quarantined sessions never meet. */
  predicate Separate(entries: Entries) {
    forall u :: u in entries ==> entries[u].runtime.Keys !! entries[u].quarantine && (entries[u].pending ==> entries[u].runtime == map[])
  }

  /** A published chat runs exactly when the App Server or some hook says so: merging loses no running
      work and invents none. */
  lemma {:induction false} ProjectedRunning(entries: Entries, account: string, refs: seq<ActivityRef>, now: Instant,
                                            staleAfter: int, k: ChatKey)
    requires Separate(entries) && k in Projected(entries, account, refs, now, staleAfter)
    ensures Projected(entries, account, refs, now, staleAfter)[k].running
            <==> RuntimeRuns(entries, account, now, staleAfter, k) || HookRuns(refs, k)
  {
    hide FromRuntime, Merged, ShowsRuntime, ShowsHook, HookCounts, Separate, HookRuns;
    if refs == [] {
      FromRuntimeShows(entries, account, now, staleAfter, k);
      NoHookRuns(k);
    } else {
      var front, last := refs[..|refs| - 1], refs[|refs| - 1];
      var before := Projected(entries, account, front, now, staleAfter);
      HookRunsStep(refs, k);
      MergedRunning(before, entries, account, last, now, k);
      if k in before {
        ProjectedRunning(entries, account, front, now, staleAfter, k);
        if k == ChatKey(last.username, last.session) && !HookCounts(entries, account, last) {
          ShownCounts(entries, account, front, last, now, staleAfter);
          FromRuntimeShows(entries, account, now, staleAfter, k);
          SeparateAt(entries, k.username, k.session);
        }
      } else {
        FirstSeen(entries, account, front, last, now, staleAfter);
      }
    }
  }

  lemma NoHookRuns(k: ChatKey)
    ensures !HookRuns([], k)
  {
  }

  lemma SeparateAt(entries: Entries, u: string, x: string)
    requires Separate(entries) && u in entries && x in entries[u].runtime
    ensures !entries[u].pending && x !in entries[u].quarantine
  {
  }

  /** A chat that only appears with its last hook report had no earlier one, nor an inventory entry. */
  lemma {:induction false} FirstSeen(entries: Entries, account: string, front: seq<ActivityRef>, ref: ActivityRef, now: Instant, staleAfter: int)
    requires HookCounts(entries, account, ref)
    requires ChatKey(ref.username, ref.session) !in Projected(entries, account, front, now, staleAfter)
    ensures !RuntimeRuns(entries, account, now, staleAfter, ChatKey(ref.username, ref.session))
    ensures !HookRuns(front, ChatKey(ref.username, ref.session))
  {
    hide FromRuntime, Merged, ShowsRuntime, ShowsHook, HookRuns, HookCounts;
    var k := ChatKey(ref.username, ref.session);
    NoIdNeverShows(entries, account, ref);
    if front == [] {
      FromRuntimeShows(entries, account, now, staleAfter, k);
      NoHookRuns(k);
    } else {
      var last := front[|front| - 1];
      MergedKeys(Projected(entries, account, front[..|front| - 1], now, staleAfter), entries, account, last, now);
      HookRunsStep(front, k);
      NoIdNeverShows(entries, account, last);
      FirstSeen(entries, account, front[..|front| - 1], ref, now, staleAfter);
    }
  }

  /** Both times are known and in order. */
  predicate Timed(c: ActiveChat) {
    !IsZero(c.startedAt) && !IsZero(c.updatedAt) && c.startedAt <= c.updatedAt
  }

  predicate Spans(c: ActiveChat, times: (Instant, Instant)) {
    c.startedAt <= times.0 && times.1 <= c.updatedAt
  }

  lemma NormalTimesOrdered(a: Instant, b: Instant, fallback: Instant)
    ensures var t := NormalTimes(a, b, fallback); !IsZero(t.0) && !IsZero(t.1) && t.0 <= t.1
  {
  }

  lemma MergedTimes(chats: map<ChatKey, ActiveChat>, entries: Entries, account: string, ref: ActivityRef, now: Instant, k: ChatKey)
    requires k in Merged(chats, entries, account, ref, now) && (k in chats ==> Timed(chats[k]))
    ensures var c := Merged(chats, entries, account, ref, now)[k];
            && Timed(c)
            && (k in chats ==> Spans(c, (chats[k].startedAt, chats[k].updatedAt)))
            && (k == ChatKey(ref.username, ref.session) && HookCounts(entries, account, ref) ==>
                  Spans(c, NormalTimes(ref.startedAt, ref.updatedAt, now)))
  {
    hide HookCounts, NormalTimes;
    NormalTimesOrdered(ref.startedAt, ref.updatedAt, now);
  }

  lemma RuntimeTimes(entries: Entries, account: string, now: Instant, staleAfter: int, k: ChatKey)
    requires k in FromRuntime(entries, account, now, staleAfter)
    ensures Timed(FromRuntime(entries, account, now, staleAfter)[k])
  {
    hide ShowsRuntime;
    var e := entries[k.username];
    var t := e.runtime[k.session];
    var seen := if IsZero(e.current.observedAt) then e.lastSeenAt else e.current.observedAt;
    NormalTimesOrdered(if t.createdAt != 0 then FromUnix(t.createdAt) else 0, if t.updatedAt != 0 then FromUnix(t.updatedAt) else 0,
                       if IsZero(seen) then now else seen);
    hide NormalTimes;
  }

  /** Every projected chat has known times in order, and they span every hook report of the session that
      counted, in whatever order the reports came. */
  lemma {:induction false} ProjectedTimes(entries: Entries, account: string, refs: seq<ActivityRef>, now: Instant,
                                          staleAfter: int, k: ChatKey)
    requires k in Projected(entries, account, refs, now, staleAfter)
    ensures var c := Projected(entries, account, refs, now, staleAfter)[k];
            && Timed(c)
            && forall i :: 0 <= i < |refs| && ChatKey(refs[i].username, refs[i].session) == k && HookCounts(entries, account, refs[i]) ==>
                 Spans(c, NormalTimes(refs[i].startedAt, refs[i].updatedAt, now))
  {
    hide FromRuntime, Merged, HookCounts, NormalTimes;
    if refs == [] {
      RuntimeTimes(entries, account, now, staleAfter, k);
    } else {
      var front, last := refs[..|refs| - 1], refs[|refs| - 1];
      var before := Projected(entries, account, front, now, staleAfter);
      MergedKeys(before, entries, account, last, now);
      if k in before {
        ProjectedTimes(entries, account, front, now, staleAfter, k);
      } else {
        CountedIsProjected(entries, account, front, now, staleAfter, k);
      }
      MergedTimes(before, entries, account, last, now, k);
      assert forall i :: 0 <= i < |front| ==> refs[i] == front[i];
    }
  }

  lemma {:induction false} CountedIsProjected(entries: Entries, account: string, refs: seq<ActivityRef>, now: Instant, staleAfter: int, k: ChatKey)
    requires k !in Projected(entries, account, refs, now, staleAfter)
    ensures forall i :: 0 <= i < |refs| && ChatKey(refs[i].username, refs[i].session) == k ==> !HookCounts(entries, account, refs[i])
  {
    hide FromRuntime, Merged, HookCounts;
    if refs != [] {
      var front, last := refs[..|refs| - 1], refs[|refs| - 1];
      MergedKeys(Projected(entries, account, front, now, staleAfter), entries, account, last, now);
      CountedIsProjected(entries, account, front, now, staleAfter, k);
      assert forall i :: 0 <= i < |front| ==> refs[i] == front[i];
    }
  }

  // ----- the projection as it is computed -----

  method AddRuntime(chats: map<ChatKey, ActiveChat>, u: string, e: Entry, now: Instant) returns (r: map<ChatKey, ActiveChat>)
    requires forall k :: k in chats ==> k.username != u
    ensures forall k :: k in r <==> k in chats || (k.username == u && k.session in e.runtime && k.session != "")
    ensures forall k :: k in r ==> r[k] == if k in chats then chats[k] else RuntimeChat(e.runtime[k.session], e, now)
  {
    hide RuntimeChat;
    r := chats;
    var todo := e.runtime.Keys;
    while todo != {}
      invariant todo <= e.runtime.Keys
      invariant forall k :: k in r <==> k in chats || (k.username == u && k.session in e.runtime && k.session !in todo && k.session != "")
      invariant forall k :: k in r ==> r[k] == if k in chats then chats[k] else RuntimeChat(e.runtime[k.session], e, now)
      decreases todo
    {
      var x :| x in todo;
      todo := todo - {x};
      if x != "" { r := r[ChatKey(u, x) := RuntimeChat(e.runtime[x], e, now)]; }
    }
  }

  method CollectRuntime(entries: Entries, account: string, now: Instant, staleAfter: int) returns (r: map<ChatKey, ActiveChat>)
    ensures r == FromRuntime(entries, account, now, staleAfter)
  {
    hide RuntimeChat, ShowsRuntime;
    r := map[];
    var todo := entries.Keys;
    while todo != {}
      invariant todo <= entries.Keys
      invariant forall k :: k in r <==>
                  && k.username in entries && k.username !in todo && ShowsRuntime(entries[k.username], account, now, staleAfter)
                  && k.session in entries[k.username].runtime && k.session != ""
      invariant forall k :: k in r ==> r[k] == RuntimeChat(entries[k.username].runtime[k.session], entries[k.username], now)
      decreases todo
    {
      var u :| u in todo;
      if ShowsRuntime(entries[u], account, now, staleAfter) { r := AddRuntime(r, u, entries[u], now); }
      todo := todo - {u};
    }
  }

  /** The running chats of an account, by private key; only the values leave the hub. */
  method ActiveChats(entries: Entries, account: string, refs: seq<ActivityRef>, now: Instant, staleAfter: int)
    returns (running: map<ChatKey, ActiveChat>)
    ensures forall k :: k in running <==>
              (k in Projected(entries, account, refs, now, staleAfter) && Projected(entries, account, refs, now, staleAfter)[k].running)
    ensures forall k :: k in running ==> running[k] == Projected(entries, account, refs, now, staleAfter)[k]
  {
    hide FromRuntime, NormalTimes, ShowsHook;
    var projected := CollectRuntime(entries, account, now, staleAfter);
    for i := 0 to |refs|
      invariant projected == Projected(entries, account, refs[..i], now, staleAfter)
    {
      var ref := refs[i];
      assert refs[..i + 1][..i] == refs[..i];
      if ref.username in entries && ShowsHook(entries[ref.username], account, ref.session) {
        var k := ChatKey(ref.username, ref.session);
        var times := NormalTimes(ref.startedAt, ref.updatedAt, now);
        if k in projected {
          var chat := projected[k];
          projected := projected[k := chat.(startedAt := EarlierTime(chat.startedAt, times.0),
                                            updatedAt := LaterTime(chat.updatedAt, times.1),
                                            running := chat.running || ref.running)];
        } else {
          var name := "Active Codex task";
          if ref.session in entries[ref.username].recent { name := entries[ref.username].recent[ref.session]; }
          projected := projected[k := ActiveChat(name, times.0, times.1, ref.running)];
        }
      }
    }
    assert refs[..|refs|] == refs;
    running := map k | k in projected && projected[k].running :: projected[k];
  }

  // ----- display order -----

  /** Which of two chats is listed first: the one updated last, then by user name and task name. */
  predicate ListedBefore(a: ActiveChat, ak: ChatKey, b: ActiveChat, bk: ChatKey) {
    if a.updatedAt != b.updatedAt then a.updatedAt > b.updatedAt
    else if ak.username != bk.username then LexLess(ak.username, bk.username)
    else LexLess(a.name, b.name)
  }

  lemma ListingTransitive(a: ActiveChat, ak: ChatKey, b: ActiveChat, bk: ChatKey, c: ActiveChat, ck: ChatKey)
    requires !ListedBefore(b, bk, a, ak) && !ListedBefore(c, ck, b, bk)
    ensures !ListedBefore(c, ck, a, ak)
  {
    hide LexLess;
    LexTotal(ak.username, bk.username);
    LexTotal(bk.username, ck.username);
    LexTotal(ak.username, ck.username);
    if !LexLess(b.name, a.name) && !LexLess(c.name, b.name) { NotLessTransitive(a.name, b.name, c.name); }
    if LexLess(ak.username, bk.username) && LexLess(bk.username, ck.username) {
      LexTransitive(ak.username, bk.username, ck.username);
    }
  }

  lemma NotLessTransitive(a: string, b: string, c: string)
    requires !LexLess(b, a) && !LexLess(c, b)
    ensures !LexLess(c, a)
  {
    LexTotal(a, b);
    LexTotal(b, c);
    LexTotal(a, c);
    if LexLess(a, b) && LexLess(b, c) { LexTransitive(a, b, c); }
    hide LexLess;
  }

  /** No chat comes before one that should be listed ahead of it. */
  predicate InListingOrder(keys: seq<ChatKey>, chats: map<ChatKey, ActiveChat>)
    requires forall i :: 0 <= i < |keys| ==> keys[i] in chats
  {
    forall i, j :: 0 <= i < j < |keys| ==> !ListedBefore(chats[keys[j]], keys[j], chats[keys[i]], keys[i])
  }

  /** The latest update first; at the same time by user name; of one user by task name. */
  predicate NewestFirst(keys: seq<ChatKey>, chats: map<ChatKey, ActiveChat>)
    requires forall i :: 0 <= i < |keys| ==> keys[i] in chats
  {
    forall i, j :: 0 <= i < j < |keys| ==>
      var a, b, u, v := chats[keys[i]], chats[keys[j]], keys[i].username, keys[j].username;
      && a.updatedAt >= b.updatedAt
      && (a.updatedAt == b.updatedAt ==> u == v || FirstBelow(u, v))
      && (a.updatedAt == b.updatedAt && u == v ==> a.name == b.name || FirstBelow(a.name, b.name))
  }

  lemma OrderIsNewestFirst(keys: seq<ChatKey>, chats: map<ChatKey, ActiveChat>)
    requires (forall i :: 0 <= i < |keys| ==> keys[i] in chats) && InListingOrder(keys, chats)
    ensures NewestFirst(keys, chats)
  {
    hide LexLess, FirstBelow;
    forall i, j | 0 <= i < j < |keys|
      ensures var a, b, u, v := chats[keys[i]], chats[keys[j]], keys[i].username, keys[j].username;
              && a.updatedAt >= b.updatedAt
              && (a.updatedAt == b.updatedAt ==> u == v || FirstBelow(u, v))
              && (a.updatedAt == b.updatedAt && u == v ==> a.name == b.name || FirstBelow(a.name, b.name))
    {
      var a, b, u, v := chats[keys[i]], chats[keys[j]], keys[i].username, keys[j].username;
      assert !ListedBefore(b, keys[j], a, keys[i]);
      LexTotal(u, v);
      LexTotal(a.name, b.name);
      LexIsFirstDifference(u, v);
      LexIsFirstDifference(a.name, b.name);
    }
  }

  method InsertListed(keys: seq<ChatKey>, chats: map<ChatKey, ActiveChat>, k: ChatKey) returns (r: seq<ChatKey>)
    requires k in chats && (forall i :: 0 <= i < |keys| ==> keys[i] in chats) && InListingOrder(keys, chats)
    ensures multiset(r) == multiset(keys) + multiset{k}
    ensures (forall i :: 0 <= i < |r| ==> r[i] in chats) && InListingOrder(r, chats)
  {
    hide ListedBefore;
    var i := |keys|;
    while i > 0 && ListedBefore(chats[k], k, chats[keys[i - 1]], keys[i - 1])
      invariant 0 <= i <= |keys|
      invariant forall j :: i <= j < |keys| ==> ListedBefore(chats[k], k, chats[keys[j]], keys[j])
    {
      i := i - 1;
    }
    forall j | i <= j < |keys| ensures !ListedBefore(chats[keys[j]], keys[j], chats[k], k) {
      NeverBoth(chats[k], k, chats[keys[j]], keys[j]);
    }
    forall j | 0 <= j < i ensures !ListedBefore(chats[k], k, chats[keys[j]], keys[j]) {
      if j < i - 1 {
        ListingTransitive(chats[keys[j]], keys[j], chats[keys[i - 1]], keys[i - 1], chats[k], k);
      }
    }
    r := keys[..i] + [k] + keys[i..];
    InsertedInOrder(keys, chats, k, i);
    hide InListingOrder;
    assert keys == keys[..i] + keys[i..];
  }

  lemma InsertedInOrder(keys: seq<ChatKey>, chats: map<ChatKey, ActiveChat>, k: ChatKey, i: nat)
    requires i <= |keys| && k in chats && (forall j :: 0 <= j < |keys| ==> keys[j] in chats) && InListingOrder(keys, chats)
    requires forall j :: i <= j < |keys| ==> !ListedBefore(chats[keys[j]], keys[j], chats[k], k)
    requires forall j :: 0 <= j < i ==> !ListedBefore(chats[k], k, chats[keys[j]], keys[j])
    ensures var r := keys[..i] + [k] + keys[i..];
            (forall j :: 0 <= j < |r| ==> r[j] in chats) && InListingOrder(r, chats)
  {
    hide ListedBefore;
    var r := keys[..i] + [k] + keys[i..];
    assert forall j :: 0 <= j < |r| ==> r[j] == if j < i then keys[j] else if j == i then k else keys[j - 1];
  }

  lemma NeverBoth(a: ActiveChat, ak: ChatKey, b: ActiveChat, bk: ChatKey)
    requires ListedBefore(a, ak, b, bk)
    ensures !ListedBefore(b, bk, a, ak)
  {
    LexTotal(ak.username, bk.username);
    LexTotal(a.name, b.name);
    hide LexLess;
  }

  /** Every chat once, in display order, whatever order the map is walked in. */
  method ListChats(chats: map<ChatKey, ActiveChat>) returns (keys: seq<ChatKey>)
    ensures multiset(keys) == multiset(chats.Keys)
    ensures (forall i :: 0 <= i < |keys| ==> keys[i] in chats) && InListingOrder(keys, chats) && NewestFirst(keys, chats)
  {
    hide NewestFirst;
    keys := [];
    var todo := chats.Keys;
    while todo != {}
      invariant todo <= chats.Keys && multiset(keys) == multiset(chats.Keys - todo)
      invariant (forall i :: 0 <= i < |keys| ==> keys[i] in chats) && InListingOrder(keys, chats)
      decreases todo
    {
      var k :| k in todo;
      keys := InsertListed(keys, chats, k);
      assert chats.Keys - (todo - {k}) == (chats.Keys - todo) + {k};
      todo := todo - {k};
    }
    assert chats.Keys - todo == chats.Keys;
    OrderIsNewestFirst(keys, chats);
  }
}
