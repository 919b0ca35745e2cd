/** The activity tracker: the loops and state changes that carry out the rules. */
module ActivityTracker {
  import opened Common
  import opened ActivityModel
  import opened ActivityProof

  const MAX_USERNAME_LENGTH := 64

  /** An event as it is received: its action is any string. */
  datatype WireEvent = WireEvent(schemaVersion: int, action: string, sessionId: string, turnId: string)

  datatype Identity = Identity(username: string, uid: nat)

  datatype Verdict = Accepted | Untrusted | Invalid

  datatype View = View(username: string, sessionId: string, startedAt: Instant, updatedAt: Instant, running: bool)

  function ActionOf(name: string): Option<Action> {
    match name
    case "session_start" => Some(SessionStart)
    case "start" => Some(Start)
    case "refresh" => Some(Refresh)
    case "end_turn" => Some(EndTurn)
    case "end_session" => Some(EndSession)
    case _ => None
  }

  /** The event a received message stands for, if it is well formed. */
  function Parsed(w: WireEvent): Option<Event> {
    match ActionOf(w.action)
    case None => None
    case Some(a) =>
      var e := Event(w.schemaVersion, a, w.sessionId, w.turnId);
      if ValidEvent(e) then Some(e) else None
  }

  /** At most 128 characters, each an ASCII letter or digit or one of - . : _ (codes 45, 46, 58 and 95). */
  predicate OpaqueText(id: string) {
    0 < |id| <= 128 &&
    forall i :: 0 <= i < |id| ==>
      var code := id[i] as int;
      48 <= code <= 57 || 65 <= code <= 90 || 97 <= code <= 122 || code == 45 || code == 46 || code == 58 || code == 95
  }

  lemma OpaqueIdIff(id: string)
    ensures ValidOpaqueId(id) <==> OpaqueText(id)
  {
  }

  /** Which messages stand for an event: the five actions by name, with a session id, and with a turn id exactly
      for those about a turn. */
  lemma ParsedIff(w: WireEvent)
    ensures Parsed(w).Some? <==>
            && w.schemaVersion == 1 && OpaqueText(w.sessionId)
            && (|| (w.action in {"start", "refresh", "end_turn"} && OpaqueText(w.turnId))
                || (w.action in {"session_start", "end_session"} && w.turnId == ""))
    ensures Parsed(w).Some? ==>
              var e := Parsed(w).value;
              && e.sessionId == w.sessionId && e.turnId == w.turnId
              && (e.action.SessionStart? <==> w.action == "session_start") && (e.action.Start? <==> w.action == "start")
              && (e.action.Refresh? <==> w.action == "refresh") && (e.action.EndTurn? <==> w.action == "end_turn")
              && (e.action.EndSession? <==> w.action == "end_session")
  {
    OpaqueIdIff(w.sessionId);
    OpaqueIdIff(w.turnId);
    hide OpaqueText, ValidOpaqueId;
  }

  function ViewOf(k: ChatKey, c: Chat): View {
    View(k.username, k.sessionId, c.startedAt, c.updatedAt, c.running)
  }

  predicate Before(a: View, b: View) {
    if a.username != b.username then LexLess(a.username, b.username) else LexLess(a.sessionId, b.sessionId)
  }

  lemma BeforeIs(a: View, b: View)
    ensures Before(a, b) <==>
            || (a.username != b.username && FirstBelow(a.username, b.username))
            || (a.username == b.username && FirstBelow(a.sessionId, b.sessionId))
  {
    LexIsFirstDifference(a.username, b.username);
    LexIsFirstDifference(a.sessionId, b.sessionId);
    hide LexLess, FirstBelow;
  }

  predicate Listed(views: seq<View>) {
    forall i, j :: 0 <= i < j < |views| ==> Before(views[i], views[j])
  }

  // ----- identities -----

  predicate ValidUsername(name: string) {
    0 < |name| <= MAX_USERNAME_LENGTH && forall i :: 0 <= i < |name| ==> '\U{21}' <= name[i] <= '\U{7E}'
  }

  /** Names are 1 to 64 printable ASCII characters without spaces. */
  lemma UsernameIff(name: string)
    ensures ValidUsername(name) <==> 1 <= |name| <= 64 && forall i :: 0 <= i < |name| ==> 33 <= name[i] as int <= 126
  {
  }

  predicate ValidIdentities(identities: seq<Identity>) {
    && (forall i :: 0 <= i < |identities| ==> ValidUsername(identities[i].username))
    && (forall i, j :: 0 <= i < j < |identities| ==>
          (identities[i].username != identities[j].username && identities[i].uid != identities[j].uid))
  }

  /** The binding of peers to users is accepted exactly when no name and no UID occurs twice; it then
      has precisely the configured pairs, so no two peers can ever update the same user. */
  method Bind(identities: seq<Identity>) returns (byUID: Option<map<nat, string>>)
    ensures byUID.Some? <==> ValidIdentities(identities)
    ensures byUID.Some? ==> (forall u, n :: u in byUID.value && byUID.value[u] == n <==> Identity(n, u) in identities)
    ensures byUID.Some? ==> (forall u, v :: u in byUID.value && v in byUID.value && u != v ==> byUID.value[u] != byUID.value[v])
  {
    var bound: map<nat, string> := map[];
    var seen: set<string> := {};
    for i := 0 to |identities|
      invariant ValidIdentities(identities[..i])
      invariant forall u, n :: u in bound && bound[u] == n <==> Identity(n, u) in identities[..i]
      invariant forall n :: n in seen <==> exists u :: Identity(n, u) in identities[..i]
      invariant forall u, v :: u in bound && v in bound && u != v ==> bound[u] != bound[v]
    {
      var id := identities[i];
      assert identities[..i + 1] == identities[..i] + [id];
      assert id == Identity(id.username, id.uid);
      if !ValidUsername(id.username) { return None; }
      if id.username in seen {
        var u :| Identity(id.username, u) in identities[..i];
        return None;
      }
      if id.uid in bound {
        assert Identity(bound[id.uid], id.uid) in identities[..i];
        return None;
      }
      assert forall u :: u in bound ==> Identity(bound[u], u) in identities[..i];
      assert forall u :: u in bound ==> bound[u] != id.username;
      seen := seen + {id.username};
      bound := bound[id.uid := id.username];
    }
    assert identities[..|identities|] == identities;
    byUID := Some(bound);
  }

  // ----- pruning -----

  method PruneTurns(turns: map<string, Instant>, lease: int, now: Instant) returns (live: map<string, Instant>, changed: bool)
    ensures live == LiveTurns(turns, lease, now)
    ensures changed <==> live != turns
  {
    live, changed := turns, false;
    var todo := turns.Keys;
    while todo != {}
      invariant todo <= turns.Keys
      invariant forall t :: t in live <==> t in turns && (t in todo || !Expired(turns[t], lease, now))
      invariant forall t :: t in live ==> live[t] == turns[t]
      invariant changed <==> exists t :: t in turns.Keys - todo && Expired(turns[t], lease, now)
      decreases todo
    {
      var t :| t in todo;
      todo := todo - {t};
      if Expired(turns[t], lease, now) {
        live := live - {t};
        changed := true;
      }
    }
    if changed {
      var t :| t in turns.Keys - todo && Expired(turns[t], lease, now);
      assert t !in live;
    } else {
      assert live == turns;
    }
  }

  method PruneOne(c: Chat, lease: int, now: Instant) returns (d: Chat, changed: bool, gone: bool)
    ensures d == PruneChat(c, lease, now)
    ensures gone <==> !Stays(c, lease, now)
    ensures changed <==> DropsFrom(c, lease, now)
  {
    var live;
    live, changed := PruneTurns(c.turns, lease, now);
    hide LiveTurns;
    d := c.(turns := live);
    if !IsZero(d.overflowAt) && Expired(d.overflowAt, lease, now) {
      d := d.(overflowAt := 0);
      changed := true;
    }
    d := d.(running := |d.turns| != 0 || !IsZero(d.overflowAt));
    assert |live| == 0 <==> live == map[];
    gone := !d.running && Expired(d.updatedAt, lease, now);
    changed := changed || gone;
  }

  method PruneAll(chats: Chats, lease: int, now: Instant) returns (r: Chats, changed: bool)
    ensures r == Prune(chats, lease, now)
    ensures changed <==> PruneDrops(chats, lease, now)
  {
    hide PruneChat, Stays, DropsFrom;
    r, changed := chats, false;
    var todo := chats.Keys;
    while todo != {}
      invariant todo <= chats.Keys
      invariant forall k :: k in r <==> k in chats && (k in todo || Stays(chats[k], lease, now))
      invariant forall k :: k in r ==> r[k] == if k in todo then chats[k] else PruneChat(chats[k], lease, now)
      invariant changed <==> exists k :: k in chats.Keys - todo && DropsFrom(chats[k], lease, now)
      decreases todo
    {
      var k :| k in todo;
      var d, drops, gone := PruneOne(chats[k], lease, now);
      todo := todo - {k};
      r := if gone then r - {k} else r[k := d];
      changed := changed || drops;
    }
  }

  // ----- eviction -----

  method CountUser(chats: Chats, username: string) returns (count: nat)
    requires username != ""
    ensures count == |ChatsOf(chats, username)|
  {
    count := 0;
    var todo := chats.Keys;
    ghost var done: set<ChatKey> := {};
    while todo != {}
      invariant todo <= chats.Keys
      invariant done == ChatsOf(chats, username) - todo && count == |done|
      decreases todo
    {
      var k :| k in todo;
      todo := todo - {k};
      if k.username == username {
        count := count + 1;
        done := done + {k};
      }
    }
    assert done == ChatsOf(chats, username);
  }

  /** Whatever order the chats are visited in, the one found is the one victim. */
  method Oldest(chats: Chats, username: string) returns (key: ChatKey, found: bool)
    ensures found <==> ChatsOf(chats, username) != {}
    ensures found ==> IsVictim(chats, ChatsOf(chats, username), key)
  {
    hide Older;
    key, found := ChatKey("", ""), false;
    var todo := chats.Keys;
    ghost var done: set<ChatKey> := {};
    while todo != {}
      invariant todo <= chats.Keys
      invariant done == ChatsOf(chats, username) - todo
      invariant found <==> done != {}
      invariant found ==> IsVictim(chats, done, key)
      decreases todo
    {
      var k :| k in todo;
      todo := todo - {k};
      if username == "" || k.username == username {
        if !found {
          key := k;
          found := true;
        } else {
          var newer := Older(chats[k], k, chats[key], key);
          VictimExtends(chats, done, key, k);
          if newer { key := k; }
        }
        done := done + {k};
      }
    }
    assert done == ChatsOf(chats, username);
  }

  lemma VictimExtends(chats: Chats, done: set<ChatKey>, key: ChatKey, k: ChatKey)
    requires IsVictim(chats, done, key) && k in chats && k !in done
    ensures IsVictim(chats, done + {k}, if Older(chats[k], k, chats[key], key) then k else key)
  {
    hide Older;
    OlderTotal(chats[k], k, chats[key], key);
    if Older(chats[k], k, chats[key], key) {
      forall j | j in done && j != key ensures Older(chats[k], k, chats[j], j) {
        OlderTransitive(chats[k], k, chats[key], key, chats[j], j);
      }
    }
  }

  lemma EvictOne(chats: Chats, username: string, limit: nat, key: ChatKey)
    requires limit > 0 && |ChatsOf(chats, username)| >= limit
    requires IsVictim(chats, ChatsOf(chats, username), key)
    ensures ChatsOf(chats - {key}, username) == ChatsOf(chats, username) - {key}
    ensures Evict(chats, username, limit) == Evict(chats - {key}, username, limit)
  {
    hide Older;
    VictimUnique(chats, ChatsOf(chats, username), key, Victim(chats, ChatsOf(chats, username)));
  }

  method MakeRoomFor(chats: Chats, username: string) returns (r: Chats)
    requires username != ""
    ensures r == MakeRoom(chats, username)
  {
    hide Evict, IsVictim;
    r := chats;
    var count := CountUser(r, username);
    while count >= MAX_CHATS_PER_USER
      invariant count == |ChatsOf(r, username)|
      invariant Evict(r, username, MAX_CHATS_PER_USER) == Evict(chats, username, MAX_CHATS_PER_USER)
      decreases count
    {
      var key, found := Oldest(r, username);
      EvictOne(r, username, MAX_CHATS_PER_USER, key);
      InChats(r, username, key);
      r := r - {key};
      count := CountUser(r, username);
    }
    EvictLeaves(r, username, MAX_CHATS_PER_USER);
    ghost var first := r;
    EveryoneCounts(r);
    while |r| >= MAX_CHATS
      invariant |r| == |ChatsOf(r, "")|
      invariant Evict(r, "", MAX_CHATS) == Evict(first, "", MAX_CHATS)
      decreases |r|
    {
      var key, found := Oldest(r, "");
      EvictOne(r, "", MAX_CHATS, key);
      InChats(r, "", key);
      r := r - {key};
      EveryoneCounts(r);
    }
    EvictLeaves(r, "", MAX_CHATS);
  }

  lemma InChats(chats: Chats, username: string, key: ChatKey)
    requires IsVictim(chats, ChatsOf(chats, username), key)
    ensures key in ChatsOf(chats, username)
  {
  }

  lemma EveryoneCounts(chats: Chats)
    ensures |ChatsOf(chats, "")| == |chats|
  {
    assert ChatsOf(chats, "") == chats.Keys;
  }

  // ----- listing -----

  method Insert(views: seq<View>, v: View) returns (r: seq<View>)
    requires Listed(views) && forall i :: 0 <= i < |views| ==> Before(views[i], v) || Before(v, views[i])
    ensures Listed(r) && multiset(r) == multiset(views) + multiset{v}
  {
    hide Before;
    var i := |views|;
    while i > 0 && !Before(views[i - 1], v)
      invariant 0 <= i <= |views|
      invariant forall j :: i <= j < |views| ==> Before(v, views[j])
    {
      i := i - 1;
    }
    forall j | 0 <= j < i ensures Before(views[j], v) {
      if j < i - 1 { BeforeTransitive(views[j], views[i - 1], v); }
    }
    r := views[..i] + [v] + views[i..];
    InsertedListed(views, v, i);
    hide Listed;
    assert views == views[..i] + views[i..];
  }

  lemma InsertedListed(views: seq<View>, v: View, i: nat)
    requires i <= |views| && Listed(views)
    requires (forall j :: 0 <= j < i ==> Before(views[j], v)) && forall j :: i <= j < |views| ==> Before(v, views[j])
    ensures Listed(views[..i] + [v] + views[i..])
  {
    hide Before;
    var r := views[..i] + [v] + views[i..];
    assert forall j :: 0 <= j < |r| ==> r[j] == if j < i then views[j] else if j == i then v else views[j - 1];
  }

  lemma BeforeTransitive(a: View, b: View, c: View)
    requires Before(a, b) && Before(b, c)
    ensures Before(a, c)
  {
    hide LexLess;
    LexTotal(a.username, b.username);
    LexTotal(b.username, c.username);
    LexTotal(a.username, c.username);
    if LexLess(a.username, b.username) && LexLess(b.username, c.username) {
      LexTransitive(a.username, b.username, c.username);
    }
    if LexLess(a.sessionId, b.sessionId) && LexLess(b.sessionId, c.sessionId) {
      LexTransitive(a.sessionId, b.sessionId, c.sessionId);
    }
  }

  lemma BeforeTotal(j: ChatKey, a: Chat, k: ChatKey, b: Chat)
    requires j != k
    ensures Before(ViewOf(j, a), ViewOf(k, b)) || Before(ViewOf(k, b), ViewOf(j, a))
  {
    LexTotal(j.username, k.username);
    LexTotal(j.sessionId, k.sessionId);
    hide LexLess;
  }

  /** The chats of a user, or of everyone, each exactly once and in key order. */
  method List(chats: Chats, username: string) returns (views: seq<View>)
    ensures Listed(views)
    ensures forall v :: v in views <==> exists k :: k in ChatsOf(chats, username) && v == ViewOf(k, chats[k])
  {
    hide Before;
    views := [];
    var todo := chats.Keys;
    while todo != {}
      invariant todo <= chats.Keys
      invariant Listed(views)
      invariant forall v :: v in views <==> exists k :: k in ChatsOf(chats, username) - todo && v == ViewOf(k, chats[k])
      decreases todo
    {
      var k :| k in todo;
      if username == "" || k.username == username {
        forall i | 0 <= i < |views|
          ensures Before(views[i], ViewOf(k, chats[k])) || Before(ViewOf(k, chats[k]), views[i])
        {
          assert views[i] in views;
          var j :| j in ChatsOf(chats, username) - todo && views[i] == ViewOf(j, chats[j]);
          BeforeTotal(j, chats[j], k, chats[k]);
        }
        var more := Insert(views, ViewOf(k, chats[k]));
        Inserted(views, more, ViewOf(k, chats[k]));
        views := more;
      }
      todo := todo - {k};
    }
  }

  lemma Inserted(views: seq<View>, more: seq<View>, v: View)
    requires multiset(more) == multiset(views) + multiset{v}
    ensures forall x :: x in more <==> x in views || x == v
  {
    forall x ensures x in more <==> x in views || x == v {
      assert x in more <==> x in multiset(more);
    }
  }

  // ----- the next expiry -----

  /** The earlier of two deadlines; the zero instant means there is none yet. */
  function Earlier(next: Instant, at: Instant): Instant {
    if IsZero(next) || at < next then at else next
  }

  predicate Earliest(next: Instant, among: set<Instant>) {
    if among == {} then IsZero(next) else next in among && forall d :: d in among ==> next <= d
  }

  method EarliestTurn(turns: map<string, Instant>, lease: int) returns (next: Instant)
    requires forall t :: t in turns ==> turns[t] + lease > 0
    ensures Earliest(next, set t | t in turns :: turns[t] + lease)
  {
    next := 0;
    var todo := turns.Keys;
    while todo != {}
      invariant todo <= turns.Keys
      invariant Earliest(next, set t | t in turns && t !in todo :: turns[t] + lease)
      decreases todo
    {
      var t :| t in todo;
      ghost var was := set u | u in turns && u !in todo :: turns[u] + lease;
      todo := todo - {t};
      ghost var now := set u | u in turns && u !in todo :: turns[u] + lease;
      assert now == was + {turns[t] + lease};
      next := Earlier(next, turns[t] + lease);
    }
    assert (set t | t in turns :: turns[t] + lease) == set t | t in turns && t !in todo :: turns[t] + lease;
  }

  method EarliestOf(c: Chat, lease: int) returns (next: Instant)
    requires lease > 0 && c.updatedAt > 0 && c.overflowAt >= 0 && forall t :: t in c.turns ==> c.turns[t] > 0
    ensures Deadlines(c, lease) != {} && next > 0 && Earliest(next, Deadlines(c, lease))
  {
    if |c.turns| == 0 && IsZero(c.overflowAt) {
      assert c.turns == map[];
      next := c.updatedAt + lease;
    } else {
      next := EarliestTurn(c.turns, lease);
      ghost var turnEnds := set t | t in c.turns :: c.turns[t] + lease;
      if c.turns != map[] {
        var t :| t in c.turns;
        assert c.turns[t] + lease in turnEnds;
      }
      if !IsZero(c.overflowAt) { next := Earlier(next, c.overflowAt + lease); }
    }
  }

  /** The time to the next expiry, or none. */
  method NextExpiry(chats: Chats, lease: int, ghost clock: Instant) returns (next: Instant)
    requires lease > 0 && StateInv(chats, clock)
    ensures IsZero(next) <==> chats == map[]
    ensures chats != map[] ==> IsNextExpiry(chats, lease, next)
  {
    hide Deadlines;
    next := 0;
    var todo := chats.Keys;
    while todo != {}
      invariant todo <= chats.Keys && next >= 0
      invariant IsZero(next) <==> todo == chats.Keys
      invariant !IsZero(next) ==> exists k :: k in chats.Keys - todo && next in Deadlines(chats[k], lease)
      invariant forall k, d :: k in chats.Keys - todo && d in Deadlines(chats[k], lease) ==> next <= d
      decreases todo
    {
      var k :| k in todo;
      assert ChatInv(chats[k], clock);
      var at := EarliestOf(chats[k], lease);
      ghost var was, prior := next, todo;
      todo := todo - {k};
      next := Earlier(next, at);
      if next == was {
        assert !IsZero(was);
      } else {
        assert k in chats.Keys - todo && next in Deadlines(chats[k], lease);
      }
    }
  }

  // ----- the tracker -----

  class Tracker {
    const expiresAfter: int
    var byUID: map<nat, string>
    var chats: Chats
    ghost var clock: Instant

    ghost predicate Valid()
      reads this
    {
      && expiresAfter > 0 && clock > 0 && StateInv(chats, clock) && Bounded(chats)
      && forall u :: u in byUID ==> byUID[u] != ""
    }

    constructor (bound: map<nat, string>, lease: int, ghost t: Instant)
      requires lease > 0 && t > 0 && forall u :: u in bound ==> bound[u] != ""
      ensures Valid() && chats == map[] && byUID == bound && expiresAfter == lease && clock == t
    {
      expiresAfter, byUID, chats, clock := lease, bound, map[], t;
      EmptyInv(t);
    }

    method PruneLocked(now: Instant) returns (changed: bool)
      requires Valid()
      modifies `chats
      ensures Valid() && chats == Prune(old(chats), expiresAfter, now)
      ensures changed <==> PruneDrops(old(chats), expiresAfter, now)
    {
      hide StateInv, Bounded, Prune, PruneDrops;
      PruneKeeps(chats, expiresAfter, clock, now);
      FewerStaysBounded(chats, Prune(chats, expiresAfter, now));
      chats, changed := PruneAll(chats, expiresAfter, now);
    }

    method EnsureChat(key: ChatKey, now: Instant)
      requires key.username != ""
      modifies `chats
      ensures chats == Ensured(old(chats), key, now) && key in chats
    {
      if key !in chats {
        chats := MakeRoomFor(chats, key.username);
        chats := chats[key := Chat(now, now, false, map[], 0)];
      }
    }

    method MarkTurnRunning(key: ChatKey, turn: string, now: Instant)
      requires key in chats
      modifies `chats
      ensures chats == old(chats)[key := MarkTurn(old(chats)[key], turn, now)]
    {
      var chat := chats[key];
      if turn in chat.turns {
        chats := chats[key := chat.(turns := chat.turns[turn := now])];
        return;
      }
      if |chat.turns| < MAX_TURNS {
        chats := chats[key := chat.(turns := chat.turns[turn := now])];
        return;
      }
      chats := chats[key := chat.(overflowAt := now)];
    }

    /** An event from a peer: an unknown peer or a malformed event leaves everything as it was. */
    method Apply(uid: nat, wire: WireEvent, now: Instant) returns (v: Verdict)
      requires Valid() && clock <= now
      modifies `chats, `clock
      ensures Valid()
      ensures v == if uid !in byUID then Untrusted else if Parsed(wire).None? then Invalid else Accepted
      ensures v != Accepted ==> chats == old(chats)
      ensures v == Accepted ==>
                chats == ActivityModel.Apply(old(chats), expiresAfter, now, byUID[uid], Parsed(wire).value)
    {
      hide StateInv, Bounded, Prune, PruneDrops, Ensured, ActionOf, ValidEvent, MarkTurn;
      if uid !in byUID { return Untrusted; }
      var parsed := Parsed(wire);
      if parsed.None? { return Invalid; }
      var username, event := byUID[uid], parsed.value;
      ApplyKeeps(chats, expiresAfter, clock, now, username, event);
      var changed := PruneLocked(now);
      var key := ChatKey(username, event.sessionId);
      match event.action {
        case SessionStart =>
          EnsureChat(key, now);
          chats := chats[key := chats[key].(updatedAt := now)];
        case Start =>
          EnsureChat(key, now);
          MarkTurnRunning(key, event.turnId, now);
          chats := chats[key := chats[key].(updatedAt := now, running := true)];
        case Refresh =>
          EnsureChat(key, now);
          MarkTurnRunning(key, event.turnId, now);
          chats := chats[key := chats[key].(updatedAt := now, running := true)];
        case EndTurn =>
          EnsureChat(key, now);
          var chat := chats[key];
          chat := chat.(turns := chat.turns - {event.turnId}, updatedAt := now);
          assert |chat.turns| != 0 <==> chat.turns != map[];
          chats := chats[key := chat.(running := |chat.turns| != 0 || !IsZero(chat.overflowAt))];
        case EndSession =>
          chats := chats - {key};
      }
      assert chats == ActivityModel.Apply(old(chats), expiresAfter, now, username, event);
      clock := now;
      assert StateInv(chats, clock);
      assert Bounded(chats);
      v := Accepted;
    }

    /** The delay until the first instant at which pruning would change anything; none without chats. */
    method NextExpiryDelay(now: Instant) returns (delay: int, scheduled: bool)
      requires Valid()
      ensures scheduled <==> chats != map[]
      ensures scheduled ==>
                (exists next :: IsNextExpiry(chats, expiresAfter, next) && delay == if next < now then 0 else next - now)
    {
      hide IsNextExpiry;
      var next := NextExpiry(chats, expiresAfter, clock);
      if IsZero(next) { return 0, false; }
      delay, scheduled := next - now, true;
      if delay < 0 { delay := 0; }
    }

    method SnapshotAt(now: Instant, username: string) returns (views: seq<View>)
      requires Valid()
      modifies `chats
      ensures Valid() && chats == Prune(old(chats), expiresAfter, now)
      ensures Listed(views)
      ensures forall v :: v in views <==>
                exists k :: k in chats && (username == "" || k.username == username)
                  && v == View(k.username, k.sessionId, chats[k].startedAt, chats[k].updatedAt, chats[k].running)
    {
      var changed := PruneLocked(now);
      views := List(chats, username);
      assert forall k :: k in ChatsOf(chats, username) <==> k in chats && (username == "" || k.username == username);
    }

    method Lookup(username: string, sessionId: string, now: Instant) returns (v: Option<View>)
      requires Valid()
      modifies `chats
      ensures Valid() && chats == Prune(old(chats), expiresAfter, now)
      ensures var k := ChatKey(username, sessionId);
              v == if k in chats then Some(View(username, sessionId, chats[k].startedAt, chats[k].updatedAt, chats[k].running)) else None
    {
      var changed := PruneLocked(now);
      var k := ChatKey(username, sessionId);
      v := if k in chats then Some(ViewOf(k, chats[k])) else None;
    }
  }
}
