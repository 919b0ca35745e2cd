/** The activity tracker's rules: leases of turns and chats, bounded bookkeeping, eviction. */
module ActivityModel {
  import opened Common

  const MAX_ID_LENGTH := 128
  const MAX_CHATS_PER_USER := 64
  const MAX_CHATS := 2048
  const MAX_TURNS := 32
  const SCHEMA_VERSION := 1

  datatype ChatKey = ChatKey(username: string, sessionId: string)

  /** One session. `overflowAt` is the saturation lease; the zero instant means it is unset. */
  datatype Chat = Chat(startedAt: Instant, updatedAt: Instant, running: bool,
                       turns: map<string, Instant>, overflowAt: Instant)

  type Chats = map<ChatKey, Chat>

  datatype Action = SessionStart | Start | Refresh | EndTurn | EndSession

  datatype Event = Event(schemaVersion: int, action: Action, sessionId: string, turnId: string)

  // ----- event validation -----

  predicate IdChar(c: char) {
    'a' <= c <= 'z' || 'A' <= c <= 'Z' || '0' <= c <= '9' || c in {'-', '_', '.', ':'}
  }

  predicate ValidOpaqueId(value: string) {
    value != "" && |value| <= MAX_ID_LENGTH && forall i :: 0 <= i < |value| ==> IdChar(value[i])
  }

  predicate ValidEvent(e: Event) {
    && e.schemaVersion == SCHEMA_VERSION && ValidOpaqueId(e.sessionId)
    && (if e.action in {Start, Refresh, EndTurn} then ValidOpaqueId(e.turnId) else e.turnId == "")
  }

  // ----- leases -----

  predicate Expired(at: Instant, lease: int, now: Instant) {
    now >= at + lease
  }

  predicate Busy(c: Chat) {
    c.turns != map[] || !IsZero(c.overflowAt)
  }

  function LiveTurns(turns: map<string, Instant>, lease: int, now: Instant): map<string, Instant> {
    map t | t in turns && !Expired(turns[t], lease, now) :: turns[t]
  }

  function LiveOverflow(at: Instant, lease: int, now: Instant): Instant {
    if !IsZero(at) && Expired(at, lease, now) then 0 else at
  }

  /** One chat after its expired turns and saturation lease are dropped. */
  function PruneChat(c: Chat, lease: int, now: Instant): Chat {
    var d := c.(turns := LiveTurns(c.turns, lease, now), overflowAt := LiveOverflow(c.overflowAt, lease, now));
    d.(running := Busy(d))
  }

  predicate IdleExpired(c: Chat, lease: int, now: Instant) {
    !c.running && Expired(c.updatedAt, lease, now)
  }

  predicate Stays(c: Chat, lease: int, now: Instant) {
    !IdleExpired(PruneChat(c, lease, now), lease, now)
  }

  function Prune(s: Chats, lease: int, now: Instant): Chats {
    map k | k in s && Stays(s[k], lease, now) :: PruneChat(s[k], lease, now)
  }

  /** Whether pruning drops a turn, a saturation lease or a chat. */
  predicate DropsFrom(c: Chat, lease: int, now: Instant) {
    || LiveTurns(c.turns, lease, now) != c.turns
    || LiveOverflow(c.overflowAt, lease, now) != c.overflowAt
    || !Stays(c, lease, now)
  }

  predicate PruneDrops(s: Chats, lease: int, now: Instant) {
    exists k :: k in s && DropsFrom(s[k], lease, now)
  }

  // ----- eviction -----

  /** Which of two chats is given up first: idle before running, then the one touched longest ago. */
  predicate Older(a: Chat, ak: ChatKey, b: Chat, bk: ChatKey) {
    if a.running != b.running then !a.running
    else if a.updatedAt != b.updatedAt then a.updatedAt < b.updatedAt
    else if a.startedAt != b.startedAt then a.startedAt < b.startedAt
    else if ak.username != bk.username then LexLess(ak.username, bk.username)
    else LexLess(ak.sessionId, bk.sessionId)
  }

  /** The chats of one user; the empty name stands for everyone. */
  function ChatsOf(s: Chats, username: string): set<ChatKey> {
    set k | k in s && (username == "" || k.username == username)
  }

  predicate IsVictim(s: Chats, keys: set<ChatKey>, k: ChatKey) {
    k in keys && keys <= s.Keys && forall j :: j in keys && j != k ==> Older(s[k], k, s[j], j)
  }

  lemma OlderTotal(a: Chat, ak: ChatKey, b: Chat, bk: ChatKey)
    requires ak != bk
    ensures Older(a, ak, b, bk) != Older(b, bk, a, ak)
  {
    LexTotal(ak.username, bk.username);
    LexTotal(ak.sessionId, bk.sessionId);
    hide LexLess;
  }

  lemma OlderIrreflexive(a: Chat, ak: ChatKey)
    ensures !Older(a, ak, a, ak)
  {
    LexTotal(ak.sessionId, ak.sessionId);
  }

  lemma OlderTransitive(a: Chat, ak: ChatKey, b: Chat, bk: ChatKey, c: Chat, ck: ChatKey)
    requires Older(a, ak, b, bk) && Older(b, bk, c, ck)
    ensures Older(a, ak, c, ck)
  {
    hide LexLess;
    LexTotal(ak.username, bk.username);
    LexTotal(bk.username, ck.username);
    LexTotal(ak.username, ck.username);
    if LexLess(ak.username, bk.username) && LexLess(bk.username, ck.username) {
      LexTransitive(ak.username, bk.username, ck.username);
    }
    if LexLess(ak.sessionId, bk.sessionId) && LexLess(bk.sessionId, ck.sessionId) {
      LexTransitive(ak.sessionId, bk.sessionId, ck.sessionId);
    }
  }

  lemma {:induction false} VictimExists(s: Chats, keys: set<ChatKey>)
    requires keys != {} && keys <= s.Keys
    ensures exists k :: IsVictim(s, keys, k)
    decreases |keys|
  {
    hide Older;
    var j :| j in keys;
    var rest := keys - {j};
    if rest == {} {
      assert keys == {j};
      assert IsVictim(s, keys, j);
    } else {
      VictimExists(s, rest);
      var k :| IsVictim(s, rest, k);
      OlderTotal(s[j], j, s[k], k);
      if Older(s[k], k, s[j], j) {
        assert IsVictim(s, keys, k);
      } else {
        forall i | i in keys && i != j ensures Older(s[j], j, s[i], i) {
          if i != k { OlderTransitive(s[j], j, s[k], k, s[i], i); }
        }
        assert IsVictim(s, keys, j);
      }
    }
  }

  /** There is never a choice of victim. */
  lemma VictimUnique(s: Chats, keys: set<ChatKey>, j: ChatKey, k: ChatKey)
    requires IsVictim(s, keys, j) && IsVictim(s, keys, k)
    ensures j == k
  {
    if j != k { OlderTotal(s[j], j, s[k], k); }
    hide Older;
  }

  ghost function Victim(s: Chats, keys: set<ChatKey>): (k: ChatKey)
    requires keys != {} && keys <= s.Keys
    ensures IsVictim(s, keys, k)
  {
    VictimExists(s, keys);
    var k :| IsVictim(s, keys, k);
    k
  }

  /** Evicting until fewer than `limit` chats of the user are left. */
  ghost function Evict(s: Chats, username: string, limit: nat): (r: Chats)
    requires limit > 0
    ensures r.Keys <= s.Keys && forall k :: k in r ==> r[k] == s[k]
    decreases |ChatsOf(s, username)|
  {
    var keys := ChatsOf(s, username);
    if |keys| < limit then s
    else
      var k := Victim(s, keys);
      assert ChatsOf(s - {k}, username) == keys - {k};
      Evict(s - {k}, username, limit)
  }

  ghost function MakeRoom(s: Chats, username: string): Chats {
    Evict(Evict(s, username, MAX_CHATS_PER_USER), "", MAX_CHATS)
  }

  // ----- events -----

  ghost function Ensured(s: Chats, k: ChatKey, now: Instant): Chats {
    if k in s then s else MakeRoom(s, k.username)[k := Chat(now, now, false, map[], 0)]
  }

  /** Recording a turn as running: in place, in a free slot, or in the saturation lease. */
  function MarkTurn(c: Chat, turn: string, now: Instant): Chat {
    if turn in c.turns || |c.turns| < MAX_TURNS then c.(turns := c.turns[turn := now])
    else c.(overflowAt := now)
  }

  function Touched(c: Chat, e: Event, now: Instant): Chat {
    match e.action
    case SessionStart => c.(updatedAt := now)
    case Start => MarkTurn(c, e.turnId, now).(updatedAt := now, running := true)
    case Refresh => MarkTurn(c, e.turnId, now).(updatedAt := now, running := true)
    case EndTurn =>
      var d := c.(turns := c.turns - {e.turnId}, updatedAt := now);
      d.(running := Busy(d))
    case EndSession => c
  }

  /** One accepted event of a user. */
  ghost function Apply(s: Chats, lease: int, now: Instant, username: string, e: Event): Chats {
    var k := ChatKey(username, e.sessionId);
    var pruned := Prune(s, lease, now);
    if e.action.EndSession? then pruned - {k}
    else
      var ready := Ensured(pruned, k, now);
      ready[k := Touched(ready[k], e, now)]
  }

  // ----- the next expiry -----

  /** The instants at which one of a chat's leases runs out. */
  function Deadlines(c: Chat, lease: int): set<Instant> {
    if !Busy(c) then {c.updatedAt + lease}
    else (set t | t in c.turns :: c.turns[t] + lease) + (if IsZero(c.overflowAt) then {} else {c.overflowAt + lease})
  }

  predicate IsNextExpiry(s: Chats, lease: int, next: Instant) {
    && (exists k :: k in s && next in Deadlines(s[k], lease))
    && forall k, d :: k in s && d in Deadlines(s[k], lease) ==> next <= d
  }
}
