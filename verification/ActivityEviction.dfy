/** What capacity pressure costs: at most one chat per event, and which one. */
module ActivityEviction {
  import opened Common
  import opened ActivityModel
  import opened ActivityProof

  /** Idle before running; then the one touched longest ago, then the one begun longest ago, then by name. */
  predicate GoesBefore(a: Chat, ak: ChatKey, b: Chat, bk: ChatKey) {
    && (a.running ==> b.running)
    && (a.running == b.running ==> a.updatedAt <= b.updatedAt)
    && (a.running == b.running && a.updatedAt == b.updatedAt ==> a.startedAt <= b.startedAt)
    && (a.running == b.running && a.updatedAt == b.updatedAt && a.startedAt == b.startedAt ==>
          FirstBelow(ak.username, bk.username) || (ak.username == bk.username && FirstBelow(ak.sessionId, bk.sessionId)))
  }

  lemma OlderGoesBefore(a: Chat, ak: ChatKey, b: Chat, bk: ChatKey)
    requires Older(a, ak, b, bk)
    ensures GoesBefore(a, ak, b, bk)
  {
    LexIsFirstDifference(ak.username, bk.username);
    LexIsFirstDifference(ak.sessionId, bk.sessionId);
    hide LexLess, FirstBelow;
  }

  /** `v` is the one chat of the scope that goes before all others of it. */
  ghost predicate Foremost(s: Chats, scope: set<ChatKey>, v: ChatKey) {
    v in scope && scope <= s.Keys && forall j :: j in scope && j != v ==> GoesBefore(s[v], v, s[j], j)
  }

  lemma EvictAtLimit(s: Chats, username: string, limit: nat)
    requires limit > 0 && |ChatsOf(s, username)| == limit
    ensures exists v :: Foremost(s, ChatsOf(s, username), v) && Evict(s, username, limit) == s - {v}
  {
    var keys := ChatsOf(s, username);
    var v := Victim(s, keys);
    assert ChatsOf(s - {v}, username) == keys - {v};
    EvictLeaves(s - {v}, username, limit);
    forall j | j in keys && j != v ensures GoesBefore(s[v], v, s[j], j) { OlderGoesBefore(s[v], v, s[j], j); }
    hide Older, GoesBefore;
    assert Foremost(s, keys, v);
  }

  /** The chats of `before` are all there, except for one of the scope that goes before the others. */
  ghost predicate LostOne(before: Chats, scope: set<ChatKey>, after: Chats) {
    exists v :: Foremost(before, scope, v) && after == before - {v}
  }

  /** Making room gives up one chat, the user's foremost, exactly when the user has 64; otherwise one chat
      of anyone's exactly when there are 2048; otherwise nothing. */
  lemma MakesRoom(s: Chats, username: string)
    requires Bounded(s) && username != ""
    ensures |ChatsOf(s, username)| == 64 ==> LostOne(s, ChatsOf(s, username), MakeRoom(s, username))
    ensures |ChatsOf(s, username)| < 64 && |s| == 2048 ==> LostOne(s, s.Keys, MakeRoom(s, username))
    ensures |ChatsOf(s, username)| < 64 && |s| < 2048 ==> MakeRoom(s, username) == s
  {
    hide Older, GoesBefore, Evict;
    assert ChatsOf(s, "") == s.Keys && |s.Keys| == |s|;
    if |ChatsOf(s, username)| == 64 {
      EvictAtLimit(s, username, 64);
      var v :| Foremost(s, ChatsOf(s, username), v) && Evict(s, username, 64) == s - {v};
      assert ChatsOf(s - {v}, "") == s.Keys - {v};
      EvictLeaves(s - {v}, "", 2048);
    } else {
      EvictLeaves(s, username, 64);
      if |s| == 2048 { EvictAtLimit(s, "", 2048); } else { EvictLeaves(s, "", 2048); }
    }
  }

  /** What an event does to the other chats: besides what pruning drops, nothing changes, except that a new
      session of a user who has 64 displaces the user's foremost, and, failing that, one that finds 2048
      displaces the foremost of all. */
  lemma OthersKept(s: Chats, lease: int, t: Instant, now: Instant, username: string, e: Event)
    requires StateInv(s, t) && Bounded(s) && t <= now && username != "" && !e.action.EndSession?
    ensures var k, p := ChatKey(username, e.sessionId), Prune(s, lease, now);
            var others := Apply(s, lease, now, username, e) - {k};
            && (k in p || (|ChatsOf(p, username)| < 64 && |p| < 2048) ==> others == p - {k})
            && (k !in p && |ChatsOf(p, username)| == 64 ==> LostOne(p, ChatsOf(p, username), others))
            && (k !in p && |ChatsOf(p, username)| < 64 && |p| == 2048 ==> LostOne(p, p.Keys, others))
            && |ChatsOf(p, username)| <= 64 && |p| <= 2048
  {
    hide ChatInv, Prune, Touched, LostOne, MakeRoom;
    var k, p := ChatKey(username, e.sessionId), Prune(s, lease, now);
    PruneKeeps(s, lease, t, now);
    FewerStaysBounded(s, p);
    if k !in p {
      MakesRoom(p, username);
      MakeRoomShrinks(p, username);
      assert Apply(s, lease, now, username, e) - {k} == MakeRoom(p, username);
    }
  }

  lemma MakeRoomShrinks(s: Chats, username: string)
    ensures MakeRoom(s, username).Keys <= s.Keys
  {
    hide Evict;
  }
}
