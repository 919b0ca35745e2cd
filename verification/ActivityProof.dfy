/** What the activity rules guarantee over whole runs. */
module ActivityProof {
  import opened Common
  import opened ActivityModel

  // ----- pruning is invisible -----

  lemma PruneChatTwice(c: Chat, lease: int, t1: Instant, t2: Instant)
    requires t1 <= t2
    ensures PruneChat(PruneChat(c, lease, t1), lease, t2) == PruneChat(c, lease, t2)
    ensures Stays(c, lease, t2) ==> Stays(c, lease, t1)
    ensures Stays(PruneChat(c, lease, t1), lease, t2) <==> Stays(c, lease, t2)
  {
    LiveTurnsTwice(c.turns, lease, t1, t2);
    hide LiveTurns;
    assert LiveTurns(c.turns, lease, t1) == map[] ==> LiveTurns(c.turns, lease, t2) == map[];
  }

  lemma LiveTurnsTwice(turns: map<string, Instant>, lease: int, t1: Instant, t2: Instant)
    requires t1 <= t2
    ensures LiveTurns(LiveTurns(turns, lease, t1), lease, t2) == LiveTurns(turns, lease, t2)
    ensures LiveTurns(turns, lease, t1) == map[] ==> LiveTurns(turns, lease, t2) == map[]
  {
    var a, b := LiveTurns(turns, lease, t1), LiveTurns(turns, lease, t2);
    assert b.Keys <= a.Keys;
  }

  /** Pruning at an earlier time first changes nothing. */
  lemma PruneTwice(s: Chats, lease: int, t1: Instant, t2: Instant)
    requires t1 <= t2
    ensures Prune(Prune(s, lease, t1), lease, t2) == Prune(s, lease, t2)
  {
    hide PruneChat, Stays;
    forall k | k in s
      ensures PruneChat(PruneChat(s[k], lease, t1), lease, t2) == PruneChat(s[k], lease, t2)
              && (Stays(s[k], lease, t2) ==> Stays(s[k], lease, t1))
              && (Stays(PruneChat(s[k], lease, t1), lease, t2) <==> Stays(s[k], lease, t2))
    {
      PruneChatTwice(s[k], lease, t1, t2);
    }
  }

  /** What happens to the tracker: an accepted event of a user, or a pruning by a read or the timer. */
  datatype Op = Handle(now: Instant, username: string, event: Event) | Read(now: Instant)

  ghost function Step(s: Chats, lease: int, op: Op): Chats {
    match op
    case Handle(now, username, e) => Apply(s, lease, now, username, e)
    case Read(now) => Prune(s, lease, now)
  }

  ghost function Run(s: Chats, lease: int, ops: seq<Op>): Chats {
    if ops == [] then s else Step(Run(s, lease, ops[..|ops| - 1]), lease, ops[|ops| - 1])
  }

  /** The clock never runs backwards. */
  predicate InOrder(ops: seq<Op>, t: Instant) {
    (forall i :: 0 <= i < |ops| ==> t <= ops[i].now) &&
    forall i, j :: 0 <= i < j < |ops| ==> ops[i].now <= ops[j].now
  }

  function EventsOf(ops: seq<Op>): seq<Op> {
    if ops == [] then []
    else EventsOf(ops[..|ops| - 1]) + (if ops[|ops| - 1].Handle? then [ops[|ops| - 1]] else [])
  }

  function Last(ops: seq<Op>, t: Instant): Instant {
    if ops == [] then t else ops[|ops| - 1].now
  }

  /** Every pruning in a run, by whatever read or timer, can be left out: at any time from the last
      operation on, a pruned view of the state is the same as if only the events had happened. */
  lemma {:induction false} PruningIsInvisible(s: Chats, lease: int, ops: seq<Op>, t: Instant, later: Instant)
    requires InOrder(ops, t) && Last(ops, t) <= later
    ensures Prune(Run(s, lease, ops), lease, later) == Prune(Run(s, lease, EventsOf(ops)), lease, later)
  {
    hide Apply, Prune, Evict;
    if ops != [] {
      var front, op := ops[..|ops| - 1], ops[|ops| - 1];
      assert InOrder(front, t) && Last(front, t) <= op.now;
      PruningIsInvisible(s, lease, front, t, op.now);
      var a, b := Run(s, lease, front), Run(s, lease, EventsOf(front));
      if op.Handle? {
        var events := EventsOf(front) + [op];
        assert events[..|events| - 1] == EventsOf(front);
        SamePrunedSameResult(a, b, lease, op.now, op.username, op.event);
      } else {
        assert EventsOf(ops) == EventsOf(front);
        PruneTwice(a, lease, op.now, later);
        PruneTwice(b, lease, op.now, later);
      }
    }
  }

  /** An event depends on the state only through its pruning at the event's time. */
  lemma SamePrunedSameResult(a: Chats, b: Chats, lease: int, now: Instant, username: string, e: Event)
    requires Prune(a, lease, now) == Prune(b, lease, now)
    ensures Apply(a, lease, now, username, e) == Apply(b, lease, now, username, e)
  {
    hide Prune, Ensured, Touched;
  }

  // ----- bounds -----

  /** The state between operations: consistent flags, bounded turns, times that have happened. */
  predicate ChatInv(c: Chat, now: Instant) {
    && c.running == Busy(c) && |c.turns| <= MAX_TURNS && 0 < c.startedAt <= c.updatedAt <= now
    && 0 <= c.overflowAt <= now && forall t :: t in c.turns ==> 0 < c.turns[t] <= now
  }

  ghost predicate Bounded(s: Chats) {
    |s| <= MAX_CHATS && forall u :: u != "" ==> |ChatsOf(s, u)| <= MAX_CHATS_PER_USER
  }

  predicate StateInv(s: Chats, now: Instant) {
    forall k :: k in s ==> ChatInv(s[k], now) && k.username != ""
  }

  lemma LiveTurnsSize(turns: map<string, Instant>, lease: int, now: Instant)
    ensures |LiveTurns(turns, lease, now)| <= |turns|
  {
    SubsetSize(LiveTurns(turns, lease, now).Keys, turns.Keys);
  }

  lemma PruneChatKeeps(c: Chat, lease: int, t: Instant, now: Instant)
    requires ChatInv(c, t)
    ensures ChatInv(PruneChat(c, lease, now), t)
    ensures t <= now ==> ChatInv(PruneChat(c, lease, now), now)
  {
    LiveTurnsSize(c.turns, lease, now);
  }

  lemma PruneKeeps(s: Chats, lease: int, t: Instant, now: Instant)
    requires StateInv(s, t)
    ensures StateInv(Prune(s, lease, now), t) && (t <= now ==> StateInv(Prune(s, lease, now), now))
    ensures Prune(s, lease, now).Keys <= s.Keys
  {
    forall k | k in Prune(s, lease, now)
      ensures ChatInv(Prune(s, lease, now)[k], t) && (t <= now ==> ChatInv(Prune(s, lease, now)[k], now))
    {
      PruneChatKeeps(s[k], lease, t, now);
    }
    hide ChatInv;
  }

  lemma FewerStaysBounded(s: Chats, r: Chats)
    requires Bounded(s) && r.Keys <= s.Keys
    ensures Bounded(r)
  {
    SubsetSize(r.Keys, s.Keys);
    forall u | u != "" ensures |ChatsOf(r, u)| <= MAX_CHATS_PER_USER {
      SubsetSize(ChatsOf(r, u), ChatsOf(s, u));
    }
  }

  lemma {:induction false} EvictLeaves(s: Chats, username: string, limit: nat)
    requires limit > 0
    ensures |ChatsOf(Evict(s, username, limit), username)| < limit
    ensures |ChatsOf(s, username)| < limit ==> Evict(s, username, limit) == s
    decreases |ChatsOf(s, username)|
  {
    var keys := ChatsOf(s, username);
    if |keys| >= limit {
      var k := Victim(s, keys);
      assert ChatsOf(s - {k}, username) == keys - {k};
      EvictLeaves(s - {k}, username, limit);
    }
  }

  /** Eviction gives up a chat only after every older chat of its scope: whatever it drops is older
      than whatever it keeps. */
  lemma {:induction false} EvictDropsOldest(s: Chats, username: string, limit: nat, gone: ChatKey, kept: ChatKey)
    requires limit > 0 && gone in s && gone !in Evict(s, username, limit)
    requires kept in Evict(s, username, limit) && kept in ChatsOf(s, username)
    ensures gone in ChatsOf(s, username) && Older(s[gone], gone, s[kept], kept)
    decreases |ChatsOf(s, username)|
  {
    hide Older;
    var keys := ChatsOf(s, username);
    var k := Victim(s, keys);
    assert ChatsOf(s - {k}, username) == keys - {k};
    if gone != k {
      EvictDropsOldest(s - {k}, username, limit, gone, kept);
    }
  }

  lemma MakeRoomLeaves(s: Chats, username: string)
    requires username != "" && Bounded(s)
    ensures var r := MakeRoom(s, username);
            && r.Keys <= s.Keys && (forall k :: k in r ==> r[k] == s[k])
            && |ChatsOf(r, username)| < MAX_CHATS_PER_USER && |r| < MAX_CHATS
  {
    var first := Evict(s, username, MAX_CHATS_PER_USER);
    EvictLeaves(s, username, MAX_CHATS_PER_USER);
    EvictLeaves(first, "", MAX_CHATS);
    var r := MakeRoom(s, username);
    SubsetSize(ChatsOf(r, username), ChatsOf(first, username));
    assert ChatsOf(r, "") == r.Keys;
    hide Evict;
  }

  lemma ChatsOfAdded(room: Chats, k: ChatKey, c: Chat, u: string)
    requires k !in room && u != ""
    ensures ChatsOf(room[k := c], u) == ChatsOf(room, u) + (if u == k.username then {k} else {})
  {
  }

  lemma AddedStaysBounded(room: Chats, k: ChatKey, c: Chat)
    requires Bounded(room) && |ChatsOf(room, k.username)| < MAX_CHATS_PER_USER && |room| < MAX_CHATS && k !in room
    ensures Bounded(room[k := c])
  {
    hide ChatsOf;
    var r := room[k := c];
    forall u | u != "" ensures |ChatsOf(r, u)| <= MAX_CHATS_PER_USER {
      ChatsOfAdded(room, k, c, u);
    }
    assert r.Keys == room.Keys + {k};
  }

  lemma EnsuredKeeps(s: Chats, k: ChatKey, now: Instant)
    requires StateInv(s, now) && Bounded(s) && k.username != "" && now > 0
    ensures var r := Ensured(s, k, now); StateInv(r, now) && Bounded(r) && k in r
  {
    hide ChatInv, MakeRoom, Bounded, ChatsOf;
    if k !in s {
      MakeRoomLeaves(s, k.username);
      var room := MakeRoom(s, k.username);
      FewerStaysBounded(s, room);
      NewChatInv(now);
      AddedStaysBounded(room, k, Chat(now, now, false, map[], 0));
    }
  }

  lemma NewChatInv(now: Instant)
    requires now > 0
    ensures ChatInv(Chat(now, now, false, map[], 0), now)
  {
  }

  lemma TouchedKeeps(c: Chat, e: Event, now: Instant)
    requires ChatInv(c, now) && now > 0
    ensures ChatInv(Touched(c, e, now), now)
  {
    match e.action
    case SessionStart =>
    case Start => MarkKeeps(c, e.turnId, now);
    case Refresh => MarkKeeps(c, e.turnId, now);
    case EndTurn => SubsetSize((c.turns - {e.turnId}).Keys, c.turns.Keys);
    case EndSession =>
  }

  lemma TouchedAt(c: Chat, e: Event, now: Instant)
    requires !e.action.EndSession?
    ensures Touched(c, e, now).updatedAt == now
  {
  }

  lemma MarkKeeps(c: Chat, turn: string, now: Instant)
    requires ChatInv(c, now) && now > 0
    ensures ChatInv(MarkTurn(c, turn, now).(updatedAt := now, running := true), now)
  {
    var d := MarkTurn(c, turn, now);
    if turn in c.turns || |c.turns| < MAX_TURNS {
      assert d.turns.Keys == c.turns.Keys + {turn};
      assert turn in d.turns;
    }
  }

  /** Every event keeps the state consistent and inside its bounds, and the chat it is about, unless
      it ends the session, is present afterwards and bears the event's time. */
  lemma ApplyKeeps(s: Chats, lease: int, t: Instant, now: Instant, username: string, e: Event)
    requires StateInv(s, t) && Bounded(s) && t <= now && now > 0 && username != ""
    ensures var r := Apply(s, lease, now, username, e);
            && StateInv(r, now) && Bounded(r)
            && (!e.action.EndSession? ==> ChatKey(username, e.sessionId) in r && r[ChatKey(username, e.sessionId)].updatedAt == now)
            && (e.action.EndSession? ==> ChatKey(username, e.sessionId) !in r)
  {
    hide ChatInv, Prune, Ensured, Bounded;
    var k := ChatKey(username, e.sessionId);
    var pruned := Prune(s, lease, now);
    PruneKeeps(s, lease, t, now);
    FewerStaysBounded(s, pruned);
    if e.action.EndSession? {
      FewerStaysBounded(pruned, pruned - {k});
    } else {
      EnsuredKeeps(pruned, k, now);
      var ready := Ensured(pruned, k, now);
      TouchedKeeps(ready[k], e, now);
      TouchedAt(ready[k], e, now);
      hide Touched;
      var r := ready[k := Touched(ready[k], e, now)];
      assert r.Keys == ready.Keys;
      FewerStaysBounded(ready, r);
    }
  }

  /** A chat that is there before and after an event started when it started: no event moves a session's
      beginning. A session that was not there before begins with the event. */
  lemma StartIsStable(s: Chats, lease: int, now: Instant, username: string, e: Event, k: ChatKey)
    requires !e.action.EndSession? && k in Apply(s, lease, now, username, e)
    ensures k in Prune(s, lease, now) ==> Apply(s, lease, now, username, e)[k].startedAt == s[k].startedAt
    ensures k !in Prune(s, lease, now) ==>
              k == ChatKey(username, e.sessionId) && Apply(s, lease, now, username, e)[k].startedAt == now
  {
    hide Stays, Evict, MarkTurn, Ensured;
    var own := ChatKey(username, e.sessionId);
    var pruned := Prune(s, lease, now);
    EnsuredOnlyAdds(pruned, own, now);
    var ready := Ensured(pruned, own, now);
    EnsuredKeepsOwn(pruned, own, now);
    MarkKeepsStart(ready[own], e.turnId, now);
  }

  lemma MarkKeepsStart(c: Chat, turn: string, now: Instant)
    ensures MarkTurn(c, turn, now).startedAt == c.startedAt
  {
  }

  lemma EnsuredKeepsOwn(s: Chats, k: ChatKey, now: Instant)
    ensures k in Ensured(s, k, now) && (k in s ==> Ensured(s, k, now) == s)
  {
    hide Evict;
  }

  /** Usernames of trusted peers are never empty. */
  predicate Trusted(ops: seq<Op>) {
    forall op :: op in ops && op.Handle? ==> op.username != "" && ValidEvent(op.event)
  }

  lemma {:induction false} RunKeeps(lease: int, ops: seq<Op>, t: Instant)
    requires InOrder(ops, t) && Trusted(ops) && t > 0
    ensures var s := Run(map[], lease, ops); StateInv(s, Last(ops, t)) && Bounded(s)
  {
    hide Apply, Prune, ValidEvent, StateInv;
    if ops == [] {
      EmptyInv(t);
    } else {
      var front, op := ops[..|ops| - 1], ops[|ops| - 1];
      assert op in ops && forall x :: x in front ==> x in ops;
      RunKeeps(lease, front, t);
      var s := Run(map[], lease, front);
      if op.Handle? {
        ApplyKeeps(s, lease, Last(front, t), op.now, op.username, op.event);
      } else {
        PruneKeeps(s, lease, Last(front, t), op.now);
        FewerStaysBounded(s, Prune(s, lease, op.now));
      }
    }
  }

  lemma EmptyInv(t: Instant)
    ensures StateInv(map[], t) && Bounded(map[])
  {
    forall u ensures |ChatsOf(map[], u)| == 0 { assert ChatsOf(map[], u) == {}; }
  }

  // ----- the timer -----

  lemma ChatBeforeDeadline(c: Chat, lease: int, now: Instant)
    requires c.running == Busy(c) && forall d :: d in Deadlines(c, lease) ==> now < d
    ensures PruneChat(c, lease, now) == c && Stays(c, lease, now) && !DropsFrom(c, lease, now)
  {
    if c.turns != map[] || !IsZero(c.overflowAt) {
      forall t | t in c.turns ensures now < c.turns[t] + lease {
        assert c.turns[t] + lease in Deadlines(c, lease);
      }
      assert !IsZero(c.overflowAt) ==> c.overflowAt + lease in Deadlines(c, lease);
    } else {
      assert c.updatedAt + lease in Deadlines(c, lease);
    }
    assert LiveTurns(c.turns, lease, now) == c.turns;
  }

  lemma ChatAtDeadline(c: Chat, lease: int, now: Instant)
    requires c.running == Busy(c) && now in Deadlines(c, lease)
    ensures DropsFrom(c, lease, now) && (Stays(c, lease, now) ==> PruneChat(c, lease, now) != c)
  {
    if Busy(c) {
      if t :| t in c.turns && c.turns[t] + lease == now {
        assert t !in LiveTurns(c.turns, lease, now);
      }
    }
  }

  /** The timer's deadline is the first instant at which pruning changes anything. */
  lemma NextExpiryExact(s: Chats, lease: int, t: Instant, next: Instant)
    requires StateInv(s, t) && IsNextExpiry(s, lease, next)
    ensures forall now :: now < next ==> Prune(s, lease, now) == s && !PruneDrops(s, lease, now)
    ensures PruneDrops(s, lease, next) && Prune(s, lease, next) != s
  {
    hide DropsFrom, PruneChat, Stays, Deadlines;
    forall now | now < next ensures Prune(s, lease, now) == s && !PruneDrops(s, lease, now) {
      forall k | k in s ensures PruneChat(s[k], lease, now) == s[k] && Stays(s[k], lease, now) && !DropsFrom(s[k], lease, now) {
        assert ChatInv(s[k], t);
        ChatBeforeDeadline(s[k], lease, now);
      }
    }
    var k :| k in s && next in Deadlines(s[k], lease);
    assert ChatInv(s[k], t);
    ChatAtDeadline(s[k], lease, next);
  }

  // ----- bounded bookkeeping simulates unbounded bookkeeping -----

  /** A chat as an unbounded tracker would keep it: every turn that was started or refreshed, not
      ended and not past its lease, and the time of the latest start or refresh. */
  datatype RefChat = RefChat(turns: map<string, Instant>, lastWork: Instant)

  type Refs = map<ChatKey, RefChat>

  /** Pruning the reference; the chats the bounded tracker no longer has are forgotten with it. */
  function RefPrune(r: Refs, lease: int, now: Instant, kept: set<ChatKey>): Refs {
    map k | k in r && k in kept :: r[k].(turns := LiveTurns(r[k].turns, lease, now))
  }

  function RefTouched(c: RefChat, e: Event, now: Instant): RefChat {
    match e.action
    case SessionStart => c
    case Start => RefChat(c.turns[e.turnId := now], now)
    case Refresh => RefChat(c.turns[e.turnId := now], now)
    case EndTurn => c.(turns := c.turns - {e.turnId})
    case EndSession => c
  }

  ghost function RefStep(r: Refs, s: Chats, lease: int, op: Op): Refs {
    var pruned := RefPrune(r, lease, op.now, Prune(s, lease, op.now).Keys);
    match op
    case Read(_) => pruned
    case Handle(now, username, e) =>
      var k := ChatKey(username, e.sessionId);
      var c := if k in pruned then pruned[k] else RefChat(map[], 0);
      var updated := pruned[k := RefTouched(c, e, now)];
      map j | j in updated && j in Step(s, lease, op) :: updated[j]
  }

  ghost function RefRun(lease: int, ops: seq<Op>): Refs {
    if ops == [] then map[]
    else RefStep(RefRun(lease, ops[..|ops| - 1]), Run(map[], lease, ops[..|ops| - 1]), lease, ops[|ops| - 1])
  }

  /** Tracked turns carry their true times; an untracked turn was never refreshed after the
      saturation lease; nothing is later than the latest start or refresh. */
  predicate Simulates(c: Chat, r: RefChat) {
    && (forall t :: t in c.turns ==> t in r.turns && r.turns[t] == c.turns[t] && c.turns[t] <= r.lastWork)
    && (forall t :: t in r.turns ==> t in c.turns || (!IsZero(c.overflowAt) && r.turns[t] <= c.overflowAt))
    && c.overflowAt <= r.lastWork && 0 <= r.lastWork
  }

  predicate AllSimulate(s: Chats, r: Refs) {
    r.Keys == s.Keys && forall k :: k in s ==> Simulates(s[k], r[k])
  }

  lemma PruneSimulates(c: Chat, r: RefChat, lease: int, now: Instant)
    requires Simulates(c, r)
    ensures Simulates(PruneChat(c, lease, now), r.(turns := LiveTurns(r.turns, lease, now)))
  {
  }

  lemma TouchSimulates(c: Chat, r: RefChat, e: Event, now: Instant)
    requires Simulates(c, r) && ChatInv(c, now) && now > 0
    ensures Simulates(Touched(c, e, now), RefTouched(r, e, now))
  {
  }

  lemma StepSimulates(s: Chats, r: Refs, lease: int, t: Instant, op: Op)
    requires AllSimulate(s, r) && StateInv(s, t) && Bounded(s) && t <= op.now && op.now > 0
    requires op.Handle? ==> op.username != ""
    ensures AllSimulate(Step(s, lease, op), RefStep(r, s, lease, op))
  {
    hide ChatInv, Simulates, PruneChat, Stays, LiveTurns;
    var now := op.now;
    var pruned := Prune(s, lease, now);
    var refs := RefPrune(r, lease, now, pruned.Keys);
    forall k | k in pruned ensures k in refs && Simulates(pruned[k], refs[k]) {
      PruneSimulates(s[k], r[k], lease, now);
    }
    PruneKeeps(s, lease, t, now);
    FewerStaysBounded(s, pruned);
    if op.Handle? && !op.event.action.EndSession? {
      HandleSimulates(pruned, refs, now, ChatKey(op.username, op.event.sessionId), op.event);
    }
  }

  lemma HandleSimulates(pruned: Chats, refs: Refs, now: Instant, k: ChatKey, e: Event)
    requires AllSimulate(pruned, refs) && StateInv(pruned, now) && Bounded(pruned) && now > 0 && k.username != ""
    ensures var ready := Ensured(pruned, k, now);
            var after := ready[k := Touched(ready[k], e, now)];
            var updated := refs[k := RefTouched(if k in refs then refs[k] else RefChat(map[], 0), e, now)];
            after.Keys <= updated.Keys && forall j :: j in after ==> Simulates(after[j], updated[j])
  {
    hide ChatInv, Simulates, Evict;
    EnsuredKeeps(pruned, k, now);
    var ready := Ensured(pruned, k, now);
    NewSimulates(now);
    TouchSimulates(ready[k], if k in refs then refs[k] else RefChat(map[], 0), e, now);
    if k !in pruned { MakeRoomLeaves(pruned, k.username); }
  }

  lemma NewSimulates(now: Instant)
    ensures Simulates(Chat(now, now, false, map[], 0), RefChat(map[], 0))
  {
  }

  lemma {:induction false} RunSimulates(lease: int, ops: seq<Op>, t: Instant)
    requires InOrder(ops, t) && Trusted(ops) && t > 0
    ensures AllSimulate(Run(map[], lease, ops), RefRun(lease, ops))
  {
    hide Step, RefStep, ValidEvent, StateInv, Simulates;
    if ops != [] {
      var front, op := ops[..|ops| - 1], ops[|ops| - 1];
      assert op in ops && forall x :: x in front ==> x in ops;
      RunSimulates(lease, front, t);
      RunKeeps(lease, front, t);
      StepSimulates(Run(map[], lease, front), RefRun(lease, front), lease, Last(front, t), op);
    }
  }

  /** Right after any operation at time `now`: a chat with a turn that is neither ended nor past its
      lease is shown running; a chat shown running had a start or refresh within one lease; and
      while the saturation lease is unset the two bookkeepings agree exactly. */
  lemma RunningIsRight(lease: int, ops: seq<Op>, t: Instant, k: ChatKey)
    requires InOrder(ops, t) && Trusted(ops) && t > 0 && ops != [] && lease > 0
    requires k in Run(map[], lease, ops)
    ensures k in RefRun(lease, ops)
    ensures var c, r, now := Run(map[], lease, ops)[k], RefRun(lease, ops)[k], ops[|ops| - 1].now;
            && (r.turns != map[] ==> c.running)
            && (c.running ==> now < r.lastWork + lease)
            && (IsZero(c.overflowAt) ==> c.turns == r.turns && (c.running <==> r.turns != map[]))
  {
    RunSimulates(lease, ops, t);
    RunKeeps(lease, ops, t);
    RunFresh(lease, ops, k);
    var c, r := Run(map[], lease, ops)[k], RefRun(lease, ops)[k];
    assert ChatInv(c, Last(ops, t));
    hide Run, RefRun;
    AgreeWhenUnsaturated(c, r);
    if c.turns != map[] { var x :| x in c.turns; }
  }

  lemma AgreeWhenUnsaturated(c: Chat, r: RefChat)
    requires Simulates(c, r)
    ensures IsZero(c.overflowAt) ==> c.turns == r.turns
    ensures r.turns != map[] ==> Busy(c)
  {
    if r.turns != map[] { var t :| t in r.turns; }
  }

  /** In the reference the chat never has more than 32 turns at once. */
  ghost predicate WithinSlots(lease: int, ops: seq<Op>, k: ChatKey) {
    forall n :: 0 <= n <= |ops| && k in RefRun(lease, ops[..n]) ==> |RefRun(lease, ops[..n])[k].turns| <= 32
  }

  /** The saturation lease is a last resort: unless the reference once had more than 32 turns, it is
      unset and the tracked turns are the reference's. */
  lemma {:induction false} NeverSaturated(lease: int, ops: seq<Op>, t: Instant, k: ChatKey)
    requires InOrder(ops, t) && Trusted(ops) && t > 0 && WithinSlots(lease, ops, k) && k in Run(map[], lease, ops)
    ensures k in RefRun(lease, ops)
    ensures var c, r := Run(map[], lease, ops)[k], RefRun(lease, ops)[k];
            IsZero(c.overflowAt) && c.turns == r.turns && (c.running <==> r.turns != map[])
  {
    hide Step, RefStep, ValidEvent, Simulates, ChatInv, Bounded;
    RunSimulates(lease, ops, t);
    RunKeeps(lease, ops, t);
    var c, r := Run(map[], lease, ops)[k], RefRun(lease, ops)[k];
    var front, op := ops[..|ops| - 1], ops[|ops| - 1];
    assert op in ops && forall x :: x in front ==> x in ops;
    RunSimulates(lease, front, t);
    RunKeeps(lease, front, t);
    forall n | 0 <= n <= |front| && k in RefRun(lease, front[..n])
      ensures |RefRun(lease, front[..n])[k].turns| <= 32
    {
      assert front[..n] == ops[..n];
    }
    assert ops[..|ops|] == ops && |r.turns| <= 32;
    var s, refs := Run(map[], lease, front), RefRun(lease, front);
    if k in s { NeverSaturated(lease, front, t, k); }
    StepUnsaturated(s, refs, lease, Last(front, t), op, k);
    AgreeWhenUnsaturated(c, r);
    assert ChatInv(c, Last(ops, t));
    AgreeOnRunning(c, Last(ops, t));
  }

  lemma AgreeOnRunning(c: Chat, t: Instant)
    requires ChatInv(c, t) && IsZero(c.overflowAt)
    ensures c.running <==> c.turns != map[]
  {
  }

  lemma StepUnsaturated(s: Chats, refs: Refs, lease: int, t: Instant, op: Op, k: ChatKey)
    requires AllSimulate(s, refs) && StateInv(s, t) && t <= op.now && k in Step(s, lease, op) && k in RefStep(refs, s, lease, op)
    requires k in s ==> IsZero(s[k].overflowAt)
    requires |RefStep(refs, s, lease, op)[k].turns| <= 32
    ensures IsZero(Step(s, lease, op)[k].overflowAt)
  {
    hide ChatInv, Simulates, Stays, LiveTurns, Evict, Touched, RefTouched, Ensured;
    var now, pruned := op.now, Prune(s, lease, op.now);
    var kept := RefPrune(refs, lease, now, pruned.Keys);
    if op.Handle? && !op.event.action.EndSession? {
      var own := ChatKey(op.username, op.event.sessionId);
      EnsuredOnlyAdds(pruned, own, now);
      EnsuredKeepsOwn(pruned, own, now);
      if own == k {
        var c := Ensured(pruned, k, now)[k];
        var r := if k in kept then kept[k] else RefChat(map[], 0);
        NewSimulates(now);
        if k in pruned { PruneSimulates(s[k], refs[k], lease, now); }
        TouchUnsaturated(c, r, op.event, now);
      }
    }
  }

  lemma TouchUnsaturated(c: Chat, r: RefChat, e: Event, now: Instant)
    requires Simulates(c, r) && IsZero(c.overflowAt) && |RefTouched(r, e, now).turns| <= 32
    ensures IsZero(Touched(c, e, now).overflowAt)
  {
    AgreeWhenUnsaturated(c, r);
    if e.action in {Start, Refresh} && e.turnId !in c.turns {
      assert c.turns[e.turnId := now].Keys == c.turns.Keys + {e.turnId};
    }
  }

  /** The saturation lease is ever set if and only if the reference once has more than 32 turns. */
  lemma SaturatesIff(lease: int, ops: seq<Op>, t: Instant, k: ChatKey)
    requires InOrder(ops, t) && Trusted(ops) && t > 0
    ensures WithinSlots(lease, ops, k) <==>
            forall n :: 0 <= n <= |ops| && k in Run(map[], lease, ops[..n]) ==> IsZero(Run(map[], lease, ops[..n])[k].overflowAt)
  {
    hide Run, RefRun, ValidEvent, Simulates;
    forall n | 0 <= n <= |ops|
      ensures AllSimulate(Run(map[], lease, ops[..n]), RefRun(lease, ops[..n]))
      ensures StateInv(Run(map[], lease, ops[..n]), Last(ops[..n], t))
    {
      RunSimulates(lease, ops[..n], t);
      RunKeeps(lease, ops[..n], t);
    }
    if WithinSlots(lease, ops, k) {
      forall n | 0 <= n <= |ops| && k in Run(map[], lease, ops[..n]) ensures IsZero(Run(map[], lease, ops[..n])[k].overflowAt) {
        SlotsBefore(lease, ops, k, n);
        NeverSaturated(lease, ops[..n], t, k);
      }
    } else {
      var n :| 0 <= n <= |ops| && k in RefRun(lease, ops[..n]) && |RefRun(lease, ops[..n])[k].turns| > 32;
      AgreeWhenUnsaturated(Run(map[], lease, ops[..n])[k], RefRun(lease, ops[..n])[k]);
    }
  }

  lemma SlotsBefore(lease: int, ops: seq<Op>, k: ChatKey, n: nat)
    requires WithinSlots(lease, ops, k) && n <= |ops|
    ensures WithinSlots(lease, ops[..n], k)
  {
    hide RefRun;
    forall m | 0 <= m <= n && k in RefRun(lease, ops[..n][..m]) ensures |RefRun(lease, ops[..n][..m])[k].turns| <= 32 {
      assert ops[..n][..m] == ops[..m];
    }
  }

  /** Nothing a chat still tracks is past its lease. */
  predicate Fresh(c: Chat, lease: int, now: Instant) {
    && (forall t :: t in c.turns ==> now < c.turns[t] + lease)
    && (!IsZero(c.overflowAt) ==> now < c.overflowAt + lease)
  }

  lemma RunFresh(lease: int, ops: seq<Op>, k: ChatKey)
    requires ops != [] && lease > 0 && k in Run(map[], lease, ops)
    ensures Fresh(Run(map[], lease, ops)[k], lease, ops[|ops| - 1].now)
  {
    var op := ops[|ops| - 1];
    var s := Run(map[], lease, ops[..|ops| - 1]);
    var pruned := Prune(s, lease, op.now);
    forall j | j in pruned ensures Fresh(pruned[j], lease, op.now) {
      PrunedFresh(s[j], lease, op.now);
    }
    hide Fresh, Prune, Run;
    if op.Handle? && !op.event.action.EndSession? {
      var key := ChatKey(op.username, op.event.sessionId);
      var ready := Ensured(pruned, key, op.now);
      BlankFresh(lease, op.now);
      EnsuredOnlyAdds(pruned, key, op.now);
      TouchedFresh(ready[key], op.event, lease, op.now);
    }
  }

  lemma PrunedFresh(c: Chat, lease: int, now: Instant)
    ensures Fresh(PruneChat(c, lease, now), lease, now)
  {
  }

  lemma BlankFresh(lease: int, now: Instant)
    ensures Fresh(Chat(now, now, false, map[], 0), lease, now)
  {
  }

  lemma TouchedFresh(c: Chat, e: Event, lease: int, now: Instant)
    requires Fresh(c, lease, now) && lease > 0
    ensures Fresh(Touched(c, e, now), lease, now)
  {
  }

  lemma EnsuredOnlyAdds(s: Chats, k: ChatKey, now: Instant)
    ensures var r := Ensured(s, k, now);
            forall j :: j in r ==> (j in s && r[j] == s[j]) || (j == k && r[j] == Chat(now, now, false, map[], 0))
  {
    hide Evict;
  }

  /** Pruning deletes a chat only if no turn of it is left, even in unbounded bookkeeping. */
  lemma OnlyIdleChatsExpire(s: Chats, r: Refs, lease: int, now: Instant, k: ChatKey)
    requires AllSimulate(s, r) && k in s && k !in Prune(s, lease, now)
    ensures LiveTurns(r[k].turns, lease, now) == map[]
    ensures Expired(s[k].updatedAt, lease, now)
  {
    PruneSimulates(s[k], r[k], lease, now);
    AgreeWhenUnsaturated(PruneChat(s[k], lease, now), r[k].(turns := LiveTurns(r[k].turns, lease, now)));
  }
}
