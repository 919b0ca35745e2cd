/** The tracker against the trace of its events: what is tracked, read off the events alone. */
module ActivityTrace {
  import opened Common
  import opened ActivityModel
  import opened ActivityProof

  // ----- what the events say -----

  predicate Concerns(op: Op, k: ChatKey) {
    op.Handle? && op.username == k.username && op.event.sessionId == k.sessionId
  }

  /** The time of the session's latest event; none before the first and after its end. */
  function Seen(ops: seq<Op>, k: ChatKey): Option<Instant> {
    if ops == [] then None
    else
      var front, op := ops[..|ops| - 1], ops[|ops| - 1];
      if !Concerns(op, k) then Seen(front, k)
      else if op.event.action.EndSession? then None
      else Some(op.now)
  }

  /** The time of the turn's latest start or refresh; none before the first and after its end. */
  function Worked(ops: seq<Op>, k: ChatKey, turn: string): Option<Instant> {
    if ops == [] then None
    else
      var front, op := ops[..|ops| - 1], ops[|ops| - 1];
      if !Concerns(op, k) then Worked(front, k, turn)
      else if op.event.action.EndSession? then None
      else if op.event.turnId != turn || op.event.action.SessionStart? then Worked(front, k, turn)
      else if op.event.action.EndTurn? then None
      else Some(op.now)
  }

  /** A lease granted at the given time, if any, still runs. */
  predicate Leased(at: Option<Instant>, lease: int, now: Instant) {
    at.Some? && now < at.value + lease
  }

  /** The event that began the session: since then no event came more than a lease after the one before. */
  function Began(ops: seq<Op>, k: ChatKey, lease: int): Option<Instant> {
    if ops == [] then None
    else
      var front, op := ops[..|ops| - 1], ops[|ops| - 1];
      if !Concerns(op, k) then Began(front, k, lease)
      else if op.event.action.EndSession? then None
      else if Leased(Seen(front, k), lease, op.now) then Began(front, k, lease)
      else Some(op.now)
  }

  function LiveSessions(ops: seq<Op>, lease: int, now: Instant): set<ChatKey> {
    set op | op in ops && op.Handle? && Leased(Seen(ops, ChatKey(op.username, op.event.sessionId)), lease, now)
      :: ChatKey(op.username, op.event.sessionId)
  }

  function SessionsOf(keys: set<ChatKey>, username: string): set<ChatKey> {
    set k | k in keys && k.username == username
  }

  function RunningTurns(ops: seq<Op>, k: ChatKey, lease: int, now: Instant): set<string> {
    set op | op in ops && op.Handle? && Leased(Worked(ops, k, op.event.turnId), lease, now) :: op.event.turnId
  }

  lemma {:induction false} SeenIsThere(ops: seq<Op>, k: ChatKey)
    requires Seen(ops, k).Some?
    ensures exists op :: op in ops && Concerns(op, k)
  {
    var front, op := ops[..|ops| - 1], ops[|ops| - 1];
    if Concerns(op, k) {
      assert op in ops;
    } else {
      SeenIsThere(front, k);
      var x :| x in front && Concerns(x, k);
      assert x in ops;
    }
  }

  lemma LiveSessionsAre(ops: seq<Op>, lease: int, now: Instant, k: ChatKey)
    ensures k in LiveSessions(ops, lease, now) <==> Leased(Seen(ops, k), lease, now)
  {
    if Leased(Seen(ops, k), lease, now) {
      SeenIsThere(ops, k);
      var op :| op in ops && Concerns(op, k);
      assert ChatKey(op.username, op.event.sessionId) == k;
    }
  }

  lemma {:induction false} WorkedIsThere(ops: seq<Op>, k: ChatKey, turn: string)
    requires Worked(ops, k, turn).Some?
    ensures exists op :: op in ops && op.Handle? && op.event.turnId == turn
  {
    var front, op := ops[..|ops| - 1], ops[|ops| - 1];
    if Concerns(op, k) && op.event.turnId == turn {
      assert op in ops;
    } else {
      WorkedIsThere(front, k, turn);
      var x :| x in front && x.Handle? && x.event.turnId == turn;
      assert x in ops;
    }
  }

  lemma RunningTurnsAre(ops: seq<Op>, k: ChatKey, lease: int, now: Instant, turn: string)
    ensures turn in RunningTurns(ops, k, lease, now) <==> Leased(Worked(ops, k, turn), lease, now)
  {
    if Leased(Worked(ops, k, turn), lease, now) { WorkedIsThere(ops, k, turn); }
  }

  /** Never more than 64 live sessions of a user, 2048 live sessions or 32 running turns of a session. */
  ghost predicate Calm(ops: seq<Op>, lease: int) {
    forall n :: 0 < n <= |ops| ==> CalmAt(ops[..n], lease, ops[n - 1].now)
  }

  ghost predicate CalmAt(ops: seq<Op>, lease: int, now: Instant) {
    && |LiveSessions(ops, lease, now)| <= 2048
    && (forall u :: |SessionsOf(LiveSessions(ops, lease, now), u)| <= 64)
    && (forall k :: |RunningTurns(ops, k, lease, now)| <= 32)
  }

  // ----- one chat -----

  /** The chat's turns are what the trace says, up to leases that have run out at `now`. */
  ghost predicate TellsTurns(c: Chat, ops: seq<Op>, k: ChatKey, lease: int, now: Instant) {
    && (forall t :: t in c.turns ==> Worked(ops, k, t) == Some(c.turns[t]) && c.turns[t] <= c.updatedAt)
    && (forall t :: t !in c.turns ==> !Leased(Worked(ops, k, t), lease, now))
  }

  /** The chat holds what the trace says, up to leases that have run out at `now`. */
  ghost predicate Tells(c: Chat, ops: seq<Op>, k: ChatKey, lease: int, now: Instant) {
    && Seen(ops, k) == Some(c.updatedAt) && Began(ops, k, lease) == Some(c.startedAt)
    && IsZero(c.overflowAt) && c.running == (c.turns != map[]) && TellsTurns(c, ops, k, lease, now)
  }

  /** The tracker holds what the trace says, up to leases that have run out at `now`. */
  ghost predicate AllTell(s: Chats, ops: seq<Op>, lease: int, now: Instant) {
    && (forall k :: k in s ==> Tells(s[k], ops, k, lease, now))
    && (forall k :: k !in s ==> !Leased(Seen(ops, k), lease, now))
    && (forall k, t :: k !in s ==> !Leased(Worked(ops, k, t), lease, now))
  }

  lemma PrunedTells(c: Chat, ops: seq<Op>, k: ChatKey, lease: int, t: Instant, now: Instant)
    requires Tells(c, ops, k, lease, t) && t <= now
    ensures Tells(PruneChat(c, lease, now), ops, k, lease, now)
    ensures Stays(c, lease, now) <==> now < c.updatedAt + lease
    ensures !Stays(c, lease, now) ==> forall x :: !Leased(Worked(ops, k, x), lease, now)
  {
    var d := PruneChat(c, lease, now);
    if d.turns != map[] { var x :| x in d.turns; }
  }

  lemma PruneTells(s: Chats, ops: seq<Op>, lease: int, t: Instant, now: Instant)
    requires AllTell(s, ops, lease, t) && t <= now
    ensures AllTell(Prune(s, lease, now), ops, lease, now)
    ensures Prune(s, lease, now).Keys == LiveSessions(ops, lease, now)
  {
    hide Tells, PruneChat, Stays, Seen, Worked, LiveSessions;
    var p := Prune(s, lease, now);
    forall k | k in s
      ensures Stays(s[k], lease, now) ==> Tells(PruneChat(s[k], lease, now), ops, k, lease, now)
      ensures Stays(s[k], lease, now) <==> Leased(Seen(ops, k), lease, now)
      ensures !Stays(s[k], lease, now) ==> forall x :: !Leased(Worked(ops, k, x), lease, now)
    {
      PrunedTells(s[k], ops, k, lease, t, now);
      assert Seen(ops, k) == Some(s[k].updatedAt) by { TellsSeen(s[k], ops, k, lease, t); }
    }
    forall k ensures k in p <==> k in LiveSessions(ops, lease, now) { LiveSessionsAre(ops, lease, now, k); }
  }

  lemma TellsSeen(c: Chat, ops: seq<Op>, k: ChatKey, lease: int, now: Instant)
    requires Tells(c, ops, k, lease, now)
    ensures Seen(ops, k) == Some(c.updatedAt)
  {
  }

  // ----- one event -----

  lemma Extended(ops: seq<Op>, op: Op, k: ChatKey, lease: int, t: string)
    requires Concerns(op, k) && !op.event.action.EndSession?
    ensures Seen(ops + [op], k) == Some(op.now)
    ensures Began(ops + [op], k, lease) == if Leased(Seen(ops, k), lease, op.now) then Began(ops, k, lease) else Some(op.now)
    ensures Worked(ops + [op], k, t) ==
            if op.event.turnId != t || op.event.action.SessionStart? then Worked(ops, k, t)
            else if op.event.action.EndTurn? then None
            else Some(op.now)
  {
    assert (ops + [op])[..|ops + [op]| - 1] == ops;
  }

  /** What an event finds: the session as the trace tells it, or a session that begins. */
  ghost predicate Found(c: Chat, ops: seq<Op>, k: ChatKey, lease: int, now: Instant) {
    || (Tells(c, ops, k, lease, now) && Leased(Seen(ops, k), lease, now))
    || (c == Chat(now, now, false, map[], 0) && !Leased(Seen(ops, k), lease, now)
        && forall t :: !Leased(Worked(ops, k, t), lease, now))
  }

  lemma TouchTells(c: Chat, ops: seq<Op>, k: ChatKey, lease: int, op: Op)
    requires Found(c, ops, k, lease, op.now)
    requires Concerns(op, k) && !op.event.action.EndSession? && c.updatedAt <= op.now && lease > 0
    requires op.event.turnId in c.turns || |c.turns| < 32 || op.event.action in {SessionStart, EndTurn}
    ensures Tells(Touched(c, op.event, op.now), ops + [op], k, lease, op.now)
  {
    TouchTellsTurns(c, ops, k, lease, op);
    Extended(ops, op, k, lease, "");
    hide TellsTurns, Seen, Worked, Began;
    assert op.event.turnId in c.turns[op.event.turnId := op.now];
  }

  lemma TouchTellsTurns(c: Chat, ops: seq<Op>, k: ChatKey, lease: int, op: Op)
    requires TellsTurns(c, ops, k, lease, op.now)
    requires Concerns(op, k) && !op.event.action.EndSession? && c.updatedAt <= op.now
    requires op.event.turnId in c.turns || |c.turns| < 32 || op.event.action in {SessionStart, EndTurn}
    ensures TellsTurns(Touched(c, op.event, op.now), ops + [op], k, lease, op.now)
  {
    forall t
      ensures Worked(ops + [op], k, t) == if op.event.turnId != t || op.event.action.SessionStart? then Worked(ops, k, t)
                                          else if op.event.action.EndTurn? then None else Some(op.now)
    {
      Extended(ops, op, k, lease, t);
    }
    hide Seen, Worked, Began;
  }

  /** Where the trace has at most 32 running turns after the event, the event found a slot. */
  lemma SlotFree(c: Chat, ops: seq<Op>, k: ChatKey, lease: int, op: Op)
    requires Tells(c, ops, k, lease, op.now) && Concerns(op, k) && op.event.action in {Start, Refresh} && lease > 0
    requires forall t :: t in c.turns ==> op.now < c.turns[t] + lease
    requires |RunningTurns(ops + [op], k, lease, op.now)| <= 32
    ensures op.event.turnId in c.turns || |c.turns| < 32
  {
    var all, turn := ops + [op], op.event.turnId;
    assert all[..|all| - 1] == ops;
    if turn !in c.turns {
      var now := op.now;
      forall t | t in c.turns.Keys + {turn} ensures t in RunningTurns(all, k, lease, now) {
        assert t != turn ==> Worked(all, k, t) == Worked(ops, k, t);
        RunningTurnsAre(all, k, lease, now, t);
      }
      hide RunningTurns;
      SubsetSize(c.turns.Keys + {turn}, RunningTurns(all, k, lease, now));
      assert |c.turns.Keys + {turn}| == |c.turns.Keys| + 1;
    }
  }

  lemma Unconcerned(ops: seq<Op>, op: Op, k: ChatKey, lease: int, t: string)
    requires !Concerns(op, k)
    ensures Seen(ops + [op], k) == Seen(ops, k) && Began(ops + [op], k, lease) == Began(ops, k, lease)
    ensures Worked(ops + [op], k, t) == Worked(ops, k, t)
  {
    assert (ops + [op])[..|ops + [op]| - 1] == ops;
  }

  lemma OneMoreLives(ops: seq<Op>, k: ChatKey, lease: int, op: Op)
    requires Concerns(op, k) && !op.event.action.EndSession? && lease > 0
    ensures LiveSessions(ops, lease, op.now) + {k} <= LiveSessions(ops + [op], lease, op.now)
  {
    forall j | j in LiveSessions(ops, lease, op.now) + {k} ensures j in LiveSessions(ops + [op], lease, op.now) {
      LiveSessionsAre(ops, lease, op.now, j);
      LiveSessionsAre(ops + [op], lease, op.now, j);
      if j == k { Extended(ops, op, k, lease, ""); } else { Unconcerned(ops, op, j, lease, ""); }
    }
  }

  /** Where the trace has at most 64 sessions of the user and 2048 in all after the event, the event
      found room: nothing is evicted. */
  lemma RoomLeft(pruned: Chats, ops: seq<Op>, k: ChatKey, lease: int, op: Op)
    requires pruned.Keys == LiveSessions(ops, lease, op.now) && k !in pruned && k.username != "" && lease > 0
    requires Concerns(op, k) && !op.event.action.EndSession? && CalmAt(ops + [op], lease, op.now)
    ensures MakeRoom(pruned, k.username) == pruned
  {
    hide LiveSessions, Evict, RunningTurns, Seen, Concerns, Leased;
    OneMoreLives(ops, k, lease, op);
    var live := LiveSessions(ops + [op], lease, op.now);
    SubsetSize(pruned.Keys + {k}, live);
    assert |pruned.Keys + {k}| == |pruned.Keys| + 1;
    var own := ChatsOf(pruned, k.username);
    SubsetSize(own + {k}, SessionsOf(live, k.username));
    assert |own + {k}| == |own| + 1;
    EvictLeaves(pruned, k.username, MAX_CHATS_PER_USER);
    assert ChatsOf(pruned, "") == pruned.Keys;
    EvictLeaves(pruned, "", MAX_CHATS);
  }

  lemma HandleTells(pruned: Chats, ops: seq<Op>, k: ChatKey, lease: int, op: Op)
    requires AllTell(pruned, ops, lease, op.now) && pruned.Keys == LiveSessions(ops, lease, op.now)
    requires StateInv(pruned, op.now) && lease > 0 && k.username != "" && CalmAt(ops + [op], lease, op.now)
    requires Concerns(op, k) && !op.event.action.EndSession?
    requires forall j :: j in pruned ==> Fresh(pruned[j], lease, op.now)
    ensures var ready := Ensured(pruned, k, op.now);
            ready.Keys == pruned.Keys + {k} && (forall j :: j in pruned ==> ready[j] == pruned[j])
            && Tells(Touched(ready[k], op.event, op.now), ops + [op], k, lease, op.now)
  {
    hide LiveSessions, RunningTurns, Seen, Worked, Began, Tells, Touched, MakeRoom;
    if k !in pruned { RoomLeft(pruned, ops, k, lease, op); }
    var c := Ensured(pruned, k, op.now)[k];
    LiveSessionsAre(ops, lease, op.now, k);
    if k in pruned {
      assert ChatInv(c, op.now) && Fresh(c, lease, op.now);
      if op.event.action in {Start, Refresh} { SlotFree(c, ops, k, lease, op); }
    }
    assert Found(c, ops, k, lease, op.now);
    TouchTells(c, ops, k, lease, op);
  }

  lemma {:induction false} StepTells(s: Chats, ops: seq<Op>, lease: int, t: Instant, op: Op)
    requires AllTell(s, ops, lease, t) && StateInv(s, t) && t <= op.now && lease > 0
    requires op.Handle? ==> op.username != "" && CalmAt(ops + [op], lease, op.now)
    ensures AllTell(Step(s, lease, op), ops + [op], lease, op.now)
  {
    hide LiveSessions, CalmAt, StateInv, Tells, Touched, Ensured, Prune, Fresh, LiveTurns;
    PruneTells(s, ops, lease, t, op.now);
    var pruned := Prune(s, lease, op.now);
    var own := if op.Handle? then Some(ChatKey(op.username, op.event.sessionId)) else None;
    OthersTell(pruned, ops, own, lease, op);
    if op.Handle? {
      var k := own.value;
      if op.event.action.EndSession? {
        EndedTells(ops, k, op);
      } else {
        PruneKeeps(s, lease, t, op.now);
        PrunedAllFresh(s, lease, op.now);
        HandleTells(pruned, ops, k, lease, op);
      }
    }
  }

  lemma PrunedAllFresh(s: Chats, lease: int, now: Instant)
    ensures forall j :: j in Prune(s, lease, now) ==> Fresh(Prune(s, lease, now)[j], lease, now)
  {
    forall j | j in Prune(s, lease, now) ensures Fresh(Prune(s, lease, now)[j], lease, now) { PrunedFresh(s[j], lease, now); }
  }

  lemma EndedTells(ops: seq<Op>, k: ChatKey, op: Op)
    requires Concerns(op, k) && op.event.action.EndSession?
    ensures Seen(ops + [op], k).None? && forall t :: Worked(ops + [op], k, t).None?
  {
    assert (ops + [op])[..|ops + [op]| - 1] == ops;
  }

  /** An event says nothing about other sessions. */
  lemma OthersTell(s: Chats, ops: seq<Op>, own: Option<ChatKey>, lease: int, op: Op)
    requires AllTell(s, ops, lease, op.now)
    requires own == if op.Handle? then Some(ChatKey(op.username, op.event.sessionId)) else None
    ensures forall k :: Some(k) != own && k in s ==> Tells(s[k], ops + [op], k, lease, op.now)
    ensures forall k :: Some(k) != own && k !in s ==> !Leased(Seen(ops + [op], k), lease, op.now)
    ensures forall k, t :: Some(k) != own && k !in s ==> !Leased(Worked(ops + [op], k, t), lease, op.now)
  {
    forall k, t | Some(k) != own
      ensures Seen(ops + [op], k) == Seen(ops, k) && Began(ops + [op], k, lease) == Began(ops, k, lease)
      ensures Worked(ops + [op], k, t) == Worked(ops, k, t)
    {
      Unconcerned(ops, op, k, lease, t);
    }
    hide Seen, Worked, Began;
  }

  lemma NothingTold(lease: int, t: Instant)
    ensures AllTell(map[], [], lease, t)
  {
  }

  lemma CalmBefore(ops: seq<Op>, lease: int)
    requires Calm(ops, lease) && ops != []
    ensures Calm(ops[..|ops| - 1], lease) && CalmAt(ops, lease, ops[|ops| - 1].now)
  {
    hide CalmAt;
    var front := ops[..|ops| - 1];
    forall n | 0 < n <= |front| ensures CalmAt(front[..n], lease, front[n - 1].now) { assert front[..n] == ops[..n]; }
    assert CalmAt(ops[..|ops|], lease, ops[|ops| - 1].now);
    assert ops[..|ops|] == ops;
  }

  lemma {:induction false} RunTells(lease: int, ops: seq<Op>, t: Instant)
    requires InOrder(ops, t) && Trusted(ops) && t > 0 && lease > 0 && Calm(ops, lease)
    ensures AllTell(Run(map[], lease, ops), ops, lease, Last(ops, t))
  {
    hide Step, StateInv, CalmAt, ValidEvent, AllTell, Bounded, Calm;
    if ops == [] {
      assert AllTell(map[], [], lease, t) by { NothingTold(lease, t); }
    } else {
      var front, op := ops[..|ops| - 1], ops[|ops| - 1];
      assert front + [op] == ops && op in ops && forall x :: x in front ==> x in ops;
      CalmBefore(ops, lease);
      RunTells(lease, front, t);
      RunKeeps(lease, front, t);
      StepTells(Run(map[], lease, front), front, lease, Last(front, t), op);
    }
  }

  /** As long as the users stay within the limits, what the tracker shows at any time is exactly what
      the events say: the sessions whose latest event is less than a lease old, each with the times of its first and latest event, and of
      each the turns whose latest start or refresh is; it runs exactly while there is one. */
  lemma TrackerExact(lease: int, ops: seq<Op>, t: Instant, now: Instant)
    requires InOrder(ops, t) && Trusted(ops) && t > 0 && lease > 0 && Calm(ops, lease) && Last(ops, t) <= now
    ensures var s := Prune(Run(map[], lease, ops), lease, now);
            && (forall k :: k in s <==> Leased(Seen(ops, k), lease, now))
            && (forall k :: k in s ==> Seen(ops, k) == Some(s[k].updatedAt) && Began(ops, k, lease) == Some(s[k].startedAt))
            && (forall k, turn :: k in s ==> (turn in s[k].turns <==> Leased(Worked(ops, k, turn), lease, now)))
            && (forall k :: k in s ==> (s[k].running <==> exists turn :: Leased(Worked(ops, k, turn), lease, now)))
  {
    hide Prune, Run, LiveSessions, Seen, Worked, Began;
    RunTells(lease, ops, t);
    PruneTells(Run(map[], lease, ops), ops, lease, Last(ops, t), now);
    var s := Prune(Run(map[], lease, ops), lease, now);
    forall k ensures k in s <==> Leased(Seen(ops, k), lease, now) { LiveSessionsAre(ops, lease, now, k); }
    PrunedAllFresh(Run(map[], lease, ops), lease, now);
    forall k | k in s
      ensures forall turn :: turn in s[k].turns <==> Leased(Worked(ops, k, turn), lease, now)
      ensures s[k].running <==> exists turn :: Leased(Worked(ops, k, turn), lease, now)
    {
      assert Tells(s[k], ops, k, lease, now) && Fresh(s[k], lease, now);
      if s[k].turns != map[] { var turn :| turn in s[k].turns; }
    }
  }
}
