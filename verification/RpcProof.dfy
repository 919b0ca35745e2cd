/** What holds of the RPC client under every interleaving. */
module RpcProof {
  import opened Common
  import opened RpcModel

  predicate Held(s: State, k: nat) {
    s.reader.Holding? && s.reader.chan == k
  }

  /** A caller's own consistency: its channel carried at most one message, its own. */
  predicate CallerInv(s: State, k: nat)
    requires Slot(s, k)
  {
    var c := s.callers[k];
    && c.id == k + 1
    && |c.sent| <= 1 && (forall r :: r in c.sent ==> r.id == c.id)
    && (c.inbox == [] || c.inbox == c.sent)
    && (c.phase.Answered? ==> c.sent == [c.phase.response] && c.inbox == [])
    && ((c.id in s.pending || Held(s, k)) ==> c.sent == [])
    && !(c.id in s.pending && Held(s, k))
    && (c.phase.GaveUp? ==> c.id !in s.pending)
    && ((c.phase.Writing? || c.phase.Waiting?) && s.health.Healthy? ==> c.id in s.pending || Held(s, k) || c.inbox != [])
  }

  predicate Inv(s: State) {
    && s.nextId == |s.callers| + 1
    && (forall k: nat :: k < |s.callers| ==> CallerInv(s, k))
    && (forall id :: id in s.pending ==> 1 <= id < s.nextId && s.pending[id] == id - 1)
    && (s.reader.Holding? ==> Slot(s, s.reader.chan) && s.reader.response.id == s.reader.chan + 1)
  }

  lemma OwnStepKeeps(s: State, a: Action, k: nat)
    requires Inv(s) && Enabled(s, a) && StepOf(a, k)
    ensures Slot(Next(s, a), k) && CallerInv(Next(s, a), k)
  {
    assert CallerInv(s, k);
  }

  lemma OtherStepKeeps(s: State, a: Action, k: nat)
    requires Inv(s) && Enabled(s, a) && k < |s.callers| && !StepOf(a, k)
    ensures Slot(Next(s, a), k) && CallerInv(Next(s, a), k)
  {
    assert CallerInv(s, k);
    if a.Remove? { assert CallerInv(s, a.caller); }
  }

  lemma StepKeeps(s: State, a: Action)
    requires Inv(s) && Enabled(s, a)
    ensures Inv(Next(s, a))
  {
    var t := Next(s, a);
    forall k: nat | k < |t.callers| ensures CallerInv(t, k) {
      if StepOf(a, k) {
        OwnStepKeeps(s, a, k);
      } else if k < |s.callers| {
        OtherStepKeeps(s, a, k);
      }
    }
    hide CallerInv;
    PendingKeeps(s, a);
  }

  lemma PendingKeeps(s: State, a: Action)
    requires Inv(s) && Enabled(s, a)
    ensures var t := Next(s, a);
            && t.nextId == |t.callers| + 1
            && (forall id :: id in t.pending ==> 1 <= id < t.nextId && t.pending[id] == id - 1)
            && (t.reader.Holding? ==> Slot(t, t.reader.chan) && t.reader.response.id == t.reader.chan + 1)
  {
    hide CallerInv;
  }

  lemma {:induction false} RunKeeps(actions: seq<Action>)
    ensures Inv(After(actions))
  {
    hide Inv, Enabled, Next;
    if actions == [] {
      StartInv();
    } else {
      var front := actions[..|actions| - 1];
      RunKeeps(front);
      if Enabled(After(front), actions[|actions| - 1]) { StepKeeps(After(front), actions[|actions| - 1]); }
    }
  }

  lemma StartInv()
    ensures Inv(START)
  {
  }

  // ----- the results -----

  /** The reader never blocks: whenever it has a response to send, the channel's slot is free. */
  lemma ReaderNeverBlocks(actions: seq<Action>)
    ensures !Blocked(After(actions))
    ensures After(actions).reader.Holding? ==> Enabled(After(actions), Deliver)
  {
    RunKeeps(actions);
    hide After;
    var s := After(actions);
    if s.reader.Holding? { assert CallerInv(s, s.reader.chan); }
  }

  /** Ids are never used twice, and no call's id ever changes. */
  lemma IdsNeverReused(actions: seq<Action>, j: nat, k: nat)
    requires j < |After(actions).callers| && k < |After(actions).callers| && j != k
    ensures After(actions).callers[j].id != After(actions).callers[k].id
  {
    RunKeeps(actions);
    hide After;
    assert CallerInv(After(actions), j) && CallerInv(After(actions), k);
  }

  lemma {:induction false} IdsStay(actions: seq<Action>, more: seq<Action>, k: nat)
    requires k < |After(actions).callers|
    ensures k < |After(actions + more).callers| && After(actions + more).callers[k].id == After(actions).callers[k].id
    decreases |more|
  {
    if more == [] {
      assert actions + more == actions;
    } else {
      var front := more[..|more| - 1];
      IdsStay(actions, front, k);
      assert (actions + more)[..|actions + more| - 1] == actions + front;
    }
  }

  /** Every channel carries at most one message over its whole life, and only one bearing its own id. */
  lemma OneOwnMessage(actions: seq<Action>, k: nat)
    requires k < |After(actions).callers|
    ensures var c := After(actions).callers[k];
            |c.sent| <= 1 && (forall r :: r in c.sent ==> r.id == c.id) && (c.inbox == [] || c.inbox == c.sent)
  {
    RunKeeps(actions);
    hide After;
    assert CallerInv(After(actions), k);
  }

  /** What was sent on any channel arrived from the server. */
  lemma {:induction false} SentArrived(actions: seq<Action>, k: nat, r: Response)
    requires k < |After(actions).callers| && r in After(actions).callers[k].sent
    ensures Arrive(r) in actions
  {
    if actions != [] {
      var front, last := actions[..|actions| - 1], actions[|actions| - 1];
      assert forall a :: a in front ==> a in actions;
      var s := After(front);
      if k < |s.callers| && r in s.callers[k].sent {
        SentArrived(front, k, r);
      } else {
        HeldArrived(front);
      }
    }
  }

  lemma {:induction false} HeldArrived(actions: seq<Action>)
    ensures After(actions).reader.Holding? ==> Arrive(After(actions).reader.response) in actions
  {
    if actions != [] {
      var front, last := actions[..|actions| - 1], actions[|actions| - 1];
      assert forall a :: a in front ==> a in actions;
      HeldArrived(front);
    }
  }

  /** A call that is answered has the server's response to its own id. */
  lemma AnsweredIsOwn(actions: seq<Action>, k: nat)
    requires k < |After(actions).callers| && After(actions).callers[k].phase.Answered?
    ensures var c := After(actions).callers[k]; c.phase.response.id == c.id && Arrive(c.phase.response) in actions
  {
    RunKeeps(actions);
    assert CallerInv(After(actions), k);
    var r := After(actions).callers[k].phase.response;
    assert r in After(actions).callers[k].sent by { hide After; assert r in [r]; }
    SentArrived(actions, k, r);
  }

  /** A second response to a call, and a response to an unknown or withdrawn id, changes nothing. */
  lemma DuplicateIgnored(actions: seq<Action>, r: Response)
    requires var s := After(actions);
             && s.reader.Idle?
             && (1 <= r.id <= |s.callers| ==> s.callers[r.id - 1].sent != [] || s.callers[r.id - 1].phase.GaveUp?)
    ensures Enabled(After(actions), Arrive(r)) && Next(After(actions), Arrive(r)) == After(actions)
  {
    RunKeeps(actions);
    hide After;
    var s := After(actions);
    if 1 <= r.id < s.nextId { assert CallerInv(s, r.id - 1); }
  }

  /** No call is forgotten: while the client is healthy, an unfinished call is still registered, or its
      response is in its channel or in the reader's hand. */
  lemma NothingForgotten(actions: seq<Action>, k: nat)
    requires k < |After(actions).callers| && After(actions).health.Healthy?
    requires After(actions).callers[k].phase.Writing? || After(actions).callers[k].phase.Waiting?
    ensures var s := After(actions);
            s.callers[k].id in s.pending || Held(s, k) || s.callers[k].inbox != []
  {
    RunKeeps(actions);
    hide After;
    assert CallerInv(After(actions), k);
  }

  /** The response to a registered call reaches that call: the reader finds its channel, can send at
      once, and the caller then holds exactly that response. */
  lemma ResponseReaches(actions: seq<Action>, k: nat, r: Response)
    requires k < |After(actions).callers| && After(actions).reader.Idle?
    requires r.id == After(actions).callers[k].id && r.id in After(actions).pending
    ensures var held := Next(After(actions), Arrive(r));
            Enabled(held, Deliver) && Next(held, Deliver).callers[k].inbox == [r]
  {
    RunKeeps(actions);
    hide After;
    assert CallerInv(After(actions), k);
  }

  // ----- calls from beginning to end -----

  lemma OneMore(actions: seq<Action>, a: Action)
    ensures After(actions + [a]) == if Enabled(After(actions), a) then Next(After(actions), a) else After(actions)
  {
    assert (actions + [a])[..|actions + [a]| - 1] == actions;
    hide Enabled, Next;
  }

  /** The state with one more call, in the given shape. */
  function WithCall(s: State, c: Caller): State {
    s.(nextId := s.nextId + 1, callers := s.callers + [c])
  }

  lemma StepOfLast(s: State, c: Caller, d: Caller)
    ensures Slot(WithCall(s, c), |s.callers|) && WithCaller(WithCall(s, c), |s.callers|, d) == WithCall(s, d)
  {
    assert (s.callers + [c])[|s.callers| := d] == s.callers + [d];
  }

  lemma Registers(s: State)
    requires Inv(s)
    ensures var c, k := Caller(s.nextId, Writing, [], []), |s.callers|;
            && Next(s, Register) == WithCall(s, c).(pending := s.pending[s.nextId := k])
            && Next(Next(s, Register), Written(k)) == WithCall(s, c.(phase := Waiting)).(pending := s.pending[s.nextId := k])
  {
    StepOfLast(s, Caller(s.nextId, Writing, [], []), Caller(s.nextId, Waiting, [], []));
    hide Inv;
  }

  lemma Responds(s: State, r: Response)
    requires Inv(s) && s.reader.Idle? && r.id == s.nextId
    ensures var c, k := Caller(s.nextId, Waiting, [], []), |s.callers|;
            var waiting := WithCall(s, c).(pending := s.pending[s.nextId := k]);
            && Next(waiting, Arrive(r)) == WithCall(s, c).(reader := Holding(k, r))
            && Enabled(WithCall(s, c).(reader := Holding(k, r)), Deliver)
            && Next(WithCall(s, c).(reader := Holding(k, r)), Deliver) == WithCall(s, c.(inbox := [r], sent := [r]))
  {
    NewCall(s);
    hide Inv;
    var c, k := Caller(s.nextId, Waiting, [], []), |s.callers|;
    assert s.pending[s.nextId := k] - {s.nextId} == s.pending;
    StepOfLast(s, c, c.(inbox := [r], sent := [r]));
    assert WithCall(s, c).callers[k] == c && [] + [r] == [r];
  }

  lemma Answers(s: State, r: Response)
    ensures var c, k := Caller(s.nextId, Waiting, [r], [r]), |s.callers|;
            && Enabled(WithCall(s, c), Receive(k))
            && Next(WithCall(s, c), Receive(k)) == WithCall(s, Caller(s.nextId, Answered(r), [], [r]))
  {
    var c := Caller(s.nextId, Waiting, [r], [r]);
    StepOfLast(s, c, Caller(s.nextId, Answered(r), [], [r]));
    assert WithCall(s, c).callers[|s.callers|] == c && [r][1..] == [];
  }

  /** Whatever has happened, as long as the reader is idle, a call that is answered goes through: it ends with the
      response to its own id, its registration withdrawn, and no other call touched. */
  lemma CallAnswered(actions: seq<Action>, payload: string)
    requires After(actions).reader.Idle?
    ensures var s, k := After(actions), |After(actions).callers|;
            var r := Response(s.nextId, payload);
            After(actions + [Register] + [Written(k)] + [Arrive(r)] + [Deliver] + [Receive(k)]) ==
              s.(nextId := s.nextId + 1, callers := s.callers + [Caller(s.nextId, Answered(r), [], [r])])
  {
    RunKeeps(actions);
    var s, k := After(actions), |After(actions).callers|;
    var r := Response(s.nextId, payload);
    var a1 := actions + [Register];
    var a2 := a1 + [Written(k)];
    var a3 := a2 + [Arrive(r)];
    OneMore(actions, Register);
    OneMore(a1, Written(k));
    OneMore(a2, Arrive(r));
    OneMore(a3, Deliver);
    OneMore(a3 + [Deliver], Receive(k));
    hide After, Inv;
    Registers(s);
    Responds(s, r);
    Answers(s, r);
    assert Enabled(s, Register) && Enabled(Next(s, Register), Written(k)) && Enabled(Next(Next(s, Register), Written(k)), Arrive(r));
    hide Next;
  }

  lemma NewCall(s: State)
    requires Inv(s)
    ensures s.nextId !in s.pending
  {
    hide CallerInv;
  }

  lemma GivesUp(s: State, c: Caller, reason: Reason)
    requires Inv(s) && c.id == s.nextId
    ensures var leaving := WithCall(s, c.(phase := Leaving(reason))).(pending := s.pending[s.nextId := |s.callers|]);
            && Enabled(leaving, Remove(|s.callers|))
            && Next(leaving, Remove(|s.callers|)) == WithCall(s, c.(phase := GaveUp(reason)))
  {
    NewCall(s);
    hide Inv;
    assert s.pending[s.nextId := |s.callers|] - {s.nextId} == s.pending;
    StepOfLast(s, c.(phase := Leaving(reason)), c.(phase := GaveUp(reason)));
    assert WithCall(s, c.(phase := Leaving(reason))).callers[|s.callers|] == c.(phase := Leaving(reason));
  }

  /** A call that is cancelled while it waits gives up for that reason; it is no longer registered, and a response that
      comes too late changes nothing. */
  lemma CallCancelled(actions: seq<Action>, late: Response)
    requires After(actions).reader.Idle? && late.id == After(actions).nextId
    ensures var s, k := After(actions), |After(actions).callers|;
            var cancelled := actions + [Register] + [Written(k)] + [Leave(k, Cancelled)] + [Remove(k)];
            && After(cancelled) == s.(nextId := s.nextId + 1, callers := s.callers + [Caller(s.nextId, GaveUp(Cancelled), [], [])])
            && After(cancelled + [Arrive(late)]) == After(cancelled)
  {
    RunKeeps(actions);
    var s, k := After(actions), |After(actions).callers|;
    var a1 := actions + [Register];
    var a2 := a1 + [Written(k)];
    var a3 := a2 + [Leave(k, Cancelled)];
    OneMore(actions, Register);
    OneMore(a1, Written(k));
    OneMore(a2, Leave(k, Cancelled));
    OneMore(a3, Remove(k));
    OneMore(a3 + [Remove(k)], Arrive(late));
    hide After, CallerInv;
    NewCall(s);
    Registers(s);
    StepOfLast(s, Caller(s.nextId, Waiting, [], []), Caller(s.nextId, Leaving(Cancelled), [], []));
    GivesUp(s, Caller(s.nextId, Waiting, [], []), Cancelled);
  }

  /** A call whose request cannot be written gives up for that reason and is no longer registered. */
  lemma CallFailed(actions: seq<Action>)
    ensures var s, k := After(actions), |After(actions).callers|;
            After(actions + [Register] + [Leave(k, WriteFailed)] + [Remove(k)]) ==
              s.(nextId := s.nextId + 1, callers := s.callers + [Caller(s.nextId, GaveUp(WriteFailed), [], [])])
  {
    RunKeeps(actions);
    var s, k := After(actions), |After(actions).callers|;
    var a1 := actions + [Register];
    var a2 := a1 + [Leave(k, WriteFailed)];
    OneMore(actions, Register);
    OneMore(a1, Leave(k, WriteFailed));
    OneMore(a2, Remove(k));
    hide After, CallerInv;
    Registers(s);
    StepOfLast(s, Caller(s.nextId, Writing, [], []), Caller(s.nextId, Leaving(WriteFailed), [], []));
    GivesUp(s, Caller(s.nextId, Writing, [], []), WriteFailed);
  }

  /** When the client fails, every waiting call can leave: after the failure it gives up as closed. */
  lemma FailureReleases(actions: seq<Action>, k: nat)
    requires k < |After(actions).callers| && After(actions).callers[k].phase.Waiting? && After(actions).health.Healthy?
    ensures var t := After(actions + [Clear] + [CloseDone] + [Leave(k, Closed)] + [Remove(k)]);
            && k < |t.callers| && t.callers[k] == After(actions).callers[k].(phase := GaveUp(Closed))
            && t.pending == map[] && t.health == Down
  {
    var a1 := actions + [Clear];
    var a2 := a1 + [CloseDone];
    var a3 := a2 + [Leave(k, Closed)];
    OneMore(actions, Clear);
    OneMore(a1, CloseDone);
    OneMore(a2, Leave(k, Closed));
    OneMore(a3, Remove(k));
    hide After;
  }

  /** Only a failed client releases a waiting call as closed, and only its response answers it. */
  lemma WaitsOtherwise(actions: seq<Action>, k: nat, a: Action)
    requires k < |After(actions).callers| && After(actions).callers[k].phase.Waiting?
    requires !After(actions).health.Down? && After(actions).callers[k].inbox == [] && a != Leave(k, Cancelled)
    ensures k < |After(actions + [a]).callers| && After(actions + [a]).callers[k].phase.Waiting?
  {
    OneMore(actions, a);
    hide After;
  }
}
