/** The RPC client as interleaved atomic steps: callers, one reader, cancellation and failure. */
module RpcModel {
  import opened Common

  datatype Response = Response(id: int, payload: string)

  /** Why a call gives up. */
  datatype Reason = WriteFailed | Cancelled | Closed

  /** Where a call is: writing its request, waiting for the first of response, cancellation and
      shutdown, about to withdraw its registration, or finished. */
  datatype Phase = Writing | Waiting | Leaving(reason: Reason) | GaveUp(reason: Reason) | Answered(response: Response)

  /** A call. Its one-slot channel holds `inbox`; `sent` is everything ever sent on it. */
  datatype Caller = Caller(id: int, phase: Phase, inbox: seq<Response>, sent: seq<Response>)

  datatype Reader = Idle | Holding(chan: nat, response: Response) | Stopped

  /** Failing first clears the registrations and then closes the done channel. */
  datatype Health = Healthy | Cleared | Down

  /** `pending` maps a request id to the channel, that is the caller, registered for it. */
  datatype State = State(nextId: int, pending: map<int, nat>, callers: seq<Caller>, reader: Reader, health: Health)

  const START := State(1, map[], [], Idle, Healthy)

  datatype Action =
    | Register                       // lock: take the next id, make a channel, register it
    | Written(caller: nat)           // the request is on the wire
    | Leave(caller: nat, reason: Reason)
    | Remove(caller: nat)            // lock: withdraw the registration
    | Receive(caller: nat)           // take the response from the channel
    | Arrive(response: Response)     // reader, lock: look the id up and delete it
    | Deliver                        // reader: send on the channel found
    | Stop                           // reader: leave the loop
    | Clear                          // fail, lock: record the error, drop all registrations
    | CloseDone                      // fail: close the done channel

  /** The action is a step of caller `k` itself. */
  predicate StepOf(a: Action, k: nat) {
    match a
    case Written(j) => j == k
    case Leave(j, _) => j == k
    case Remove(j) => j == k
    case Receive(j) => j == k
    case _ => false
  }

  predicate Slot(s: State, caller: nat) {
    caller < |s.callers|
  }

  predicate Enabled(s: State, a: Action) {
    match a
    case Register => true
    case Written(k) => Slot(s, k) && s.callers[k].phase.Writing?
    case Leave(k, reason) =>
      Slot(s, k) && (match reason
                     case WriteFailed => s.callers[k].phase.Writing?
                     case Cancelled => s.callers[k].phase.Waiting?
                     case Closed => s.callers[k].phase.Waiting? && s.health.Down?)
    case Remove(k) => Slot(s, k) && s.callers[k].phase.Leaving?
    case Receive(k) => Slot(s, k) && s.callers[k].phase.Waiting? && s.callers[k].inbox != []
    case Arrive(_) => s.reader.Idle?
    case Deliver => s.reader.Holding? && Slot(s, s.reader.chan) && s.callers[s.reader.chan].inbox == []
    case Stop => s.reader.Idle?
    case Clear => s.health.Healthy?
    case CloseDone => s.health.Cleared?
  }

  function WithCaller(s: State, k: nat, c: Caller): State
    requires Slot(s, k)
  {
    s.(callers := s.callers[k := c])
  }

  function Next(s: State, a: Action): State
    requires Enabled(s, a)
  {
    match a
    case Register =>
      s.(nextId := s.nextId + 1, pending := s.pending[s.nextId := |s.callers|],
         callers := s.callers + [Caller(s.nextId, Writing, [], [])])
    case Written(k) => WithCaller(s, k, s.callers[k].(phase := Waiting))
    case Leave(k, reason) => WithCaller(s, k, s.callers[k].(phase := Leaving(reason)))
    case Remove(k) =>
      WithCaller(s, k, s.callers[k].(phase := GaveUp(s.callers[k].phase.reason))).(pending := s.pending - {s.callers[k].id})
    case Receive(k) =>
      WithCaller(s, k, s.callers[k].(phase := Answered(s.callers[k].inbox[0]), inbox := s.callers[k].inbox[1..]))
    case Arrive(r) =>
      if r.id in s.pending then s.(reader := Holding(s.pending[r.id], r), pending := s.pending - {r.id}) else s
    case Deliver =>
      var k, r := s.reader.chan, s.reader.response;
      WithCaller(s, k, s.callers[k].(inbox := s.callers[k].inbox + [r], sent := s.callers[k].sent + [r])).(reader := Idle)
    case Stop => s.(reader := Stopped)
    case Clear => s.(pending := map[], health := Cleared)
    case CloseDone => s.(health := Down)
  }

  /** The reader is stuck on a full channel. */
  predicate Blocked(s: State) {
    s.reader.Holding? && (!Slot(s, s.reader.chan) || s.callers[s.reader.chan].inbox != [])
  }

  /** The state after a run; an action that was not enabled would have left it unchanged. */
  function After(actions: seq<Action>): State {
    if actions == [] then START
    else
      var s := After(actions[..|actions| - 1]);
      if Enabled(s, actions[|actions| - 1]) then Next(s, actions[|actions| - 1]) else s
  }
}
