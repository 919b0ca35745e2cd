/** The RPC client object. Each method is one atomic section: what a goroutine does under the mutex or
    as one channel operation. */
module RpcClient {
  import opened Common
  import opened RpcModel
  import opened RpcProof

  class Client {
    var nextId: int
    var pending: map<int, nat>
    var callers: seq<Caller>
    var reader: Reader
    var health: Health

    function Current(): State
      reads this
    {
      State(nextId, pending, callers, reader, health)
    }

    ghost predicate Valid()
      reads this
    {
      Inv(Current())
    }

    constructor ()
      ensures Valid() && Current() == START
    {
      nextId, pending, callers, reader, health := 1, map[], [], Idle, Healthy;
      new;
      StartInv();
    }

    /** A caller takes a fresh id and registers its new channel under it. */
    method Enroll() returns (id: int, chan: nat)
      requires Valid()
      modifies this
      ensures Valid() && Current() == Next(old(Current()), Register)
      ensures id == old(nextId) && id !in old(pending) && pending[id] == chan == |old(callers)|
    {
      StepKeeps(Current(), Register);
      id := nextId;
      nextId := nextId + 1;
      chan := |callers|;
      callers := callers + [Caller(id, Writing, [], [])];
      pending := pending[id := chan];
    }

    method RemovePending(k: nat)
      requires Valid() && Enabled(Current(), Remove(k))
      modifies this
      ensures Valid() && Current() == Next(old(Current()), Remove(k))
    {
      StepKeeps(Current(), Remove(k));
      pending := pending - {callers[k].id};
      callers := callers[k := callers[k].(phase := GaveUp(callers[k].phase.reason))];
    }

    /** The reader looks a response's id up and withdraws it; unknown ids are skipped. */
    method TakeResponse(r: Response)
      requires Valid() && reader.Idle?
      modifies this
      ensures Valid() && Current() == Next(old(Current()), Arrive(r))
    {
      StepKeeps(Current(), Arrive(r));
      if r.id !in pending { return; }
      var chan := pending[r.id];
      pending := pending - {r.id};
      reader := Holding(chan, r);
    }

    /** The reader sends what it holds. It never has to wait: a held response always has a free slot. */
    method SendResponse()
      requires Valid() && reader.Holding?
      modifies this
      ensures Valid() && Enabled(old(Current()), Deliver) && Current() == Next(old(Current()), Deliver)
    {
      assert CallerInv(Current(), reader.chan);
      StepKeeps(Current(), Deliver);
      var c := callers[reader.chan];
      callers := callers[reader.chan := c.(inbox := c.inbox + [reader.response], sent := c.sent + [reader.response])];
      reader := Idle;
    }

    method ReceiveResponse(k: nat) returns (r: Response)
      requires Valid() && Enabled(Current(), Receive(k))
      modifies this
      ensures Valid() && Current() == Next(old(Current()), Receive(k)) && r.id == callers[k].id
    {
      assert CallerInv(Current(), k);
      StepKeeps(Current(), Receive(k));
      r := callers[k].inbox[0];
      callers := callers[k := callers[k].(phase := Answered(r), inbox := callers[k].inbox[1..])];
    }

    /** The first failure drops every registration; later ones do nothing. */
    method BeginFail() returns (first: bool)
      requires Valid()
      modifies this
      ensures Valid() && first == old(health).Healthy?
      ensures Current() == if first then Next(old(Current()), Clear) else old(Current())
    {
      first := health.Healthy?;
      if first {
        StepKeeps(Current(), Clear);
        pending := map[];
        health := Cleared;
      }
    }
  }
}
