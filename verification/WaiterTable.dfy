/** The functions of request.go that touch the waiter table, each one step (or two) of the machine in Waiters. */
module WaiterTable {
  import opened Bytes
  import opened Waiters

  class Client {
    var responseWaiters: map<Bytes, nat>
    var channels: seq<Channel>
    var taken: map<nat, Packet>

    ghost function Now(): State
      reads this
    {
      State(responseWaiters, channels, taken)
    }

    constructor ()
      ensures Now() == INITIAL
    {
      responseWaiters, channels, taken := map[], [], map[];
    }

    method WaitResponse(reqID: Bytes) returns (ch: nat)
      requires Inv(Now())
      modifies this
      ensures Inv(Now()) && Next(Now()) == Step(old(Now()), Register(reqID))
      ensures ch == old(|channels|) && channels[ch].reqID == reqID && Untouched(channels[ch])
    {
      StepKeepsInv(Now(), Register(reqID));
      hide Inv;
      ch := |channels|;
      channels := channels + [Channel(reqID, false, [], [], false)];
      responseWaiters := responseWaiters[reqID := ch];
    }

    /** Closes the caller's channel; whatever is registered under its ID by now is dropped with it. */
    method CancelResponse(ch: nat)
      requires Inv(Now()) && Legal(Now(), Cancel(ch))
      modifies this
      ensures Inv(Now()) && Next(Now()) == Step(old(Now()), Cancel(ch))
    {
      StepKeepsInv(Now(), Cancel(ch));
      channels := channels[ch := channels[ch].(closed := true, cancelled := true)];
      responseWaiters := responseWaiters - {channels[ch].reqID};
    }

    /** The part of receiveResponse under the lock; the send comes later. */
    method TakeWaiter(id: Bytes) returns (waiter: Option<nat>)
      requires Inv(Now())
      modifies this
      ensures Inv(Now()) && Next(Now()) == Step(old(Now()), Take(id))
      ensures waiter == if id in old(responseWaiters) then Some(old(responseWaiters)[id]) else None
      ensures waiter.Some? ==> Legal(Now(), Send(waiter.value)) && taken[waiter.value] == Answer(id)
    {
      StepKeepsInv(Now(), Take(id));
      if id !in responseWaiters {
        return None;
      }
      var ch := responseWaiters[id];
      responseWaiters := responseWaiters - {id};
      taken := taken[ch := Answer(id)];
      waiter := Some(ch);
    }

    /** The send of receiveResponse, after the lock was let go; it fails if the channel was closed in between. */
    method SendTaken(ch: nat) returns (failed: bool)
      requires Inv(Now()) && Legal(Now(), Send(ch))
      modifies this
      ensures failed <==> old(channels)[ch].cancelled
      ensures failed ==> Now() == old(Now()) && Step(Now(), Send(ch)) == Fails(SendOnClosed)
      ensures !failed ==> Inv(Now()) && Next(Now()) == Step(old(Now()), Send(ch))
      // the answer to its own request is in the channel, and no other channel has changed
      ensures !failed ==>
                var answer := [Answer(old(channels)[ch].reqID)];
                channels == old(channels)[ch := old(channels)[ch].(buffer := answer, delivered := answer)]
    {
      StepKeepsInv(Now(), Send(ch));
      if channels[ch].closed {
        return true;
      }
      assert Put(channels[ch], taken[ch]) == channels[ch].(buffer := [taken[ch]], delivered := [taken[ch]]);
      channels := channels[ch := Put(channels[ch], taken[ch])];
      taken := taken - {ch};
      failed := false;
    }

    /** Every waiter gets the disconnection; the branch that would close a full channel is never taken. */
    method ClearResponseWaiters()
      requires Inv(Now())
      modifies this
      ensures Inv(Now()) && Next(Now()) == Step(old(Now()), Clear)
    {
      hide Inv, Step, PartlyCleared;
      ghost var s := Now();
      ClearStep(s);
      var todo := responseWaiters.Keys;
      NothingCleared(s);
      while todo != {}
        invariant todo <= responseWaiters.Keys && responseWaiters == s.table && taken == s.taken
        invariant PartlyCleared(s, todo, channels)
        decreases |todo|
      {
        var id :| id in todo;
        var ch := responseWaiters[id];
        ClearedOne(s, todo, channels, id);
        todo := todo - {id};
        channels := channels[ch := ClearOne(channels[ch])];
      }
      AllCleared(s, channels);
      responseWaiters := map[];
    }
  }

  predicate WaitingOutside(s: State, todo: set<Bytes>, i: nat)
  {
    exists id :: id in s.table && id !in todo && s.table[id] == i
  }

  lemma NotYet(s: State, todo: set<Bytes>, id: Bytes)
    requires Inv(s) && id in s.table && id in todo
    ensures !WaitingOutside(s, todo, s.table[id])
  {
  }

  lemma OneLess(s: State, todo: set<Bytes>, id: Bytes)
    requires Inv(s) && id in s.table && id in todo
    ensures forall i: nat :: WaitingOutside(s, todo - {id}, i) <==> WaitingOutside(s, todo, i) || i == s.table[id]
  {
    forall i: nat ensures WaitingOutside(s, todo - {id}, i) <==> WaitingOutside(s, todo, i) || i == s.table[id] {
      if i == s.table[id] {
        assert id in s.table && id !in todo - {id};
      }
      if x :| x in s.table && x !in todo && s.table[x] == i {
        assert x !in todo - {id};
      }
    }
  }

  /** The waiters outside `todo` have been told, the other channels are as they were. */
  ghost predicate PartlyCleared(s: State, todo: set<Bytes>, channels: seq<Channel>)
  {
    && |channels| == |s.channels|
    && forall i :: 0 <= i < |channels| ==>
         channels[i] == if WaitingOutside(s, todo, i) then ClearOne(s.channels[i]) else s.channels[i]
  }

  lemma NothingCleared(s: State)
    ensures PartlyCleared(s, s.table.Keys, s.channels)
  {
  }

  lemma ClearedOne(s: State, todo: set<Bytes>, channels: seq<Channel>, id: Bytes)
    requires Inv(s) && id in s.table && id in todo && PartlyCleared(s, todo, channels)
    ensures var ch := s.table[id];
            && ch < |channels| && channels[ch].buffer == [] && !channels[ch].closed
            && PartlyCleared(s, todo - {id}, channels[ch := ClearOne(channels[ch])])
  {
    NotYet(s, todo, id);
    OneLess(s, todo, id);
    assert Untouched(s.channels[s.table[id]]);
    hide Inv, WaitingOutside;
  }

  lemma AllCleared(s: State, channels: seq<Channel>)
    requires Inv(s) && PartlyCleared(s, {}, channels)
    ensures Step(s, Clear) == Next(State(map[], channels, s.taken))
  {
    ClearStep(s);
    forall i: nat ensures WaitingOutside(s, {}, i) <==> Waiting(s, i) { }
    assert channels == ClearAll(s).state.channels;
  }
}
