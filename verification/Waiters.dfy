/**
 * The table of response waiters (request.go) under every interleaving of its users. A step is what happens
 * under one hold of the lock, or the send that receiveResponse makes after it has let the lock go.
 */
module Waiters {
  import opened Bytes

  /** What can be sent to a waiter: an answer with the request's ID, or the node that announces a disconnection. */
  datatype Packet = Answer(id: Bytes) | Disconnect

  /** A channel with room for one packet. `delivered` is everything ever put into it. */
  datatype Channel = Channel(reqID: Bytes, closed: bool, buffer: seq<Packet>, delivered: seq<Packet>, cancelled: bool)

  /** `table` is responseWaiters; `taken` holds the channels that receiveResponse has removed but not yet sent to. */
  datatype State = State(table: map<Bytes, nat>, channels: seq<Channel>, taken: map<nat, Packet>)

  const INITIAL := State(map[], [], map[])

  datatype Event =
    | Register(reqID: Bytes)      // waitResponse
    | Take(id: Bytes)             // receiveResponse, up to the unlock
    | Send(channel: nat)          // receiveResponse, the send
    | Abandon(channel: nat)       // receiveResponse, its context done first
    | Cancel(channel: nat)        // cancelResponse by the caller that registered the channel
    | Clear                       // clearResponseWaiters
    | Consume(channel: nat)       // the caller reads its channel

  datatype Fault = SendOnClosed | CloseOfClosed | SendBlocks

  datatype Outcome = Next(state: State) | Fails(fault: Fault)

  function Put(c: Channel, p: Packet): Channel
  {
    c.(buffer := c.buffer + [p], delivered := c.delivered + [p])
  }

  /** The select of clearResponseWaiters: send if there is room, else close. */
  function ClearOne(c: Channel): Channel
  {
    if c.buffer == [] then Put(c, Disconnect) else c.(closed := true)
  }

  predicate Waiting(s: State, i: nat)
  {
    exists id :: id in s.table && s.table[id] == i
  }

  predicate TableInRange(s: State)
  {
    forall id :: id in s.table ==> s.table[id] < |s.channels|
  }

  ghost function ClearAll(s: State): Outcome
    requires TableInRange(s)
  {
    if exists id :: id in s.table && s.channels[s.table[id]].closed then Fails(SendOnClosed)
    else Next(State(map[],
                    seq(|s.channels|, i requires 0 <= i < |s.channels| =>
                          if Waiting(s, i) then ClearOne(s.channels[i]) else s.channels[i]),
                    s.taken))
  }

  /** A caller acts only on channels there are, cancels a channel once, and reads only what is there. */
  predicate Legal(s: State, e: Event)
  {
    match e
    case Send(c) => c in s.taken && c < |s.channels|
    case Abandon(c) => c in s.taken
    case Cancel(c) => c < |s.channels| && !s.channels[c].cancelled
    case Consume(c) => c < |s.channels| && s.channels[c].buffer != []
    case _ => true
  }

  ghost function Step(s: State, e: Event): Outcome
    requires Legal(s, e) && TableInRange(s)
  {
    match e
    case Register(reqID) =>
      Next(State(s.table[reqID := |s.channels|], s.channels + [Channel(reqID, false, [], [], false)], s.taken))
    case Take(id) =>
      if id !in s.table then Next(s)
      else Next(State(s.table - {id}, s.channels, s.taken[s.table[id] := Answer(id)]))
    case Send(c) =>
      if s.channels[c].closed then Fails(SendOnClosed)
      else if s.channels[c].buffer != [] then Fails(SendBlocks)
      else Next(State(s.table, s.channels[c := Put(s.channels[c], s.taken[c])], s.taken - {c}))
    case Abandon(c) => Next(s.(taken := s.taken - {c}))
    case Cancel(c) =>
      if s.channels[c].closed then Fails(CloseOfClosed)
      else Next(State(s.table - {s.channels[c].reqID},
                      s.channels[c := s.channels[c].(closed := true, cancelled := true)], s.taken))
    case Clear => ClearAll(s)
    case Consume(c) => Next(s.(channels := s.channels[c := s.channels[c].(buffer := [])]))
  }

  /* ---------- What every step keeps ---------- */

  predicate ForOwner(reqID: Bytes, p: Packet)
  {
    p == Answer(reqID) || p == Disconnect
  }

  /** Nothing was ever put into the channel, and nobody closed it. */
  predicate Untouched(c: Channel)
  {
    !c.closed && !c.cancelled && c.buffer == [] && c.delivered == []
  }

  predicate GoodChannel(c: Channel)
  {
    && (c.closed <==> c.cancelled)
    && |c.delivered| <= 1 && (forall i :: 0 <= i < |c.delivered| ==> ForOwner(c.reqID, c.delivered[i]))
    && (c.buffer == [] || c.buffer == c.delivered)
  }

  /** Every channel in the table is open and empty; a taken one is empty, and closed only if its owner cancelled it. */
  ghost predicate Inv(s: State)
  {
    && TableInRange(s)
    && (forall i :: 0 <= i < |s.channels| ==> GoodChannel(s.channels[i]))
    && (forall id :: id in s.table ==>
          && s.channels[s.table[id]].reqID == id && Untouched(s.channels[s.table[id]]) && s.table[id] !in s.taken)
    && (forall c :: c in s.taken ==>
          && c < |s.channels| && s.taken[c] == Answer(s.channels[c].reqID)
          && s.channels[c].delivered == [] && s.channels[c].buffer == [])
  }

  /** The one way to fail: sending to a channel that its owner cancelled after it was taken. */
  predicate CancelledInFlight(s: State, e: Event)
  {
    e.Send? && e.channel < |s.channels| && s.channels[e.channel].cancelled
  }

  lemma ClearStep(s: State)
    requires Inv(s)
    ensures Step(s, Clear).Next? && Inv(Step(s, Clear).state)
    // the close branch is never taken: what was waiting is still open and holds the disconnection
    ensures forall id :: id in s.table ==>
      Step(s, Clear).state.channels[s.table[id]]
        == s.channels[s.table[id]].(buffer := [Disconnect], delivered := [Disconnect])
  {
    var s' := Step(s, Clear).state;
    forall i | 0 <= i < |s'.channels|
      ensures GoodChannel(s'.channels[i])
      ensures i in s.taken ==> s'.channels[i] == s.channels[i]
      ensures Waiting(s, i) ==> s'.channels[i] == s.channels[i].(buffer := [Disconnect], delivered := [Disconnect])
    {
      if Waiting(s, i) {
        var id :| id in s.table && s.table[id] == i;
        assert Untouched(s.channels[i]);
      }
    }
    forall id | id in s.table ensures Waiting(s, s.table[id]) { }
  }

  lemma StepKeepsInv(s: State, e: Event)
    requires Inv(s) && Legal(s, e)
    ensures Step(s, e) == Fails(SendOnClosed) <==> CancelledInFlight(s, e)
    ensures Step(s, e).Fails? ==> Step(s, e).fault == SendOnClosed
    ensures Step(s, e).Next? ==> Inv(Step(s, e).state)
  {
    if e.Clear? {
      ClearStep(s);
    } else if e.Cancel? {
      CancelStep(s, e.channel);
    } else if e.Send? {
      SendStep(s, e.channel);
    }
  }

  lemma SendStep(s: State, c: nat)
    requires Inv(s) && Legal(s, Send(c))
    ensures Step(s, Send(c)) == Fails(SendOnClosed) <==> s.channels[c].cancelled
    ensures Step(s, Send(c)).Fails? ==> Step(s, Send(c)).fault == SendOnClosed
    ensures Step(s, Send(c)).Next? ==> Inv(Step(s, Send(c)).state)
  {
  }

  lemma CancelStep(s: State, c: nat)
    requires Inv(s) && Legal(s, Cancel(c))
    ensures Step(s, Cancel(c)).Next? && Inv(Step(s, Cancel(c)).state)
  {
    var s' := Step(s, Cancel(c)).state;
    forall id | id in s'.table
      ensures s'.channels[s'.table[id]] == s.channels[s.table[id]]
    {
      assert s.channels[s.table[id]].reqID == id;
    }
  }

  /* ---------- Whole runs ---------- */

  ghost function Run(es: seq<Event>): (r: Outcome)
    ensures r.Next? ==> Inv(r.state)
  {
    if es == [] then Next(INITIAL) else
      var before := Run(es[..|es| - 1]);
      var e := es[|es| - 1];
      if before.Fails? || !Legal(before.state, e) then before
      else StepKeepsInv(before.state, e); Step(before.state, e)
  }

  /** Callers keep to `Legal` as long as the run goes on. */
  ghost predicate LegalRun(es: seq<Event>)
  {
    forall k :: 0 <= k < |es| && Run(es[..k]).Next? ==> Legal(Run(es[..k]).state, es[k])
  }

  lemma PrefixOfLegal(es: seq<Event>, n: nat)
    requires LegalRun(es) && n <= |es|
    ensures LegalRun(es[..n])
  {
    forall k | 0 <= k < n && Run(es[..n][..k]).Next?
      ensures Legal(Run(es[..n][..k]).state, es[..n][k])
    {
      assert es[..n][..k] == es[..k];
    }
  }

  lemma RunLast(es: seq<Event>)
    requires LegalRun(es) && es != []
    ensures var n := |es| - 1;
            && LegalRun(es[..n])
            && es == es[..n] + [es[n]]
            && if Run(es[..n]).Fails? then Run(es) == Run(es[..n])
               else Legal(Run(es[..n]).state, es[n]) && Run(es) == Step(Run(es[..n]).state, es[n])
  {
    hide Step, Inv;
    PrefixOfLegal(es, |es| - 1);
  }

  lemma StepMarks(s: State, e: Event)
    requires Inv(s) && Legal(s, e) && Step(s, e).Next?
    ensures |Step(s, e).state.channels| >= |s.channels|
    ensures e.Cancel? ==> e.channel < |s.channels|
    ensures forall c :: 0 <= c < |Step(s, e).state.channels| ==>
      (Step(s, e).state.channels[c].cancelled <==> e == Cancel(c) || (c < |s.channels| && s.channels[c].cancelled))
  {
    if e.Clear? {
      ClearStep(s);
    }
  }

  /** A channel is marked cancelled by its Cancel event and by nothing else. */
  lemma {:induction false} CancelledMeansCancelEvent(es: seq<Event>, c: nat)
    requires LegalRun(es) && Run(es).Next?
    ensures Cancel(c) in es <==> c < |Run(es).state.channels| && Run(es).state.channels[c].cancelled
  {
    if es != [] {
      var n := |es| - 1;
      RunLast(es);
      hide Step, Run, Inv, LegalRun, Legal;
      CancelledMeansCancelEvent(es[..n], c);
      StepMarks(Run(es[..n]).state, es[n]);
    }
  }

  /** A send that comes after a cancellation of its channel. */
  predicate SendAfterCancel(es: seq<Event>, k: nat)
  {
    k < |es| && es[k].Send? && Cancel(es[k].channel) in es[..k]
  }

  /**
   * In every run no send blocks, no channel is closed twice and clearing closes nothing; a run fails exactly when
   * some send follows a cancellation of the same channel, and then by sending to a closed channel.
   */
  lemma {:induction false} RunFailsIff(es: seq<Event>)
    requires LegalRun(es)
    ensures Run(es).Fails? ==> Run(es).fault == SendOnClosed
    ensures Run(es).Fails? <==> exists k :: SendAfterCancel(es, k)
  {
    if es != [] {
      var n := |es| - 1;
      RunLast(es);
      RunFailsIff(es[..n]);
      SendAfterCancelSnoc(es, es[..n]);
      var before := Run(es[..n]);
      if before.Next? {
        StepKeepsInv(before.state, es[n]);
        if es[n].Send? {
          CancelledMeansCancelEvent(es[..n], es[n].channel);
        }
      }
      hide Step, Run, Inv, LegalRun;
    }
  }

  lemma SendAfterCancelSnoc(es: seq<Event>, front: seq<Event>)
    requires es != [] && front == es[..|es| - 1]
    ensures (exists k :: SendAfterCancel(es, k)) <==>
        SendAfterCancel(es, |es| - 1) || exists k :: SendAfterCancel(front, k)
  {
    var n := |es| - 1;
    forall k: nat | k < n
      ensures SendAfterCancel(es, k) <==> SendAfterCancel(es[..n], k)
    {
      assert es[..n][..k] == es[..k];
    }
    if k :| SendAfterCancel(es, k) && k != n {
      assert SendAfterCancel(es[..n], k);
    }
    if k :| SendAfterCancel(es[..n], k) {
      assert SendAfterCancel(es, k);
    }
  }

  /** The shortest way to fail: the caller gives up between the take and the send. */
  lemma FailingRun(id: Bytes)
    ensures var es := [Register(id), Take(id), Cancel(0), Send(0)];
            LegalRun(es) && Run(es) == Fails(SendOnClosed)
  {
    var es := [Register(id), Take(id), Cancel(0), Send(0)];
    var s1 := State(map[id := 0], [Channel(id, false, [], [], false)], map[]);
    var s2 := State(map[], s1.channels, map[0 := Answer(id)]);
    var s3 := State(map[], [Channel(id, true, [], [], true)], s2.taken);
    FailingSteps(id);
    hide Step, Legal, Run;
    RunStart();
    RunBy(es[..1], es[..0], Register(id), INITIAL);
    RunBy(es[..2], es[..1], Take(id), s1);
    RunBy(es[..3], es[..2], Cancel(0), s2);
    RunBy(es, es[..3], Send(0), s3);
    forall k | 0 <= k < |es| ensures Run(es[..k]).Next? && Legal(Run(es[..k]).state, es[k]) {
      assert k == 0 || k == 1 || k == 2 || k == 3;
    }
  }

  lemma FailingSteps(id: Bytes)
    ensures var s1 := State(map[id := 0], [Channel(id, false, [], [], false)], map[]);
            var s2 := State(map[], s1.channels, map[0 := Answer(id)]);
            var s3 := State(map[], [Channel(id, true, [], [], true)], s2.taken);
            && TableInRange(INITIAL) && Legal(INITIAL, Register(id)) && Step(INITIAL, Register(id)) == Next(s1)
            && TableInRange(s1) && Legal(s1, Take(id)) && Step(s1, Take(id)) == Next(s2)
            && TableInRange(s2) && Legal(s2, Cancel(0)) && Step(s2, Cancel(0)) == Next(s3)
            && TableInRange(s3) && Legal(s3, Send(0)) && Step(s3, Send(0)) == Fails(SendOnClosed)
  {
  }

  lemma RunStart()
    ensures Run([]) == Next(INITIAL)
  {
  }

  lemma RunBy(es: seq<Event>, front: seq<Event>, e: Event, s: State)
    requires es == front + [e] && Run(front) == Next(s) && Legal(s, e) && TableInRange(s)
    ensures Run(es) == Step(s, e)
  {
    assert es[..|es| - 1] == front;
    hide Step, Legal;
  }

  /**
   * Once cancelled and not in flight, a channel can never be taken again: a harmful cancellation comes after the take.
   */
  lemma CancelledIsNeverTaken(s: State, e: Event, c: nat)
    requires Inv(s) && Legal(s, e) && Step(s, e).Next?
    requires c < |s.channels| && s.channels[c].cancelled && c !in s.taken
    ensures c < |Step(s, e).state.channels| && Step(s, e).state.channels[c].cancelled && c !in Step(s, e).state.taken
  {
    if e.Clear? {
      ClearStep(s);
    }
  }

  /* ---------- Where the cancellation falls ---------- */

  lemma {:induction false} NeverTakenAgain(es: seq<Event>, k: nat, c: nat)
    requires LegalRun(es) && k <= |es| && Run(es).Next?
    requires Run(es[..k]).Next? && c < |Run(es[..k]).state.channels| && Run(es[..k]).state.channels[c].cancelled
    requires c !in Run(es[..k]).state.taken
    ensures c !in Run(es).state.taken && c < |Run(es).state.channels| && Run(es).state.channels[c].cancelled
  {
    if k == |es| {
      assert es[..k] == es;
    } else {
      var n := |es| - 1;
      RunLast(es);
      hide Step, Run, Inv, LegalRun, Legal;
      assert es[..n][..k] == es[..k];
      NeverTakenAgain(es[..n], k, c);
      CancelledIsNeverTaken(Run(es[..n]).state, es[n], c);
    }
  }

  /** The event at `i` is the take of channel `c`. */
  ghost predicate Takes(es: seq<Event>, i: nat, c: nat)
  {
    && i < |es| && es[i].Take? && Run(es[..i]).Next?
    && es[i].id in Run(es[..i]).state.table && Run(es[..i]).state.table[es[i].id] == c
  }

  lemma StepTakes(s: State, e: Event, c: nat)
    requires Inv(s) && Legal(s, e) && Step(s, e).Next? && c in Step(s, e).state.taken
    ensures c in s.taken || (e.Take? && e.id in s.table && s.table[e.id] == c)
  {
  }

  lemma LastTakes(es: seq<Event>, c: nat)
    requires es != [] && LegalRun(es) && Run(es).Next? && c in Run(es).state.taken
    ensures var n := |es| - 1;
            LegalRun(es[..n]) && Run(es[..n]).Next? && (c in Run(es[..n]).state.taken || Takes(es, n, c))
  {
    hide Step, Run, Inv, LegalRun, Legal;
    RunLast(es);
    StepTakes(Run(es[..|es| - 1]).state, es[|es| - 1], c);
  }

  lemma {:induction false} TakenMeansTake(es: seq<Event>, c: nat)
    requires LegalRun(es) && Run(es).Next? && c in Run(es).state.taken
    ensures exists i :: Takes(es, i, c)
  {
    if es == [] {
      assert false;
    } else {
      hide Step, Run, Inv, LegalRun, Legal, Takes;
      var n := |es| - 1;
      LastTakes(es, c);
      if c in Run(es[..n]).state.taken {
        TakenMeansTake(es[..n], c);
        var i :| Takes(es[..n], i, c);
        TakesInFull(es, n, i, c);
      }
    }
  }

  /** In every run that fails, the fatal cancellation lies between the take of its channel and the send. */
  lemma FailureIsInFlight(es: seq<Event>) returns (i: nat, j: nat, k: nat)
    requires LegalRun(es) && Run(es).Fails?
    ensures i < j < k < |es| && es[k].Send? && Takes(es, i, es[k].channel) && es[j] == Cancel(es[k].channel)
  {
    hide Step, Run, Inv, LegalRun, Legal, Takes;
    k := FailsAt(es);
    var c := es[k].channel;
    j :| 0 <= j < k && es[j] == Cancel(c);
    WasTaken(es, j, k);
    PrefixOfLegal(es, j);
    TakenMeansTake(es[..j], c);
    i :| Takes(es[..j], i, c);
    TakesInFull(es, j, i, c);
  }

  lemma TakesInFull(es: seq<Event>, j: nat, i: nat, c: nat)
    requires j <= |es| && Takes(es[..j], i, c)
    ensures i < j && Takes(es, i, c)
  {
    hide Run;
    assert es[..j][..i] == es[..i];
  }

  /** A channel that is sent to later was already taken when it was cancelled. */
  lemma WasTaken(es: seq<Event>, j: nat, k: nat)
    requires LegalRun(es) && j < k < |es| && es[k].Send? && es[j] == Cancel(es[k].channel)
    requires Run(es[..k]).Next? && Legal(Run(es[..k]).state, es[k])
    ensures Run(es[..j]).Next? && es[k].channel in Run(es[..j]).state.taken
  {
    hide Run, Inv, LegalRun;
    var c := es[k].channel;
    PrefixRuns(es, k, j);
    PrefixRuns(es, k, j + 1);
    PrefixOfLegal(es, j + 1);
    PrefixOfLegal(es, k);
    assert es[..j + 1][..j] == es[..j] && es[..k][..j + 1] == es[..j + 1];
    RunLast(es[..j + 1]);
    if c !in Run(es[..j]).state.taken {
      NeverTakenAgain(es[..k], j + 1, c);
      assert false;
    }
  }

  lemma RunBefore(es: seq<Event>)
    requires es != [] && Run(es).Next?
    ensures Run(es[..|es| - 1]).Next?
  {
    hide Step, Legal, Inv;
  }

  lemma {:induction false} PrefixRuns(es: seq<Event>, k: nat, j: nat)
    requires j <= k <= |es| && Run(es[..k]).Next?
    ensures Run(es[..j]).Next?
    decreases k
  {
    if j < k {
      assert es[..k][..k - 1] == es[..k - 1];
      RunBefore(es[..k]);
      hide Run;
      PrefixRuns(es, k - 1, j);
    }
  }

  /** The step at which a run fails. */
  lemma {:induction false} FailsAt(es: seq<Event>) returns (k: nat)
    requires LegalRun(es) && Run(es).Fails?
    ensures k < |es| && Run(es[..k]).Next? && Legal(Run(es[..k]).state, es[k])
    ensures es[k].Send? && Cancel(es[k].channel) in es[..k]
  {
    var n := |es| - 1;
    RunLast(es);
    if Run(es[..n]).Fails? {
      k := FailsAt(es[..n]);
      assert es[..n][..k] == es[..k];
    } else {
      k := n;
      StepKeepsInv(Run(es[..n]).state, es[n]);
      CancelledMeansCancelEvent(es[..n], es[n].channel);
    }
  }
}
