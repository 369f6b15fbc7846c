/** What waiters get: every answer that is sent arrives, and whoever still waits is told of a disconnection. */
module WaiterDelivery {
  import opened Bytes
  import opened Waiters

  /* ---------- Single steps ---------- */

  /** A send that does not fail puts the answer to the channel's own request into it, and touches no other channel. */
  lemma SendDelivers(s: State, c: nat)
    requires Inv(s) && Legal(s, Send(c)) && Step(s, Send(c)).Next?
    ensures var next, answer := Step(s, Send(c)).state, [Answer(s.channels[c].reqID)];
            && next.channels == s.channels[c := s.channels[c].(buffer := answer, delivered := answer)]
            && next.table == s.table && next.taken == s.taken - {c}
  {
    var p := Answer(s.channels[c].reqID);
    assert s.taken[c] == p && s.channels[c].buffer == [] && s.channels[c].delivered == [];
    assert Put(s.channels[c], p) == s.channels[c].(buffer := [p], delivered := [p]);
  }

  /** What the caller reads is what was delivered; it is then gone from the channel. */
  lemma ConsumeReads(s: State, c: nat)
    requires Inv(s) && Legal(s, Consume(c))
    ensures s.channels[c].buffer == s.channels[c].delivered && |s.channels[c].buffer| == 1
    ensures Step(s, Consume(c)) == Next(s.(channels := s.channels[c := s.channels[c].(buffer := [])]))
  {
  }

  /** Registering, taking, giving up and cancelling, as they change the table. */
  lemma TableSteps(s: State, id: Bytes, c: nat)
    requires Inv(s)
    ensures var r := Step(s, Register(id));
            && r.Next? && r.state.table == s.table[id := |s.channels|] && r.state.taken == s.taken
            && r.state.channels == s.channels + [Channel(id, false, [], [], false)]
    ensures id in s.table ==>
        Step(s, Take(id)) == Next(State(s.table - {id}, s.channels, s.taken[s.table[id] := Answer(id)]))
    ensures id !in s.table ==> Step(s, Take(id)) == Next(s)
    ensures Legal(s, Abandon(c)) ==> Step(s, Abandon(c)) == Next(s.(taken := s.taken - {c}))
    ensures Legal(s, Cancel(c)) ==>
              var r := Step(s, Cancel(c));
              && r.Next? && r.state.table == s.table - {s.channels[c].reqID} && r.state.taken == s.taken
              && r.state.channels == s.channels[c := s.channels[c].(closed := true, cancelled := true)]
  {
  }

  /* ---------- Runs ---------- */

  /** The IDs registered, in order; the channels are numbered in this order. */
  function Registered(es: seq<Event>): seq<Bytes>
  {
    if es == [] then [] else
      Registered(es[..|es| - 1]) + if es[|es| - 1].Register? then [es[|es| - 1].reqID] else []
  }

  lemma StepKeepsChannels(s: State, e: Event)
    requires Inv(s) && Legal(s, e) && Step(s, e).Next?
    ensures var next := Step(s, e).state;
            && |next.channels| == |s.channels| + (if e.Register? then 1 else 0)
            && (e.Register? ==> next.channels[|s.channels|].reqID == e.reqID)
            && forall c :: 0 <= c < |s.channels| ==>
                 && next.channels[c].reqID == s.channels[c].reqID
                 && (s.channels[c].delivered != [] ==> next.channels[c].delivered == s.channels[c].delivered)
  {
    if e.Clear? {
      ClearStep(s);
    }
  }

  lemma {:induction false} ChannelsAreRegistrations(es: seq<Event>)
    requires LegalRun(es) && Run(es).Next?
    ensures var channels := Run(es).state.channels;
            |channels| == |Registered(es)| && forall c :: 0 <= c < |channels| ==> channels[c].reqID == Registered(es)[c]
  {
    if es != [] {
      hide Step, Run, Inv, LegalRun, Legal;
      var n := |es| - 1;
      RunLast(es);
      ChannelsAreRegistrations(es[..n]);
      StepKeepsChannels(Run(es[..n]).state, es[n]);
    } else {
      assert Run(es) == Next(INITIAL);
    }
  }

  /** What was delivered stays delivered. */
  lemma {:induction false} DeliveredStays(es: seq<Event>, k: nat, c: nat)
    requires LegalRun(es) && Run(es).Next? && k <= |es| && Run(es[..k]).Next?
    requires c < |Run(es[..k]).state.channels| && Run(es[..k]).state.channels[c].delivered != []
    ensures c < |Run(es).state.channels|
    ensures Run(es).state.channels[c].delivered == Run(es[..k]).state.channels[c].delivered
  {
    hide Step, Run, Inv, LegalRun, Legal;
    if k == |es| {
      assert es[..k] == es;
    } else {
      var n := |es| - 1;
      RunLast(es);
      assert es[..n][..k] == es[..k];
      DeliveredStays(es[..n], k, c);
      StepKeepsChannels(Run(es[..n]).state, es[n]);
    }
  }

  lemma StepAt(es: seq<Event>, k: nat)
    requires LegalRun(es) && Run(es).Next? && k < |es|
    ensures Run(es[..k]).Next? && Run(es[..k + 1]).Next? && Legal(Run(es[..k]).state, es[k])
    ensures Run(es[..k + 1]) == Step(Run(es[..k]).state, es[k])
  {
    hide Step, Run, Inv, Legal;
    PrefixOfLegal(es, k + 1);
    assert es[..|es|] == es;
    PrefixRuns(es, |es|, k + 1);
    PrefixRuns(es, |es|, k);
    hide LegalRun;
    assert es[..k + 1][..k] == es[..k];
    RunLast(es[..k + 1]);
  }

  /** In every run: a channel that is sent to has got exactly the answer to the request it was registered for. */
  lemma SentIsDelivered(es: seq<Event>, k: nat, c: nat)
    requires LegalRun(es) && Run(es).Next? && k < |es| && es[k] == Send(c)
    ensures c < |Run(es).state.channels| == |Registered(es)|
    ensures Run(es).state.channels[c].delivered == [Answer(Registered(es)[c])]
  {
    hide Step, Run, Inv, LegalRun;
    StepAt(es, k);
    var s := Run(es[..k]).state;
    SendDelivers(s, c);
    hide Legal;
    ChannelsAreRegistrations(es);
    DeliveredStays(es, k + 1, c);
    ReqIDStays(es, k, c);
  }

  lemma {:induction false} ReqIDStays(es: seq<Event>, k: nat, c: nat)
    requires LegalRun(es) && Run(es).Next? && k <= |es| && Run(es[..k]).Next? && c < |Run(es[..k]).state.channels|
    ensures c < |Run(es).state.channels| && Run(es).state.channels[c].reqID == Run(es[..k]).state.channels[c].reqID
  {
    hide Step, Run, Inv, LegalRun, Legal;
    if k == |es| {
      assert es[..k] == es;
    } else {
      var n := |es| - 1;
      RunLast(es);
      assert es[..n][..k] == es[..k];
      ReqIDStays(es[..n], k, c);
      StepKeepsChannels(Run(es[..n]).state, es[n]);
    }
  }

  /** Events that take a waiter out of the table, or put another in its place. */
  predicate Ends(e: Event, id: Bytes, c: nat)
  {
    e == Clear || e == Take(id) || e == Cancel(c) || e == Register(id)
  }

  lemma StepKeepsWaiting(s: State, e: Event, id: Bytes, c: nat)
    requires Inv(s) && Legal(s, e) && Step(s, e).Next? && id in s.table && s.table[id] == c && !Ends(e, id, c)
    requires forall i :: 0 <= i < |s.channels| && s.channels[i].reqID == id ==> i == c
    ensures var next := Step(s, e).state;
            && id in next.table && next.table[id] == c
            && forall i :: 0 <= i < |next.channels| && next.channels[i].reqID == id ==> i == c
  {
  }

  /** A waiter whose ID is registered once stays in the table until it is taken, cancelled or cleared. */
  lemma {:induction false} StillWaiting(es: seq<Event>, r: nat, id: Bytes)
    requires LegalRun(es) && Run(es).Next? && r < |es| && es[r] == Register(id) && id !in Registered(es[..r])
    requires forall k :: r < k < |es| ==> !Ends(es[k], id, |Registered(es[..r])|)
    ensures var s, c := Run(es).state, |Registered(es[..r])|;
            && id in s.table && s.table[id] == c
            && forall i :: 0 <= i < |s.channels| && s.channels[i].reqID == id ==> i == c
  {
    hide Step, Run, Inv, LegalRun, Legal;
    var n := |es| - 1;
    RunLast(es);
    var s := Run(es[..n]).state;
    if r == n {
      ChannelsAreRegistrations(es[..n]);
      JustRegistered(s, id, Registered(es[..n]));
    } else {
      assert es[..n][..r] == es[..r];
      StillWaiting(es[..n], r, id);
      StepKeepsWaiting(s, es[n], id, |Registered(es[..r])|);
    }
  }

  lemma JustRegistered(s: State, id: Bytes, ids: seq<Bytes>)
    requires Inv(s) && |s.channels| == |ids| && id !in ids
    requires forall c :: 0 <= c < |ids| ==> s.channels[c].reqID == ids[c]
    ensures var next := Step(s, Register(id)).state;
            && Step(s, Register(id)).Next? && id in next.table && next.table[id] == |ids|
            && forall i :: 0 <= i < |next.channels| && next.channels[i].reqID == id ==> i == |ids|
  {
    TableSteps(s, id, 0);
  }

  /**
   * In every run: a request that is still waiting when the connection is lost, neither answered nor cancelled, is told
   * of the disconnection.
   */
  lemma WaitingAreTold(es: seq<Event>, r: nat, k: nat, id: Bytes)
    requires LegalRun(es) && Run(es).Next? && r < k < |es| && es[r] == Register(id) && es[k] == Clear
    requires id !in Registered(es[..r])
    requires forall i :: r < i < k ==> !Ends(es[i], id, |Registered(es[..r])|)
    ensures var c := |Registered(es[..r])|;
            c < |Run(es).state.channels| && Run(es).state.channels[c].delivered == [Disconnect]
  {
    hide Step, Run, Inv, LegalRun, Legal;
    StepAt(es, k);
    PrefixOfLegal(es, k);
    assert es[..k][..r] == es[..r] && es[..k][r] == es[r];
    forall i | r < i < |es[..k]| ensures !Ends(es[..k][i], id, |Registered(es[..r])|) {
      assert es[..k][i] == es[i];
    }
    StillWaiting(es[..k], r, id);
    var s, c := Run(es[..k]).state, |Registered(es[..r])|;
    TableRange(s, id);
    ClearStep(s);
    StepKeepsChannels(s, Clear);
    DeliveredStays(es, k + 1, c);
  }

  lemma TableRange(s: State, id: Bytes)
    requires Inv(s) && id in s.table
    ensures s.table[id] < |s.channels|
  {
  }
}
