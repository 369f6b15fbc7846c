/** The recent-message ring (retry.go): 256 slots and a map from keys to messages, updated together. */
module RecentMessages {
  import opened Bytes
  import opened Jid

  const SIZE := 256

  datatype Key = Key(to: JID, id: Bytes)

  const NO_KEY := Key(NewJID([], []), [])

  datatype Add<M> = Add(key: Key, message: M)

  /**
   * The map after the messages were added in turn: each add evicts the key added 256 adds before, unless its ID is
   * empty.
   */
  function Held<M>(adds: seq<Add<M>>): map<Key, M>
    decreases |adds|
  {
    if adds == [] then map[] else
      var n := |adds| - 1;
      var before := Held(adds[..n]);
      var kept := if n >= 256 && adds[n - 256].key.id != [] then before - {adds[n - 256].key} else before;
      kept[adds[n].key := adds[n].message]
  }

  /** Where a key was added last. */
  ghost predicate LastAt<M(!new)>(adds: seq<Add<M>>, k: Key, p: nat)
  {
    p < |adds| && adds[p].key == k && forall q :: p < q < |adds| ==> adds[q].key != k
  }

  /** No slot that held the key was overwritten after the key was added last. */
  ghost predicate Survives<M(!new)>(adds: seq<Add<M>>, k: Key, p: nat)
  {
    k.id == [] || forall q :: 0 <= q <= p && q < |adds| && adds[q].key == k ==> !(p < q + 256 < |adds|)
  }

  lemma {:induction false} NeverAdded<M(!new)>(adds: seq<Add<M>>, k: Key)
    requires forall q :: 0 <= q < |adds| ==> adds[q].key != k
    ensures k !in Held(adds)
    decreases |adds|
  {
    if adds != [] {
      NeverAdded(adds[..|adds| - 1], k);
    }
  }

  /**
   * A key is found if and only if it was added, and no slot that held it has been overwritten since it was last
   * added; what is found is the message added last. (A key added twice within 256 adds is lost when its first slot
   * is overwritten; one with an empty ID is never evicted.)
   */
  lemma {:induction false} FoundIff<M(!new)>(adds: seq<Add<M>>, k: Key, p: nat)
    requires LastAt(adds, k, p)
    ensures k in Held(adds) <==> Survives(adds, k, p)
    ensures k in Held(adds) ==> Held(adds)[k] == adds[p].message
    decreases |adds|
  {
    var n := |adds| - 1;
    var front := adds[..n];
    if p < n {
      assert LastAt(front, k, p);
      FoundIff(front, k, p);
      SurvivesOneMore(adds, k, p);
      hide Held, Survives;
      HeldStep(adds);
    }
  }

  lemma HeldStep<M>(adds: seq<Add<M>>)
    requires adds != []
    ensures var n := |adds| - 1;
            var before := Held(adds[..n]);
            var evicts := n >= 256 && adds[n - 256].key.id != [];
            var kept := if evicts then before - {adds[n - 256].key} else before;
            Held(adds) == kept[adds[n].key := adds[n].message]
  {
  }

  lemma SurvivesOneMore<M(!new)>(adds: seq<Add<M>>, k: Key, p: nat)
    requires LastAt(adds, k, p) && p < |adds| - 1
    ensures var n := |adds| - 1;
            Survives(adds, k, p) <==>
              Survives(adds[..n], k, p) && !(n >= 256 && adds[n - 256].key == k && k.id != [])
  {
    var n := |adds| - 1;
    if Survives(adds[..n], k, p) && k.id != [] && !(n >= 256 && adds[n - 256].key == k) {
      forall q | 0 <= q <= p && q < |adds| && adds[q].key == k ensures !(p < q + 256 < |adds|) {
        assert adds[..n][q].key == k;
      }
    }
    if Survives(adds, k, p) && k.id != [] {
      forall q | 0 <= q <= p && q < n && adds[..n][q].key == k ensures !(p < q + 256 < n) {
        assert adds[q].key == k;
      }
    }
  }

  /** With distinct, non-empty keys: exactly the last 256 messages are found, with what was stored. */
  lemma LastAreFound<M(!new)>(adds: seq<Add<M>>, p: nat)
    requires p < |adds| && adds[p].key.id != []
    requires forall i, j :: 0 <= i < j < |adds| ==> adds[i].key != adds[j].key
    ensures adds[p].key in Held(adds) <==> |adds| - p <= 256
    ensures adds[p].key in Held(adds) ==> Held(adds)[adds[p].key] == adds[p].message
  {
    hide Held;
    FoundIff(adds, adds[p].key, p);
  }

  /** The keys of the map are always among the slots, as long as no ID is empty. */
  lemma {:induction false} KeysAreInSlots<M(!new)>(adds: seq<Add<M>>, k: Key)
    requires forall q :: 0 <= q < |adds| ==> adds[q].key.id != []
    requires k in Held(adds)
    ensures exists q :: 0 <= q < |adds| && |adds| - q <= 256 && adds[q].key == k
    decreases |adds|
  {
    var n := |adds| - 1;
    if adds[n].key != k {
      KeysAreInSlots(adds[..n], k);
      var q :| 0 <= q < n && n - q <= 256 && adds[..n][q].key == k;
      assert adds[q].key == k;
    }
  }

  /* ---------- The ring itself ---------- */

  /** The slots hold the keys of the last 256 adds, in turn. */
  ghost predicate Slots<M>(list: seq<Key>, history: seq<Add<M>>)
  {
    && |list| == 256
    && (forall i :: 0 <= i < 256 && i >= |history| ==> list[i] == NO_KEY)
    && (forall p :: 0 <= p < |history| && |history| - p <= 256 ==> list[p % 256] == history[p].key)
  }

  lemma SlotWritten<M>(list: seq<Key>, history: seq<Add<M>>, x: Add<M>)
    requires Slots(list, history)
    ensures Slots(list[|history| % 256 := x.key], history + [x])
  {
    var n := |history|;
    forall p | 0 <= p < n && n + 1 - p <= 256 ensures p % 256 != n % 256 {
      assert 0 < n - p < 256;
    }
  }

  class Client<M> {
    const recentMessagesList: array<Key>
    var recentMessagesPtr: nat
    var recentMessagesMap: map<Key, M>
    ghost var history: seq<Add<M>>

    ghost predicate Valid()
      reads this, recentMessagesList
    {
      && recentMessagesList.Length == SIZE
      && recentMessagesPtr == |history| % 256
      && recentMessagesMap == Held(history)
      && Slots(recentMessagesList[..], history)
    }

    constructor ()
      ensures Valid() && fresh(recentMessagesList) && history == []
    {
      recentMessagesList := new Key[SIZE](_ => NO_KEY);
      recentMessagesPtr, recentMessagesMap, history := 0, map[], [];
    }

    method AddRecentMessage(to: JID, id: Bytes, message: M)
      requires Valid()
      modifies this, recentMessagesList
      ensures Valid() && history == old(history) + [Add(Key(to, id), message)]
    {
      hide Held, Slots;
      var key := Key(to, id);
      ghost var n := |history|;
      Oldest();
      SlotWritten(recentMessagesList[..], history, Add(key, message));
      if recentMessagesList[recentMessagesPtr].id != [] {
        recentMessagesMap := recentMessagesMap - {recentMessagesList[recentMessagesPtr]};
      }
      recentMessagesMap := recentMessagesMap[key := message];
      recentMessagesList[recentMessagesPtr] := key;
      recentMessagesPtr := recentMessagesPtr + 1;
      if recentMessagesPtr >= recentMessagesList.Length {
        recentMessagesPtr := 0;
      }
      history := history + [Add(key, message)];
      assert history[..n] == old(history);
      HeldStep(history);
      assert recentMessagesList[..] == old(recentMessagesList[..])[n % 256 := key];
    }

    /** The slot that is next to be written holds the key added 256 adds ago. */
    lemma Oldest()
      requires Valid()
      ensures recentMessagesPtr < 256
      ensures recentMessagesList[recentMessagesPtr] == if |history| >= 256 then history[|history| - 256].key else NO_KEY
    {
      hide Held;
      if |history| >= 256 {
        assert (|history| - 256) % 256 == |history| % 256;
      }
    }

    method GetRecentMessage(to: JID, id: Bytes) returns (r: Option<M>)
      requires Valid()
      ensures r == if Key(to, id) in Held(history) then Some(Held(history)[Key(to, id)]) else None
    {
      r := if Key(to, id) in recentMessagesMap then Some(recentMessagesMap[Key(to, id)]) else None;
    }
  }
}
