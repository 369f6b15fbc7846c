/**
 * Building a patch to send (EncodePatch in appstate/encode.go) and the agreement between
 * the sender that builds it and a receiver that decodes it.
 */
module AppStateEncode {
  import opened Bytes
  import opened LTHash
  import opened AppState
  import opened AppStateProcessor
  import opened HashCounts

  type IV = b: Bytes | |b| == 16 witness Zeros(16)

  datatype MutationInfo = MutationInfo(index: seq<Bytes>, version: int, value: Action)

  datatype PatchInfo = PatchInfo(timestamp: int, name: Bytes, mutations: seq<MutationInfo>)

  function NextVersion(v: uint64): uint64
  {
    (v + 1) % 0x1_0000_0000_0000_0000
  }

  /** One mutation sealed under the random `iv`. */
  function EncodeMutation(p: Primitives, keyID: Bytes, keys: Keys, timestamp: int, info: MutationInfo,
                          iv: IV): Option<SyncdMutation>
  {
    var index := p.marshalIndex(info.index);
    if index.None? then None else
      var content := p.marshalAction(SyncAction(index.value, info.value.(timestamp := timestamp), info.version));
      if content.None? then None else
        var sealed := p.encrypt(keys.valueEncryption, iv, content.value);
        if sealed.None? then None else
          var encrypted := iv + sealed.value;
          var valueMAC := ContentMAC(p, SET, encrypted, keyID, keys.valueMAC);
          Some(SyncdMutation(SET, SyncdRecord(p.hmac256(keys.index, index.value), encrypted + valueMAC, keyID)))
  }

  function EncodeAll(p: Primitives, keyID: Bytes, keys: Keys, timestamp: int, infos: seq<MutationInfo>, ivs: seq<IV>)
    : (r: Option<seq<SyncdMutation>>)
    requires |ivs| == |infos|
    ensures r.Some? ==> |r.value| == |infos|
    ensures r.Some? ==> forall i :: 0 <= i < |infos| ==>
      EncodeMutation(p, keyID, keys, timestamp, infos[i], ivs[i]) == Some(r.value[i])
    ensures r.Some? ==> WellSized(r.value) && LongValues(r.value)
  {
    if infos == [] then Some([]) else
      var n := |infos| - 1;
      var before := EncodeAll(p, keyID, keys, timestamp, infos[..n], ivs[..n]);
      var last := EncodeMutation(p, keyID, keys, timestamp, infos[n], ivs[n]);
      if before.None? || last.None? then None else Some(before.value + [last.value])
  }

  /** The hash that the sender announces: only the store is asked what a mutation displaces. */
  function SenderHash(expand: Expander, h: Hash, t: Table, ms: seq<SyncdMutation>): Hash
    requires WellSized(ms)
  {
    SubtractThenAdd(expand, h, DisplacedFromStore(t, ms), Added(ms))
  }

  /** The patch for a list of sealed mutations; its version is filled in by the server. */
  function SealPatch(p: Primitives, keyID: Bytes, keys: Keys, name: Bytes, state: HashState, t: Table,
                     ms: seq<SyncdMutation>): SyncdPatch
    requires WellSized(ms) && LongValues(ms)
  {
    var next := HashState(NextVersion(state.version), SenderHash(p.expand, state.hash, t, ms));
    var snapshotMAC := SnapshotMAC(p, next, name, keys.snapshotMAC);
    SyncdPatch(0, ms, snapshotMAC, PatchMAC(p, ms, snapshotMAC, name, keys.patchMAC, next.version), keyID)
  }

  method EncodePatch(proc: Processor, keyID: Bytes, state: HashState, info: PatchInfo, ivs: seq<IV>)
    returns (r: Result<SyncdPatch, Error>)
    requires |ivs| == |info.mutations|
    ensures keyID !in proc.env.keys ==> r == Err(KeyNotFound)
    ensures keyID in proc.env.keys ==>
              var ms := EncodeAll(proc.env.prims, keyID, proc.env.keys[keyID], info.timestamp, info.mutations, ivs);
              r == if ms.None? then Err(EncodeFailed)
                   else Ok(SealPatch(proc.env.prims, keyID, proc.env.keys[keyID], info.name, state,
                                     proc.store.CollectionOf(info.name).table, ms.value))
  {
    hide EncodeMutation, SnapshotMAC, PatchMAC, DisplacedFromStore, Added, SubtractThenAdd;
    if keyID !in proc.env.keys {
      return Err(KeyNotFound);
    }
    var p, keys := proc.env.prims, proc.env.keys[keyID];
    var mutations: seq<SyncdMutation> := [];
    for i := 0 to |info.mutations|
      invariant EncodeAll(p, keyID, keys, info.timestamp, info.mutations[..i], ivs[..i]) == Some(mutations)
    {
      assert info.mutations[..i + 1][..i] == info.mutations[..i] && ivs[..i + 1][..i] == ivs[..i];
      var m := EncodeMutation(p, keyID, keys, info.timestamp, info.mutations[i], ivs[i]);
      if m.None? {
        return Err(EncodeFailed);
      }
      mutations := mutations + [m.value];
    }
    assert info.mutations[..|info.mutations|] == info.mutations && ivs[..|ivs|] == ivs;
    var hash := UpdateHash(p.expand, state.hash, mutations, StoreOnly, proc.store.CollectionOf(info.name).table);
    var next := HashState(NextVersion(state.version), hash.value);
    var snapshotMAC := SnapshotMAC(p, next, info.name, keys.snapshotMAC);
    var patchMAC := PatchMAC(p, mutations, snapshotMAC, info.name, keys.patchMAC, next.version);
    r := Ok(SyncdPatch(0, mutations, snapshotMAC, patchMAC, keyID));
  }

  /* ---------- Opening what was sealed ---------- */

  /** What the receiver should see of one mutation. */
  function Expected(keyID: Bytes, timestamp: int, info: MutationInfo, m: SyncdMutation, version: uint64): Mutation
    requires |m.record.value| >= 32
  {
    Mutation(keyID, SET, info.value.(timestamp := timestamp), info.version, info.index,
             m.record.index, ValueMAC(m.record.value), version)
  }

  lemma OpensWhatWasSealed(env: Env, keyID: Bytes, timestamp: int, info: MutationInfo, iv: IV)
    requires Lawful(env.prims) && keyID in env.keys
    requires EncodeMutation(env.prims, keyID, env.keys[keyID], timestamp, info, iv).Some?
    ensures var m := EncodeMutation(env.prims, keyID, env.keys[keyID], timestamp, info, iv).value;
            && |m.record.value| >= 32 && m.record.keyID == keyID
            && var d := DecodeMutation(env, m, true);
               d.Ok? && forall v: uint64 :: ToMutation(m, d.value, v) == Expected(keyID, timestamp, info, m, v)
  {
    var p, keys := env.prims, env.keys[keyID];
    var m := EncodeMutation(p, keyID, keys, timestamp, info, iv).value;
    var index := p.marshalIndex(info.index).value;
    var action := SyncAction(index, info.value.(timestamp := timestamp), info.version);
    var sealed := p.encrypt(keys.valueEncryption, iv, p.marshalAction(action).value).value;
    var mac := ContentMAC(p, SET, iv + sealed, keyID, keys.valueMAC);
    var blob := m.record.value;
    assert blob == iv + sealed + mac;
    assert blob[..|blob| - 32] == iv + sealed && ValueMAC(blob) == mac;
    assert (iv + sealed)[..16] == iv && (iv + sealed)[16..] == sealed;
    assert p.unmarshalAction(p.marshalAction(action).value) == Some(action);
    assert p.unmarshalIndex(index) == Some(info.index);
  }

  lemma {:induction false} OpensAll(env: Env, keyID: Bytes, timestamp: int, infos: seq<MutationInfo>, ivs: seq<IV>,
                                    version: uint64)
    requires Lawful(env.prims) && keyID in env.keys && |ivs| == |infos|
    requires EncodeAll(env.prims, keyID, env.keys[keyID], timestamp, infos, ivs).Some?
    ensures var ms := EncodeAll(env.prims, keyID, env.keys[keyID], timestamp, infos, ivs).value;
            var d := DecodeAll(env, ms, true, version);
            && d.Ok? && |d.value| == |infos|
            && forall i :: 0 <= i < |infos| ==> d.value[i] == Expected(keyID, timestamp, infos[i], ms[i], version)
  {
    hide DecodeMutation, EncodeMutation, Lawful;
    if infos != [] {
      var n := |infos| - 1;
      var ms := EncodeAll(env.prims, keyID, env.keys[keyID], timestamp, infos, ivs).value;
      OpensAll(env, keyID, timestamp, infos[..n], ivs[..n], version);
      assert ms[..n] == EncodeAll(env.prims, keyID, env.keys[keyID], timestamp, infos[..n], ivs[..n]).value;
      OpensWhatWasSealed(env, keyID, timestamp, infos[n], ivs[n]);
    }
  }

  /* ---------- Sender and receiver ---------- */

  lemma {:induction false} DistinctDisplaceTheSame(t: Table, ms: seq<SyncdMutation>)
    requires WellSized(ms) && DistinctIndexes(ms)
    ensures DisplacedFromStore(t, ms) == Displaced(t, ms)
  {
    if ms != [] {
      var before := ms[..|ms| - 1];
      DistinctDisplaceTheSame(t, before);
      UntouchedIndex(t, before, ms[|ms| - 1].record.index);
    }
  }

  /** The sender's hash is the receiver's exactly when both subtractions weigh the same; distinct indexes suffice. */
  lemma HashesAgreeIff(expand: Expander, h: Hash, t: Table, ms: seq<SyncdMutation>)
    requires WellSized(ms)
    ensures SenderHash(expand, h, t, ms) == SequentialHash(expand, h, t, ms)
       <==> forall j: nat :: j < WORDS ==>
              Sum(Weight(expand, j), DisplacedFromStore(t, ms)) % 0x1_0000
                == Sum(Weight(expand, j), Displaced(t, ms)) % 0x1_0000
    ensures DistinctIndexes(ms) ==> SenderHash(expand, h, t, ms) == SequentialHash(expand, h, t, ms)
  {
    SequentialIsBatch(expand, h, t, ms);
    SubtractionsAgreeIff(expand, h, DisplacedFromStore(t, ms), Displaced(t, ms), Added(ms));
    hide Displaced, DisplacedFromStore, Added, SequentialHash, SubtractThenAdd, Sum;
    if DistinctIndexes(ms) {
      DistinctDisplaceTheSame(t, ms);
    }
  }

  /**
   * A receiver in the sender's state opens a patch, stamped with the next version, to the original indexes and
   * values in order, and it accepts the patch exactly when the snapshot MAC of its own hash is the sender's.
   */
  lemma AcceptedIff(env: Env, keyID: Bytes, c: Collection, info: PatchInfo, ivs: seq<IV>)
    requires Lawful(env.prims) && keyID in env.keys && |ivs| == |info.mutations|
    requires EncodeAll(env.prims, keyID, env.keys[keyID], info.timestamp, info.mutations, ivs).Some?
    ensures var keys := env.keys[keyID];
            var ms := EncodeAll(env.prims, keyID, keys, info.timestamp, info.mutations, ivs).value;
            var next := NextVersion(c.state.version);
            var patch := SealPatch(env.prims, keyID, keys, info.name, c.state, c.table, ms).(version := next);
            var mine := HashState(next, SequentialHash(env.prims.expand, c.state.hash, c.table, ms));
            var r := ApplyPatch(env, info.name, c, patch, true);
            && (r.Ok? <==> SnapshotMAC(env.prims, mine, info.name, keys.snapshotMAC) == patch.snapshotMAC)
            && (r.Err? ==> r.error == MismatchingLTHash)
            && (r.Ok? ==>
                  && r.value.0 == Collection(mine, ApplyMutations(c.table, ms))
                  && |r.value.1| == |info.mutations|
                  && forall i :: 0 <= i < |ms| ==>
                       r.value.1[i] == Expected(keyID, info.timestamp, info.mutations[i], ms[i], next))
  {
    var ms := EncodeAll(env.prims, keyID, env.keys[keyID], info.timestamp, info.mutations, ivs).value;
    OpensAll(env, keyID, info.timestamp, info.mutations, ivs, NextVersion(c.state.version));
    hide EncodeAll, DecodeAll, SequentialHash, SenderHash, ApplyMutations, SnapshotMAC, PatchMAC;
  }

  /**
   * With pairwise distinct index MACs, a peer with the same state, table and key accepts what EncodePatch made and
   * reaches exactly the hash that the sender announced.
   */
  lemma DistinctPatchIsAccepted(env: Env, keyID: Bytes, c: Collection, info: PatchInfo, ivs: seq<IV>)
    requires Lawful(env.prims) && keyID in env.keys && |ivs| == |info.mutations|
    requires EncodeAll(env.prims, keyID, env.keys[keyID], info.timestamp, info.mutations, ivs).Some?
    requires DistinctIndexes(EncodeAll(env.prims, keyID, env.keys[keyID], info.timestamp, info.mutations, ivs).value)
    ensures var keys := env.keys[keyID];
            var ms := EncodeAll(env.prims, keyID, keys, info.timestamp, info.mutations, ivs).value;
            var next := NextVersion(c.state.version);
            var patch := SealPatch(env.prims, keyID, keys, info.name, c.state, c.table, ms).(version := next);
            var r := ApplyPatch(env, info.name, c, patch, true);
            && r.Ok?
            && r.value.0.state == HashState(next, SenderHash(env.prims.expand, c.state.hash, c.table, ms))
            && |r.value.1| == |info.mutations|
            && forall i :: 0 <= i < |ms| ==>
                 && r.value.1[i].index == info.mutations[i].index
                 && r.value.1[i].action == info.mutations[i].value.(timestamp := info.timestamp)
                 && r.value.1[i].version == info.mutations[i].version
  {
    var ms := EncodeAll(env.prims, keyID, env.keys[keyID], info.timestamp, info.mutations, ivs).value;
    AcceptedIff(env, keyID, c, info, ivs);
    HashesAgreeIff(env.prims.expand, c.state.hash, c.table, ms);
    hide EncodeAll, SequentialHash, SenderHash, ApplyMutations, SnapshotMAC, PatchMAC, ApplyPatch;
  }

  /* ---------- Repeated indexes ---------- */

  /** Value MACs under fresh IVs: pairwise different and none of them stored yet. */
  predicate FreshValues(t: Table, ms: seq<SyncdMutation>)
    requires LongValues(ms)
  {
    && (forall i, j :: 0 <= i < j < |ms| ==> ValueMAC(ms[i].record.value) != ValueMAC(ms[j].record.value))
    && (forall i, k :: 0 <= i < |ms| && k in t ==> ValueMAC(ms[i].record.value) != t[k])
  }

  lemma {:induction false} CountStored(x: Bytes, t: Table)
    requires forall k :: k in t ==> t[k] != x
    ensures MapSum(Weight(Counter(x), 0), t) == 0
    decreases |t|
  {
    if t != map[] {
      var w := Weight(Counter(x), 0);
      var k :| k in t && MapSum(w, t) == w(t[k]) + MapSum(w, t - {k});
      CounterWeight(x, t[k]);
      CountStored(x, t - {k});
    }
  }

  /** Distinct values are put in once each. */
  lemma {:induction false} CountAdded(x: Bytes, ms: seq<SyncdMutation>)
    requires WellSized(ms) && LongValues(ms) && AllSets(ms)
    requires forall i, j :: 0 <= i < j < |ms| ==> ValueMAC(ms[i].record.value) != ValueMAC(ms[j].record.value)
    ensures 0 <= Sum(Weight(Counter(x), 0), Added(ms)) <= 1
    ensures (forall i :: 0 <= i < |ms| ==> ValueMAC(ms[i].record.value) != x) ==>
        Sum(Weight(Counter(x), 0), Added(ms)) == 0
  {
    if ms != [] {
      var n := |ms| - 1;
      CountAdded(x, ms[..n]);
      CounterWeight(x, ValueMAC(ms[n].record.value));
      assert Added(ms)[..|Added(ms)| - 1] == Added(ms[..n]);
    }
  }

  lemma {:induction false} StoreValuesOnly(t: Table, ms: seq<SyncdMutation>, x: Bytes)
    requires forall k :: k in t ==> t[k] != x
    ensures x !in DisplacedFromStore(t, ms)
  {
    if ms != [] {
      StoreValuesOnly(t, ms[..|ms| - 1], x);
    }
  }

  /** After setting an index, the table holds one of the values set for it. */
  lemma {:induction false} SetIndexHolds(t: Table, ms: seq<SyncdMutation>, i: nat) returns (p: nat)
    requires WellSized(ms) && LongValues(ms) && AllSets(ms) && i < |ms|
    ensures p < |ms| && Entry(ApplyMutations(t, ms), ms[i].record.index) == [ValueMAC(ms[p].record.value)]
  {
    var n := |ms| - 1;
    if ms[n].record.index == ms[i].record.index {
      p := n;
    } else {
      p := SetIndexHolds(t, ms[..n], i);
    }
  }

  lemma {:induction false} DisplacedGrows(t: Table, ms: seq<SyncdMutation>, n: nat, x: Bytes)
    requires WellSized(ms) && n <= |ms| && x in Displaced(t, ms[..n])
    ensures x in Displaced(t, ms)
  {
    if n < |ms| {
      assert ms[..|ms| - 1][..n] == ms[..n];
      DisplacedGrows(t, ms[..|ms| - 1], n, x);
    } else {
      assert ms[..n] == ms;
    }
  }

  /** A patch that sets an index twice is announced with a hash that, for some expansion, no receiver computes. */
  lemma RepeatedIndexDisagrees(h: Hash, t: Table, ms: seq<SyncdMutation>) returns (expand: Expander)
    requires WellSized(ms) && LongValues(ms) && AllSets(ms) && FreshValues(t, ms)
    requires !DistinctIndexes(ms)
    ensures SenderHash(expand, h, t, ms) != SequentialHash(expand, h, t, ms)
  {
    hide Displaced, DisplacedFromStore, Sum, Weight, ValueMAC, SenderHash, SequentialHash, FreshValues, Counter;
    var p := RepeatDisplaces(t, ms);
    var x := ValueMAC(ms[p].record.value);
    expand := Counter(x);
    FreshIsNotStored(t, ms, p);
    DisplacedOnce(t, ms, x);
    StoreValuesOnly(t, ms, x);
    CounterCounts(x, DisplacedFromStore(t, ms));
    HashesAgreeIff(expand, h, t, ms);
    assert Sum(Weight(expand, 0), Displaced(t, ms)) % 0x1_0000 == 1;
  }

  lemma RepeatDisplaces(t: Table, ms: seq<SyncdMutation>) returns (p: nat)
    requires WellSized(ms) && LongValues(ms) && AllSets(ms) && !DistinctIndexes(ms)
    ensures p < |ms| && |ms[p].record.value| >= 32 && ValueMAC(ms[p].record.value) in Displaced(t, ms)
  {
    hide Displaced, ValueMAC;
    var i, j :| 0 <= i < j < |ms| && ms[i].record.index == ms[j].record.index;
    p := SecondSetDisplaces(t, ms, i, j);
  }

  lemma FreshIsNotStored(t: Table, ms: seq<SyncdMutation>, p: nat)
    requires LongValues(ms) && FreshValues(t, ms) && p < |ms|
    ensures forall k :: k in t ==> t[k] != ValueMAC(ms[p].record.value)
  {
  }

  /** Setting an index again displaces a value that the same patch put in. */
  lemma SecondSetDisplaces(t: Table, ms: seq<SyncdMutation>, i: nat, j: nat) returns (p: nat)
    requires WellSized(ms) && LongValues(ms) && AllSets(ms)
    requires i < j < |ms| && ms[i].record.index == ms[j].record.index
    ensures p < |ms| && ValueMAC(ms[p].record.value) in Displaced(t, ms)
  {
    p := SetIndexHolds(t, ms[..j], i);
    assert ms[..j + 1][..j] == ms[..j];
    DisplacedGrows(t, ms, j + 1, ValueMAC(ms[p].record.value));
  }

  /** A fresh value can be displaced only once: it was put in once and never stored before. */
  lemma DisplacedOnce(t: Table, ms: seq<SyncdMutation>, x: Bytes)
    requires WellSized(ms) && LongValues(ms) && AllSets(ms) && FreshValues(t, ms)
    requires x in Displaced(t, ms) && forall k :: k in t ==> t[k] != x
    ensures Sum(Weight(Counter(x), 0), Displaced(t, ms)) == 1
  {
    var w := Weight(Counter(x), 0);
    CounterCounts(x, Displaced(t, ms));
    Conservation(w, t, ms);
    CountStored(x, t);
    CountAdded(x, ms);
    forall v ensures w(v) >= 0 { CounterWeight(x, v); }
    MapSumNonNegative(w, ApplyMutations(t, ms));
  }

  /**
   * For every patch: sender and receiver agree under every expansion if and only if each value is displaced, as seen
   * from the store alone, as often as it really is, up to multiples of 2^16.
   */
  lemma AlwaysAgreeIff(h: Hash, t: Table, ms: seq<SyncdMutation>)
    requires WellSized(ms)
    ensures (forall expand: Expander :: SenderHash(expand, h, t, ms) == SequentialHash(expand, h, t, ms))
       <==> Congruent(DisplacedFromStore(t, ms), Displaced(t, ms))
  {
    hide SenderHash, SequentialHash, Displaced, DisplacedFromStore, Congruent;
    var a, b := DisplacedFromStore(t, ms), Displaced(t, ms);
    SumsAgreeIff(a, b);
    forall expand: Expander
        ensures SenderHash(expand, h, t, ms) == SequentialHash(expand, h, t, ms) <==> SameSums(expand, a, b) {
      HashesAgreeIff(expand, h, t, ms);
    }
    if forall expand: Expander :: SenderHash(expand, h, t, ms) == SequentialHash(expand, h, t, ms) {
      forall expand: Expander ensures SameSums(expand, a, b) {
        assert SenderHash(expand, h, t, ms) == SequentialHash(expand, h, t, ms);
      }
    }
  }

  /** With fresh values that comes down to this: no index is repeated. */
  lemma AlwaysAgreeIffDistinct(h: Hash, t: Table, ms: seq<SyncdMutation>)
    requires WellSized(ms) && LongValues(ms) && AllSets(ms) && FreshValues(t, ms)
    ensures (forall expand: Expander :: SenderHash(expand, h, t, ms) == SequentialHash(expand, h, t, ms))
       <==> DistinctIndexes(ms)
  {
    hide SenderHash, SequentialHash;
    if DistinctIndexes(ms) {
      forall expand: Expander
        ensures SenderHash(expand, h, t, ms) == SequentialHash(expand, h, t, ms)
      {
        HashesAgreeIff(expand, h, t, ms);
      }
    } else {
      var expand := RepeatedIndexDisagrees(h, t, ms);
    }
  }

  /* ---------- The bytes of a sealed patch ---------- */

  /** Both MACs of a patch are for the version after the sender's, over these bytes. */
  lemma SealedFor(p: Primitives, keyID: Bytes, keys: Keys, name: Bytes, state: HashState, t: Table,
                  ms: seq<SyncdMutation>)
    requires WellSized(ms) && LongValues(ms) && state.version < 0xFFFF_FFFF_FFFF_FFFF
    ensures var patch := SealPatch(p, keyID, keys, name, state, t, ms);
            && patch.mutations == ms && patch.keyID == keyID
            && patch.snapshotMAC == p.hmac256(keys.snapshotMAC,
                 SubtractThenAdd(p.expand, state.hash, DisplacedFromStore(t, ms), Added(ms))
                 + BigEndian(state.version + 1, 8) + name)
            && patch.patchMAC == p.hmac256(keys.patchMAC,
                 patch.snapshotMAC + JoinedValueMACs(ms) + BigEndian(state.version + 1, 8) + name)
  {
    hide SubtractThenAdd, DisplacedFromStore, Added, JoinedValueMACs, BigEndian;
  }

  /**
   * A mutation is sealed exactly if its index and action can be serialised and the content encrypted; then these are
   * the index MAC and the value: IV, ciphertext, and half of the HMAC-SHA512 over them.
   */
  lemma SealedIff(p: Primitives, keyID: Bytes, keys: Keys, timestamp: int, info: MutationInfo, iv: IV)
    ensures var index := p.marshalIndex(info.index);
            EncodeMutation(p, keyID, keys, timestamp, info, iv).Some? <==>
              && index.Some?
              && var content :=
                p.marshalAction(SyncAction(index.value, info.value.(timestamp := timestamp), info.version));
                 content.Some? && p.encrypt(keys.valueEncryption, iv, content.value).Some?
    ensures EncodeMutation(p, keyID, keys, timestamp, info, iv).Some? ==>
              var m, index :=
                  EncodeMutation(p, keyID, keys, timestamp, info, iv).value, p.marshalIndex(info.index).value;
              var content :=
                  p.marshalAction(SyncAction(index, info.value.(timestamp := timestamp), info.version)).value;
              var sealed := iv + p.encrypt(keys.valueEncryption, iv, content).value;
              && m.op == SET && m.record.keyID == keyID && m.record.index == p.hmac256(keys.index, index)
              && m.record.value ==
                   sealed + p.hmac512(keys.valueMAC, [1] + keyID + sealed + BigEndian(|keyID| + 1, 8))[..32]
  {
    hide BigEndian;
  }

  /** A patch is encoded exactly if every mutation can be sealed. */
  lemma {:induction false} EncodedIff(p: Primitives, keyID: Bytes, keys: Keys, timestamp: int, infos: seq<MutationInfo>,
                                      ivs: seq<IV>)
    requires |ivs| == |infos|
    ensures EncodeAll(p, keyID, keys, timestamp, infos, ivs).Some? <==>
            forall i :: 0 <= i < |infos| ==> EncodeMutation(p, keyID, keys, timestamp, infos[i], ivs[i]).Some?
  {
    hide EncodeMutation;
    if infos != [] {
      var n := |infos| - 1;
      EncodedIff(p, keyID, keys, timestamp, infos[..n], ivs[..n]);
      assert forall i :: 0 <= i < n ==> infos[..n][i] == infos[i] && ivs[..n][i] == ivs[i];
    }
  }
}
