/**
 * Which patches and snapshots are accepted, in terms of their bytes, what is handed on of them, and what a recovery
 * makes of the same records. The MACs are written out here, byte by byte, apart from the functions that check them.
 */
module AppStateAccept {
  import opened Bytes
  import opened LTHash
  import opened AppState
  import opened AppStateProcessor
  import opened AppStateSync

  /* ---------- What has to be signed ---------- */

  /** The last 32 bytes of each value, in the order of the mutations. */
  function Tails(ms: seq<SyncdMutation>): seq<Bytes>
    requires LongValues(ms)
  {
    seq(|ms|, i requires 0 <= i < |ms| => ms[i].record.value[|ms[i].record.value| - 32..])
  }

  /** HMAC-SHA256 over the hash, the version as eight bytes, and the name of the collection. */
  predicate SnapshotSigned(env: Env, name: Bytes, s: HashState, keyID: Bytes, mac: Bytes)
  {
    keyID in env.keys && mac == env.prims.hmac256(env.keys[keyID].snapshotMAC, s.hash + BigEndian(s.version, 8) + name)
  }

  /** HMAC-SHA256 over the snapshot MAC, the value MACs in order, the version as eight bytes, and the name. */
  predicate PatchSigned(env: Env, name: Bytes, p: SyncdPatch)
  {
    && p.keyID in env.keys && LongValues(p.mutations)
    && p.patchMAC == env.prims.hmac256(env.keys[p.keyID].patchMAC,
                                       p.snapshotMAC + Flatten(Tails(p.mutations)) + BigEndian(p.version, 8) + name)
  }

  /** Half of HMAC-SHA512 over 1 or 2 for the operation, the key ID, the content, and the ID's length plus one. */
  predicate ContentSigned(env: Env, m: SyncdMutation)
  {
    var keyID, blob := m.record.keyID, m.record.value;
    && keyID in env.keys && |blob| >= 32
    && blob[|blob| - 32..] ==
         env.prims.hmac512(env.keys[keyID].valueMAC,
                           [if m.op == SET then 1 else 2] + keyID + blob[..|blob| - 32] +
                             BigEndian(|keyID| + 1, 8))[..32]
  }

  /** What the sixteen bytes of IV and the rest of the content decrypt and parse to. */
  function Opened(env: Env, m: SyncdMutation): Option<SyncAction>
  {
    var keyID, blob := m.record.keyID, m.record.value;
    if keyID !in env.keys || |blob| < 48 then None else
      var plaintext := env.prims.decrypt(env.keys[keyID].valueEncryption, blob[..16], blob[16..|blob| - 32]);
      if plaintext.None? then None else env.prims.unmarshalAction(plaintext.value)
  }

  predicate MutationAccepted(env: Env, m: SyncdMutation, validate: bool)
  {
    var action := Opened(env, m);
    && action.Some? && env.prims.unmarshalIndex(action.value.index).Some?
    && (validate ==> ContentSigned(env, m))
    && (validate ==> m.record.index == env.prims.hmac256(env.keys[m.record.keyID].index, action.value.index))
  }

  /** What is handed on of a mutation. */
  function Handed(env: Env, m: SyncdMutation, version: uint64): Mutation
    requires MutationAccepted(env, m, false)
  {
    var action, blob := Opened(env, m).value, m.record.value;
    Mutation(m.record.keyID, m.op, action.value, action.version, env.prims.unmarshalIndex(action.index).value,
             m.record.index, blob[|blob| - 32..], version)
  }

  /* ---------- Mutations ---------- */

  lemma ContentMACIff(env: Env, m: SyncdMutation)
    requires m.record.keyID in env.keys && |m.record.value| >= 32
    ensures var blob := m.record.value;
            ContentSigned(env, m) <==>
            ContentMAC(env.prims, m.op, blob[..|blob| - 32], m.record.keyID, env.keys[m.record.keyID].valueMAC)
              == ValueMAC(blob)
  {
  }

  lemma ContentSlices(blob: Bytes)
    requires |blob| >= 48
    ensures var content := blob[..|blob| - 32];
            content[..16] == blob[..16] && content[16..] == blob[16..|blob| - 32]
  {
  }

  /** A mutation is opened exactly if it is signed, decrypts, parses, and its index is the signed one. */
  lemma DecodedIff(env: Env, m: SyncdMutation, validate: bool, version: uint64)
    ensures DecodeMutation(env, m, validate).Ok? <==> MutationAccepted(env, m, validate)
    ensures DecodeMutation(env, m, validate).Ok? ==>
              ToMutation(m, DecodeMutation(env, m, validate).value, version) == Handed(env, m, version)
  {
    var blob := m.record.value;
    if m.record.keyID in env.keys && |blob| >= 32 {
      ContentMACIff(env, m);
      hide ContentMAC, ContentSigned;
      if |blob| >= 48 {
        ContentSlices(blob);
      }
    }
  }

  /** The first check that fails decides the error. */
  lemma RefusedBecause(env: Env, m: SyncdMutation, validate: bool)
    ensures var r, size := DecodeMutation(env, m, validate), |m.record.value|;
            r.Err? ==>
              r.error ==
                if m.record.keyID !in env.keys then KeyNotFound
                else if size < 32 then SliceOutOfRange
                else if validate && !ContentSigned(env, m) then MismatchingContentMAC
                else if size < 48 then SliceOutOfRange
                else if env.prims.decrypt(env.keys[m.record.keyID].valueEncryption, m.record.value[..16],
                                          m.record.value[16..size - 32]).None? then DecryptFailed
                else if Opened(env, m).None? then UnmarshalFailed
                else if validate &&
                        m.record.index != env.prims.hmac256(env.keys[m.record.keyID].index, Opened(env, m).value.index)
                then MismatchingIndexMAC
                else BadIndex
  {
    var blob := m.record.value;
    if m.record.keyID in env.keys && |blob| >= 32 {
      ContentMACIff(env, m);
      hide ContentMAC, ContentSigned;
      if |blob| >= 48 {
        ContentSlices(blob);
      }
    }
  }

  predicate AllAccepted(env: Env, ms: seq<SyncdMutation>, validate: bool)
  {
    forall i :: 0 <= i < |ms| ==> MutationAccepted(env, ms[i], validate)
  }

  lemma {:induction false} AllDecodedIff(env: Env, ms: seq<SyncdMutation>, validate: bool, version: uint64)
    ensures DecodeAll(env, ms, validate, version).Ok? <==> AllAccepted(env, ms, validate)
    ensures var r := DecodeAll(env, ms, validate, version);
            r.Ok? ==> |r.value| == |ms| && forall i :: 0 <= i < |ms| ==>
              MutationAccepted(env, ms[i], false) && r.value[i] == Handed(env, ms[i], version)
  {
    hide DecodeMutation, MutationAccepted, Handed;
    if ms != [] {
      var n := |ms| - 1;
      AllDecodedIff(env, ms[..n], validate, version);
      DecodedIff(env, ms[n], validate, version);
      assert forall i :: 0 <= i < n ==> ms[..n][i] == ms[i];
      if AllAccepted(env, ms[..n], validate) && MutationAccepted(env, ms[n], validate) {
        AcceptedUnchecked(env, ms[n], validate);
        forall i | 0 <= i < |ms| ensures MutationAccepted(env, ms[i], validate) {
          assert i < n ==> ms[..n][i] == ms[i];
        }
      }
    }
  }

  lemma AcceptedUnchecked(env: Env, m: SyncdMutation, validate: bool)
    requires MutationAccepted(env, m, validate)
    ensures MutationAccepted(env, m, false)
  {
  }

  /* ---------- Patches ---------- */

  lemma {:induction false} JoinedAreTails(ms: seq<SyncdMutation>)
    requires LongValues(ms)
    ensures JoinedValueMACs(ms) == Flatten(Tails(ms))
  {
    if ms != [] {
      var n := |ms| - 1;
      JoinedAreTails(ms[..n]);
      assert Tails(ms) == Tails(ms[..n]) + [Tails(ms)[n]];
      var last := [Tails(ms)[n]];
      FlattenAppend(Tails(ms[..n]), last);
      assert last[1..] == [] && Flatten(last) == last[0] + Flatten(last[1..]);
    }
  }

  lemma VerdictIff(env: Env, name: Bytes, s: HashState, p: SyncdPatch)
    ensures CheckPatchMACs(env, name, s, p) ==
            if p.keyID !in env.keys then Some(KeyNotFound)
            else if !SnapshotSigned(env, name, s, p.keyID, p.snapshotMAC) then Some(MismatchingLTHash)
            else if !LongValues(p.mutations) then Some(SliceOutOfRange)
            else if !PatchSigned(env, name, p) then Some(MismatchingPatchMAC)
            else None
  {
    hide JoinedValueMACs, Tails, Flatten, BigEndian;
    if LongValues(p.mutations) {
      JoinedAreTails(p.mutations);
    }
  }

  /** The state that a patch leads to. */
  function NextState(env: Env, c: Collection, p: SyncdPatch): HashState
    requires WellSized(p.mutations)
  {
    HashState(p.version, SequentialHash(env.prims.expand, c.state.hash, c.table, p.mutations))
  }

  /**
   * For every collection and patch: it is accepted if and only if, with validation, both of its MACs are the ones
   * over these bytes, and each of its mutations is signed, decrypts and parses. What is handed on is each mutation
   * in order, and the collection moves to the patch's version with the mutations applied.
   */
  lemma PatchAcceptedIff(env: Env, name: Bytes, c: Collection, p: SyncdPatch, validate: bool)
    ensures ApplyPatch(env, name, c, p, validate).Ok? <==>
              && WellSized(p.mutations) && AllAccepted(env, p.mutations, validate)
              && (validate ==>
                    && SnapshotSigned(env, name, NextState(env, c, p), p.keyID, p.snapshotMAC)
                    && PatchSigned(env, name, p))
    ensures var r := ApplyPatch(env, name, c, p, validate);
            r.Ok? ==>
              && r.value.0 == Collection(NextState(env, c, p), ApplyMutations(c.table, p.mutations))
              && |r.value.1| == |p.mutations|
              && forall i :: 0 <= i < |p.mutations| ==>
                   MutationAccepted(env, p.mutations[i], false) &&
                     r.value.1[i] == Handed(env, p.mutations[i], p.version)
  {
    hide DecodeAll, CheckPatchMACs, SequentialHash, ApplyMutations, MutationAccepted, Handed, SnapshotSigned,
      PatchSigned;
    AllDecodedIff(env, p.mutations, validate, p.version);
    if WellSized(p.mutations) {
      VerdictIff(env, name, NextState(env, c, p), p);
      SignedHasKey(env, name, NextState(env, c, p), p);
    }
  }

  lemma SignedHasKey(env: Env, name: Bytes, s: HashState, p: SyncdPatch)
    ensures SnapshotSigned(env, name, s, p.keyID, p.snapshotMAC) ==> p.keyID in env.keys
    ensures PatchSigned(env, name, p) ==> LongValues(p.mutations)
  {
  }

  /** A refused patch is refused by the first check that fails; the mutations are looked at last. */
  lemma PatchRefusedBecause(env: Env, name: Bytes, c: Collection, p: SyncdPatch)
    ensures var r := ApplyPatch(env, name, c, p, true);
            r.Err? && !WellSized(p.mutations) ==> r.error == SliceOutOfRange
    ensures var r := ApplyPatch(env, name, c, p, true);
            r.Err? && WellSized(p.mutations) ==>
              if p.keyID !in env.keys then r.error == KeyNotFound
              else if !SnapshotSigned(env, name, NextState(env, c, p), p.keyID, p.snapshotMAC) then r.error
                  == MismatchingLTHash
              else if !LongValues(p.mutations) then r.error == SliceOutOfRange
              else if !PatchSigned(env, name, p) then r.error == MismatchingPatchMAC
              else DecodeAll(env, p.mutations, true, p.version) == Err(r.error)
  {
    hide DecodeAll, CheckPatchMACs, SequentialHash, ApplyMutations, SnapshotSigned, PatchSigned;
    if WellSized(p.mutations) {
      VerdictIff(env, name, NextState(env, c, p), p);
    }
  }

  /* ---------- Snapshots ---------- */

  /** A snapshot is accepted exactly if its MAC is that of the sum of its values and each record opens. */
  lemma SnapshotAcceptedIff(env: Env, name: Bytes, c: Collection, s: SyncdSnapshot, validate: bool)
    ensures ApplySnapshot(env, name, c, s, validate).Ok? <==>
              && WellSized(AsSets(s.records)) && AllAccepted(env, AsSets(s.records), validate)
              && (validate ==> SnapshotSigned(env, name, SnapshotState(env, c, s), s.keyID, s.mac))
    ensures var r := ApplySnapshot(env, name, c, s, validate);
            r.Ok? ==>
              && r.value.0 == Collection(SnapshotState(env, c, s), ApplyMutations(c.table, AsSets(s.records)))
              && |r.value.1| == |s.records|
              && forall i :: 0 <= i < |s.records| ==>
                   var m := SyncdMutation(SET, s.records[i]);
                   MutationAccepted(env, m, false) && r.value.1[i] == Handed(env, m, s.version)
    ensures var r := ApplySnapshot(env, name, c, s, validate);
            r.Err? && WellSized(AsSets(s.records)) && validate ==>
              if s.keyID !in env.keys then r.error == KeyNotFound
              else if !SnapshotSigned(env, name, SnapshotState(env, c, s), s.keyID, s.mac) then r.error
                  == MismatchingLTHash
              else DecodeAll(env, AsSets(s.records), true, s.version) == Err(r.error)
  {
    hide DecodeAll, ApplyMutations, MutationAccepted, Handed, SubtractThenAdd, Added;
    AllDecodedIff(env, AsSets(s.records), validate, s.version);
  }

  /* ---------- The same records from a recovery ---------- */

  /** The record of a recovery that stands for a decoded mutation. */
  function AsRecord(m: SyncdMutation, d: Decoded): RecoveryRecord
  {
    RecoveryRecord(m.record.keyID, d.action, d.valueMAC)
  }

  /** Recovering a record gives the mutation that decoding gave: the same index MAC in particular. */
  lemma RecoversWhatWasDecoded(env: Env, m: SyncdMutation, version: uint64)
    requires m.op.SET? && DecodeMutation(env, m, true).Ok?
    ensures var d := DecodeMutation(env, m, true).value;
            RecoverOne(env, AsRecord(m, d), version) == Ok(ToMutation(m, d, version))
  {
  }

  function AsRecords(env: Env, ms: seq<SyncdMutation>): seq<RecoveryRecord>
    requires forall i :: 0 <= i < |ms| ==> DecodeMutation(env, ms[i], true).Ok?
  {
    seq(|ms|, i requires 0 <= i < |ms| => AsRecord(ms[i], DecodeMutation(env, ms[i], true).value))
  }

  lemma {:induction false} RecoversAll(env: Env, ms: seq<SyncdMutation>, version: uint64)
    requires AllSets(ms) && WellSized(ms) && DecodeAll(env, ms, true, version).Ok?
    ensures forall i :: 0 <= i < |ms| ==> DecodeMutation(env, ms[i], true).Ok?
    ensures RecoverAll(env, AsRecords(env, ms), version) == DecodeAll(env, ms, true, version)
    ensures PutAll(map[], MacsOf(DecodeAll(env, ms, true, version).value)) == ApplyMutations(map[], ms)
  {
    hide DecodeMutation, RecoverOne;
    if ms != [] {
      var n := |ms| - 1;
      var front, m := ms[..n], ms[n];
      RecoversAll(env, front, version);
      RecoversWhatWasDecoded(env, m, version);
      DecodedMACs(env, m, true);
      var records := AsRecords(env, ms);
      assert records[..n] == AsRecords(env, front);
      var before, last :=
          DecodeAll(env, front, true, version).value, ToMutation(m, DecodeMutation(env, m, true).value, version);
      assert MacsOf(before + [last]) == MacsOf(before) + [IndexAndValue(last.indexMAC, last.valueMAC)];
      PutOneMore(map[], MacsOf(before), IndexAndValue(last.indexMAC, last.valueMAC));
    }
  }

  /**
   * A recovery made of the records of a snapshot, with the hash and version that the snapshot led to, installs the
   * very collection that the snapshot installs on an empty one; so every later patch does the same on both.
   */
  lemma RecoveryIsSnapshot(env: Env, name: Bytes, s: SyncdSnapshot)
    requires ApplySnapshot(env, name, EMPTY_COLLECTION, s, true).Ok?
    ensures forall i :: 0 <= i < |s.records| ==> DecodeMutation(env, AsSets(s.records)[i], true).Ok?
    ensures var installed := ApplySnapshot(env, name, EMPTY_COLLECTION, s, true).value.0;
            Recovered(env, Recovery(name, s.version, installed.state.hash, AsRecords(env, AsSets(s.records))))
              == Ok(installed)
  {
    hide DecodeAll, ApplyMutations, RecoverAll, PutAll, SubtractThenAdd, Added;
    AllDecodedIff(env, AsSets(s.records), true, s.version);
    RecoversAll(env, AsSets(s.records), s.version);
  }
}
