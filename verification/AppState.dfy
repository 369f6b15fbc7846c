/**
 * The meaning of app state collections: what one mutation, one patch, one snapshot and one
 * list of patches do to a collection, stated one mutation at a time. The batch code of
 * AppStateProcessor is proved to compute exactly this.
 */
module AppState {
  import opened Bytes
  import opened LTHash

  type uint64 = x: int | 0 <= x < 0x1_0000_0000_0000_0000

  type Mac = b: Bytes | |b| == 32 witness Zeros(32)
  type LongMac = b: Bytes | |b| == 64 witness Zeros(64)

  /** A collection's rows: index MAC to value MAC. */
  type Table = map<Bytes, Bytes>

  datatype Operation = SET | REMOVE

  datatype SyncdRecord = SyncdRecord(index: Bytes, value: Bytes, keyID: Bytes)

  datatype SyncdMutation = SyncdMutation(op: Operation, record: SyncdRecord)

  datatype SyncdPatch = SyncdPatch(version: uint64, mutations: seq<SyncdMutation>,
                                   snapshotMAC: Bytes, patchMAC: Bytes, keyID: Bytes)

  datatype SyncdSnapshot = SyncdSnapshot(version: uint64, records: seq<SyncdRecord>, mac: Bytes, keyID: Bytes)

  datatype HashState = HashState(version: uint64, hash: Hash)

  datatype Keys = Keys(index: Bytes, valueEncryption: Bytes, valueMAC: Bytes, snapshotMAC: Bytes, patchMAC: Bytes)

  /** The action value: the timestamp that the encoder stamps, and everything else. */
  datatype Action = Action(timestamp: int, payload: Bytes)

  datatype SyncAction = SyncAction(index: Bytes, value: Action, version: int)

  datatype Mutation = Mutation(keyID: Bytes, op: Operation, action: Action, version: int, index: seq<Bytes>,
                               indexMAC: Bytes, valueMAC: Bytes, patchVersion: uint64)

  datatype Error =
    | KeyNotFound | MismatchingLTHash | MismatchingPatchMAC | MismatchingContentMAC | MismatchingIndexMAC
    | DecryptFailed | UnmarshalFailed | BadIndex
    | SliceOutOfRange  // a value blob too short for the slicing the code does: a run-time panic in Go
    | InvalidHashLength | EncodeFailed
    | InsertRefused  // by the SQL store

  /** The foreign code: key derivation, MACs, AES-CBC and the two serialisers. */
  datatype Primitives = Primitives(
    expand: Expander,
    hmac256: (Bytes, Bytes) -> Mac,
    hmac512: (Bytes, Bytes) -> LongMac,
    encrypt: (Bytes, Bytes, Bytes) -> Option<Bytes>,   // key, iv, plaintext
    decrypt: (Bytes, Bytes, Bytes) -> Option<Bytes>,   // key, iv, ciphertext
    marshalAction: SyncAction -> Option<Bytes>,
    unmarshalAction: Bytes -> Option<SyncAction>,
    marshalIndex: seq<Bytes> -> Option<Bytes>,
    unmarshalIndex: Bytes -> Option<seq<Bytes>>)

  /** Decryption undoes encryption and parsing undoes printing; nothing else is assumed of the foreign code. */
  ghost predicate Lawful(p: Primitives)
  {
    && (forall key, iv, text :: p.encrypt(key, iv, text).Some? ==>
          p.decrypt(key, iv, p.encrypt(key, iv, text).value) == Some(text))
    && (forall a :: p.marshalAction(a).Some? ==> p.unmarshalAction(p.marshalAction(a).value) == Some(a))
    && (forall i :: p.marshalIndex(i).Some? ==> p.unmarshalIndex(p.marshalIndex(i).value) == Some(i))
  }

  /** What a processor knows: the foreign code and the expanded app state keys. */
  datatype Env = Env(prims: Primitives, keys: map<Bytes, Keys>)

  datatype Collection = Collection(state: HashState, table: Table)

  const INITIAL_STATE := HashState(0, Zeros(HASH_SIZE))
  const EMPTY_COLLECTION := Collection(INITIAL_STATE, map[])

  /* ---------- Sums over a table ---------- */

  ghost function MapSum(w: Bytes -> int, t: Table): int
    decreases |t|
  {
    if t == map[] then 0 else
      var k :| k in t;
      w(t[k]) + MapSum(w, t - {k})
  }

  lemma {:induction false} MapSumRemove(w: Bytes -> int, t: Table, k: Bytes)
    requires k in t
    ensures MapSum(w, t) == w(t[k]) + MapSum(w, t - {k})
    decreases |t|
  {
    var k0 :| k0 in t && MapSum(w, t) == w(t[k0]) + MapSum(w, t - {k0});
    if k0 != k {
      MapSumRemove(w, t - {k0}, k);
      MapSumRemove(w, t - {k}, k0);
      assert t - {k0} - {k} == t - {k} - {k0};
    }
  }

  lemma MapSumPut(w: Bytes -> int, t: Table, k: Bytes, v: Bytes)
    ensures MapSum(w, t[k := v]) == MapSum(w, t) - Sum(w, Entry(t, k)) + w(v)
  {
    MapSumRemove(w, t[k := v], k);
    if k in t {
      MapSumRemove(w, t, k);
      assert t[k := v] - {k} == t - {k};
      assert Sum(w, [t[k]]) == w(t[k]);
    } else {
      assert t[k := v] - {k} == t;
    }
  }

  lemma {:induction false} MapSumNonNegative(w: Bytes -> int, t: Table)
    requires forall v :: w(v) >= 0
    ensures MapSum(w, t) >= 0
    decreases |t|
  {
    if t != map[] {
      var k :| k in t && MapSum(w, t) == w(t[k]) + MapSum(w, t - {k});
      MapSumNonNegative(w, t - {k});
    }
  }

  /** The persisted hash is the sum of the persisted rows, word by word modulo 2^16. */
  ghost predicate Agrees(expand: Expander, hash: Hash, t: Table)
  {
    forall j: nat :: j < WORDS ==> Word(hash, j) == MapSum(Weight(expand, j), t) % 0x1_0000
  }

  lemma EmptyAgrees(expand: Expander)
    ensures Agrees(expand, INITIAL_STATE.hash, map[])
  {
  }

  /* ---------- One mutation at a time ---------- */

  /** The last 32 bytes of a value blob. */
  function ValueMAC(blob: Bytes): Bytes
    requires |blob| >= 32
  {
    blob[|blob| - 32..]
  }

  predicate WellSizedMutation(m: SyncdMutation)
  {
    m.op.SET? ==> |m.record.value| >= 32
  }

  predicate WellSized(ms: seq<SyncdMutation>)
  {
    forall i :: 0 <= i < |ms| ==> WellSizedMutation(ms[i])
  }

  predicate AllSets(ms: seq<SyncdMutation>)
  {
    forall i :: 0 <= i < |ms| ==> ms[i].op.SET?
  }

  /** The stored value MAC of an index, as a list of at most one element. */
  function Entry(t: Table, k: Bytes): seq<Bytes>
  {
    if k in t then [t[k]] else []
  }

  function AddedBy(m: SyncdMutation): seq<Bytes>
    requires WellSizedMutation(m)
  {
    if m.op.SET? then [ValueMAC(m.record.value)] else []
  }

  function ApplyMutation(t: Table, m: SyncdMutation): Table
    requires WellSizedMutation(m)
  {
    if m.op.SET? then t[m.record.index := ValueMAC(m.record.value)] else t - {m.record.index}
  }

  /** The table after the mutations, applied one by one. */
  function ApplyMutations(t: Table, ms: seq<SyncdMutation>): Table
    requires WellSized(ms)
  {
    if ms == [] then t else ApplyMutation(ApplyMutations(t, ms[..|ms| - 1]), ms[|ms| - 1])
  }

  /** The hash after the mutations, updated one by one: take out the old value, put in the new one. */
  function SequentialHash(expand: Expander, h: Hash, t: Table, ms: seq<SyncdMutation>): Hash
    requires WellSized(ms)
  {
    if ms == [] then h else
      var before := ms[..|ms| - 1];
      var m := ms[|ms| - 1];
      SubtractThenAdd(expand, SequentialHash(expand, h, t, before),
                      Entry(ApplyMutations(t, before), m.record.index), AddedBy(m))
  }

  /** Every value put in by the mutations. */
  function Added(ms: seq<SyncdMutation>): seq<Bytes>
    requires WellSized(ms)
  {
    if ms == [] then [] else Added(ms[..|ms| - 1]) + AddedBy(ms[|ms| - 1])
  }

  /** Every value that the mutations displace, the ones put in by earlier mutations included. */
  function Displaced(t: Table, ms: seq<SyncdMutation>): seq<Bytes>
    requires WellSized(ms)
  {
    if ms == [] then [] else
      var before := ms[..|ms| - 1];
      Displaced(t, before) + Entry(ApplyMutations(t, before), ms[|ms| - 1].record.index)
  }

  /** What is in the table is what was there, plus what was put in, minus what was displaced. */
  lemma {:induction false} Conservation(w: Bytes -> int, t: Table, ms: seq<SyncdMutation>)
    requires WellSized(ms)
    ensures MapSum(w, ApplyMutations(t, ms)) == MapSum(w, t) + Sum(w, Added(ms)) - Sum(w, Displaced(t, ms))
  {
    if ms != [] {
      var before := ms[..|ms| - 1];
      var m := ms[|ms| - 1];
      var mid := ApplyMutations(t, before);
      Conservation(w, t, before);
      SumAppend(w, Added(before), AddedBy(m));
      SumAppend(w, Displaced(t, before), Entry(mid, m.record.index));
      ConservationStep(w, mid, m);
    }
  }

  lemma ConservationStep(w: Bytes -> int, t: Table, m: SyncdMutation)
    requires WellSizedMutation(m)
    ensures MapSum(w, ApplyMutation(t, m)) == MapSum(w, t) + Sum(w, AddedBy(m)) - Sum(w, Entry(t, m.record.index))
  {
    var k := m.record.index;
    if m.op.SET? {
      var v := ValueMAC(m.record.value);
      MapSumPut(w, t, k, v);
      assert Sum(w, [v]) == w(v);
    } else if k in t {
      MapSumRemove(w, t, k);
      assert Sum(w, [t[k]]) == w(t[k]);
    } else {
      assert t - {k} == t;
    }
  }

  /** The one-by-one hash is one batch subtraction and addition. */
  lemma {:induction false} SequentialIsBatch(expand: Expander, h: Hash, t: Table, ms: seq<SyncdMutation>)
    requires WellSized(ms)
    ensures SequentialHash(expand, h, t, ms) == SubtractThenAdd(expand, h, Displaced(t, ms), Added(ms))
  {
    if ms != [] {
      var before := ms[..|ms| - 1];
      var m := ms[|ms| - 1];
      SequentialIsBatch(expand, h, t, before);
      Composes(expand, h, Displaced(t, before), Added(before),
               Entry(ApplyMutations(t, before), m.record.index), AddedBy(m));
    }
  }

  lemma BatchWordAgreesIff(expand: Expander, h: Hash, t: Table, ms: seq<SyncdMutation>, removed: seq<Bytes>, j: nat)
    requires WellSized(ms) && j < WORDS
    requires Word(h, j) == MapSum(Weight(expand, j), t) % 0x1_0000
    ensures Word(SubtractThenAdd(expand, h, removed, Added(ms)), j)
              == MapSum(Weight(expand, j), ApplyMutations(t, ms)) % 0x1_0000
       <==> Sum(Weight(expand, j), removed) % 0x1_0000 == Sum(Weight(expand, j), Displaced(t, ms)) % 0x1_0000
  {
    hide *;
    Conservation(Weight(expand, j), t, ms);
    WordGap(expand, h, removed, Added(ms), Displaced(t, ms), MapSum(Weight(expand, j), t), j);
  }

  lemma WordGap(expand: Expander, h: Hash, removed: seq<Bytes>, added: seq<Bytes>, displaced: seq<Bytes>, total: int,
                j: nat)
    requires j < WORDS && Word(h, j) == total % 0x1_0000
    ensures Word(SubtractThenAdd(expand, h, removed, added), j)
              == (total + Sum(Weight(expand, j), added) - Sum(Weight(expand, j), displaced)) % 0x1_0000
       <==> Sum(Weight(expand, j), removed) % 0x1_0000 == Sum(Weight(expand, j), displaced) % 0x1_0000
  {
    hide Sum, SubtractThenAdd, Word, Weight;
    var w := Weight(expand, j);
    SubtractThenAddWord(expand, h, removed, added, j);
    GapArithmetic(Word(h, j), total, Sum(w, added), Sum(w, removed), Sum(w, displaced));
  }

  lemma GapArithmetic(h: int, total: int, added: int, removed: int, displaced: int)
    requires h == total % 0x1_0000
    ensures (h - removed + added) % 0x1_0000 == (total + added - displaced) % 0x1_0000
       <==> removed % 0x1_0000 == displaced % 0x1_0000
  {
    ModShift(total, added - removed);
    ModDifference(total + added, removed, displaced);
  }

  /**
   * Starting from an agreeing hash and table, subtracting any list while adding the new values gives a hash that
   * agrees with the new table exactly when that list weighs as much as what was really displaced.
   */
  lemma BatchAgreesIff(expand: Expander, h: Hash, t: Table, ms: seq<SyncdMutation>, removed: seq<Bytes>)
    requires WellSized(ms) && Agrees(expand, h, t)
    ensures Agrees(expand, SubtractThenAdd(expand, h, removed, Added(ms)), ApplyMutations(t, ms))
       <==> forall j: nat :: j < WORDS ==>
              Sum(Weight(expand, j), removed) % 0x1_0000 == Sum(Weight(expand, j), Displaced(t, ms)) % 0x1_0000
  {
    forall j: nat | j < WORDS
      ensures Word(SubtractThenAdd(expand, h, removed, Added(ms)), j)
                == MapSum(Weight(expand, j), ApplyMutations(t, ms)) % 0x1_0000
         <==> Sum(Weight(expand, j), removed) % 0x1_0000 == Sum(Weight(expand, j), Displaced(t, ms)) % 0x1_0000
    {
      BatchWordAgreesIff(expand, h, t, ms, removed, j);
    }
  }

  /** Adding without subtracting keeps agreement exactly when what was displaced weighs nothing. */
  lemma AdditionAgreesIff(expand: Expander, h: Hash, t: Table, ms: seq<SyncdMutation>)
    requires WellSized(ms) && Agrees(expand, h, t)
    ensures Agrees(expand, SubtractThenAdd(expand, h, [], Added(ms)), ApplyMutations(t, ms))
       <==> forall j: nat :: j < WORDS ==> Sum(Weight(expand, j), Displaced(t, ms)) % 0x1_0000 == 0
  {
    hide *;
    BatchAgreesIff(expand, h, t, ms, []);
    NothingSums(expand);
  }

  /** Agreement of hash and table survives every list of mutations, repeated indexes included. */
  lemma MutationsKeepAgreement(expand: Expander, h: Hash, t: Table, ms: seq<SyncdMutation>)
    requires WellSized(ms) && Agrees(expand, h, t)
    ensures Agrees(expand, SequentialHash(expand, h, t, ms), ApplyMutations(t, ms))
  {
    SequentialIsBatch(expand, h, t, ms);
    BatchAgreesIff(expand, h, t, ms, Displaced(t, ms));
  }

  /* ---------- Message authentication codes ---------- */

  function SnapshotMAC(p: Primitives, s: HashState, name: Bytes, key: Bytes): Bytes
  {
    p.hmac256(key, s.hash + BigEndian(s.version, 8) + name)
  }

  predicate LongValues(ms: seq<SyncdMutation>)
  {
    forall i :: 0 <= i < |ms| ==> |ms[i].record.value| >= 32
  }

  function JoinedValueMACs(ms: seq<SyncdMutation>): Bytes
    requires LongValues(ms)
  {
    if ms == [] then [] else JoinedValueMACs(ms[..|ms| - 1]) + ValueMAC(ms[|ms| - 1].record.value)
  }

  function PatchMAC(p: Primitives, ms: seq<SyncdMutation>, snapshotMAC: Bytes, name: Bytes, key: Bytes,
                    version: uint64): Bytes
    requires LongValues(ms)
  {
    p.hmac256(key, snapshotMAC + JoinedValueMACs(ms) + BigEndian(version, 8) + name)
  }

  function OperationByte(op: Operation): byte
  {
    match op case SET => 1 case REMOVE => 2
  }

  function ContentMAC(p: Primitives, op: Operation, data: Bytes, keyID: Bytes, key: Bytes): (m: Bytes)
    ensures |m| == 32
  {
    p.hmac512(key, [OperationByte(op)] + keyID + data + BigEndian(|keyID| + 1, 8))[..32]
  }

  /* ---------- Decoding ---------- */

  datatype Decoded = Decoded(indexMAC: Bytes, valueMAC: Bytes, index: seq<Bytes>, action: SyncAction)

  /** One mutation opened, with every check in the order in which the code makes it. */
  function DecodeMutation(env: Env, m: SyncdMutation, validate: bool): Result<Decoded, Error>
  {
    var keyID, blob := m.record.keyID, m.record.value;
    if keyID !in env.keys then Err(KeyNotFound)
    else if |blob| < 32 then Err(SliceOutOfRange)
    else
      var keys := env.keys[keyID];
      var content, valueMAC := blob[..|blob| - 32], ValueMAC(blob);
      if validate && ContentMAC(env.prims, m.op, content, keyID, keys.valueMAC) != valueMAC
      then Err(MismatchingContentMAC)
      else if |content| < 16 then Err(SliceOutOfRange)
      else
        var plaintext := env.prims.decrypt(keys.valueEncryption, content[..16], content[16..]);
        if plaintext.None? then Err(DecryptFailed) else
        var action := env.prims.unmarshalAction(plaintext.value);
        if action.None? then Err(UnmarshalFailed)
        else if validate && env.prims.hmac256(keys.index, action.value.index) != m.record.index
        then Err(MismatchingIndexMAC)
        else
          var index := env.prims.unmarshalIndex(action.value.index);
          if index.None? then Err(BadIndex)
          else Ok(Decoded(m.record.index, valueMAC, index.value, action.value))
  }

  function ToMutation(m: SyncdMutation, d: Decoded, version: uint64): Mutation
  {
    Mutation(m.record.keyID, m.op, d.action.value, d.action.version, d.index, d.indexMAC, d.valueMAC, version)
  }

  /** All mutations opened in order, or the error of the first one that cannot be. */
  function DecodeAll(env: Env, ms: seq<SyncdMutation>, validate: bool, version: uint64)
    : (r: Result<seq<Mutation>, Error>)
  {
    if ms == [] then Ok([]) else
      var before := DecodeAll(env, ms[..|ms| - 1], validate, version);
      if before.Err? then before else
        var m := ms[|ms| - 1];
        match DecodeMutation(env, m, validate)
        case Err(e) => Err(e)
        case Ok(d) => Ok(before.value + [ToMutation(m, d, version)])
  }

  function CheckSnapshotMAC(env: Env, name: Bytes, s: HashState, keyID: Bytes, expected: Bytes): Option<Error>
  {
    if keyID !in env.keys then Some(KeyNotFound)
    else if SnapshotMAC(env.prims, s, name, env.keys[keyID].snapshotMAC) != expected then Some(MismatchingLTHash)
    else None
  }

  function CheckPatchMACs(env: Env, name: Bytes, s: HashState, p: SyncdPatch): Option<Error>
  {
    var e := CheckSnapshotMAC(env, name, s, p.keyID, p.snapshotMAC);
    if e.Some? then e
    else if !LongValues(p.mutations) then Some(SliceOutOfRange)
    else if PatchMAC(env.prims, p.mutations, p.snapshotMAC, name, env.keys[p.keyID].patchMAC, p.version) != p.patchMAC
    then Some(MismatchingPatchMAC)
    else None
  }

  /** A collection after one patch, with the mutations it carried; or why the patch is refused. */
  function ApplyPatch(env: Env, name: Bytes, c: Collection, p: SyncdPatch, validate: bool)
    : Result<(Collection, seq<Mutation>), Error>
  {
    if !WellSized(p.mutations) then Err(SliceOutOfRange) else
      var state := HashState(p.version, SequentialHash(env.prims.expand, c.state.hash, c.table, p.mutations));
      var check := if validate then CheckPatchMACs(env, name, state, p) else None;
      if check.Some? then Err(check.value) else
        match DecodeAll(env, p.mutations, validate, p.version)
        case Err(e) => Err(e)
        case Ok(ms) => Ok((Collection(state, ApplyMutations(c.table, p.mutations)), ms))
  }

  function AsSets(records: seq<SyncdRecord>): (ms: seq<SyncdMutation>)
    ensures |ms| == |records|
    ensures forall i :: 0 <= i < |ms| ==> ms[i] == SyncdMutation(SET, records[i])
  {
    seq(|records|, i requires 0 <= i < |records| => SyncdMutation(SET, records[i]))
  }

  /** A collection after a snapshot: its records are added to the hash and written over the table. */
  function ApplySnapshot(env: Env, name: Bytes, c: Collection, s: SyncdSnapshot, validate: bool)
    : Result<(Collection, seq<Mutation>), Error>
  {
    var ms := AsSets(s.records);
    if !WellSized(ms) then Err(SliceOutOfRange) else
      var state := HashState(s.version, SubtractThenAdd(env.prims.expand, c.state.hash, [], Added(ms)));
      var check := if validate then CheckSnapshotMAC(env, name, state, s.keyID, s.mac) else None;
      if check.Some? then Err(check.value) else
        match DecodeAll(env, ms, validate, s.version)
        case Err(e) => Err(e)
        case Ok(out) => Ok((Collection(state, ApplyMutations(c.table, ms)), out))
  }

  /* ---------- Lists of patches ---------- */

  /** Where a list of patches leaves a collection, how many were persisted, and what stopped it. */
  datatype Run = Run(collection: Collection, applied: nat, mutations: seq<Mutation>, error: Option<Error>)

  function ApplyPatches(env: Env, name: Bytes, c: Collection, ps: seq<SyncdPatch>, validate: bool): (r: Run)
    ensures r.applied <= |ps|
    ensures r.error.None? <==> r.applied == |ps|
    decreases ps
  {
    if ps == [] then Run(c, 0, [], None) else
      match ApplyPatch(env, name, c, ps[0], validate)
      case Err(e) => Run(c, 0, [], Some(e))
      case Ok((c1, ms)) =>
        var rest := ApplyPatches(env, name, c1, ps[1..], validate);
        Run(rest.collection, rest.applied + 1, ms + rest.mutations, rest.error)
  }

  /** A second run continued from where a first one stopped without error. */
  function Then(a: Run, b: Run): Run
  {
    if a.error.Some? then a
    else Run(b.collection, a.applied + b.applied, a.mutations + b.mutations, b.error)
  }

  /** One list or two pages: the same collection, the same mutations, the same error. */
  lemma {:induction false} PatchesPage(env: Env, name: Bytes, c: Collection, ps: seq<SyncdPatch>, qs: seq<SyncdPatch>,
                                       validate: bool)
    ensures var first := ApplyPatches(env, name, c, ps, validate);
            ApplyPatches(env, name, c, ps + qs, validate)
              == Then(first, ApplyPatches(env, name, first.collection, qs, validate))
    decreases ps
  {
    hide ApplyPatch;
    if ps == [] {
      assert ps + qs == qs;
    } else {
      assert (ps + qs)[0] == ps[0] && (ps + qs)[1..] == ps[1..] + qs;
      match ApplyPatch(env, name, c, ps[0], validate)
      case Err(e) =>
      case Ok((c1, ms)) =>
        PatchesPage(env, name, c1, ps[1..], qs, validate);
        var first := ApplyPatches(env, name, c1, ps[1..], validate);
        var second := ApplyPatches(env, name, first.collection, qs, validate);
        assert ms + (first.mutations + second.mutations) == ms + first.mutations + second.mutations;
    }
  }

  /** A refused patch leaves exactly the state after the patches before it. */
  lemma {:induction false} FailureKeepsPrefix(env: Env, name: Bytes, c: Collection, ps: seq<SyncdPatch>, validate: bool)
    requires ApplyPatches(env, name, c, ps, validate).error.Some?
    ensures var r := ApplyPatches(env, name, c, ps, validate);
            var good := ApplyPatches(env, name, c, ps[..r.applied], validate);
            && r.applied < |ps|
            && good == r.(error := None)
            && ApplyPatch(env, name, r.collection, ps[r.applied], validate) == Err(r.error.value)
    decreases ps
  {
    var r := ApplyPatches(env, name, c, ps, validate);
    match ApplyPatch(env, name, c, ps[0], validate)
    case Err(e) =>
    case Ok((c1, ms)) =>
      FailureKeepsPrefix(env, name, c1, ps[1..], validate);
      assert ps[..r.applied][1..] == ps[1..][..r.applied - 1];
  }

  /** Every successful patch keeps the hash equal to the sum of the table. */
  lemma PatchKeepsAgreement(env: Env, name: Bytes, c: Collection, p: SyncdPatch, validate: bool)
    requires Agrees(env.prims.expand, c.state.hash, c.table)
    ensures var r := ApplyPatch(env, name, c, p, validate);
            r.Ok? ==> Agrees(env.prims.expand, r.value.0.state.hash, r.value.0.table)
  {
    if WellSized(p.mutations) {
      MutationsKeepAgreement(env.prims.expand, c.state.hash, c.table, p.mutations);
    }
  }

  lemma {:induction false} PatchesKeepAgreement(env: Env, name: Bytes, c: Collection, ps: seq<SyncdPatch>,
                                                validate: bool)
    requires Agrees(env.prims.expand, c.state.hash, c.table)
    ensures var r := ApplyPatches(env, name, c, ps, validate).collection;
            Agrees(env.prims.expand, r.state.hash, r.table)
    decreases ps
  {
    if ps != [] {
      PatchKeepsAgreement(env, name, c, ps[0], validate);
      match ApplyPatch(env, name, c, ps[0], validate)
      case Err(e) =>
      case Ok((c1, ms)) => PatchesKeepAgreement(env, name, c1, ps[1..], validate);
    }
  }

  predicate DistinctIndexes(ms: seq<SyncdMutation>)
  {
    forall i, j :: 0 <= i < j < |ms| ==> ms[i].record.index != ms[j].record.index
  }

  predicate AbsentFrom(t: Table, ms: seq<SyncdMutation>)
  {
    forall i :: 0 <= i < |ms| ==> ms[i].record.index !in t
  }

  /** An index that no mutation names keeps its entry. */
  lemma {:induction false} UntouchedIndex(t: Table, ms: seq<SyncdMutation>, k: Bytes)
    requires WellSized(ms)
    requires forall i :: 0 <= i < |ms| ==> ms[i].record.index != k
    ensures Entry(ApplyMutations(t, ms), k) == Entry(t, k)
  {
    if ms != [] {
      UntouchedIndex(t, ms[..|ms| - 1], k);
    }
  }

  lemma {:induction false} FreshDisplaceNothing(t: Table, ms: seq<SyncdMutation>)
    requires WellSized(ms) && DistinctIndexes(ms) && AbsentFrom(t, ms)
    ensures Displaced(t, ms) == []
  {
    if ms != [] {
      var before := ms[..|ms| - 1];
      FreshDisplaceNothing(t, before);
      UntouchedIndex(t, before, ms[|ms| - 1].record.index);
    }
  }

  /**
   * A snapshot never subtracts, so it keeps agreement exactly when the values its records displace weigh nothing;
   * distinct records over a table without them displace nothing.
   */
  lemma SnapshotAgreesIff(env: Env, name: Bytes, c: Collection, s: SyncdSnapshot, validate: bool)
    requires Agrees(env.prims.expand, c.state.hash, c.table)
    requires ApplySnapshot(env, name, c, s, validate).Ok?
    ensures var after := ApplySnapshot(env, name, c, s, validate).value.0;
            (Agrees(env.prims.expand, after.state.hash, after.table)
             <==> forall j: nat :: j < WORDS ==>
                    Sum(Weight(env.prims.expand, j), Displaced(c.table, AsSets(s.records))) % 0x1_0000 == 0)
    ensures DistinctIndexes(AsSets(s.records)) && AbsentFrom(c.table, AsSets(s.records)) ==>
              Displaced(c.table, AsSets(s.records)) == []
  {
    var ms := AsSets(s.records);
    AdditionAgreesIff(env.prims.expand, c.state.hash, c.table, ms);
    if DistinctIndexes(ms) && AbsentFrom(c.table, ms) {
      FreshDisplaceNothing(c.table, ms);
    }
  }
}
