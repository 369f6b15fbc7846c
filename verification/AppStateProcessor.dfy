/**
 * The processor of appstate/decode.go, appstate/hash.go and appstate/recovery.go as it is
 * written: loops over mutations and patches, a look-back inside the patch, removed and added
 * lists kept apart, and a store written three times per patch. Each method is proved to do
 * what module AppState says, one mutation at a time.
 */
module AppStateProcessor {
  import opened Bytes
  import opened LTHash
  import opened AppState

  datatype IndexAndValue = IndexAndValue(indexMAC: Bytes, valueMAC: Bytes)

  function Lookup(t: Table, k: Bytes): Option<Bytes>
  {
    if k in t then Some(t[k]) else None
  }

  /** Rows written in order: a later row for the same index wins. */
  function PutAll(t: Table, macs: seq<IndexAndValue>): Table
  {
    if macs == [] then t else
      var last := macs[|macs| - 1];
      PutAll(t, macs[..|macs| - 1])[last.indexMAC := last.valueMAC]
  }

  function DeleteAll(t: Table, indexMACs: seq<Bytes>): Table
  {
    t - (set k | k in indexMACs)
  }

  predicate DistinctMACs(macs: seq<IndexAndValue>)
  {
    forall i, j :: 0 <= i < j < |macs| ==> macs[i].indexMAC != macs[j].indexMAC
  }

  /** The rows that do not belong to an index, in order. */
  function WithoutIndex(macs: seq<IndexAndValue>, k: Bytes): seq<IndexAndValue>
  {
    if macs == [] then [] else
      var rest := WithoutIndex(macs[..|macs| - 1], k);
      if macs[|macs| - 1].indexMAC == k then rest else rest + [macs[|macs| - 1]]
  }

  lemma {:induction false} RemoveCommutes(t: Table, removed: seq<Bytes>, added: seq<IndexAndValue>, k: Bytes)
    ensures PutAll(DeleteAll(t, removed + [k]), WithoutIndex(added, k)) == PutAll(DeleteAll(t, removed), added) - {k}
  {
    if added == [] {
      assert DeleteAll(t, removed + [k]) == DeleteAll(t, removed) - {k};
    } else {
      var front, m := added[..|added| - 1], added[|added| - 1];
      RemoveCommutes(t, removed, front, k);
      assert added == front + [m];
      hide PutAll, DeleteAll;
      PutOneMore(DeleteAll(t, removed), front, m);
      PutOneMore(DeleteAll(t, removed + [k]), WithoutIndex(front, k), m);
    }
  }

  lemma PutOneMore(t: Table, macs: seq<IndexAndValue>, m: IndexAndValue)
    ensures PutAll(t, macs + [m]) == PutAll(t, macs)[m.indexMAC := m.valueMAC]
  {
    assert (macs + [m])[..|macs + [m]| - 1] == macs;
  }

  /** The indexes that a patch lists for deletion. */
  function RemovedOf(ms: seq<SyncdMutation>): seq<Bytes>
  {
    if ms == [] then [] else
      RemovedOf(ms[..|ms| - 1]) + if ms[|ms| - 1].op.REMOVE? then [ms[|ms| - 1].record.index] else []
  }

  /** The rows that a patch lists for insertion. */
  function AddedOf(ms: seq<SyncdMutation>): seq<IndexAndValue>
    requires WellSized(ms)
  {
    if ms == [] then [] else
      var before, m := AddedOf(ms[..|ms| - 1]), ms[|ms| - 1];
      if m.op.REMOVE? then WithoutIndex(before, m.record.index)
      else before + [IndexAndValue(m.record.index, ValueMAC(m.record.value))]
  }

  /** Deleting and then inserting what is listed is applying the mutations one by one. */
  lemma {:induction false} ListsAreMutations(t: Table, ms: seq<SyncdMutation>)
    requires WellSized(ms)
    ensures PutAll(DeleteAll(t, RemovedOf(ms)), AddedOf(ms)) == ApplyMutations(t, ms)
  {
    if ms != [] {
      var before, m := ms[..|ms| - 1], ms[|ms| - 1];
      ListsAreMutations(t, before);
      if m.op.REMOVE? {
        RemoveCommutes(t, RemovedOf(before), AddedOf(before), m.record.index);
      } else {
        assert RemovedOf(ms) == RemovedOf(before);
        assert AddedOf(ms)[..|AddedOf(ms)| - 1] == AddedOf(before);
      }
    }
  }

  /** The store's app state tables: one collection per name, absent until a version is put. */
  class AppStateStore {
    var collections: map<Bytes, Collection>

    constructor ()
      ensures collections == map[]
    {
      collections := map[];
    }

    function CollectionOf(name: Bytes): Collection
      reads this
    {
      if name in collections then collections[name] else EMPTY_COLLECTION
    }

    method PutAppStateVersion(name: Bytes, version: uint64, hash: Hash)
      modifies this
      ensures collections
          == old(collections)[name := Collection(HashState(version, hash), old(CollectionOf(name)).table)]
    {
      collections := collections[name := Collection(HashState(version, hash), CollectionOf(name).table)];
    }

    method DeleteAppStateVersion(name: Bytes)
      modifies this
      ensures collections == old(collections) - {name}
    {
      collections := collections - {name};
    }

    method DeleteAppStateMutationMACs(name: Bytes, indexMACs: seq<Bytes>)
      requires name in collections
      modifies this
      ensures var before := old(collections)[name];
              collections == old(collections)[name := before.(table := DeleteAll(before.table, indexMACs))]
    {
      collections := collections[name := collections[name].(table := DeleteAll(collections[name].table, indexMACs))];
    }

    method PutAppStateMutationMACs(name: Bytes, macs: seq<IndexAndValue>)
      requires name in collections
      modifies this
      ensures var before := old(collections)[name];
              collections == old(collections)[name := before.(table := PutAll(before.table, macs))]
    {
      var table := collections[name].table;
      for i := 0 to |macs|
        invariant table == PutAll(old(collections)[name].table, macs[..i])
        invariant collections == old(collections)
      {
        table := table[macs[i].indexMAC := macs[i].valueMAC];
        assert macs[..i + 1][..i] == macs[..i];
      }
      assert macs[..|macs|] == macs;
      collections := collections[name := collections[name].(table := table)];
    }
  }

  /** What one patch will write: removed indexes first, then added rows. */
  class PatchOutput {
    var removedMACs: seq<Bytes>
    var addedMACs: seq<IndexAndValue>
    var mutations: seq<Mutation>

    constructor (soFar: seq<Mutation>)
      ensures mutations == soFar && removedMACs == [] && addedMACs == []
    {
      removedMACs := [];
      addedMACs := [];
      mutations := soFar;
    }

    /** The table that deleting the removed indexes and then putting the added rows makes of `t`. */
    function Effect(t: Table): Table
      reads this
    {
      PutAll(DeleteAll(t, removedMACs), addedMACs)
    }

    method RemoveMAC(indexMAC: Bytes)
      modifies this`removedMACs, this`addedMACs
      ensures removedMACs == old(removedMACs) + [indexMAC] && addedMACs == WithoutIndex(old(addedMACs), indexMAC)
      ensures forall t: Table :: Effect(t) == old(Effect(t)) - {indexMAC}
    {
      forall t: Table
        ensures PutAll(DeleteAll(t, removedMACs + [indexMAC]), WithoutIndex(addedMACs, indexMAC))
            == Effect(t) - {indexMAC}
      {
        RemoveCommutes(t, removedMACs, addedMACs, indexMAC);
      }
      removedMACs := removedMACs + [indexMAC];
      addedMACs := WithoutIndex(addedMACs, indexMAC);
    }

    method AddMAC(indexMAC: Bytes, valueMAC: Bytes)
      modifies this`addedMACs
      ensures addedMACs == old(addedMACs) + [IndexAndValue(indexMAC, valueMAC)]
      ensures forall t: Table :: Effect(t) == old(Effect(t))[indexMAC := valueMAC]
    {
      addedMACs := addedMACs + [IndexAndValue(indexMAC, valueMAC)];
    }
  }

  /* ---------- The hash update ---------- */

  /** Where updateHash's callers look for the value that a mutation displaces. */
  datatype PreviousValue = Nowhere | StoreOnly | PatchThenStore

  /** What the store alone says each mutation displaces. */
  function DisplacedFromStore(t: Table, ms: seq<SyncdMutation>): seq<Bytes>
  {
    if ms == [] then [] else DisplacedFromStore(t, ms[..|ms| - 1]) + Entry(t, ms[|ms| - 1].record.index)
  }

  function RemovedBy(where: PreviousValue, t: Table, ms: seq<SyncdMutation>): seq<Bytes>
    requires WellSized(ms)
  {
    match where
    case Nowhere => []
    case StoreOnly => DisplacedFromStore(t, ms)
    case PatchThenStore => Displaced(t, ms)
  }

  /**
   * The look-back of validatePatch: newest earlier mutation of the index first, then the store. It finds what a
   * table brought up to date mutation by mutation would hold at that point.
   */
  method FindPrevious(ms: seq<SyncdMutation>, t: Table, indexMAC: Bytes, maxIndex: nat) returns (r: Option<Bytes>)
    requires maxIndex <= |ms| && WellSized(ms[..maxIndex])
    ensures r == Lookup(ApplyMutations(t, ms[..maxIndex]), indexMAC)
  {
    var i := maxIndex;
    while i > 0
      invariant 0 <= i <= maxIndex
      invariant Lookup(ApplyMutations(t, ms[..maxIndex]), indexMAC) == Lookup(ApplyMutations(t, ms[..i]), indexMAC)
    {
      i := i - 1;
      assert ms[..i + 1][..i] == ms[..i] && ms[..maxIndex][i] == ms[i];
      if ms[i].record.index == indexMAC {
        if ms[i].op.SET? {
          return Some(ValueMAC(ms[i].record.value));
        }
        return None;
      }
    }
    r := Lookup(t, indexMAC);
  }

  /** `None` is the run-time panic on a value blob shorter than its MAC. */
  method UpdateHash(expand: Expander, hash: Hash, ms: seq<SyncdMutation>, where: PreviousValue, t: Table)
    returns (r: Option<Hash>)
    ensures r.Some? <==> WellSized(ms)
    ensures r.Some? ==> r.value == SubtractThenAdd(expand, hash, RemovedBy(where, t, ms), Added(ms))
  {
    hide SubtractThenAdd, ApplyMutations, ValueMAC;
    var added, removed := [], [];
    for i := 0 to |ms|
      invariant WellSized(ms[..i])
      invariant added == Added(ms[..i]) && removed == RemovedBy(where, t, ms[..i])
    {
      assert ms[..i + 1][..i] == ms[..i] && ms[..i + 1][i] == ms[i];
      var m := ms[i];
      if m.op.SET? {
        if |m.record.value| < 32 {
          return None;
        }
        added := added + [ValueMAC(m.record.value)];
      }
      var removal: Option<Bytes> := None;
      match where {
        case Nowhere =>
        case StoreOnly => removal := Lookup(t, m.record.index);
        case PatchThenStore => removal := FindPrevious(ms, t, m.record.index, i);
      }
      if removal.Some? {
        removed := removed + [removal.value];
      }
    }
    assert ms[..|ms|] == ms;
    var base := new byte[HASH_SIZE](i requires 0 <= i < HASH_SIZE => hash[i]);
    assert base[..] == hash;
    SubtractThenAddInPlace(expand, base, removed, added);
    r := Some(base[..]);
  }

  /** The store as one patch or snapshot leaves it. */
  function Persisted(before: map<Bytes, Collection>, name: Bytes, written: bool, c: Collection): map<Bytes, Collection>
  {
    if written then before[name := c] else before
  }

  datatype PatchList = PatchList(name: Bytes, hasMore: bool, patches: seq<SyncdPatch>, snapshot: Option<SyncdSnapshot>)

  /** A snapshot, if there is one, and then the patches; `applied` counts the snapshot as one write. */
  function ApplyList(env: Env, c: Collection, l: PatchList, validate: bool): Run
  {
    match l.snapshot
    case None => ApplyPatches(env, l.name, c, l.patches, validate)
    case Some(s) =>
      match ApplySnapshot(env, l.name, c, s, validate)
      case Err(e) => Run(c, 0, [], Some(e))
      case Ok((c1, ms)) => Then(Run(c1, 1, ms, None), ApplyPatches(env, l.name, c1, l.patches, validate))
  }

  method DecodeMutations(env: Env, ms: seq<SyncdMutation>, out: PatchOutput, validate: bool, version: uint64)
    returns (err: Option<Error>)
    requires WellSized(ms) && out.removedMACs == [] && out.addedMACs == []
    modifies out
    ensures match DecodeAll(env, ms, validate, version)
            case Err(e) => err == Some(e)
            case Ok(decoded) => err.None? && out.mutations == old(out.mutations) + decoded
    ensures err.None? ==> out.removedMACs == RemovedOf(ms) && out.addedMACs == AddedOf(ms)
    ensures err.None? ==> forall t: Table :: out.Effect(t) == ApplyMutations(t, ms)
  {
    hide DecodeMutation, WithoutIndex, PutAll;
    for i := 0 to |ms|
      invariant DecodeAll(env, ms[..i], validate, version).Ok?
      invariant out.mutations == old(out.mutations) + DecodeAll(env, ms[..i], validate, version).value
      invariant out.removedMACs == RemovedOf(ms[..i]) && out.addedMACs == AddedOf(ms[..i])
    {
      var m := ms[i];
      assert ms[..i + 1][..i] == ms[..i] && ms[..i + 1][i] == m;
      var r := DecodeMutation(env, m, validate);
      if r.Err? {
        FirstErrorWins(env, ms, validate, version, i);
        return Some(r.error);
      }
      DecodedMACs(env, m, validate);
      if m.op.REMOVE? {
        out.RemoveMAC(r.value.indexMAC);
      } else {
        out.AddMAC(r.value.indexMAC, r.value.valueMAC);
      }
      out.mutations := out.mutations + [ToMutation(m, r.value, version)];
    }
    assert ms[..|ms|] == ms;
    forall t: Table ensures out.Effect(t) == ApplyMutations(t, ms) {
      ListsAreMutations(t, ms);
    }
    err := None;
  }

  /** `table` is what the store shows for the collection. */
  method ValidatePatch(env: Env, name: Bytes, patch: SyncdPatch, currentState: HashState, table: Table, validate: bool)
    returns (newState: HashState, err: Option<Error>)
    ensures err == PatchVerdict(env, name, Collection(currentState, table), patch, validate)
    ensures err.None? ==> WellSized(patch.mutations)
    ensures err.None? ==> newState == PatchedState(env, Collection(currentState, table), patch)
  {
    newState, err := currentState.(version := patch.version), None;
    var hash := UpdateHash(env.prims.expand, currentState.hash, patch.mutations, PatchThenStore, table);
    if hash.None? {
      err := Some(SliceOutOfRange);
      return;
    }
    SequentialIsBatch(env.prims.expand, currentState.hash, table, patch.mutations);
    newState := HashState(patch.version, hash.value);
    if validate {
      err := CheckPatchMACs(env, name, newState, patch);
    }
  }

  /** The hash of a snapshot and whether its MAC admits it. */
  method ValidateSnapshot(env: Env, name: Bytes, ss: SyncdSnapshot, initialState: HashState, table: Table,
                          validate: bool)
    returns (sets: seq<SyncdMutation>, state: HashState, err: Option<Error>)
    ensures sets == AsSets(ss.records)
    ensures err == SnapshotVerdict(env, name, Collection(initialState, table), ss, validate)
    ensures err.None? ==> WellSized(sets)
    ensures WellSized(sets) ==> state == SnapshotState(env, Collection(initialState, table), ss)
  {
    state, err := initialState.(version := ss.version), None;
    sets := [];
    for i := 0 to |ss.records|
      invariant sets == AsSets(ss.records)[..i]
    {
      sets := sets + [SyncdMutation(SET, ss.records[i])];
    }
    assert sets == AsSets(ss.records);
    var hash := UpdateHash(env.prims.expand, initialState.hash, sets, Nowhere, table);
    if hash.None? {
      err := Some(SliceOutOfRange);
      return;
    }
    state := HashState(ss.version, hash.value);
    if validate {
      err := CheckSnapshotMAC(env, name, state, ss.keyID, ss.mac);
    }
  }

  class Processor {
    const env: Env
    const store: AppStateStore

    constructor (env: Env, store: AppStateStore)
      ensures this.env == env && this.store == store
    {
      this.env := env;
      this.store := store;
    }

    method StoreMACs(name: Bytes, state: HashState, out: PatchOutput)
      modifies store
      ensures store.collections
           == old(store.collections)[name := Collection(state, out.Effect(old(store.CollectionOf(name)).table))]
    {
      store.PutAppStateVersion(name, state.version, state.hash);
      store.DeleteAppStateMutationMACs(name, out.removedMACs);
      store.PutAppStateMutationMACs(name, out.addedMACs);
    }

    method DecodeSnapshot(name: Bytes, ss: SyncdSnapshot, initialState: HashState, validate: bool, soFar: seq<Mutation>)
      returns (mutations: seq<Mutation>, state: HashState, err: Option<Error>)
      modifies store
      ensures var r :=
          ApplySnapshot(env, name, Collection(initialState, old(store.CollectionOf(name)).table), ss, validate);
              if r.Err? then err == Some(r.error) && store.collections == old(store.collections) && mutations == []
              else && err.None? && store.collections == old(store.collections)[name := r.value.0]
                   && state == r.value.0.state && mutations == soFar + r.value.1
      // beside an error the state is the one that was refused
      ensures WellSized(AsSets(ss.records)) ==>
                state == SnapshotState(env, Collection(initialState, old(store.CollectionOf(name)).table), ss)
    {
      hide ApplySnapshot, DecodeAll, ApplyMutations, SnapshotVerdict;
      SnapshotOutcome(env, name, Collection(initialState, store.CollectionOf(name).table), ss, validate);
      mutations := [];
      var sets;
      sets, state, err := ValidateSnapshot(env, name, ss, initialState, store.CollectionOf(name).table, validate);
      if err.Some? {
        return;
      }
      var out := new PatchOutput(soFar);
      err := DecodeMutations(env, sets, out, validate, state.version);
      if err.None? {
        StoreMACs(name, state, out);
        mutations := out.mutations;
      }
    }

    /** The body of DecodePatches' loop: validate, decode, persist. */
    method DecodePatch(name: Bytes, patch: SyncdPatch, currentState: HashState, validate: bool, soFar: seq<Mutation>)
      returns (mutations: seq<Mutation>, state: HashState, err: Option<Error>)
      modifies store
      ensures var r :=
          ApplyPatch(env, name, Collection(currentState, old(store.CollectionOf(name)).table), patch, validate);
              if r.Err? then && err == Some(r.error) && store.collections == old(store.collections)
                             && state == currentState && mutations == soFar
              else && err.None? && store.collections == old(store.collections)[name := r.value.0]
                   && state == r.value.0.state && mutations == soFar + r.value.1
    {
      hide ApplyPatch, DecodeAll, PatchVerdict, ApplyMutations, SequentialHash;
      PatchOutcome(env, name, Collection(currentState, store.CollectionOf(name).table), patch, validate);
      mutations, state := soFar, currentState;
      var newState;
      newState, err := ValidatePatch(env, name, patch, currentState, store.CollectionOf(name).table, validate);
      if err.Some? {
        return;
      }
      var out := new PatchOutput(soFar);
      err := DecodeMutations(env, patch.mutations, out, validate, newState.version);
      if err.None? {
        StoreMACs(name, newState, out);
        mutations, state := out.mutations, newState;
      }
    }

    /** Decodes a patch list; every patch is persisted before the next one is looked at. */
    method DecodePatches(list: PatchList, initialState: HashState, validate: bool)
      returns (mutations: seq<Mutation>, state: HashState, err: Option<Error>)
      modifies store
      ensures var run :=
          ApplyList(env, Collection(initialState, old(store.CollectionOf(list.name)).table), list, validate);
              && err == run.error
              && store.collections == Persisted(old(store.collections), list.name, run.applied > 0, run.collection)
              // beside an error of a patch, too, what was decoded and reached before it is returned
              && (err.None? || list.snapshot.None? || run.applied > 0 ==>
                    mutations == run.mutations && state == run.collection.state)
    {
      hide ApplyPatch, ApplyPatches, ApplySnapshot, ApplyList, Then;
      ghost var start := Collection(initialState, store.CollectionOf(list.name).table);
      ListBegins(env, start, list, validate);
      ghost var goal := ApplyList(env, start, list, validate);
      ghost var applied := 0;
      mutations, state, err := [], initialState, None;
      if list.snapshot.Some? {
        mutations, state, err := DecodeSnapshot(list.name, list.snapshot.value, state, validate, mutations);
        if err.Some? {
          return;
        }
        applied := 1;
        ghost var decoded := ApplySnapshot(env, list.name, start, list.snapshot.value, validate).value.1;
        assert [] + decoded == decoded;
      }
      for i := 0 to |list.patches|
        invariant err.None?
        invariant goal == Then(Run(Collection(state, store.CollectionOf(list.name).table), applied, mutations, None),
                               ApplyPatches(env, list.name, Collection(state, store.CollectionOf(list.name).table),
                                            list.patches[i..], validate))
        invariant store.collections
               == Persisted(old(store.collections), list.name, applied > 0,
                            Collection(state, store.CollectionOf(list.name).table))
      {
        ThenStep(env, list.name, Collection(state, store.CollectionOf(list.name).table), list.patches[i..],
                 validate, applied, mutations);
        mutations, state, err := DecodePatch(list.name, list.patches[i], state, validate, mutations);
        if err.Some? {
          return;
        }
        applied := applied + 1;
        assert list.patches[i..][1..] == list.patches[i + 1..];
      }
      NoPatches(env, list.name, Collection(state, store.CollectionOf(list.name).table), validate);
      assert list.patches[|list.patches|..] == [];
      ThenNothing(Collection(state, store.CollectionOf(list.name).table), applied, mutations);
    }
  }

  /** The state that a patch claims to lead to. */
  function PatchedState(env: Env, c: Collection, p: SyncdPatch): HashState
    requires WellSized(p.mutations)
  {
    HashState(p.version, SequentialHash(env.prims.expand, c.state.hash, c.table, p.mutations))
  }

  /** Why validatePatch refuses a patch, if it does. */
  function PatchVerdict(env: Env, name: Bytes, c: Collection, p: SyncdPatch, validate: bool): Option<Error>
  {
    if !WellSized(p.mutations) then Some(SliceOutOfRange)
    else if validate then CheckPatchMACs(env, name, PatchedState(env, c, p), p)
    else None
  }

  function SnapshotState(env: Env, c: Collection, s: SyncdSnapshot): HashState
    requires WellSized(AsSets(s.records))
  {
    HashState(s.version, SubtractThenAdd(env.prims.expand, c.state.hash, [], Added(AsSets(s.records))))
  }

  /** Why a snapshot is refused before its records are opened, if it is. */
  function SnapshotVerdict(env: Env, name: Bytes, c: Collection, s: SyncdSnapshot, validate: bool): Option<Error>
  {
    if !WellSized(AsSets(s.records)) then Some(SliceOutOfRange)
    else if validate then CheckSnapshotMAC(env, name, SnapshotState(env, c, s), s.keyID, s.mac)
    else None
  }

  /** A snapshot is applied exactly when its MAC matches and all its records open. */
  lemma SnapshotOutcome(env: Env, name: Bytes, c: Collection, s: SyncdSnapshot, validate: bool)
    ensures var sets, verdict := AsSets(s.records), SnapshotVerdict(env, name, c, s, validate);
            var decoded := DecodeAll(env, sets, validate, s.version);
            ApplySnapshot(env, name, c, s, validate)
              == if verdict.Some? then Err(verdict.value)
                 else if decoded.Err? then Err(decoded.error)
                 else Ok((Collection(SnapshotState(env, c, s), ApplyMutations(c.table, sets)), decoded.value))
  {
  }

  /** A patch is applied exactly when it is validated and all its mutations open. */
  lemma PatchOutcome(env: Env, name: Bytes, c: Collection, p: SyncdPatch, validate: bool)
    ensures var verdict := PatchVerdict(env, name, c, p, validate);
            var decoded := DecodeAll(env, p.mutations, validate, p.version);
            ApplyPatch(env, name, c, p, validate)
              == if verdict.Some? then Err(verdict.value)
                 else if decoded.Err? then Err(decoded.error)
                 else Ok((Collection(PatchedState(env, c, p), ApplyMutations(c.table, p.mutations)), decoded.value))
  {
  }

  lemma ListBegins(env: Env, c: Collection, l: PatchList, validate: bool)
    ensures l.patches[0..] == l.patches
    ensures l.snapshot.None? ==>
              ApplyList(env, c, l, validate)
                == Then(Run(c, 0, [], None), ApplyPatches(env, l.name, c, l.patches, validate))
    ensures l.snapshot.Some? ==>
              var r := ApplySnapshot(env, l.name, c, l.snapshot.value, validate);
              ApplyList(env, c, l, validate) ==
                if r.Err? then Run(c, 0, [], Some(r.error))
                else Then(Run(r.value.0, 1, r.value.1, None), ApplyPatches(env, l.name, r.value.0, l.patches, validate))
  {
    hide ApplyPatches, ApplySnapshot;
    var rest := ApplyPatches(env, l.name, c, l.patches, validate);
    assert [] + rest.mutations == rest.mutations;
  }

  lemma ThenNothing(c: Collection, applied: nat, soFar: seq<Mutation>)
    ensures Then(Run(c, applied, soFar, None), Run(c, 0, [], None)) == Run(c, applied, soFar, None)
  {
    assert soFar + [] == soFar;
  }

  lemma NoPatches(env: Env, name: Bytes, c: Collection, validate: bool)
    ensures ApplyPatches(env, name, c, [], validate) == Run(c, 0, [], None)
  {
  }

  lemma ThenStep(env: Env, name: Bytes, c: Collection, ps: seq<SyncdPatch>, validate: bool, applied: nat,
                 soFar: seq<Mutation>)
    requires ps != []
    ensures var run := Then(Run(c, applied, soFar, None), ApplyPatches(env, name, c, ps, validate));
            var r := ApplyPatch(env, name, c, ps[0], validate);
            run == if r.Err? then Run(c, applied, soFar, Some(r.error))
                   else Then(Run(r.value.0, applied + 1, soFar + r.value.1, None),
                             ApplyPatches(env, name, r.value.0, ps[1..], validate))
  {
    hide ApplyPatch;
    match ApplyPatch(env, name, c, ps[0], validate)
    case Err(e) =>
      assert soFar + [] == soFar;
    case Ok((c1, ms)) =>
      var rest := ApplyPatches(env, name, c1, ps[1..], validate);
      assert soFar + (ms + rest.mutations) == soFar + ms + rest.mutations;
  }

  lemma DecodedMACs(env: Env, m: SyncdMutation, validate: bool)
    ensures var r := DecodeMutation(env, m, validate);
            r.Ok? ==> && |m.record.value| >= 32 && r.value.indexMAC == m.record.index
                      && r.value.valueMAC == ValueMAC(m.record.value) && (validate ==> |m.record.index| == 32)
  {
  }

  lemma {:induction false} FirstErrorWins(env: Env, ms: seq<SyncdMutation>, validate: bool, version: uint64, i: nat)
    requires i < |ms|
    requires DecodeAll(env, ms[..i], validate, version).Ok? && DecodeMutation(env, ms[i], validate).Err?
    ensures DecodeAll(env, ms, validate, version) == Err(DecodeMutation(env, ms[i], validate).error)
  {
    var n := |ms| - 1;
    if i < n {
      assert ms[..n][..i] == ms[..i];
      FirstErrorWins(env, ms[..n], validate, version, i);
    }
  }
}
