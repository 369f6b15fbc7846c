/** The SQL store as the processor uses it, and the processor's loops over it, with refused inserts as outcomes. */
module AppStateSqlStore {
  import opened Bytes
  import opened LTHash
  import opened AppState
  import opened AppStateProcessor
  import opened SqlMacs
  import opened AppStateSql
  import opened AppStateSqlRuns

  /* ---------- The store ---------- */

  class SqlStore {
    var collections: map<Bytes, SqlCollection>

    constructor ()
      ensures collections == map[]
    {
      collections := map[];
    }

    function RowsOf(name: Bytes): SqlRows
      reads this
    {
      if name in collections then collections[name].rows else map[]
    }

    method PutAppStateVersion(name: Bytes, state: HashState)
      modifies this
      ensures collections == old(collections)[name := SqlCollection(state, old(RowsOf(name)))]
    {
      collections := collections[name := SqlCollection(state, RowsOf(name))];
    }

    /** Deletes the rows of every version of the indexes. */
    method DeleteAppStateMutationMACs(name: Bytes, indexMACs: seq<Bytes>)
      requires name in collections
      modifies this
      ensures var before := old(collections)[name];
              collections == old(collections)[name := before.(rows := Delete(before.rows, indexMACs))]
    {
      collections := collections[name := collections[name].(rows := Delete(collections[name].rows, indexMACs))];
    }

    /** One transaction: all rows are inserted, or none. */
    method PutAppStateMutationMACs(name: Bytes, version: uint64, macs: seq<IndexAndValue>) returns (ok: bool)
      requires name in collections
      modifies this
      ensures var out := Insert(old(collections)[name].rows, version, macs);
              && ok == out.Some?
              && (ok ==> collections == old(collections)[name := old(collections)[name].(rows := out.value)])
              && (!ok ==> collections == old(collections))
    {
      var rows := collections[name].rows;
      for i := 0 to |macs|
        invariant Insert(old(collections)[name].rows, version, macs[..i]) == Some(rows)
        invariant collections == old(collections)
      {
        assert macs[..i + 1][..i] == macs[..i];
        if !Fits(macs[i]) || Row(version, macs[i].indexMAC) in rows {
          FirstRefusal(collections[name].rows, version, macs, i + 1);
          return false;
        }
        rows := rows[Row(version, macs[i].indexMAC) := macs[i].valueMAC];
      }
      assert macs[..|macs|] == macs;
      collections := collections[name := collections[name].(rows := rows)];
      ok := true;
    }

    /** The value of the index's row with the highest version. */
    method GetAppStateMutationMAC(name: Bytes, indexMAC: Bytes) returns (r: Option<Bytes>)
      ensures r == Lookup(Seen(RowsOf(name)), indexMAC)
    {
      var rows := RowsOf(name);
      var todo, best: Option<Row> := rows.Keys, None;
      while todo != {}
        invariant todo <= rows.Keys
        invariant best.Some? ==> best.value in rows && best.value.indexMAC == indexMAC
        invariant forall q :: q in rows && q !in todo && q.indexMAC == indexMAC ==>
            best.Some? && q.version <= best.value.version
        decreases |todo|
      {
        var q :| q in todo;
        todo := todo - {q};
        if q.indexMAC == indexMAC && (best.None? || q.version > best.value.version) {
          best := Some(q);
        }
      }
      if best.Some? {
        SeenAt(rows, best.value);
        return Some(rows[best.value]);
      }
      assert indexMAC !in Seen(rows);
      r := None;
    }

    /** Three writes, each on its own; the last one may be refused. */
    method StoreMACs(name: Bytes, state: HashState, removed: seq<Bytes>, added: seq<IndexAndValue>) returns (ok: bool)
      modifies this
      ensures var w := SqlWrite(SqlCollection(state, old(RowsOf(name))), state, removed, added);
              ok == w.ok && collections == old(collections)[name := w.collection]
    {
      hide Insert, Delete;
      PutAppStateVersion(name, state);
      DeleteAppStateMutationMACs(name, removed);
      ok := PutAppStateMutationMACs(name, state.version, added);
    }
  }

  lemma {:induction false} FirstRefusal(rows: SqlRows, version: nat, macs: seq<IndexAndValue>, i: nat)
    requires i <= |macs| && Insert(rows, version, macs[..i]).None?
    ensures Insert(rows, version, macs).None?
    decreases |macs| - i
  {
    if i == |macs| {
      assert macs[..i] == macs;
    } else {
      assert macs[..i + 1][..i] == macs[..i];
      FirstRefusal(rows, version, macs, i + 1);
    }
  }

  /* ---------- The processor on it ---------- */

  function ErrorOf(r: SqlRun): Option<Error>
  {
    if r.stored then r.error else Some(InsertRefused)
  }

  function PersistedSql(before: SqlCollections, name: Bytes, r: SqlRun): SqlCollections
  {
    if r.applied > 0 then before[name := r.collection] else before
  }

  class SqlProcessor {
    const env: Env
    const store: SqlStore

    constructor (env: Env, store: SqlStore)
      ensures this.env == env && this.store == store
    {
      this.env := env;
      this.store := store;
    }

    /** Decodes what was validated and makes the three writes. */
    method DecodeAndStore(name: Bytes, ms: seq<SyncdMutation>, newState: HashState, soFar: seq<Mutation>)
      returns (mutations: seq<Mutation>, err: Option<Error>)
      requires WellSized(ms)
      modifies store
      ensures var decoded := DecodeAll(env, ms, true, newState.version);
              var w := PatchWrite(SqlCollection(newState, old(store.RowsOf(name))), newState, ms);
              && err == (if decoded.Err? then Some(decoded.error) else if !w.ok then Some(InsertRefused) else None)
              && (err.None? ==> mutations == soFar + decoded.value)
              && store.collections ==
                   if decoded.Err? then old(store.collections) else old(store.collections)[name := w.collection]
    {
      hide DecodeAll, Seen, SqlWrite, AddedOf, RemovedOf, ApplyMutations;
      mutations := soFar;
      var out := new PatchOutput(soFar);
      err := DecodeMutations(env, ms, out, true, newState.version);
      if err.Some? {
        return;
      }
      var ok := store.StoreMACs(name, newState, out.removedMACs, out.addedMACs);
      if !ok {
        err := Some(InsertRefused);
        return;
      }
      mutations := out.mutations;
    }

    /** The body of the loop: validate against what lookups show, decode, write. */
    method DecodePatch(name: Bytes, patch: SyncdPatch, currentState: HashState, soFar: seq<Mutation>)
      returns (mutations: seq<Mutation>, state: HashState, err: Option<Error>)
      modifies store
      ensures var r := PatchTurn(env, name, SqlCollection(currentState, old(store.RowsOf(name))), patch);
              && err == ErrorOf(r) && store.collections == PersistedSql(old(store.collections), name, r)
              && (err.Some? ==> state == currentState && mutations == soFar)
              && (err.None? ==> r.applied == 1 && state == r.collection.state && mutations == soFar + r.mutations)
    {
      hide ApplyPatch, DecodeAll, PatchVerdict, ApplyMutations, Seen, PatchWrite, PatchedState;
      ghost var c := SqlCollection(currentState, store.RowsOf(name));
      PatchOutcome(env, name, Shown(c), patch, true);
      NotWellSized(env, name, Shown(c), patch, SyncdSnapshot(0, [], [], []));
      mutations, state := soFar, currentState;
      var newState, more;
      newState, err := ValidatePatch(env, name, patch, currentState, Seen(store.RowsOf(name)), true);
      if err.Some? {
        return;
      }
      PatchedVersion(env, Shown(c), patch);
      OnlyRowsMatter(c, newState, patch.mutations);
      more, err := DecodeAndStore(name, patch.mutations, newState, soFar);
      if err.None? {
        mutations, state := more, newState;
      }
    }

    method DecodeSnapshot(name: Bytes, ss: SyncdSnapshot, initialState: HashState, soFar: seq<Mutation>)
      returns (mutations: seq<Mutation>, state: HashState, err: Option<Error>)
      modifies store
      ensures var r := SnapshotTurn(env, name, SqlCollection(initialState, old(store.RowsOf(name))), ss);
              && err == ErrorOf(r) && store.collections == PersistedSql(old(store.collections), name, r)
              && (err.Some? ==> mutations == [])
              && (err.None? ==> r.applied == 1 && state == r.collection.state && mutations == soFar + r.mutations)
    {
      hide ApplySnapshot, DecodeAll, SnapshotVerdict, ApplyMutations, Seen, PatchWrite, SnapshotState;
      ghost var c := SqlCollection(initialState, store.RowsOf(name));
      SnapshotOutcome(env, name, Shown(c), ss, true);
      NotWellSized(env, name, Shown(c), SyncdPatch(0, [], [], [], []), ss);
      mutations := [];
      var sets, more;
      sets, state, err := ValidateSnapshot(env, name, ss, initialState, Seen(store.RowsOf(name)), true);
      if err.Some? {
        return;
      }
      SnapshotVersion(env, Shown(c), ss);
      OnlyRowsMatter(c, state, sets);
      more, err := DecodeAndStore(name, sets, state, soFar);
      if err.None? {
        mutations := more;
      }
    }

    /** Every patch is written before the next one is looked at; a refused write ends it, half done. */
    method DecodePatches(list: PatchList, initialState: HashState)
      returns (mutations: seq<Mutation>, state: HashState, err: Option<Error>)
      modifies store
      ensures var r := SqlList(env, SqlCollection(initialState, old(store.RowsOf(list.name))), list);
              && err == ErrorOf(r) && store.collections == PersistedSql(old(store.collections), list.name, r)
              && (err.None? ==> state == r.collection.state && mutations == r.mutations)
    {
      hide PatchTurn, SnapshotTurn, SqlPatches;
      ghost var start := SqlCollection(initialState, store.RowsOf(list.name));
      ghost var goal := SqlList(env, start, list);
      ghost var done := Untouched(start, None);
      mutations, state, err := [], initialState, None;
      ListStarts(env, start, list);
      if list.snapshot.Some? {
        mutations, state, err := DecodeSnapshot(list.name, list.snapshot.value, state, mutations);
        if err.Some? {
          return;
        }
        done := SnapshotTurn(env, list.name, start, list.snapshot.value);
        assert [] + done.mutations == done.mutations;
      }
      for i := 0 to |list.patches|
        invariant err.None? && GoesOn(done) && state == done.collection.state && mutations == done.mutations
        invariant done.collection == SqlCollection(state, store.RowsOf(list.name))
        invariant store.collections == PersistedSql(old(store.collections), list.name, done)
        invariant goal == AndThen(done, SqlPatches(env, list.name, done.collection, list.patches[i..]))
      {
        PatchesStep(env, list.name, done, list.patches[i..]);
        ghost var turn := PatchTurn(env, list.name, done.collection, list.patches[i]);
        NothingWritten(env, list.name, done.collection, list.patches[i]);
        mutations, state, err := DecodePatch(list.name, list.patches[i], state, mutations);
        if err.Some? {
          return;
        }
        done := AndThen(done, turn);
        assert list.patches[i..][1..] == list.patches[i + 1..];
      }
      assert list.patches[|list.patches|..] == [];
      NoMorePatches(env, list.name, done);
    }
  }

  lemma PatchedVersion(env: Env, c: Collection, p: SyncdPatch)
    requires WellSized(p.mutations)
    ensures PatchedState(env, c, p).version == p.version
  {
  }

  lemma SnapshotVersion(env: Env, c: Collection, s: SyncdSnapshot)
    requires WellSized(AsSets(s.records))
    ensures SnapshotState(env, c, s).version == s.version
  {
  }

  /** The old state of a collection is overwritten, whatever it was. */
  lemma OnlyRowsMatter(c: SqlCollection, state: HashState, ms: seq<SyncdMutation>)
    requires WellSized(ms)
    ensures PatchWrite(c, state, ms) == PatchWrite(SqlCollection(state, c.rows), state, ms)
    ensures PatchWrite(c, state, ms).collection.state == state
  {
  }

  lemma ListStarts(env: Env, c: SqlCollection, l: PatchList)
    ensures l.patches[0..] == l.patches
    ensures l.snapshot.None? ==>
        SqlList(env, c, l) == AndThen(Untouched(c, None), SqlPatches(env, l.name, c, l.patches))
  {
    hide SqlPatches;
    var r := SqlPatches(env, l.name, c, l.patches);
    assert [] + r.mutations == r.mutations;
  }

  lemma PatchesStep(env: Env, name: Bytes, done: SqlRun, ps: seq<SyncdPatch>)
    requires ps != []
    ensures var turn := PatchTurn(env, name, done.collection, ps[0]);
            AndThen(done, SqlPatches(env, name, done.collection, ps)) ==
              if GoesOn(turn) then AndThen(AndThen(done, turn), SqlPatches(env, name, turn.collection, ps[1..]))
              else AndThen(done, turn)
  {
    hide PatchTurn;
    var turn := PatchTurn(env, name, done.collection, ps[0]);
    if GoesOn(turn) {
      var rest := SqlPatches(env, name, turn.collection, ps[1..]);
      assert done.mutations + (turn.mutations + rest.mutations) == done.mutations + turn.mutations + rest.mutations;
    }
  }

  lemma NothingWritten(env: Env, name: Bytes, c: SqlCollection, p: SyncdPatch)
    ensures PatchTurn(env, name, c, p).applied == 0 ==> PatchTurn(env, name, c, p).collection == c
  {
    hide ApplyPatch;
  }

  lemma NoMorePatches(env: Env, name: Bytes, done: SqlRun)
    requires GoesOn(done)
    ensures AndThen(done, SqlPatches(env, name, done.collection, [])) == done
  {
    assert done.mutations + [] == done.mutations;
  }
}
