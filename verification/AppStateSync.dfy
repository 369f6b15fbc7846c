/**
 * Whole synchronisation runs: the paging loop of appstate.go, recovery from a peer's copy
 * (appstate/recovery.go with the version guard of appstate.go), and what every run keeps.
 */
module AppStateSync {
  import opened Bytes
  import opened LTHash
  import opened AppState
  import opened AppStateProcessor

  /* ---------- Recovery ---------- */

  datatype RecoveryRecord = RecoveryRecord(keyID: Bytes, value: SyncAction, mac: Bytes)

  datatype Recovery = Recovery(name: Bytes, version: uint64, hash: Bytes, records: seq<RecoveryRecord>)

  function RecoverOne(env: Env, r: RecoveryRecord, version: uint64): Result<Mutation, Error>
  {
    if r.keyID !in env.keys then Err(KeyNotFound) else
      var index := env.prims.unmarshalIndex(r.value.index);
      if index.None? then Err(BadIndex)
      else Ok(Mutation(r.keyID, SET, r.value.value, r.value.version, index.value,
                       env.prims.hmac256(env.keys[r.keyID].index, r.value.index), r.mac, version))
  }

  function RecoverAll(env: Env, rs: seq<RecoveryRecord>, version: uint64): Result<seq<Mutation>, Error>
  {
    if rs == [] then Ok([]) else
      var before := RecoverAll(env, rs[..|rs| - 1], version);
      if before.Err? then before else
        match RecoverOne(env, rs[|rs| - 1], version)
        case Err(e) => Err(e)
        case Ok(m) => Ok(before.value + [m])
  }

  function MacsOf(ms: seq<Mutation>): (rows: seq<IndexAndValue>)
    ensures |rows| == |ms|
    ensures forall i :: 0 <= i < |ms| ==> rows[i] == IndexAndValue(ms[i].indexMAC, ms[i].valueMAC)
  {
    seq(|ms|, i requires 0 <= i < |ms| => IndexAndValue(ms[i].indexMAC, ms[i].valueMAC))
  }

  function ValuesOf(rows: seq<IndexAndValue>): (vs: seq<Bytes>)
    ensures |vs| == |rows|
    ensures forall i :: 0 <= i < |rows| ==> vs[i] == rows[i].valueMAC
  {
    seq(|rows|, i requires 0 <= i < |rows| => rows[i].valueMAC)
  }

  /** The collection that a recovery installs, or why it is refused. */
  function Recovered(env: Env, r: Recovery): Result<Collection, Error>
  {
    if |r.hash| != HASH_SIZE then Err(InvalidHashLength) else
      match RecoverAll(env, r.records, r.version)
      case Err(e) => Err(e)
      case Ok(ms) => Ok(Collection(HashState(r.version, r.hash), PutAll(map[], MacsOf(ms))))
  }

  lemma {:induction false} FirstRecoveryErrorWins(env: Env, rs: seq<RecoveryRecord>, version: uint64, i: nat)
    requires i < |rs|
    requires RecoverAll(env, rs[..i], version).Ok? && RecoverOne(env, rs[i], version).Err?
    ensures RecoverAll(env, rs, version) == Err(RecoverOne(env, rs[i], version).error)
  {
    var n := |rs| - 1;
    if i < n {
      assert rs[..n][..i] == rs[..i];
      FirstRecoveryErrorWins(env, rs[..n], version, i);
    }
  }

  method ProcessRecovery(proc: Processor, recovery: Recovery) returns (mutations: seq<Mutation>, err: Option<Error>)
    modifies proc.store
    ensures var r := Recovered(proc.env, recovery);
            if r.Err? then err == Some(r.error) && proc.store.collections == old(proc.store.collections)
            else && err.None? && proc.store.collections == old(proc.store.collections)[recovery.name := r.value]
                 && RecoverAll(proc.env, recovery.records, recovery.version) == Ok(mutations)
  {
    mutations := [];
    if |recovery.hash| != HASH_SIZE {
      err := Some(InvalidHashLength);
      return;
    }
    var macs: seq<IndexAndValue> := [];
    for i := 0 to |recovery.records|
      invariant RecoverAll(proc.env, recovery.records[..i], recovery.version) == Ok(mutations)
      invariant macs == MacsOf(mutations)
      invariant proc.store.collections == old(proc.store.collections)
    {
      assert recovery.records[..i + 1][..i] == recovery.records[..i];
      var one := RecoverOne(proc.env, recovery.records[i], recovery.version);
      if one.Err? {
        FirstRecoveryErrorWins(proc.env, recovery.records, recovery.version, i);
        err := Some(one.error);
        return;
      }
      macs := macs + [IndexAndValue(one.value.indexMAC, one.value.valueMAC)];
      mutations := mutations + [one.value];
    }
    assert recovery.records[..|recovery.records|] == recovery.records;
    proc.store.DeleteAppStateVersion(recovery.name);
    proc.store.PutAppStateVersion(recovery.name, recovery.version, recovery.hash);
    proc.store.PutAppStateMutationMACs(recovery.name, macs);
    err := None;
  }

  lemma {:induction false} PutAllKeys(rows: seq<IndexAndValue>)
    ensures PutAll(map[], rows).Keys == set i | 0 <= i < |rows| :: rows[i].indexMAC
  {
    if rows != [] {
      var before := rows[..|rows| - 1];
      PutAllKeys(before);
      assert PutAll(map[], rows).Keys == PutAll(map[], before).Keys + {rows[|rows| - 1].indexMAC};
    }
  }

  lemma {:induction false} DistinctRowsSum(w: Bytes -> int, rows: seq<IndexAndValue>)
    requires DistinctMACs(rows)
    ensures MapSum(w, PutAll(map[], rows)) == Sum(w, ValuesOf(rows))
  {
    if rows != [] {
      var n := |rows| - 1;
      var before, last := rows[..n], rows[n];
      DistinctRowsSum(w, before);
      PutAllKeys(before);
      assert last.indexMAC !in PutAll(map[], before);
      MapSumPut(w, PutAll(map[], before), last.indexMAC, last.valueMAC);
      assert ValuesOf(rows)[..n] == ValuesOf(before);
    }
  }

  /** The supplied hash is what the records sum to. */
  ghost predicate HashSumsRecords(expand: Expander, hash: Hash, ms: seq<Mutation>)
  {
    forall j: nat :: j < WORDS ==> Word(hash, j) == Sum(Weight(expand, j), ValuesOf(MacsOf(ms))) % 0x1_0000
  }

  /** With distinct index MACs, a recovered collection agrees exactly when the supplied hash sums the records. */
  lemma RecoveryAgreesIff(env: Env, r: Recovery)
    requires Recovered(env, r).Ok?
    requires DistinctMACs(MacsOf(RecoverAll(env, r.records, r.version).value))
    ensures Agrees(env.prims.expand, r.hash, Recovered(env, r).value.table)
       <==> HashSumsRecords(env.prims.expand, r.hash, RecoverAll(env, r.records, r.version).value)
  {
    var rows := MacsOf(RecoverAll(env, r.records, r.version).value);
    assert Recovered(env, r).value.table == PutAll(map[], rows);
    hide MapSum, Sum, PutAll, RecoverAll, Recovered, Weight;
    forall j: nat | j < WORDS
      ensures MapSum(Weight(env.prims.expand, j), PutAll(map[], rows))
          == Sum(Weight(env.prims.expand, j), ValuesOf(rows))
    {
      DistinctRowsSum(Weight(env.prims.expand, j), rows);
    }
  }

  /* ---------- Paging ---------- */

  /** One answer of the server for the requested collection. */
  datatype Page = Page(hasMore: bool, patches: seq<SyncdPatch>, snapshot: Option<SyncdSnapshot>)

  datatype SyncError =
    | FetchFailed | InvalidSavedVersion | UnexpectedSnapshot | SnapshotOverState | Decode(error: Error)

  datatype SyncRun = SyncRun(collection: Collection, applied: nat, mutations: seq<Mutation>, error: Option<SyncError>)

  function ListOf(name: Bytes, p: Page): PatchList
  {
    PatchList(name, p.hasMore, p.patches, p.snapshot)
  }

  function FromRun(r: Run): SyncRun
  {
    SyncRun(r.collection, r.applied, r.mutations, if r.error.None? then None else Some(Decode(r.error.value)))
  }

  function AfterRun(r: Run, s: SyncRun): SyncRun
  {
    SyncRun(s.collection, r.applied + s.applied, r.mutations + s.mutations, s.error)
  }

  function RefusePage(c: Collection, wantSnapshot: bool, p: Page): Option<SyncError>
  {
    if !wantSnapshot && p.snapshot.Some? then Some(UnexpectedSnapshot)
    else if p.snapshot.Some? && c.state != INITIAL_STATE then Some(SnapshotOverState)
    else None
  }

  /** What the paging loop does with the server's answers, page after page. */
  function SyncPages(env: Env, name: Bytes, c: Collection, wantSnapshot: bool, pages: seq<Page>): SyncRun
    decreases pages
  {
    if pages == [] then SyncRun(c, 0, [], Some(FetchFailed)) else
      var p := pages[0];
      var refusal := RefusePage(c, wantSnapshot, p);
      if refusal.Some? then SyncRun(c, 0, [], refusal) else
        var r := ApplyList(env, c, ListOf(name, p), true);
        if r.error.Some? || !p.hasMore then FromRun(r)
        else AfterRun(r, SyncPages(env, name, r.collection, false, pages[1..]))
  }

  /** The patches of all pages in order. */
  function AllPatches(pages: seq<Page>): seq<SyncdPatch>
  {
    if pages == [] then [] else pages[0].patches + AllPatches(pages[1..])
  }

  /**
   * A complete answer: more pages are announced exactly while there are more, and only the first may hold a snapshot.
   */
  predicate CompletePages(pages: seq<Page>)
  {
    && pages != []
    && (forall i :: 0 <= i < |pages| ==> (pages[i].hasMore <==> i < |pages| - 1))
    && (forall i :: 1 <= i < |pages| ==> pages[i].snapshot.None?)
  }

  /**
   * However a list of patches is split into pages, the run is the run of the whole list: the same collection
   * persisted, the same mutations in the same order, the same failure at the same patch.
   */
  lemma {:induction false} PagingIsTransparent(env: Env, name: Bytes, c: Collection, wantSnapshot: bool,
                                               pages: seq<Page>)
    requires CompletePages(pages) && RefusePage(c, wantSnapshot, pages[0]).None?
    ensures SyncPages(env, name, c, wantSnapshot, pages)
         == FromRun(ApplyList(env, c, PatchList(name, false, AllPatches(pages), pages[0].snapshot), true))
    decreases pages
  {
    hide ApplyPatches, ApplySnapshot;
    var first := ApplyList(env, c, ListOf(name, pages[0]), true);
    var rest := AllPatches(pages[1..]);
    assert AllPatches(pages) == pages[0].patches + rest;
    ListThenPatches(env, c, name, pages[0], rest);
    if |pages| == 1 {
      hide ApplyList;
      NoPatches(env, name, first.collection, true);
      assert first.mutations + [] == first.mutations;
    } else if first.error.None? {
      PagingIsTransparent(env, name, first.collection, false, pages[1..]);
      assert pages[1..][0].snapshot.None?;
    }
  }

  lemma ListThenPatches(env: Env, c: Collection, name: Bytes, p: Page, more: seq<SyncdPatch>)
    ensures var first := ApplyList(env, c, ListOf(name, p), true);
            ApplyList(env, c, PatchList(name, false, p.patches + more, p.snapshot), true)
              == Then(first, ApplyPatches(env, name, first.collection, more, true))
  {
    hide ApplyPatches, ApplySnapshot;
    match p.snapshot
    case None =>
      PatchesPage(env, name, c, p.patches, more, true);
    case Some(s) =>
      var r := ApplySnapshot(env, name, c, s, true);
      if r.Ok? {
        var c1, ms := r.value.0, r.value.1;
        PatchesPage(env, name, c1, p.patches, more, true);
        var a := ApplyPatches(env, name, c1, p.patches, true);
        var b := ApplyPatches(env, name, a.collection, more, true);
        assert ms + (a.mutations + b.mutations) == ms + a.mutations + b.mutations;
      }
  }

  /* ---------- The client's loop ---------- */

  datatype SyncStart = Refuse(error: SyncError) | AlreadySynced | Start(collection: Collection, fullSync: bool)

  /** What the store holds when the loop begins, after an optional reset. */
  function BeginSync(collections: map<Bytes, Collection>, name: Bytes, fullSync: bool, onlyIfNotSynced: bool): SyncStart
  {
    if name !in collections || fullSync then Start(EMPTY_COLLECTION, true)
    else if collections[name].state.version == 0 then Refuse(InvalidSavedVersion)
    else if onlyIfNotSynced then AlreadySynced
    else Start(collections[name], false)
  }

  /** The collections after one call of fetchAppState. */
  function AfterSync(env: Env, collections: map<Bytes, Collection>, name: Bytes, fullSync: bool, onlyIfNotSynced: bool,
                     pages: seq<Page>)
    : map<Bytes, Collection>
  {
    var reset := if fullSync then collections - {name} else collections;
    var start := BeginSync(collections, name, fullSync, onlyIfNotSynced);
    if !start.Start? then reset else
      var r := SyncPages(env, name, start.collection, start.fullSync, pages);
      Persisted(reset, name, r.applied > 0, r.collection)
  }

  method FetchAppState(proc: Processor, name: Bytes, fullSync: bool, onlyIfNotSynced: bool, pages: seq<Page>)
    returns (mutations: seq<Mutation>, state: HashState, err: Option<SyncError>)
    modifies proc.store
    ensures proc.store.collections
        == AfterSync(proc.env, old(proc.store.collections), name, fullSync, onlyIfNotSynced, pages)
    ensures match BeginSync(old(proc.store.collections), name, fullSync, onlyIfNotSynced)
            case Refuse(e) => err == Some(e)
            case AlreadySynced => err.None? && mutations == []
            case Start(c, full) =>
              && err == SyncPages(proc.env, name, c, full, pages).error
              && (err.None? ==> && mutations == SyncPages(proc.env, name, c, full, pages).mutations
                                && state == SyncPages(proc.env, name, c, full, pages).collection.state)
    ensures err.Some? ==> mutations == []
    // the returned state is the one left in the store
    ensures err.None? ==> proc.store.CollectionOf(name).state == state
  {
    mutations, err := [], None;
    var full := fullSync;
    if fullSync {
      proc.store.DeleteAppStateVersion(name);
    }
    state := proc.store.CollectionOf(name).state;
    if name in proc.store.collections && state.version == 0 {
      err := Some(InvalidSavedVersion);
      return;
    }
    if state.version == 0 {
      full := true;
    } else if onlyIfNotSynced {
      return;
    }
    mutations, state, err := SyncLoop(proc, name, state, full, pages);
    if err.Some? {
      mutations := [];
    }
  }

  /** The paging loop itself, from a given state. */
  method SyncLoop(proc: Processor, name: Bytes, initialState: HashState, fullSync: bool, pages: seq<Page>)
    returns (mutations: seq<Mutation>, state: HashState, err: Option<SyncError>)
    modifies proc.store
    ensures var run :=
        SyncPages(proc.env, name, Collection(initialState, old(proc.store.CollectionOf(name)).table), fullSync, pages);
            && err == run.error
            && proc.store.collections == Persisted(old(proc.store.collections), name, run.applied > 0, run.collection)
            && (err.None? ==> mutations == run.mutations && state == run.collection.state)
            && (run.applied == 0 ==> run.collection.state == initialState)
  {
    hide ApplyList, SyncPages;
    mutations, state, err := [], initialState, None;
    ghost var goal :=
      SyncPages(proc.env, name, Collection(state, proc.store.CollectionOf(name).table), fullSync, pages);
    ghost var applied: nat := 0;
    var hasMore, wantSnapshot, i := true, fullSync, 0;
    assert pages[0..] == pages && [] + goal.mutations == goal.mutations;
    while hasMore
      invariant 0 <= i <= |pages|
      invariant err.None?
      invariant applied == 0 ==> state == initialState
      invariant proc.store.collections
             == Persisted(old(proc.store.collections), name, applied > 0,
                          Collection(state, proc.store.CollectionOf(name).table))
      invariant hasMore ==>
        goal == AfterRun(Run(Collection(state, proc.store.CollectionOf(name).table), applied, mutations, None),
                         SyncPages(proc.env, name, Collection(state, proc.store.CollectionOf(name).table), wantSnapshot,
                                   pages[i..]))
      invariant !hasMore ==>
          goal == SyncRun(Collection(state, proc.store.CollectionOf(name).table), applied, mutations, None)
      decreases hasMore, |pages| - i
    {
      ghost var current := Collection(state, proc.store.CollectionOf(name).table);
      PageStep(proc.env, name, current, wantSnapshot, pages[i..], applied, mutations);
      if i == |pages| {
        err := Some(FetchFailed);
        return;
      }
      var page := pages[i];
      err := RefusePage(proc.store.CollectionOf(name).(state := state), wantSnapshot, page);
      if err.Some? {
        return;
      }
      ghost var run := ApplyList(proc.env, current, ListOf(name, page), true);
      NothingApplied(proc.env, current, ListOf(name, page), true);
      wantSnapshot := false;
      hasMore := page.hasMore;
      var newState, more, decodeErr;
      more, newState, decodeErr := proc.DecodePatches(ListOf(name, page), state, true);
      applied := applied + run.applied;
      if decodeErr.Some? {
        err := Some(Decode(decodeErr.value));
        return;
      }
      state, mutations, i := newState, mutations + more, i + 1;
    }
  }

  lemma NothingApplied(env: Env, c: Collection, l: PatchList, validate: bool)
    ensures ApplyList(env, c, l, validate).applied == 0 ==> ApplyList(env, c, l, validate).collection == c
  {
    hide ApplyPatch, ApplySnapshot;
  }

  lemma PageStep(env: Env, name: Bytes, c: Collection, wantSnapshot: bool, pages: seq<Page>, applied: nat,
                 soFar: seq<Mutation>)
    ensures var run := AfterRun(Run(c, applied, soFar, None), SyncPages(env, name, c, wantSnapshot, pages));
            run == if pages == [] then SyncRun(c, applied, soFar, Some(FetchFailed))
                   else if RefusePage(c, wantSnapshot, pages[0]).Some?
                   then SyncRun(c, applied, soFar, RefusePage(c, wantSnapshot, pages[0]))
                   else
                     var r := ApplyList(env, c, ListOf(name, pages[0]), true);
                     if r.error.Some? || !pages[0].hasMore
                     then AfterRun(Run(c, applied, soFar, None), FromRun(r))
                     else AfterRun(Run(r.collection, applied + r.applied, soFar + r.mutations, None),
                                   SyncPages(env, name, r.collection, false, pages[1..]))
  {
    hide ApplyList;
    assert soFar + [] == soFar;
    if pages != [] {
      var r := ApplyList(env, c, ListOf(name, pages[0]), true);
      var rest := SyncPages(env, name, r.collection, false, pages[1..]);
      assert soFar + (r.mutations + rest.mutations) == soFar + r.mutations + rest.mutations;
    }
  }

  /* ---------- Every run ---------- */

  /** What a recovery answer does: nothing unless it is newer than what is stored. */
  function AfterRecovery(env: Env, collections: map<Bytes, Collection>, r: Recovery): map<Bytes, Collection>
  {
    var current := if r.name in collections then collections[r.name].state.version else 0;
    if r.name in collections && current == 0 then collections  // reading the saved version fails
    else if current >= r.version then collections
    else match Recovered(env, r)
         case Err(_) => collections
         case Ok(c) => collections[r.name := c]
  }

  method HandleAppStateRecovery(proc: Processor, recovery: Recovery) returns (mutations: seq<Mutation>)
    modifies proc.store
    ensures proc.store.collections == AfterRecovery(proc.env, old(proc.store.collections), recovery)
    // what is installed is handed on, and nothing else
    ensures var before, name := old(proc.store.collections), recovery.name;
            var installs := && Recovered(proc.env, recovery).Ok?
                            && (if name in before then 0 < before[name].state.version < recovery.version
                                else 0 < recovery.version);
            if installs then RecoverAll(proc.env, recovery.records, recovery.version) == Ok(mutations)
            else mutations == []
  {
    mutations := [];
    var current := proc.store.CollectionOf(recovery.name).state.version;
    if (recovery.name in proc.store.collections && current == 0) || current >= recovery.version {
      return;
    }
    var err;
    mutations, err := ProcessRecovery(proc, recovery);
    if err.Some? {
      mutations := [];
    }
  }

  datatype Event =
    | Sync(name: Bytes, fullSync: bool, onlyIfNotSynced: bool, pages: seq<Page>)
    | Recover(recovery: Recovery)

  function AfterEvent(env: Env, collections: map<Bytes, Collection>, e: Event): map<Bytes, Collection>
  {
    match e
    case Sync(name, fullSync, onlyIfNotSynced, pages) =>
        AfterSync(env, collections, name, fullSync, onlyIfNotSynced, pages)
    case Recover(r) => AfterRecovery(env, collections, r)
  }

  function AfterEvents(env: Env, collections: map<Bytes, Collection>, es: seq<Event>): map<Bytes, Collection>
  {
    if es == [] then collections else AfterEvent(env, AfterEvents(env, collections, es[..|es| - 1]), es[|es| - 1])
  }

  /**
   * What is asked of the other side: a snapshot names each index once, and so does a recovery, whose hash is the
   * sum of its records. Patches are unrestricted.
   */
  ghost predicate HonestEvent(env: Env, e: Event)
  {
    match e
    case Sync(_, _, _, pages) =>
      forall i :: 0 <= i < |pages| && pages[i].snapshot.Some? ==>
          DistinctIndexes(AsSets(pages[i].snapshot.value.records))
    case Recover(r) =>
      Recovered(env, r).Ok? ==>
        && DistinctMACs(MacsOf(RecoverAll(env, r.records, r.version).value))
        && HashSumsRecords(env.prims.expand, r.hash, RecoverAll(env, r.records, r.version).value)
  }

  ghost predicate AllAgree(expand: Expander, collections: map<Bytes, Collection>)
  {
    forall name :: name in collections ==> Agrees(expand, collections[name].state.hash, collections[name].table)
  }

  lemma ListKeepsAgreement(env: Env, c: Collection, l: PatchList, validate: bool)
    requires Agrees(env.prims.expand, c.state.hash, c.table)
    requires l.snapshot.Some? ==> c == EMPTY_COLLECTION && DistinctIndexes(AsSets(l.snapshot.value.records))
    ensures var r := ApplyList(env, c, l, validate).collection;
            Agrees(env.prims.expand, r.state.hash, r.table)
  {
    hide Agrees, ApplyPatches, ApplySnapshot, Displaced;
    match l.snapshot
    case None =>
      PatchesKeepAgreement(env, l.name, c, l.patches, validate);
    case Some(s) =>
      var r := ApplySnapshot(env, l.name, c, s, validate);
      if r.Ok? {
        SnapshotAgreesIff(env, l.name, c, s, validate);
        NothingSums(env.prims.expand);
        PatchesKeepAgreement(env, l.name, r.value.0, l.patches, validate);
      }
  }

  lemma {:induction false} PagesKeepAgreement(env: Env, name: Bytes, c: Collection, wantSnapshot: bool,
                                              pages: seq<Page>)
    requires Agrees(env.prims.expand, c.state.hash, c.table)
    requires wantSnapshot && c.state == INITIAL_STATE ==> c == EMPTY_COLLECTION
    requires HonestEvent(env, Sync(name, false, false, pages))
    ensures var r := SyncPages(env, name, c, wantSnapshot, pages).collection;
            Agrees(env.prims.expand, r.state.hash, r.table)
    decreases pages
  {
    if pages != [] && RefusePage(c, wantSnapshot, pages[0]).None? {
      var r := ApplyList(env, c, ListOf(name, pages[0]), true);
      ListKeepsAgreement(env, c, ListOf(name, pages[0]), true);
      hide ApplyList, Agrees;
      if r.error.None? && pages[0].hasMore {
        PagesKeepAgreement(env, name, r.collection, false, pages[1..]);
      }
    }
  }

  lemma EventKeepsAgreement(env: Env, collections: map<Bytes, Collection>, e: Event)
    requires AllAgree(env.prims.expand, collections) && HonestEvent(env, e)
    ensures AllAgree(env.prims.expand, AfterEvent(env, collections, e))
  {
    hide Agrees, SyncPages, Recovered, RecoverAll, DistinctMACs, HashSumsRecords;
    match e
    case Sync(name, fullSync, onlyIfNotSynced, pages) =>
      var start := BeginSync(collections, name, fullSync, onlyIfNotSynced);
      if start.Start? {
        EmptyAgrees(env.prims.expand);
        PagesKeepAgreement(env, name, start.collection, start.fullSync, pages);
      }
    case Recover(r) =>
      if Recovered(env, r).Ok? {
        RecoveredHash(env, r);
        RecoveryAgreesIff(env, r);
      }
  }

  lemma RecoveredHash(env: Env, r: Recovery)
    requires Recovered(env, r).Ok?
    ensures |r.hash| == HASH_SIZE && RecoverAll(env, r.records, r.version).Ok?
    ensures Recovered(env, r).value.state == HashState(r.version, r.hash)
  {
  }

  /** From an empty store, after any run of synchronisations and recoveries, every hash is the sum of its table. */
  lemma {:induction false} EveryRunAgrees(env: Env, es: seq<Event>)
    requires forall i :: 0 <= i < |es| ==> HonestEvent(env, es[i])
    ensures AllAgree(env.prims.expand, AfterEvents(env, map[], es))
  {
    if es != [] {
      EveryRunAgrees(env, es[..|es| - 1]);
      EventKeepsAgreement(env, AfterEvents(env, map[], es[..|es| - 1]), es[|es| - 1]);
    }
  }

  /* ---------- What a run gets done ---------- */

  /** A complete answer that is applied without error is what the store holds afterwards. */
  lemma SyncPersists(env: Env, collections: map<Bytes, Collection>, name: Bytes, fullSync: bool, onlyIfNotSynced: bool,
                     pages: seq<Page>)
    requires BeginSync(collections, name, fullSync, onlyIfNotSynced).Start? && CompletePages(pages)
    requires var start := BeginSync(collections, name, fullSync, onlyIfNotSynced);
             RefusePage(start.collection, start.fullSync, pages[0]).None?
    ensures var start := BeginSync(collections, name, fullSync, onlyIfNotSynced).collection;
            var run := ApplyList(env, start, PatchList(name, false, AllPatches(pages), pages[0].snapshot), true);
            var after := AfterSync(env, collections, name, fullSync, onlyIfNotSynced, pages);
            && (run.applied > 0 ==> name in after && after[name] == run.collection)
            && after - {name} == collections - {name}
  {
    hide ApplyList, SyncPages;
    var start := BeginSync(collections, name, fullSync, onlyIfNotSynced);
    PagingIsTransparent(env, name, start.collection, start.fullSync, pages);
  }

  /**
   * Where a synchronisation starts: from nothing if asked to or if nothing is stored, otherwise from what is stored.
   */
  lemma WhereSyncStarts(collections: map<Bytes, Collection>, name: Bytes, fullSync: bool, onlyIfNotSynced: bool)
    ensures var start := BeginSync(collections, name, fullSync, onlyIfNotSynced);
            && (fullSync || name !in collections ==> start == Start(EMPTY_COLLECTION, true))
            && (!fullSync && name in collections && collections[name].state.version > 0 ==>
                  start == if onlyIfNotSynced then AlreadySynced else Start(collections[name], false))
            && (!fullSync && name in collections && collections[name].state.version == 0 ==>
                  start == Refuse(InvalidSavedVersion))
  {
  }

  /** A full synchronisation forgets what was stored: the outcome does not depend on it. */
  lemma FullSyncForgets(env: Env, cs: map<Bytes, Collection>, ds: map<Bytes, Collection>, name: Bytes, only: bool,
                        pages: seq<Page>)
    requires cs - {name} == ds - {name}
    ensures AfterSync(env, cs, name, true, only, pages) == AfterSync(env, ds, name, true, only, pages)
  {
    hide SyncPages;
  }

  /** A snapshot nobody asked for is refused, and so is one over a state that is not empty. */
  lemma UnwantedSnapshots(c: Collection, wantSnapshot: bool, p: Page)
    ensures RefusePage(c, wantSnapshot, p) ==
            if p.snapshot.None? then None
            else if !wantSnapshot then Some(UnexpectedSnapshot)
            else if c.state.version != 0 || c.state.hash != Zeros(HASH_SIZE) then Some(SnapshotOverState)
            else None
  {
  }

  /** A recovery that is newer than what is stored, and whose records open, is installed; any other changes nothing. */
  lemma RecoveryInstalls(env: Env, collections: map<Bytes, Collection>, r: Recovery)
    ensures var stored := if r.name in collections then collections[r.name].state.version else 0;
            AfterRecovery(env, collections, r) ==
              if Recovered(env, r).Ok? && stored < r.version && (r.name in collections ==> stored > 0)
              then collections[r.name := Recovered(env, r).value] else collections
  {
    hide RecoverAll;
  }

  /** The rows of a recovery: each record under the HMAC of its index with the index key, with the MAC it carries. */
  lemma {:induction false} RecoveredRows(env: Env, rs: seq<RecoveryRecord>, version: uint64, i: nat)
    requires RecoverAll(env, rs, version).Ok? && i < |rs|
    ensures |RecoverAll(env, rs, version).value| == |rs| && rs[i].keyID in env.keys
    ensures var m := RecoverAll(env, rs, version).value[i];
            && m.indexMAC == env.prims.hmac256(env.keys[rs[i].keyID].index, rs[i].value.index)
            && m.valueMAC == rs[i].mac && m.op == SET && m.keyID == rs[i].keyID && m.patchVersion == version
            && m.action == rs[i].value.value && m.version == rs[i].value.version
            && Some(m.index) == env.prims.unmarshalIndex(rs[i].value.index)
  {
    var n := |rs| - 1;
    if n > 0 {
      RecoveredRows(env, rs[..n], version, if i < n then i else 0);
    } else {
      assert RecoverAll(env, rs[..n], version) == Ok([]);
    }
  }

  /** A recovery is accepted exactly if its hash has 128 bytes, all its keys are known and all its indexes parse. */
  lemma {:induction false} RecoverableIff(env: Env, rs: seq<RecoveryRecord>, version: uint64)
    ensures RecoverAll(env, rs, version).Ok? <==>
            forall i :: 0 <= i < |rs| ==> rs[i].keyID in env.keys && env.prims.unmarshalIndex(rs[i].value.index).Some?
  {
    if rs != [] {
      var n := |rs| - 1;
      RecoverableIff(env, rs[..n], version);
      assert forall i :: 0 <= i < n ==> rs[..n][i] == rs[i];
    }
  }

  lemma RecoveredIff(env: Env, r: Recovery)
    ensures Recovered(env, r).Ok? <==> |r.hash| == 128 && RecoverAll(env, r.records, r.version).Ok?
    ensures Recovered(env, r).Ok? ==> Recovered(env, r).value.state == HashState(r.version, r.hash)
    ensures |r.hash| != 128 ==> Recovered(env, r) == Err(InvalidHashLength)
  {
    hide RecoverAll, PutAll;
  }

  /** A run goes on from where it stands. */
  lemma RunsGoOn(env: Env, collections: map<Bytes, Collection>, es: seq<Event>, e: Event)
    ensures AfterEvents(env, collections, es + [e]) == AfterEvent(env, AfterEvents(env, collections, es), e)
    ensures AfterEvents(env, collections, []) == collections
  {
    hide AfterEvent;
    assert (es + [e])[..|es + [e]| - 1] == es;
  }
}
