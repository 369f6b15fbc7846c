/**
 * Whole runs on the SQL store: what it shows is what the map store of AppStateSync holds, as long as it takes every
 * write; and the first write that it does not take loses agreement.
 */
module AppStateSqlRuns {
  import opened Bytes
  import opened LTHash
  import opened AppState
  import opened AppStateProcessor
  import opened AppStateSync
  import opened SqlMacs
  import opened AppStateSql

  /* ---------- Patches and pages on the SQL store ---------- */

  /** `stored` is false if a write was refused, which ends the run with version and hash already changed. */
  datatype SqlRun = SqlRun(collection: SqlCollection, applied: nat, mutations: seq<Mutation>, stored: bool,
                           error: Option<Error>)

  function Untouched(c: SqlCollection, e: Option<Error>): SqlRun
  {
    SqlRun(c, 0, [], true, e)
  }

  predicate GoesOn(r: SqlRun)
  {
    r.stored && r.error.None?
  }

  function AndThen(a: SqlRun, b: SqlRun): SqlRun
  {
    SqlRun(b.collection, a.applied + b.applied, a.mutations + b.mutations, b.stored, b.error)
  }

  /** What was accepted is written; if the write is refused, its mutations are not returned. */
  function AcceptedTurn(c: SqlCollection, accepted: (Collection, seq<Mutation>), ms: seq<SyncdMutation>): SqlRun
    requires WellSized(ms)
  {
    var w := PatchWrite(c, accepted.0.state, ms);
    SqlRun(w.collection, 1, if w.ok then accepted.1 else [], w.ok, None)
  }

  /** One turn of the loop over patches. */
  ghost function PatchTurn(env: Env, name: Bytes, c: SqlCollection, p: SyncdPatch): SqlRun
  {
    if !WellSized(p.mutations) then Untouched(c, Some(SliceOutOfRange)) else
      var r := ApplyPatch(env, name, Shown(c), p, true);
      if r.Err? then Untouched(c, Some(r.error)) else AcceptedTurn(c, r.value, p.mutations)
  }

  ghost function SnapshotTurn(env: Env, name: Bytes, c: SqlCollection, s: SyncdSnapshot): SqlRun
  {
    if !WellSized(AsSets(s.records)) then Untouched(c, Some(SliceOutOfRange)) else
      var r := ApplySnapshot(env, name, Shown(c), s, true);
      if r.Err? then Untouched(c, Some(r.error)) else AcceptedTurn(c, r.value, AsSets(s.records))
  }

  ghost function SqlPatches(env: Env, name: Bytes, c: SqlCollection, ps: seq<SyncdPatch>): SqlRun
    decreases ps
  {
    if ps == [] then Untouched(c, None) else
      var turn := PatchTurn(env, name, c, ps[0]);
      if GoesOn(turn) then AndThen(turn, SqlPatches(env, name, turn.collection, ps[1..])) else turn
  }

  ghost function SqlList(env: Env, c: SqlCollection, l: PatchList): SqlRun
  {
    match l.snapshot
    case None => SqlPatches(env, l.name, c, l.patches)
    case Some(s) =>
      var turn := SnapshotTurn(env, l.name, c, s);
      if GoesOn(turn) then AndThen(turn, SqlPatches(env, l.name, turn.collection, l.patches)) else turn
  }

  datatype SqlSyncRun = SqlSyncRun(collection: SqlCollection, applied: nat, mutations: seq<Mutation>, stored: bool,
                                   error: Option<SyncError>)

  function FromSqlRun(r: SqlRun): SqlSyncRun
  {
    SqlSyncRun(r.collection, r.applied, r.mutations, r.stored,
               if r.error.None? then None else Some(Decode(r.error.value)))
  }

  function AfterSqlRun(r: SqlRun, s: SqlSyncRun): SqlSyncRun
  {
    s.(applied := r.applied + s.applied, mutations := r.mutations + s.mutations)
  }

  ghost function SqlPages(env: Env, name: Bytes, c: SqlCollection, wantSnapshot: bool, pages: seq<Page>): SqlSyncRun
    decreases pages
  {
    if pages == [] then SqlSyncRun(c, 0, [], true, Some(FetchFailed)) else
      var refusal := RefusePage(Shown(c), wantSnapshot, pages[0]);
      if refusal.Some? then SqlSyncRun(c, 0, [], true, refusal) else
        var r := SqlList(env, c, ListOf(name, pages[0]));
        if GoesOn(r) && pages[0].hasMore
        then AfterSqlRun(r, SqlPages(env, name, r.collection, false, pages[1..]))
        else FromSqlRun(r)
  }

  /* ---------- Writes that are taken ---------- */

  /** The store takes the write of every patch that is accepted. */
  ghost predicate TakesPatches(env: Env, name: Bytes, c: SqlCollection, ps: seq<SyncdPatch>)
    decreases ps
  {
    ps != [] && WellSized(ps[0].mutations) ==>
      var r := ApplyPatch(env, name, Shown(c), ps[0], true);
      r.Ok? ==>
        && TakesPatch(c, r.value.0.state.version, ps[0].mutations)
        && TakesPatches(env, name, PatchWrite(c, r.value.0.state, ps[0].mutations).collection, ps[1..])
  }

  ghost predicate TakesList(env: Env, c: SqlCollection, l: PatchList)
  {
    match l.snapshot
    case None => TakesPatches(env, l.name, c, l.patches)
    case Some(s) =>
      WellSized(AsSets(s.records)) ==>
        var r := ApplySnapshot(env, l.name, Shown(c), s, true);
        r.Ok? ==>
          && TakesPatch(c, r.value.0.state.version, AsSets(s.records))
          && TakesPatches(env, l.name, PatchWrite(c, r.value.0.state, AsSets(s.records)).collection, l.patches)
  }

  ghost predicate TakesPages(env: Env, name: Bytes, c: SqlCollection, wantSnapshot: bool, pages: seq<Page>)
    decreases pages
  {
    pages != [] && RefusePage(Shown(c), wantSnapshot, pages[0]).None? ==>
      var r := SqlList(env, c, ListOf(name, pages[0]));
      && TakesList(env, c, ListOf(name, pages[0]))
      && (r.error.None? && pages[0].hasMore ==> TakesPages(env, name, r.collection, false, pages[1..]))
  }

  /** The run on the SQL store shows the run on the map store. */
  ghost predicate Shows(r: SqlRun, m: Run)
  {
    && r.stored && Shown(r.collection) == m.collection && r.applied == m.applied
    && r.mutations == m.mutations && r.error == m.error
  }

  lemma AppliedPatch(env: Env, name: Bytes, c: Collection, p: SyncdPatch)
    requires ApplyPatch(env, name, c, p, true).Ok?
    ensures var r := ApplyPatch(env, name, c, p, true).value.0;
            && WellSized(p.mutations) && DecodeAll(env, p.mutations, true, p.version).Ok?
            && r.state.version == p.version && r.table == ApplyMutations(c.table, p.mutations)
  {
  }

  lemma AppliedSnapshot(env: Env, name: Bytes, c: Collection, s: SyncdSnapshot)
    requires ApplySnapshot(env, name, c, s, true).Ok?
    ensures var r := ApplySnapshot(env, name, c, s, true).value.0;
            && WellSized(AsSets(s.records)) && DecodeAll(env, AsSets(s.records), true, s.version).Ok?
            && r.state.version == s.version && r.table == ApplyMutations(c.table, AsSets(s.records))
  {
  }

  lemma NotWellSized(env: Env, name: Bytes, c: Collection, p: SyncdPatch, s: SyncdSnapshot)
    ensures !WellSized(p.mutations) ==> ApplyPatch(env, name, c, p, true) == Err(SliceOutOfRange)
    ensures !WellSized(AsSets(s.records)) ==> ApplySnapshot(env, name, c, s, true) == Err(SliceOutOfRange)
  {
  }

  lemma {:induction false} PatchesShow(env: Env, name: Bytes, c: SqlCollection, ps: seq<SyncdPatch>)
    requires TakesPatches(env, name, c, ps)
    ensures Shows(SqlPatches(env, name, c, ps), ApplyPatches(env, name, Shown(c), ps, true))
    decreases ps
  {
    hide ApplyPatch, Seen, PatchWrite, TakesPatch;
    if ps != [] {
      var r := ApplyPatch(env, name, Shown(c), ps[0], true);
      NotWellSized(env, name, Shown(c), ps[0], SyncdSnapshot(0, [], [], []));
      if r.Ok? {
        AppliedPatch(env, name, Shown(c), ps[0]);
        TakenShows(c, r.value.0, ps[0].mutations);
        PatchesShow(env, name, PatchWrite(c, r.value.0.state, ps[0].mutations).collection, ps[1..]);
      }
    }
  }

  lemma TakenShows(c: SqlCollection, next: Collection, ms: seq<SyncdMutation>)
    requires WellSized(ms) && TakesPatch(c, next.state.version, ms) && next.table == ApplyMutations(Seen(c.rows), ms)
    ensures var w := PatchWrite(c, next.state, ms); w.ok && Shown(w.collection) == next
  {
    hide Seen, Insert, Delete, ApplyMutations, AddedOf, RemovedOf, TakesPatch;
    WriteIsTakenIff(c, next.state, ms);
  }

  lemma ListShows(env: Env, c: SqlCollection, l: PatchList)
    requires TakesList(env, c, l)
    ensures Shows(SqlList(env, c, l), ApplyList(env, Shown(c), l, true))
  {
    hide ApplySnapshot, ApplyPatches, SqlPatches, Seen, PatchWrite, TakesPatches, TakesPatch;
    match l.snapshot
    case None => PatchesShow(env, l.name, c, l.patches);
    case Some(s) =>
      var r := ApplySnapshot(env, l.name, Shown(c), s, true);
      NotWellSized(env, l.name, Shown(c), SyncdPatch(0, [], [], [], []), s);
      if r.Ok? {
        AppliedSnapshot(env, l.name, Shown(c), s);
        TakenShows(c, r.value.0, AsSets(s.records));
        PatchesShow(env, l.name, PatchWrite(c, r.value.0.state, AsSets(s.records)).collection, l.patches);
      }
  }

  ghost predicate ShowsSync(r: SqlSyncRun, m: SyncRun)
  {
    && r.stored && Shown(r.collection) == m.collection && r.applied == m.applied
    && r.mutations == m.mutations && r.error == m.error
  }

  lemma {:induction false} PagesShow(env: Env, name: Bytes, c: SqlCollection, wantSnapshot: bool, pages: seq<Page>)
    requires TakesPages(env, name, c, wantSnapshot, pages)
    ensures ShowsSync(SqlPages(env, name, c, wantSnapshot, pages), SyncPages(env, name, Shown(c), wantSnapshot, pages))
    decreases pages
  {
    hide SqlList, ApplyList, Seen, TakesList;
    if pages != [] && RefusePage(Shown(c), wantSnapshot, pages[0]).None? {
      ListShows(env, c, ListOf(name, pages[0]));
      var r := SqlList(env, c, ListOf(name, pages[0]));
      if r.error.None? && pages[0].hasMore {
        PagesShow(env, name, r.collection, false, pages[1..]);
      }
    }
  }

  /* ---------- The first write that is not taken ---------- */

  /** The patches before it are stored as on the map store; it is accepted, and its write is not taken. */
  lemma {:induction false} FirstUntaken(env: Env, name: Bytes, c: SqlCollection, ps: seq<SyncdPatch>) returns (k: nat)
    requires !TakesPatches(env, name, c, ps)
    ensures k < |ps| && TakesPatches(env, name, c, ps[..k])
    ensures var before := SqlPatches(env, name, c, ps[..k]);
            && GoesOn(before)
            && WellSized(ps[k].mutations) && ApplyPatch(env, name, Shown(before.collection), ps[k], true).Ok?
            && !TakesPatch(before.collection, ps[k].version, ps[k].mutations)
    decreases ps
  {
    hide ApplyPatch, Seen, PatchWrite, TakesPatch;
    var r := ApplyPatch(env, name, Shown(c), ps[0], true);
    AppliedPatch(env, name, Shown(c), ps[0]);
    if !TakesPatch(c, ps[0].version, ps[0].mutations) {
      k := 0;
    } else {
      var next := PatchWrite(c, r.value.0.state, ps[0].mutations).collection;
      TakenShows(c, r.value.0, ps[0].mutations);
      var i := FirstUntaken(env, name, next, ps[1..]);
      k := i + 1;
      assert ps[..k][1..] == ps[1..][..i] && ps[..k][0] == ps[0];
    }
  }

  /**
   * In a list of patches, the first accepted one whose write the store does not take, if its values are fresh, leaves
   * a hash that under some expansion is not the sum of the table, though the patches before it were all stored.
   */
  lemma FirstUntakenBreaks(env: Env, name: Bytes, c: SqlCollection, ps: seq<SyncdPatch>)
    returns (k: nat, expand: Expander, h: Hash)
    requires !TakesPatches(env, name, c, ps)
    ensures k < |ps| && TakesPatches(env, name, c, ps[..k]) && WellSized(ps[k].mutations)
    ensures var before := SqlPatches(env, name, c, ps[..k]).collection;
            var t, ms := Seen(before.rows), ps[k].mutations;
            ApplyPatch(env, name, Shown(before), ps[k], true).Ok? &&
            var w := PatchWrite(before, ApplyPatch(env, name, Shown(before), ps[k], true).value.0.state, ms);
            FreshMACs(t, AddedOf(ms)) ==>
              Agrees(expand, h, t) && !Agrees(expand, SequentialHash(expand, h, t, ms), Seen(w.collection.rows))
  {
    hide ApplyPatch, Seen, PatchWrite, TakesPatch, SqlPatches, TakesPatches, FreshMACs, Agrees, SequentialHash, AddedOf;
    k := FirstUntaken(env, name, c, ps);
    var before, ms := SqlPatches(env, name, c, ps[..k]).collection, ps[k].mutations;
    AppliedPatch(env, name, Shown(before), ps[k]);
    var state := ApplyPatch(env, name, Shown(before), ps[k], true).value.0.state;
    expand, h := _ => Zeros(HASH_SIZE), Zeros(HASH_SIZE);
    if FreshMACs(Seen(before.rows), AddedOf(ms)) {
      expand, h := UntakenBreaks(before, state, ms);
    }
  }

  /* ---------- Every run ---------- */

  type SqlCollections = map<Bytes, SqlCollection>

  ghost function ShownAll(cs: SqlCollections): map<Bytes, Collection>
  {
    map name | name in cs :: Shown(cs[name])
  }

  const EMPTY_SQL := SqlCollection(INITIAL_STATE, map[])

  function SqlStart(cs: SqlCollections, name: Bytes, fullSync: bool): SqlCollection
  {
    if name !in cs || fullSync then EMPTY_SQL else cs[name]
  }

  ghost function SqlAfterSync(env: Env, cs: SqlCollections, name: Bytes, fullSync: bool, onlyIfNotSynced: bool,
                              pages: seq<Page>): SqlCollections
  {
    var reset := if fullSync then cs - {name} else cs;
    var start := BeginSync(ShownAll(cs), name, fullSync, onlyIfNotSynced);
    if !start.Start? then reset else
      var r := SqlPages(env, name, SqlStart(cs, name, fullSync), start.fullSync, pages);
      if r.applied > 0 then reset[name := r.collection] else reset
  }

  function RecoveryWrite(r: Recovery, ms: seq<Mutation>): Written
    requires |r.hash| == HASH_SIZE
  {
    SqlWrite(EMPTY_SQL, HashState(r.version, r.hash), [], MacsOf(ms))
  }

  /** A recovery is written if it is newer than what is stored and all its records open. */
  predicate RecoveryApplies(env: Env, cs: SqlCollections, r: Recovery)
  {
    var current := if r.name in cs then cs[r.name].state.version else 0;
    !(r.name in cs && current == 0) && current < r.version && Recovered(env, r).Ok?
  }

  function SqlAfterRecovery(env: Env, cs: SqlCollections, r: Recovery): SqlCollections
  {
    if RecoveryApplies(env, cs, r)
    then cs[r.name := RecoveryWrite(r, RecoverAll(env, r.records, r.version).value).collection]
    else cs
  }

  ghost function SqlAfterEvent(env: Env, cs: SqlCollections, e: Event): SqlCollections
  {
    match e
    case Sync(name, fullSync, onlyIfNotSynced, pages) => SqlAfterSync(env, cs, name, fullSync, onlyIfNotSynced, pages)
    case Recover(r) => SqlAfterRecovery(env, cs, r)
  }

  ghost function SqlAfterEvents(env: Env, cs: SqlCollections, es: seq<Event>): SqlCollections
  {
    if es == [] then cs else SqlAfterEvent(env, SqlAfterEvents(env, cs, es[..|es| - 1]), es[|es| - 1])
  }

  /** The store takes every write of the event, in the state it meets. */
  ghost predicate TakesEvent(env: Env, cs: SqlCollections, e: Event)
  {
    match e
    case Sync(name, fullSync, onlyIfNotSynced, pages) =>
      var start := BeginSync(ShownAll(cs), name, fullSync, onlyIfNotSynced);
      start.Start? ==> TakesPages(env, name, SqlStart(cs, name, fullSync), start.fullSync, pages)
    case Recover(r) =>
      RecoveryApplies(env, cs, r) ==>
        var rows := MacsOf(RecoverAll(env, r.records, r.version).value);
        DistinctMACs(rows) && AllFit(rows)
  }

  ghost predicate TakesRun(env: Env, es: seq<Event>)
  {
    forall i :: 0 <= i < |es| ==> TakesEvent(env, SqlAfterEvents(env, map[], es[..i]), es[i])
  }

  lemma NothingShown()
    ensures Shown(EMPTY_SQL) == EMPTY_COLLECTION
  {
    NothingSeen();
  }

  lemma ShownPut(cs: SqlCollections, name: Bytes, c: SqlCollection)
    ensures ShownAll(cs[name := c]) == ShownAll(cs)[name := Shown(c)]
    ensures ShownAll(cs - {name}) == ShownAll(cs) - {name}
  {
    hide Shown;
  }

  lemma SyncShows(env: Env, cs: SqlCollections, name: Bytes, fullSync: bool, onlyIfNotSynced: bool, pages: seq<Page>)
    requires TakesEvent(env, cs, Sync(name, fullSync, onlyIfNotSynced, pages))
    ensures ShownAll(SqlAfterSync(env, cs, name, fullSync, onlyIfNotSynced, pages))
         == AfterSync(env, ShownAll(cs), name, fullSync, onlyIfNotSynced, pages)
  {
    hide SqlPages, SyncPages, TakesPages, Seen;
    NothingShown();
    var start := BeginSync(ShownAll(cs), name, fullSync, onlyIfNotSynced);
    var c := SqlStart(cs, name, fullSync);
    ShownPut(cs, name, c);
    if start.Start? {
      assert start.collection == Shown(c);
      PagesShow(env, name, c, start.fullSync, pages);
      var r := SqlPages(env, name, c, start.fullSync, pages);
      ShownPut(cs, name, r.collection);
      ShownPut(cs - {name}, name, r.collection);
    }
  }

  /** The first rows of a collection: shown if they are distinct and fit, otherwise refused altogether. */
  lemma RecoveryWritten(env: Env, r: Recovery)
    requires Recovered(env, r).Ok?
    ensures |r.hash| == HASH_SIZE && RecoverAll(env, r.records, r.version).Ok?
    ensures var macs := MacsOf(RecoverAll(env, r.records, r.version).value);
            var w := RecoveryWrite(r, RecoverAll(env, r.records, r.version).value);
            && (w.ok <==> DistinctMACs(macs) && AllFit(macs))
            && w.collection.state == HashState(r.version, r.hash)
            && Seen(w.collection.rows) == if w.ok then Recovered(env, r).value.table else map[]
  {
    hide PutAll, RecoverAll, Seen, Insert, Delete, AllFit, DistinctMACs;
    NothingSeen();
    InsertFirst(r.version, MacsOf(RecoverAll(env, r.records, r.version).value));
  }

  lemma EventShows(env: Env, cs: SqlCollections, e: Event)
    requires TakesEvent(env, cs, e)
    ensures ShownAll(SqlAfterEvent(env, cs, e)) == AfterEvent(env, ShownAll(cs), e)
  {
    hide SqlAfterSync, AfterSync, SqlAfterRecovery, AfterRecovery, TakesEvent;
    match e
    case Sync(name, fullSync, onlyIfNotSynced, pages) => SyncShows(env, cs, name, fullSync, onlyIfNotSynced, pages);
    case Recover(r) => RecoveryShows(env, cs, r);
  }

  lemma RecoveryShows(env: Env, cs: SqlCollections, r: Recovery)
    requires TakesEvent(env, cs, Recover(r))
    ensures ShownAll(SqlAfterRecovery(env, cs, r)) == AfterRecovery(env, ShownAll(cs), r)
  {
    hide Recovered, RecoverAll, RecoveryWrite, Seen, AllFit, DistinctMACs, SqlAfterSync, TakesPages, BeginSync;
    if RecoveryApplies(env, cs, r) {
      RecoveryWritten(env, r);
      RecoveredHash(env, r);
      ShownPut(cs, r.name, RecoveryWrite(r, RecoverAll(env, r.records, r.version).value).collection);
    }
  }

  /** On runs whose writes the SQL store takes, it shows exactly what the map store holds. */
  lemma {:induction false} SqlRunIsMapRun(env: Env, es: seq<Event>)
    requires TakesRun(env, es)
    ensures ShownAll(SqlAfterEvents(env, map[], es)) == AfterEvents(env, map[], es)
  {
    hide SqlAfterEvent, AfterEvent, TakesEvent, Shown;
    if es != [] {
      var n := |es| - 1;
      forall i | 0 <= i < n ensures TakesEvent(env, SqlAfterEvents(env, map[], es[..n][..i]), es[..n][i]) {
        assert es[..n][..i] == es[..i];
      }
      SqlRunIsMapRun(env, es[..n]);
      EventShows(env, SqlAfterEvents(env, map[], es[..n]), es[n]);
    }
  }

  /**
   * From an empty SQL store, after any run of synchronisations and recoveries whose writes it takes, every persisted
   * hash is the sum of the rows that lookups show.
   */
  lemma EverySqlRunAgrees(env: Env, es: seq<Event>)
    requires TakesRun(env, es) && forall i :: 0 <= i < |es| ==> HonestEvent(env, es[i])
    ensures forall name :: name in SqlAfterEvents(env, map[], es) ==>
              var c := SqlAfterEvents(env, map[], es)[name];
              Agrees(env.prims.expand, c.state.hash, Seen(c.rows))
  {
    hide HonestEvent, TakesRun, SqlAfterEvents, AfterEvents, Agrees, Seen;
    SqlRunIsMapRun(env, es);
    EveryRunAgrees(env, es);
    var cs := SqlAfterEvents(env, map[], es);
    forall name | name in cs ensures Agrees(env.prims.expand, cs[name].state.hash, Seen(cs[name].rows)) {
      assert ShownAll(cs)[name] == Shown(cs[name]);
    }
  }

  /* ---------- Recoveries ---------- */

  lemma AgreesWithNothing(expand: Expander, h: Hash)
    ensures Agrees(expand, h, map[]) <==> h == Zeros(HASH_SIZE)
  {
    EmptyAgrees(expand);
    if Agrees(expand, h, map[]) {
      OneHash(expand, h, Zeros(HASH_SIZE), map[]);
    }
  }

  /**
   * Exactly when a recovery that is written leaves hash and table in agreement: if its rows are taken, when the
   * supplied hash sums the records; if they are refused, only when the supplied hash is that of an empty collection.
   */
  lemma RecoveryWriteAgreesIff(env: Env, r: Recovery)
    requires Recovered(env, r).Ok?
    ensures |r.hash| == HASH_SIZE && RecoverAll(env, r.records, r.version).Ok?
    ensures var ms := RecoverAll(env, r.records, r.version).value;
            Agrees(env.prims.expand, r.hash, Seen(RecoveryWrite(r, ms).collection.rows)) <==>
              if DistinctMACs(MacsOf(ms)) && AllFit(MacsOf(ms)) then HashSumsRecords(env.prims.expand, r.hash, ms)
              else r.hash == Zeros(HASH_SIZE)
  {
    hide PutAll, RecoverAll, Seen, AllFit, DistinctMACs, Agrees, Recovered, RecoveryWrite, HashSumsRecords;
    RecoveryWritten(env, r);
    var macs := MacsOf(RecoverAll(env, r.records, r.version).value);
    if DistinctMACs(macs) && AllFit(macs) {
      RecoveryAgreesIff(env, r);
    } else {
      AgreesWithNothing(env.prims.expand, r.hash);
    }
  }
}
