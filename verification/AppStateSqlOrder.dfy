/**
 * A condition that can be checked on the patches themselves: versions that rise, and no index set twice. The SQL
 * store then takes every write.
 */
module AppStateSqlOrder {
  import opened Bytes
  import opened LTHash
  import opened AppState
  import opened AppStateProcessor
  import opened AppStateSync
  import opened SqlMacs
  import opened AppStateSql
  import opened AppStateSqlRuns

  /** Versions rise, and no patch sets an index twice without removing it after the first time. */
  ghost predicate PatchesOrderly(version: nat, ps: seq<SyncdPatch>)
    decreases ps
  {
    ps != [] ==> version < ps[0].version && SetOnce(ps[0].mutations) && PatchesOrderly(ps[0].version, ps[1..])
  }

  function LastVersion(version: nat, ps: seq<SyncdPatch>): nat
    decreases ps
  {
    if ps == [] then version else LastVersion(ps[0].version, ps[1..])
  }

  function BaseVersion(version: nat, p: Page): nat
  {
    if p.snapshot.Some? then p.snapshot.value.version else version
  }

  ghost predicate PageOrderly(version: nat, p: Page)
  {
    && (p.snapshot.Some? ==> DistinctIndexes(AsSets(p.snapshot.value.records)))
    && PatchesOrderly(BaseVersion(version, p), p.patches)
  }

  ghost predicate PagesOrderly(version: nat, pages: seq<Page>)
    decreases pages
  {
    pages != [] ==>
      PageOrderly(version, pages[0]) &&
        PagesOrderly(LastVersion(BaseVersion(version, pages[0]), pages[0].patches), pages[1..])
  }

  /** No row is newer than the collection. */
  ghost predicate UpToDate(c: SqlCollection)
  {
    Below(c.rows, c.state.version + 1)
  }

  lemma {:induction false} OpenedFit(env: Env, ms: seq<SyncdMutation>, version: uint64)
    requires WellSized(ms) && DecodeAll(env, ms, true, version).Ok?
    ensures AllFit(AddedOf(ms))
  {
    hide DecodeMutation;
    if ms != [] {
      var n := |ms| - 1;
      OpenedFit(env, ms[..n], version);
      DecodedMACs(env, ms[n], true);
      if ms[n].op.REMOVE? {
        WithoutIndexFits(AddedOf(ms[..n]), ms[n].record.index);
      }
    }
  }

  lemma {:induction false} WithoutIndexFits(macs: seq<IndexAndValue>, k: Bytes)
    requires AllFit(macs)
    ensures AllFit(WithoutIndex(macs, k))
  {
    if macs != [] {
      WithoutIndexFits(macs[..|macs| - 1], k);
    }
  }

  /** Mutations that were opened are taken if they come with a newer version and set no index twice. */
  lemma MutationsTaken(env: Env, c: SqlCollection, state: HashState, ms: seq<SyncdMutation>)
    requires WellSized(ms) && DecodeAll(env, ms, true, state.version).Ok? && SetOnce(ms) && Below(c.rows, state.version)
    ensures TakesPatch(c, state.version, ms) && UpToDate(PatchWrite(c, state, ms).collection)
  {
    var kept, added := Delete(c.rows, RemovedOf(ms)), AddedOf(ms);
    assert Below(kept, state.version);
    OpenedFit(env, ms, state.version);
    DistinctIffSetOnce(ms);
    assert Storable(kept, state.version, added);
    StorableIsTaken(kept, state.version, added);
    InsertSucceedsIff(kept, state.version, added);
    hide Insert, AddedOf, RemovedOf, DecodeAll, SetOnce, Storable, Takes;
  }

  lemma {:induction false} PatchesTaken(env: Env, name: Bytes, c: SqlCollection, ps: seq<SyncdPatch>)
    requires UpToDate(c) && PatchesOrderly(c.state.version, ps)
    ensures TakesPatches(env, name, c, ps) && UpToDate(SqlPatches(env, name, c, ps).collection)
    ensures var r := SqlPatches(env, name, c, ps);
            r.error.None? ==> r.collection.state.version == LastVersion(c.state.version, ps)
    decreases ps
  {
    hide ApplyPatch, Seen, PatchWrite, SetOnce, TakesPatch, DecodeAll;
    if ps != [] && ApplyPatch(env, name, Shown(c), ps[0], true).Ok? {
      var next := ApplyPatch(env, name, Shown(c), ps[0], true).value.0;
      AppliedPatch(env, name, Shown(c), ps[0]);
      assert Below(c.rows, ps[0].version);
      MutationsTaken(env, c, next.state, ps[0].mutations);
      TakenShows(c, next, ps[0].mutations);
      PatchesTaken(env, name, PatchWrite(c, next.state, ps[0].mutations).collection, ps[1..]);
    }
  }

  lemma DistinctIsSetOnce(ms: seq<SyncdMutation>)
    requires DistinctIndexes(ms)
    ensures SetOnce(ms)
  {
  }

  lemma ListTaken(env: Env, c: SqlCollection, name: Bytes, p: Page)
    requires UpToDate(c) && PageOrderly(c.state.version, p) && (p.snapshot.Some? ==> c.rows == map[])
    ensures TakesList(env, c, ListOf(name, p)) && UpToDate(SqlList(env, c, ListOf(name, p)).collection)
    ensures var r := SqlList(env, c, ListOf(name, p));
            r.error.None? ==> r.collection.state.version == LastVersion(BaseVersion(c.state.version, p), p.patches)
  {
    hide ApplySnapshot, SqlPatches, Seen, PatchWrite, PatchesOrderly, TakesPatches, TakesPatch, DecodeAll, SetOnce;
    match p.snapshot
    case None => PatchesTaken(env, name, c, p.patches);
    case Some(s) =>
      var r := ApplySnapshot(env, name, Shown(c), s, true);
      if r.Ok? {
        AppliedSnapshot(env, name, Shown(c), s);
        DistinctIsSetOnce(AsSets(s.records));
        MutationsTaken(env, c, r.value.0.state, AsSets(s.records));
        TakenShows(c, r.value.0, AsSets(s.records));
        PatchesTaken(env, name, PatchWrite(c, r.value.0.state, AsSets(s.records)).collection, p.patches);
      }
  }

  lemma {:induction false} PagesTaken(env: Env, name: Bytes, c: SqlCollection, wantSnapshot: bool, pages: seq<Page>)
    requires UpToDate(c) && PagesOrderly(c.state.version, pages)
    requires wantSnapshot && c.state == INITIAL_STATE ==> c.rows == map[]
    ensures TakesPages(env, name, c, wantSnapshot, pages)
    ensures UpToDate(SqlPages(env, name, c, wantSnapshot, pages).collection)
    decreases pages
  {
    hide SqlList, Seen, PageOrderly, UpToDate, TakesList;
    if pages != [] && RefusePage(Shown(c), wantSnapshot, pages[0]).None? {
      ListTaken(env, c, name, pages[0]);
      var r := SqlList(env, c, ListOf(name, pages[0]));
      if r.error.None? && pages[0].hasMore {
        PagesTaken(env, name, r.collection, false, pages[1..]);
      }
    }
  }

  /** Pages whose patches are orderly from the stored version on; a recovery with distinct indexes and 32-byte MACs. */
  ghost predicate EventOrderly(env: Env, cs: SqlCollections, e: Event)
  {
    match e
    case Sync(name, fullSync, _, pages) => PagesOrderly(SqlStart(cs, name, fullSync).state.version, pages)
    case Recover(r) =>
      Recovered(env, r).Ok? ==>
        var macs := MacsOf(RecoverAll(env, r.records, r.version).value);
        DistinctMACs(macs) && AllFit(macs)
  }

  ghost predicate AllUpToDate(cs: SqlCollections)
  {
    forall name :: name in cs ==> UpToDate(cs[name])
  }

  lemma RecoveryUpToDate(env: Env, r: Recovery)
    requires Recovered(env, r).Ok?
    ensures |r.hash| == HASH_SIZE && RecoverAll(env, r.records, r.version).Ok?
    ensures UpToDate(RecoveryWrite(r, RecoverAll(env, r.records, r.version).value).collection)
  {
    hide RecoverAll, Insert;
    NothingSeen();
    InsertSucceedsIff(map[], r.version, MacsOf(RecoverAll(env, r.records, r.version).value));
  }

  lemma EventTaken(env: Env, cs: SqlCollections, e: Event)
    requires AllUpToDate(cs) && EventOrderly(env, cs, e)
    ensures TakesEvent(env, cs, e) && AllUpToDate(SqlAfterEvent(env, cs, e))
  {
    hide SqlPages, TakesPages, PagesOrderly, UpToDate, Seen, Recovered, RecoverAll, RecoveryWrite, AllFit, DistinctMACs;
    match e
    case Sync(name, fullSync, onlyIfNotSynced, pages) =>
      var start := BeginSync(ShownAll(cs), name, fullSync, onlyIfNotSynced);
      if start.Start? {
        EmptyUpToDate();
        PagesTaken(env, name, SqlStart(cs, name, fullSync), start.fullSync, pages);
      }
    case Recover(r) =>
      if RecoveryApplies(env, cs, r) {
        RecoveryUpToDate(env, r);
      }
  }

  lemma EmptyUpToDate()
    ensures UpToDate(EMPTY_SQL)
  {
  }

  /** The store takes every write of an orderly run. */
  lemma {:induction false} OrderlyRunIsTaken(env: Env, es: seq<Event>)
    requires forall i :: 0 <= i < |es| ==> EventOrderly(env, SqlAfterEvents(env, map[], es[..i]), es[i])
    ensures TakesRun(env, es) && AllUpToDate(SqlAfterEvents(env, map[], es))
  {
    hide SqlAfterEvent, TakesEvent, EventOrderly;
    if es != [] {
      var n := |es| - 1;
      forall i | 0 <= i < n ensures EventOrderly(env, SqlAfterEvents(env, map[], es[..n][..i]), es[..n][i]) {
        assert es[..n][..i] == es[..i];
      }
      OrderlyRunIsTaken(env, es[..n]);
      EventTaken(env, SqlAfterEvents(env, map[], es[..n]), es[n]);
      forall i | 0 <= i < |es| ensures TakesEvent(env, SqlAfterEvents(env, map[], es[..i]), es[i]) {
        if i < n {
          assert es[..n][..i] == es[..i] && es[..n][i] == es[i];
        }
      }
    }
  }
}
