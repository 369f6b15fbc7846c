/**
 * The session write-back cache (store/sessioncache.go, store/signal.go), against direct access to the session store.
 * Records are handed out by reference: a caller that changes one it has loaded changes the cached one too.
 */
module SessionCache {
  import opened Bytes

  type Address = string

  /** The record type of libsignal with its serialiser; `deserialize` fails on bytes that are no record. */
  datatype Codec<!R> = Codec(blank: R, serialize: R -> Bytes, deserialize: Bytes -> Option<R>)

  ghost predicate Lawful<R(!new)>(codec: Codec<R>)
  {
    forall r :: codec.deserialize(codec.serialize(r)) == Some(r)
  }

  type SessionRows = map<Address, Bytes>

  datatype Entry<R> = Entry(dirty: bool, found: bool, state: R)

  /** The store and the cache of one context. */
  datatype World<R> = World(rows: SessionRows, cache: map<Address, Entry<R>>)

  /**
   * What a user of the sessions does: load, store a record, load one and change it in place and then perhaps store
   * it (`saves`), and flush the cache.
   */
  datatype Op<!R> = Load(addr: Address)
                  | Store(addr: Address, record: R)
                  | Use(addr: Address, change: R -> R, saves: bool)
                  | Flush

  /* ---------- Direct access ---------- */

  function ReadRow<R>(codec: Codec<R>, rows: SessionRows, a: Address): Option<R>
  {
    if a in rows then codec.deserialize(rows[a]) else Some(codec.blank)
  }

  /** The rows afterwards and what the user sees: the loaded record, or that it cannot be read. */
  function DirectStep<R>(codec: Codec<R>, rows: SessionRows, op: Op<R>): (SessionRows, seq<Option<R>>)
  {
    match op
    case Load(a) => (rows, [ReadRow(codec, rows, a)])
    case Store(a, r) => (rows[a := codec.serialize(r)], [])
    case Use(a, change, saves) =>
      var r := ReadRow(codec, rows, a);
      (if r.Some? && saves then rows[a := codec.serialize(change(r.value))] else rows, [r])
    case Flush => (rows, [])
  }

  function Direct<R>(codec: Codec<R>, rows: SessionRows, ops: seq<Op<R>>): (SessionRows, seq<Option<R>>)
    decreases |ops|
  {
    if ops == [] then (rows, []) else
      var (next, seen) := DirectStep(codec, rows, ops[0]);
      var (last, more) := Direct(codec, next, ops[1..]);
      (last, seen + more)
  }

  /* ---------- Through the cache ---------- */

  function LoadCached<R>(codec: Codec<R>, w: World<R>, a: Address): Option<R>
  {
    if a in w.cache then Some(w.cache[a].state) else ReadRow(codec, w.rows, a)
  }

  function DirtyRows<R>(codec: Codec<R>, w: World<R>): SessionRows
  {
    map a | a in w.cache && w.cache[a].dirty :: codec.serialize(w.cache[a].state)
  }

  function StoreCached<R>(w: World<R>, a: Address, r: R): World<R>
  {
    w.(cache := w.cache[a := Entry(true, true, r)])
  }

  /** A loaded record is changed in place; if it came from the cache, so is the cached one. */
  function Change<R>(w: World<R>, a: Address, r: R): World<R>
  {
    if a in w.cache then w.(cache := w.cache[a := w.cache[a].(state := r)]) else w
  }

  function CachedStep<R>(codec: Codec<R>, w: World<R>, op: Op<R>): (World<R>, seq<Option<R>>)
  {
    match op
    case Load(a) => (w, [LoadCached(codec, w, a)])
    case Store(a, r) => (StoreCached(w, a, r), [])
    case Use(a, change, saves) =>
      var r := LoadCached(codec, w, a);
      (if r.None? then w
       else if saves then StoreCached(Change(w, a, change(r.value)), a, change(r.value))
       else Change(w, a, change(r.value)), [r])
    case Flush => (World(w.rows + DirtyRows(codec, w), map[]), [])
  }

  function Cached<R>(codec: Codec<R>, w: World<R>, ops: seq<Op<R>>): (World<R>, seq<Option<R>>)
    decreases |ops|
  {
    if ops == [] then (w, []) else
      var (next, seen) := CachedStep(codec, w, ops[0]);
      var (last, more) := Cached(codec, next, ops[1..]);
      (last, seen + more)
  }

  /** The cache as WithCachedSessions fills it; a row that cannot be read is left out. */
  function Prefetch<R>(codec: Codec<R>, rows: SessionRows, addresses: seq<Address>): map<Address, Entry<R>>
  {
    map a | a in addresses && ReadRow(codec, rows, a).Some? :: Entry(false, a in rows, ReadRow(codec, rows, a).value)
  }

  /* ---------- The two agree ---------- */

  /** The store with the dirty entries written is the direct store, and clean entries say what the store says. */
  ghost predicate Agree<R(!new)>(codec: Codec<R>, w: World<R>, rows: SessionRows)
  {
    && w.rows + DirtyRows(codec, w) == rows
    && forall a :: a in w.cache && !w.cache[a].dirty ==> ReadRow(codec, w.rows, a) == Some(w.cache[a].state)
  }

  /** A cached record is changed and not stored. */
  predicate Careless<R(==)>(w: World<R>, op: Op<R>)
  {
    op.Use? && !op.saves && op.addr in w.cache && op.change(w.cache[op.addr].state) != w.cache[op.addr].state
  }

  predicate CarefulRun<R(==)>(codec: Codec<R>, w: World<R>, ops: seq<Op<R>>)
    decreases |ops|
  {
    ops != [] ==> !Careless(w, ops[0]) && CarefulRun(codec, CachedStep(codec, w, ops[0]).0, ops[1..])
  }

  lemma LoadsAgree<R(!new)>(codec: Codec<R>, w: World<R>, rows: SessionRows, a: Address)
    requires Lawful(codec) && Agree(codec, w, rows)
    ensures LoadCached(codec, w, a) == ReadRow(codec, rows, a)
  {
    if a in w.cache && w.cache[a].dirty {
      assert rows[a] == codec.serialize(w.cache[a].state);
    }
  }

  lemma StoreKeepsAgreement<R(!new)>(codec: Codec<R>, w: World<R>, rows: SessionRows, a: Address, r: R)
    requires Agree(codec, w, rows)
    ensures Agree(codec, StoreCached(w, a, r), rows[a := codec.serialize(r)])
  {
    var next := StoreCached(w, a, r);
    assert DirtyRows(codec, next) == DirtyRows(codec, w)[a := codec.serialize(r)];
  }

  lemma StepKeepsAgreement<R(!new)>(codec: Codec<R>, w: World<R>, rows: SessionRows, op: Op<R>)
    requires Lawful(codec) && Agree(codec, w, rows) && !Careless(w, op)
    ensures var c, d := CachedStep(codec, w, op), DirectStep(codec, rows, op);
            Agree(codec, c.0, d.0) && c.1 == d.1
  {
    hide Agree, Lawful;
    match op
    case Load(a) => LoadsAgree(codec, w, rows, a);
    case Store(a, r) => StoreKeepsAgreement(codec, w, rows, a, r);
    case Use(a, change, saves) =>
      LoadsAgree(codec, w, rows, a);
      var r := LoadCached(codec, w, a);
      if r.Some? && saves {
        StoreKeepsAgreement(codec, w, rows, a, change(r.value));
        assert StoreCached(Change(w, a, change(r.value)), a, change(r.value)) == StoreCached(w, a, change(r.value));
      } else if r.Some? {
        assert Change(w, a, change(r.value)) == w;
      }
    case Flush => FlushKeepsAgreement(codec, w, rows);
  }

  lemma FlushKeepsAgreement<R(!new)>(codec: Codec<R>, w: World<R>, rows: SessionRows)
    requires Agree(codec, w, rows)
    ensures Agree(codec, World(rows, map[]), rows) && CachedStep(codec, w, Flush).0 == World(rows, map[])
  {
    var flushed: World<R> := World(rows, map[]);
    assert DirtyRows(codec, flushed) == map[];
  }

  lemma PrefetchAgrees<R(!new)>(codec: Codec<R>, rows: SessionRows, addresses: seq<Address>)
    ensures Agree(codec, World(rows, Prefetch(codec, rows, addresses)), rows)
  {
    assert DirtyRows(codec, World(rows, Prefetch(codec, rows, addresses))) == map[];
  }

  /** Over every careful run, the user sees what direct access would have shown, and the stores still agree. */
  lemma {:induction false} CarefulRunAgrees<R(!new)>(codec: Codec<R>, w: World<R>, rows: SessionRows, ops: seq<Op<R>>)
    requires Lawful(codec) && Agree(codec, w, rows) && CarefulRun(codec, w, ops)
    ensures var c, d := Cached(codec, w, ops), Direct(codec, rows, ops);
            Agree(codec, c.0, d.0) && c.1 == d.1
    decreases |ops|
  {
    hide Agree, Lawful, Careless, CachedStep, DirectStep;
    if ops != [] {
      StepKeepsAgreement(codec, w, rows, ops[0]);
      CarefulRunAgrees(codec, CachedStep(codec, w, ops[0]).0, DirectStep(codec, rows, ops[0]).0, ops[1..]);
    }
  }

  /** From the prefetch to a flush at the end: same observations, and the store holds what direct writes leave. */
  lemma CacheIsTransparent<R(!new)>(codec: Codec<R>, rows: SessionRows, addresses: seq<Address>, ops: seq<Op<R>>)
    requires Lawful(codec)
    requires CarefulRun(codec, World(rows, Prefetch(codec, rows, addresses)), ops)
    ensures var w := World(rows, Prefetch(codec, rows, addresses));
            && Cached(codec, w, ops).1 == Direct(codec, rows, ops).1
            && CachedStep(codec, Cached(codec, w, ops).0, Flush).0 == World(Direct(codec, rows, ops).0, map[])
  {
    hide Agree, Lawful, CarefulRun, Cached, Direct;
    var w := World(rows, Prefetch(codec, rows, addresses));
    PrefetchAgrees(codec, rows, addresses);
    CarefulRunAgrees(codec, w, rows, ops);
    FlushKeepsAgreement(codec, Cached(codec, w, ops).0, Direct(codec, rows, ops).0);
  }

  lemma LastLoad<R(!new)>(codec: Codec<R>, w: World<R>, rows: SessionRows, ops: seq<Op<R>>, a: Address)
    requires ops == [Load(a)]
    ensures Cached(codec, w, ops).1 == [LoadCached(codec, w, a)] &&
        Direct(codec, rows, ops).1 == [ReadRow(codec, rows, a)]
  {
    assert ops[1..] == [];
    assert Cached(codec, w, ops[1..]).1 == [] && Direct(codec, rows, ops[1..]).1 == [];
  }

  lemma LoadAfter<R(!new)>(codec: Codec<R>, w: World<R>, rows: SessionRows, op: Op<R>, a: Address)
    ensures Cached(codec, w, [op, Load(a)]).1
         == CachedStep(codec, w, op).1 + [LoadCached(codec, CachedStep(codec, w, op).0, a)]
    ensures Direct(codec, rows, [op, Load(a)]).1
         == DirectStep(codec, rows, op).1 + [ReadRow(codec, DirectStep(codec, rows, op).0, a)]
  {
    var ops := [op, Load(a)];
    assert ops[1..] == [Load(a)] && ops[1..][1..] == [];
    var c, d := CachedStep(codec, w, op).0, DirectStep(codec, rows, op).0;
    hide CachedStep, DirectStep;
    LastLoad(codec, c, d, ops[1..], a);
  }

  /**
   * The condition is exact: from stores that agree, a step shows nothing to whoever loads next if and only if it is
   * not careless.
   */
  lemma UnseenIffCareful<R(!new)>(codec: Codec<R>, w: World<R>, rows: SessionRows, op: Op<R>)
    requires Lawful(codec) && Agree(codec, w, rows)
    ensures (forall a :: Cached(codec, w, [op, Load(a)]).1 == Direct(codec, rows, [op, Load(a)]).1) <==>
        !Careless(w, op)
  {
    hide Agree, Lawful, Cached, Direct;
    if !Careless(w, op) {
      StepKeepsAgreement(codec, w, rows, op);
      forall a ensures Cached(codec, w, [op, Load(a)]).1 == Direct(codec, rows, [op, Load(a)]).1 {
        LoadAfter(codec, w, rows, op, a);
        LoadsAgree(codec, CachedStep(codec, w, op).0, DirectStep(codec, rows, op).0, a);
      }
    } else {
      LoadAfter(codec, w, rows, op, op.addr);
      LoadsAgree(codec, w, rows, op.addr);
      var c, d := Cached(codec, w, [op, Load(op.addr)]).1, Direct(codec, rows, [op, Load(op.addr)]).1;
      assert c[1] == Some(op.change(w.cache[op.addr].state)) && d[1] == Some(w.cache[op.addr].state);
    }
  }

  /* ---------- What a flush writes ---------- */

  /** The addresses stored to since the last flush. */
  function Touched<R>(codec: Codec<R>, rows: SessionRows, ops: seq<Op<R>>, since: set<Address>): set<Address>
    decreases |ops|
  {
    if ops == [] then since else
      Touched(codec, DirectStep(codec, rows, ops[0]).0, ops[1..],
        match ops[0]
        case Load(_) => since
        case Store(a, _) => since + {a}
        case Use(a, _, saves) => if saves && ReadRow(codec, rows, a).Some? then since + {a} else since
        case Flush => {})
  }

  /** A flush writes exactly the sessions stored to since the one before it: untouched ones are not rewritten. */
  lemma {:induction false} FlushWritesTouched<R(!new)>(codec: Codec<R>, w: World<R>, rows: SessionRows, ops: seq<Op<R>>)
    requires Lawful(codec) && Agree(codec, w, rows) && CarefulRun(codec, w, ops)
    ensures DirtyRows(codec, Cached(codec, w, ops).0).Keys == Touched(codec, rows, ops, DirtyRows(codec, w).Keys)
    decreases |ops|
  {
    hide Agree, Lawful;
    if ops != [] {
      var next := CachedStep(codec, w, ops[0]).0;
      StepKeepsAgreement(codec, w, rows, ops[0]);
      FlushWritesTouched(codec, next, DirectStep(codec, rows, ops[0]).0, ops[1..]);
      TouchedByStep(codec, w, rows, ops[0]);
      hide Careless, CachedStep, DirectStep, DirtyRows;
    }
  }

  lemma TouchedByStep<R(!new)>(codec: Codec<R>, w: World<R>, rows: SessionRows, op: Op<R>)
    requires Lawful(codec) && Agree(codec, w, rows)
    ensures DirtyRows(codec, CachedStep(codec, w, op).0).Keys ==
            match op
            case Load(_) => DirtyRows(codec, w).Keys
            case Store(a, _) => DirtyRows(codec, w).Keys + {a}
            case Use(a, _, saves) =>
              if saves && ReadRow(codec, rows, a).Some?
              then DirtyRows(codec, w).Keys + {a}
              else DirtyRows(codec, w).Keys
            case Flush => {}
  {
    if op.Use? {
      LoadsAgree(codec, w, rows, op.addr);
    }
    hide Agree, Lawful;
  }

  /* ---------- ContainsSession looks past the cache ---------- */

  /**
   * ContainsSession asks the store alone; it answers as direct access would if and only if the session is not one
   * that was stored to for the first time and is still waiting for the flush.
   */
  lemma ContainsAgreesIff<R(!new)>(codec: Codec<R>, w: World<R>, rows: SessionRows, a: Address)
    requires Agree(codec, w, rows)
    ensures (a in w.rows <==> a in rows) <==> (a in w.rows || a !in w.cache || !w.cache[a].dirty)
  {
    assert a in rows <==> a in w.rows || a in DirtyRows(codec, w);
  }
}
