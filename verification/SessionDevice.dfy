/** The session methods of the device as the source runs them, with records shared by reference. */
module SessionDevice {
  import opened Bytes
  import opened SessionCache

  class SessionRecord<R> {
    var state: R

    constructor (state: R)
      ensures this.state == state
    {
      this.state := state;
    }
  }

  datatype Slot<R> = Slot(dirty: bool, found: bool, record: SessionRecord<R>)

  ghost function AsEntry<R>(slot: Slot<R>): Entry<R>
    reads slot.record
  {
    Entry(slot.dirty, slot.found, slot.record.state)
  }

  lemma PrefetchAt<R>(codec: Codec<R>, rows: SessionRows, addresses: seq<Address>, a: Address)
    requires a in addresses
    ensures var fill := Prefetch(codec, rows, addresses);
            && (a in fill <==> ReadRow(codec, rows, a).Some?)
            && (a in fill ==> fill[a] == Entry(false, a in rows, ReadRow(codec, rows, a).value))
  {
  }

  lemma PrefetchKeys<R>(codec: Codec<R>, rows: SessionRows, addresses: seq<Address>)
    ensures forall a :: a in Prefetch(codec, rows, addresses) ==> a in addresses
    ensures forall a :: a in Prefetch(codec, rows, addresses) ==>
        (Prefetch(codec, rows, addresses)[a].found <==> a in rows)
  {
  }

  lemma FlushIs<R>(codec: Codec<R>, w: World<R>, dirty: SessionRows)
    requires dirty == DirtyRows(codec, w)
    ensures CachedStep(codec, w, Flush).0 == World(w.rows + dirty, map[])
    ensures |dirty| == 0 ==> w.rows + dirty == w.rows
  {
    hide DirtyRows;
  }

  /** The device together with the cache that the context carries, if it carries one. */
  class Device<R> {
    const codec: Codec<R>
    var rows: SessionRows
    var caching: bool
    var cache: map<Address, Slot<R>>

    ghost function Records(): set<SessionRecord<R>>
      reads this
    {
      set a | a in cache :: cache[a].record
    }

    ghost function Now(): World<R>
      reads this, Records()
    {
      World(rows, map a | a in cache :: AsEntry(cache[a]))
    }

    /** No two addresses share a record. */
    ghost predicate Separate()
      reads this
    {
      forall a, b :: a in cache && b in cache && a != b ==> cache[a].record != cache[b].record
    }

    constructor (codec: Codec<R>, rows: SessionRows)
      ensures this.codec == codec && this.rows == rows && !caching && cache == map[]
    {
      this.codec, this.rows, caching, cache := codec, rows, false, map[];
    }

    /** A row as a new record, if it can be read. */
    method Fetch(addr: Address) returns (r: Option<SessionRecord<R>>)
      ensures r.Some? <==> ReadRow(codec, rows, addr).Some?
      ensures r.Some? ==> fresh(r.value) && r.value.state == ReadRow(codec, rows, addr).value
    {
      if addr !in rows {
        var blank := new SessionRecord(codec.blank);
        return Some(blank);
      }
      var state := codec.deserialize(rows[addr]);
      if state.None? {
        return None;
      }
      var record := new SessionRecord(state.value);
      r := Some(record);
    }

    method LoadSession(addr: Address) returns (r: Option<SessionRecord<R>>)
      ensures r.Some? <==> LoadCached(codec, Now(), addr).Some?
      ensures r.Some? ==> r.value.state == LoadCached(codec, Now(), addr).value
      ensures r.Some? ==> if addr in cache then r.value == cache[addr].record else fresh(r.value)
    {
      if addr in cache {
        return Some(cache[addr].record);
      }
      r := Fetch(addr);
    }

    method StoreSession(addr: Address, record: SessionRecord<R>)
      modifies this
      ensures caching == old(caching)
      ensures caching ==> cache == old(cache)[addr := Slot(true, true, record)]
      ensures caching ==> Now() == StoreCached(old(Now()), addr, record.state)
      ensures !caching ==> cache == old(cache) && rows == old(rows)[addr := codec.serialize(record.state)]
    {
      if caching {
        cache := cache[addr := Slot(true, true, record)];
        assert Now().cache == StoreCached(old(Now()), addr, record.state).cache;
      } else {
        rows := rows[addr := codec.serialize(record.state)];
      }
    }

    method WithCachedSessions(addresses: seq<Address>) returns (existing: map<Address, bool>)
      modifies this
      ensures addresses == [] ==>
          existing == map[] && caching == old(caching) && cache == old(cache) && rows == old(rows)
      ensures addresses != [] ==> caching && Separate() && fresh(Records())
      ensures addresses != [] ==> Now() == World(old(rows), Prefetch(codec, old(rows), addresses))
      ensures addresses != [] ==> existing.Keys == Prefetch(codec, rows, addresses).Keys
      ensures forall a :: a in existing ==> (existing[a] <==> a in rows)
    {
      existing := map[];
      if addresses == [] {
        return;
      }
      hide Prefetch, ReadRow;
      PrefetchKeys(codec, rows, addresses);
      var wrapped;
      wrapped, existing := FetchAll(addresses);
      cache, caching := wrapped, true;
      assert Now().cache == Prefetch(codec, rows, addresses);
    }

    /** The loop over what the store returned: every readable session in a record of its own. */
    method FetchAll(addresses: seq<Address>) returns (wrapped: map<Address, Slot<R>>, existing: map<Address, bool>)
      ensures existing.Keys == wrapped.Keys == Prefetch(codec, rows, addresses).Keys
      ensures forall a :: a in wrapped ==> fresh(wrapped[a].record)
      ensures forall a :: a in wrapped ==> AsEntry(wrapped[a]) == Prefetch(codec, rows, addresses)[a]
      ensures forall a :: a in wrapped ==> existing[a] == Prefetch(codec, rows, addresses)[a].found
      ensures forall a, b :: a in wrapped && b in wrapped && a != b ==> wrapped[a].record != wrapped[b].record
    {
      hide Prefetch, ReadRow;
      ghost var fill := Prefetch(codec, rows, addresses);
      existing, wrapped := map[], map[];
      var todo := set a | a in addresses;
      PrefetchKeys(codec, rows, addresses);
      while todo != {}
        invariant forall a :: a in wrapped <==> a in fill && a !in todo
        invariant existing.Keys == wrapped.Keys
        invariant forall a :: a in wrapped ==> fresh(wrapped[a].record) && fill[a] == AsEntry(wrapped[a])
        invariant forall a :: a in wrapped ==> existing[a] == fill[a].found
        invariant forall a, b :: a in wrapped && b in wrapped && a != b ==> wrapped[a].record != wrapped[b].record
        invariant forall a :: a in todo ==> a in addresses
        decreases |todo|
      {
        var a :| a in todo;
        todo := todo - {a};
        var record := Fetch(a);
        PrefetchAt(codec, rows, addresses, a);
        if record.Some? {
          existing := existing[a := a in rows];
          wrapped := wrapped[a := Slot(false, a in rows, record.value)];
        }
      }
    }

    /** The dirty entries of the cache, serialised. */
    method DirtySessions() returns (dirty: SessionRows)
      ensures dirty == DirtyRows(codec, Now())
    {
      dirty := map[];
      var todo := cache.Keys;
      while todo != {}
        invariant todo <= cache.Keys
        invariant forall a :: a in dirty <==> a in cache && a !in todo && cache[a].dirty
        invariant forall a :: a in dirty ==> dirty[a] == codec.serialize(cache[a].record.state)
        decreases |todo|
      {
        var a :| a in todo;
        todo := todo - {a};
        if cache[a].dirty {
          dirty := dirty[a := codec.serialize(cache[a].record.state)];
        }
      }
    }

    method PutCachedSessions()
      modifies this
      ensures caching == old(caching)
      ensures caching ==> cache == map[] && Now() == CachedStep(codec, old(Now()), Flush).0
      ensures !caching ==> cache == old(cache) && rows == old(rows)
    {
      if !caching {
        return;
      }
      hide DirtyRows, AsEntry, CachedStep;
      ghost var w := Now();
      var dirty := DirtySessions();
      FlushIs(codec, w, dirty);
      if |dirty| > 0 {
        rows := rows + dirty;
      }
      cache := map[];
      assert Now().cache == map[];
    }

    /** The caller's change to a record it has loaded, in place. */
    method ChangeRecord(addr: Address, record: SessionRecord<R>, state: R)
      requires Separate() && if addr in cache then record == cache[addr].record else record !in Records()
      modifies record
      ensures record.state == state && Now() == Change(old(Now()), addr, state)
    {
      record.state := state;
      assert forall a :: a in cache && a != addr ==> cache[a].record != record;
    }

    /**
     * How libsignal uses a session: load it, change it in place and, unless something fails, store it; through the
     * cache or, without one, on the store itself.
     */
    method UseSession(addr: Address, change: R -> R, saves: bool) returns (ok: bool)
      requires Separate() && (caching || cache == map[])
      modifies this, Records()
      ensures caching == old(caching) && Separate() && ok == LoadCached(codec, old(Now()), addr).Some?
      ensures caching ==> Now() == CachedStep(codec, old(Now()), Use(addr, change, saves)).0
      ensures !caching ==> cache == map[] && rows == DirectStep(codec, old(rows), Use(addr, change, saves)).0
    {
      hide StoreCached, Change, ReadRow;
      var r := LoadSession(addr);
      if r.None? {
        return false;
      }
      var record := r.value;
      ChangeRecord(addr, record, change(record.state));
      if saves {
        StoreSession(addr, record);
      }
      ok := true;
    }
  }
}
