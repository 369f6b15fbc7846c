/**
 * The SQL store's table of mutation MACs (store/sqlstore): rows are keyed by version and index, an insert fails on a
 * key that is taken or a MAC that is not 32 bytes long, and a lookup takes the row of the highest version. When is
 * that the map from index to value that the sync relies on?
 */
module SqlMacs {
  import opened Bytes
  import opened AppState
  import opened AppStateProcessor

  datatype Row = Row(version: nat, indexMAC: Bytes)

  type SqlRows = map<Row, Bytes>

  /** The table's checks on the length of both columns. */
  predicate Fits(m: IndexAndValue)
  {
    |m.indexMAC| == 32 && |m.valueMAC| == 32
  }

  predicate AllFit(macs: seq<IndexAndValue>)
  {
    forall i :: 0 <= i < |macs| ==> Fits(macs[i])
  }

  /** One transaction of inserts; None if a row is refused and all of it is rolled back. */
  function Insert(rows: SqlRows, version: nat, macs: seq<IndexAndValue>): Option<SqlRows>
    decreases |macs|
  {
    if macs == [] then Some(rows) else
      var last := macs[|macs| - 1];
      var before := Insert(rows, version, macs[..|macs| - 1]);
      if before.None? || !Fits(last) || Row(version, last.indexMAC) in before.value then None
      else Some(before.value[Row(version, last.indexMAC) := last.valueMAC])
  }

  function Delete(rows: SqlRows, indexMACs: seq<Bytes>): SqlRows
  {
    map r | r in rows && r.indexMAC !in indexMACs :: rows[r]
  }

  /** The row that a lookup of the index takes. */
  ghost predicate Top(rows: SqlRows, k: Bytes, v: nat)
  {
    Row(v, k) in rows && forall w: nat :: Row(w, k) in rows ==> w <= v
  }

  /** Looking up any index gives what the map has for it. */
  ghost predicate Refines(rows: SqlRows, t: Table)
  {
    && (forall k, v :: Top(rows, k, v) ==> k in t && t[k] == rows[Row(v, k)])
    && (forall k :: k in t ==> exists v :: Row(v, k) in rows)
  }

  predicate Free(rows: SqlRows, version: nat, macs: seq<IndexAndValue>)
  {
    forall i :: 0 <= i < |macs| ==> Row(version, macs[i].indexMAC) !in rows
  }

  /* ---------- What an insert does ---------- */

  ghost predicate Inserted(rows: SqlRows, version: nat, macs: seq<IndexAndValue>, out: SqlRows)
  {
    && (forall r :: r in out <==>
      r in rows || (r.version == version && exists i :: 0 <= i < |macs| && macs[i].indexMAC == r.indexMAC))
    && (forall r :: r in rows ==> out[r] == rows[r])
    && (forall i :: 0 <= i < |macs| ==> out[Row(version, macs[i].indexMAC)] == macs[i].valueMAC)
  }

  lemma InsertStep(rows: SqlRows, version: nat, macs: seq<IndexAndValue>)
    requires macs != []
    ensures var last := macs[|macs| - 1];
            var before := Insert(rows, version, macs[..|macs| - 1]);
            Insert(rows, version, macs) ==
              if before.None? || !Fits(last) || Row(version, last.indexMAC) in before.value then None
              else Some(before.value[Row(version, last.indexMAC) := last.valueMAC])
  {
  }

  lemma InsertedOneMore(rows: SqlRows, version: nat, macs: seq<IndexAndValue>, mid: SqlRows)
    requires macs != [] && Inserted(rows, version, macs[..|macs| - 1], mid)
    requires Row(version, macs[|macs| - 1].indexMAC) !in mid
    ensures Inserted(rows, version, macs, mid[Row(version, macs[|macs| - 1].indexMAC) := macs[|macs| - 1].valueMAC])
  {
    var n := |macs| - 1;
    var out := mid[Row(version, macs[n].indexMAC) := macs[n].valueMAC];
    forall r ensures r in out <==>
        r in rows || (r.version == version && exists i :: 0 <= i < |macs| && macs[i].indexMAC == r.indexMAC) {
      if r in mid && r !in rows {
        var i :| 0 <= i < n && macs[..n][i].indexMAC == r.indexMAC;
        assert macs[i].indexMAC == r.indexMAC;
      }
      if i :| 0 <= i < |macs| && macs[i].indexMAC == r.indexMAC {
        assert i < n ==> macs[..n][i].indexMAC == r.indexMAC;
      }
    }
    forall i | 0 <= i < |macs| ensures out[Row(version, macs[i].indexMAC)] == macs[i].valueMAC {
      if i < n {
        assert macs[..n][i] == macs[i];
        assert mid[Row(version, macs[..n][i].indexMAC)] == macs[i].valueMAC;
      }
    }
  }

  /**
   * An insert succeeds if and only if its indexes are distinct, all MACs have 32 bytes, and none has a row of that
   * version already.
   */
  lemma {:induction false} InsertSucceedsIff(rows: SqlRows, version: nat, macs: seq<IndexAndValue>)
    ensures Insert(rows, version, macs).Some? <==> DistinctMACs(macs) && AllFit(macs) && Free(rows, version, macs)
    ensures Insert(rows, version, macs).Some? ==> Inserted(rows, version, macs, Insert(rows, version, macs).value)
    decreases |macs|
  {
    hide Insert, Inserted;
    if macs == [] {
      InsertNothing(rows, version);
    } else {
      var n := |macs| - 1;
      InsertSucceedsIff(rows, version, macs[..n]);
      InsertStep(rows, version, macs);
      var before := Insert(rows, version, macs[..n]);
      FrontKeeps(rows, version, macs);
      if before.Some? {
        TakenIff(rows, version, macs, before.value);
        if Fits(macs[n]) && Row(version, macs[n].indexMAC) !in before.value {
          InsertedOneMore(rows, version, macs, before.value);
        }
      }
    }
  }

  /** A recovery record may carry a value MAC of any length; the table takes only 32 bytes, for the index as well. */
  lemma ShortMacIsRefused(rows: SqlRows, version: nat, m: IndexAndValue)
    requires |m.indexMAC| != 32 || |m.valueMAC| != 32
    ensures Insert(rows, version, [m]) == None
  {
    InsertSucceedsIff(rows, version, [m]);
    hide Insert;
    assert !Fits([m][0]);
  }

  lemma InsertNothing(rows: SqlRows, version: nat)
    ensures Insert(rows, version, []) == Some(rows) && Inserted(rows, version, [], rows)
  {
  }

  lemma FrontKeeps(rows: SqlRows, version: nat, macs: seq<IndexAndValue>)
    requires macs != []
    ensures var n := |macs| - 1;
            DistinctMACs(macs) && AllFit(macs) && Free(rows, version, macs) <==>
              && DistinctMACs(macs[..n]) && AllFit(macs[..n]) && Free(rows, version, macs[..n])
              && Fits(macs[n]) && Row(version, macs[n].indexMAC) !in rows
              && forall i :: 0 <= i < n ==> macs[i].indexMAC != macs[n].indexMAC
  {
    var n := |macs| - 1;
    assert forall i :: 0 <= i < n ==> macs[..n][i] == macs[i];
    if DistinctMACs(macs[..n]) && forall i :: 0 <= i < n ==> macs[i].indexMAC != macs[n].indexMAC {
      forall i, j | 0 <= i < j < |macs| ensures macs[i].indexMAC != macs[j].indexMAC {
        assert j < n ==> macs[..n][j] == macs[j];
      }
    }
  }

  lemma TakenIff(rows: SqlRows, version: nat, macs: seq<IndexAndValue>, mid: SqlRows)
    requires macs != [] && Inserted(rows, version, macs[..|macs| - 1], mid)
    ensures var n := |macs| - 1;
            Row(version, macs[n].indexMAC) in mid <==>
              Row(version, macs[n].indexMAC) in rows || exists i :: 0 <= i < n && macs[i].indexMAC == macs[n].indexMAC
  {
    var n := |macs| - 1;
    if i :| 0 <= i < n && macs[i].indexMAC == macs[n].indexMAC {
      assert macs[..n][i].indexMAC == macs[n].indexMAC;
    }
  }

  lemma {:induction false} PutAllAt(t: Table, macs: seq<IndexAndValue>, k: Bytes)
    requires DistinctMACs(macs)
    ensures (k in PutAll(t, macs) <==> k in t || exists i :: 0 <= i < |macs| && macs[i].indexMAC == k)
    ensures forall i :: 0 <= i < |macs| && macs[i].indexMAC == k ==> PutAll(t, macs)[k] == macs[i].valueMAC
    ensures k in t && (forall i :: 0 <= i < |macs| ==> macs[i].indexMAC != k) ==> PutAll(t, macs)[k] == t[k]
    decreases |macs|
  {
    if macs != [] {
      var front := macs[..|macs| - 1];
      PutAllAt(t, front, k);
      assert forall i :: 0 <= i < |front| ==> front[i] == macs[i];
    }
  }

  /* ---------- When the table is the map ---------- */

  /** What is put for an index will be looked up: no later version of it stands in front with another value. */
  ghost predicate Visible(rows: SqlRows, version: nat, m: IndexAndValue)
  {
    forall v: nat :: Top(rows, m.indexMAC, v) ==> v < version || rows[Row(v, m.indexMAC)] == m.valueMAC
  }

  /**
   * Starting from a table that is the map, an insert succeeds and leaves the map that putting the values in order
   * gives, if and only if no index is repeated, all MACs have 32 bytes, no index has a row of that version, and none
   * has a later row with another value.
   */
  lemma PutRefinesIff(rows: SqlRows, t: Table, version: nat, macs: seq<IndexAndValue>)
    requires Refines(rows, t)
    ensures (var out := Insert(rows, version, macs); out.Some? && Refines(out.value, PutAll(t, macs)))
       <==> && DistinctMACs(macs) && AllFit(macs) && Free(rows, version, macs)
            && forall i :: 0 <= i < |macs| ==> Visible(rows, version, macs[i])
  {
    hide Insert, PutAll, Refines, Inserted, Visible;
    InsertSucceedsIff(rows, version, macs);
    var out := Insert(rows, version, macs);
    if out.Some? {
      if forall i :: 0 <= i < |macs| ==> Visible(rows, version, macs[i]) {
        VisibleRefines(rows, t, version, macs, out.value);
      } else {
        var i :| 0 <= i < |macs| && !Visible(rows, version, macs[i]);
        HiddenShows(rows, t, version, macs, out.value, i);
      }
    }
  }

  lemma HiddenShows(rows: SqlRows, t: Table, version: nat, macs: seq<IndexAndValue>, out: SqlRows, i: nat)
    requires DistinctMACs(macs) && Free(rows, version, macs) && Inserted(rows, version, macs, out)
    requires i < |macs| && !Visible(rows, version, macs[i])
    ensures !Refines(out, PutAll(t, macs))
  {
    hide PutAll;
    var k := macs[i].indexMAC;
    var v: nat :| Top(rows, k, v) && v >= version && rows[Row(v, k)] != macs[i].valueMAC;
    PutAllAt(t, macs, k);
    assert Top(out, k, v);
  }

  lemma VisibleRefines(rows: SqlRows, t: Table, version: nat, macs: seq<IndexAndValue>, out: SqlRows)
    requires Refines(rows, t) && DistinctMACs(macs) && Free(rows, version, macs) && Inserted(rows, version, macs, out)
    requires forall i :: 0 <= i < |macs| ==> Visible(rows, version, macs[i])
    ensures Refines(out, PutAll(t, macs))
  {
    hide PutAll, Free;
    forall k, v | Top(out, k, v) ensures k in PutAll(t, macs) && PutAll(t, macs)[k] == out[Row(v, k)] {
      TopAfter(rows, t, version, macs, out, k, v);
    }
    forall k | k in PutAll(t, macs) ensures exists v :: Row(v, k) in out {
      PutAllAt(t, macs, k);
      if k in t {
        var v :| Row(v, k) in rows;
        assert Row(v, k) in out;
      } else {
        assert Row(version, k) in out;
      }
    }
  }

  lemma TopAfter(rows: SqlRows, t: Table, version: nat, macs: seq<IndexAndValue>, out: SqlRows, k: Bytes, v: nat)
    requires Refines(rows, t) && DistinctMACs(macs) && Inserted(rows, version, macs, out)
    requires (forall i :: 0 <= i < |macs| ==> Visible(rows, version, macs[i])) && Top(out, k, v)
    ensures k in PutAll(t, macs) && PutAll(t, macs)[k] == out[Row(v, k)]
  {
    hide PutAll;
    PutAllAt(t, macs, k);
    if i :| 0 <= i < |macs| && macs[i].indexMAC == k {
      assert Row(version, k) in out;
      if v > version {
        assert Top(rows, k, v);
        assert Visible(rows, version, macs[i]);
      }
    } else {
      assert Top(rows, k, v);
    }
  }

  /** Deleting indexes, and dropping the collection, always agree with the map. */
  lemma DeleteRefines(rows: SqlRows, t: Table, indexMACs: seq<Bytes>)
    requires Refines(rows, t)
    ensures Refines(Delete(rows, indexMACs), DeleteAll(t, indexMACs)) && Refines(map[], map[])
  {
    var out := Delete(rows, indexMACs);
    forall k, v | Top(out, k, v) ensures k in DeleteAll(t, indexMACs) && DeleteAll(t, indexMACs)[k] == out[Row(v, k)] {
      assert Top(rows, k, v) by {
        forall w | Row(w, k) in rows ensures w <= v {
          assert Row(w, k) in out;
        }
      }
    }
    forall k | k in DeleteAll(t, indexMACs) ensures exists v :: Row(v, k) in out {
      var v :| Row(v, k) in rows;
      assert Row(v, k) in out;
    }
  }

  /* ---------- Runs ---------- */

  /** What is stored for one patch: rows deleted, then rows put. */
  datatype Write = Write(version: nat, removed: seq<Bytes>, added: seq<IndexAndValue>)

  function SqlAfter(rows: SqlRows, writes: seq<Write>): Option<SqlRows>
    decreases |writes|
  {
    if writes == [] then Some(rows) else
      var w := writes[|writes| - 1];
      match SqlAfter(rows, writes[..|writes| - 1])
      case None => None
      case Some(before) => Insert(Delete(before, w.removed), w.version, w.added)
  }

  function MapAfter(t: Table, writes: seq<Write>): Table
    decreases |writes|
  {
    if writes == [] then t else
      var w := writes[|writes| - 1];
      PutAll(DeleteAll(MapAfter(t, writes[..|writes| - 1]), w.removed), w.added)
  }

  ghost predicate Below(rows: SqlRows, bound: nat)
  {
    forall r :: r in rows ==> r.version < bound
  }

  /** Writes with rising versions, of 32-byte MACs, none of which puts an index twice. */
  predicate Orderly(writes: seq<Write>)
  {
    && (forall i :: 0 <= i < |writes| ==> DistinctMACs(writes[i].added) && AllFit(writes[i].added))
    && (forall i, j :: 0 <= i < j < |writes| ==> writes[i].version < writes[j].version)
  }

  /** Over every orderly run from an empty collection, no insert fails and the SQL table is the map. */
  lemma {:induction false} OrderlyRunRefines(writes: seq<Write>)
    requires Orderly(writes)
    ensures var out := SqlAfter(map[], writes);
            && out.Some? && Refines(out.value, MapAfter(map[], writes))
            && Below(out.value, if writes == [] then 0 else writes[|writes| - 1].version + 1)
    decreases |writes|
  {
    if writes == [] {
      assert Refines(map[], map[]);
    } else {
      var front, w := writes[..|writes| - 1], writes[|writes| - 1];
      assert Orderly(front);
      OrderlyRunRefines(front);
      var rows := SqlAfter(map[], front).value;
      assert front != [] ==> front[|front| - 1] == writes[|writes| - 2];
      assert Below(rows, w.version);
      WriteRefines(rows, MapAfter(map[], front), w);
      hide Refines, Insert, PutAll;
    }
  }

  lemma WriteRefines(rows: SqlRows, t: Table, w: Write)
    requires Refines(rows, t) && Below(rows, w.version) && DistinctMACs(w.added) && AllFit(w.added)
    ensures var out := Insert(Delete(rows, w.removed), w.version, w.added);
            out.Some? && Refines(out.value, PutAll(DeleteAll(t, w.removed), w.added)) && Below(out.value, w.version + 1)
  {
    hide Insert, PutAll, Refines;
    var kept := Delete(rows, w.removed);
    DeleteRefines(rows, t, w.removed);
    InsertSucceedsIff(kept, w.version, w.added);
    PutRefinesIff(kept, DeleteAll(t, w.removed), w.version, w.added);
  }
}
