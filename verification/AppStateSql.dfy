/**
 * App state on the SQL store: storeMACs writes the version, then deletes, then inserts, each on its own, and the
 * insert may be refused after the other two are done. When do hash and table still agree?
 */
module AppStateSql {
  import opened Bytes
  import opened LTHash
  import opened AppState
  import opened AppStateProcessor
  import opened HashCounts
  import opened SqlMacs

  /* ---------- What a lookup sees ---------- */

  predicate Newest(rows: SqlRows, r: Row)
  {
    r in rows && forall q :: q in rows && q.indexMAC == r.indexMAC ==> q.version <= r.version
  }

  /** The table as lookups show it: for each index the row of the highest version. */
  function Seen(rows: SqlRows): Table
  {
    map r | r in rows && Newest(rows, r) :: r.indexMAC := rows[r]
  }

  lemma TopIsNewest(rows: SqlRows, k: Bytes, v: nat)
    ensures Top(rows, k, v) <==> Newest(rows, Row(v, k))
  {
    if Top(rows, k, v) {
      forall q | q in rows && q.indexMAC == k ensures q.version <= v {
        assert q == Row(q.version, k);
      }
    }
  }

  lemma {:induction false} NewestExists(rows: SqlRows, k: Bytes, v: nat) returns (w: nat)
    requires Row(v, k) in rows
    ensures Newest(rows, Row(w, k))
    decreases |rows|
  {
    if Newest(rows, Row(v, k)) {
      w := v;
    } else {
      var q :| q in rows && q.indexMAC == k && q.version > v;
      var fewer := rows - {Row(v, k)};
      assert q == Row(q.version, k) && q in fewer;
      w := NewestExists(fewer, k, q.version);
      assert w >= q.version;
      forall p | p in rows && p.indexMAC == k ensures p.version <= w {
        if p != Row(v, k) {
          assert p in fewer;
        }
      }
    }
  }

  lemma SeenRefined(rows: SqlRows)
    ensures Refines(rows, Seen(rows))
  {
    var t := Seen(rows);
    forall k, v: nat | Top(rows, k, v) ensures k in t && t[k] == rows[Row(v, k)] {
      TopIsNewest(rows, k, v);
      SeenAt(rows, Row(v, k));
    }
    forall k | k in t ensures exists v :: Row(v, k) in rows {
      var r :| r in rows && Newest(rows, r) && r.indexMAC == k;
      assert r == Row(r.version, k);
    }
  }

  lemma SeenAt(rows: SqlRows, r: Row)
    requires Newest(rows, r)
    ensures r.indexMAC in Seen(rows) && Seen(rows)[r.indexMAC] == rows[r]
  {
  }

  /** There is one table that a set of rows shows. */
  lemma SeenUnique(rows: SqlRows, t: Table)
    requires Refines(rows, t)
    ensures Seen(rows) == t
  {
    forall k ensures k in Seen(rows) <==> k in t {
      if k in Seen(rows) {
        var r :| r in rows && Newest(rows, r) && r.indexMAC == k;
        TopIsNewest(rows, k, r.version);
        assert Top(rows, k, r.version);
      }
      if k in t {
        var v :| Row(v, k) in rows;
        var w := NewestExists(rows, k, v);
      }
    }
    forall k | k in t ensures Seen(rows)[k] == t[k] {
      var v :| Row(v, k) in rows;
      var w := NewestExists(rows, k, v);
      TopIsNewest(rows, k, w);
      SeenAt(rows, Row(w, k));
    }
  }

  lemma SeenAfterDelete(rows: SqlRows, removed: seq<Bytes>)
    ensures Seen(Delete(rows, removed)) == DeleteAll(Seen(rows), removed)
  {
    hide Refines, Seen, Delete;
    SeenRefined(rows);
    DeleteRefines(rows, Seen(rows), removed);
    SeenUnique(Delete(rows, removed), DeleteAll(Seen(rows), removed));
  }

  /* ---------- One write ---------- */

  datatype SqlCollection = SqlCollection(state: HashState, rows: SqlRows)

  ghost function Shown(c: SqlCollection): Collection
  {
    Collection(c.state, Seen(c.rows))
  }

  datatype Written = Written(collection: SqlCollection, ok: bool)

  /** storeMACs: if the insert is refused, the version, the hash and the deletions stay. */
  function SqlWrite(c: SqlCollection, state: HashState, removed: seq<Bytes>, added: seq<IndexAndValue>): Written
  {
    var kept := Delete(c.rows, removed);
    match Insert(kept, state.version, added)
    case None => Written(SqlCollection(state, kept), false)
    case Some(rows) => Written(SqlCollection(state, rows), true)
  }

  function PatchWrite(c: SqlCollection, state: HashState, ms: seq<SyncdMutation>): Written
    requires WellSized(ms)
  {
    SqlWrite(c, state, RemovedOf(ms), AddedOf(ms))
  }

  lemma OneHash(expand: Expander, g: Hash, h: Hash, t: Table)
    requires Agrees(expand, g, t) && Agrees(expand, h, t)
    ensures g == h
  {
    hide MapSum;
    WordsDetermineHash(g, h);
  }

  /**
   * For every patch and any rows: after its write the new hash agrees with what is stored, under every expansion, if
   * and only if each value stands in as many rows as it would after applying the patch (up to multiples of 2^16).
   */
  lemma WriteAgreesIff(c: SqlCollection, state: HashState, ms: seq<SyncdMutation>)
    requires WellSized(ms)
    ensures var t, after := Seen(c.rows), Seen(PatchWrite(c, state, ms).collection.rows);
            (forall expand: Expander, h: Hash :: Agrees(expand, h, t) ==>
              Agrees(expand, SequentialHash(expand, h, t, ms), after))
            <==> SameCopies(ApplyMutations(t, ms), after)
  {
    hide Agrees, SequentialHash, ApplyMutations, SameCopies, Seen, PatchWrite, SumHash;
    var t, after := Seen(c.rows), Seen(PatchWrite(c, state, ms).collection.rows);
    var goal := ApplyMutations(t, ms);
    TablesAgreeIff(goal, after);
    if SameCopies(goal, after) {
      forall expand: Expander, h: Hash | Agrees(expand, h, t)
          ensures Agrees(expand, SequentialHash(expand, h, t, ms), after) {
        MutationsKeepAgreement(expand, h, t, ms);
      }
    } else {
      var expand: Expander, g: Hash :| Agrees(expand, g, goal) && !Agrees(expand, g, after);
      var h := SumHash(expand, t);
      SumHashAgrees(expand, t);
      MutationsKeepAgreement(expand, h, t, ms);
      OneHash(expand, g, SequentialHash(expand, h, t, ms), goal);
    }
  }

  /* ---------- What the store takes ---------- */

  /** The rows can be inserted, and lookups will then show them. */
  ghost predicate Takes(kept: SqlRows, version: nat, added: seq<IndexAndValue>)
  {
    && DistinctMACs(added) && AllFit(added) && Free(kept, version, added)
    && forall i :: 0 <= i < |added| ==> Visible(kept, version, added[i])
  }

  ghost predicate TakesPatch(c: SqlCollection, version: nat, ms: seq<SyncdMutation>)
    requires WellSized(ms)
  {
    Takes(Delete(c.rows, RemovedOf(ms)), version, AddedOf(ms))
  }

  /** Exactly then do the three writes leave what applying the mutations one by one leaves. */
  lemma WriteIsTakenIff(c: SqlCollection, state: HashState, ms: seq<SyncdMutation>)
    requires WellSized(ms)
    ensures (var w := PatchWrite(c, state, ms); w.ok && Seen(w.collection.rows) == ApplyMutations(Seen(c.rows), ms))
       <==> TakesPatch(c, state.version, ms)
  {
    var kept, added := Delete(c.rows, RemovedOf(ms)), AddedOf(ms);
    hide Seen, Insert, Delete, PutAll, ApplyMutations, AddedOf, RemovedOf, Refines;
    SeenAfterDelete(c.rows, RemovedOf(ms));
    ListsAreMutations(Seen(c.rows), ms);
    SeenRefined(kept);
    PutRefinesIff(kept, Seen(kept), state.version, added);
    var out := Insert(kept, state.version, added);
    if out.Some? {
      SeenRefined(out.value);
      if Refines(out.value, PutAll(Seen(kept), added)) {
        SeenUnique(out.value, PutAll(Seen(kept), added));
      }
    }
  }

  /* ---------- With fresh values ---------- */

  /** The values to be put are pairwise different and none of them is stored yet, as fresh IVs make them. */
  predicate FreshMACs(t: Table, added: seq<IndexAndValue>)
  {
    && (forall i, j :: 0 <= i < j < |added| ==> added[i].valueMAC != added[j].valueMAC)
    && (forall i, k :: 0 <= i < |added| && k in t ==> added[i].valueMAC != t[k])
  }

  /**
   * What the store asks of the rows: distinct indexes, 32-byte MACs, and a version above those kept for the same index.
   */
  ghost predicate Storable(kept: SqlRows, version: nat, added: seq<IndexAndValue>)
  {
    && DistinctMACs(added) && AllFit(added)
    && forall i, v: nat :: 0 <= i < |added| && Row(v, added[i].indexMAC) in kept ==> v < version
  }

  lemma StorableIsTaken(kept: SqlRows, version: nat, added: seq<IndexAndValue>)
    requires Storable(kept, version, added)
    ensures Takes(kept, version, added)
  {
    assert Free(kept, version, added);
  }

  lemma StorableIsShown(kept: SqlRows, version: nat, added: seq<IndexAndValue>)
    requires Storable(kept, version, added)
    ensures Insert(kept, version, added).Some? && Seen(Insert(kept, version, added).value) == PutAll(Seen(kept), added)
  {
    assert Free(kept, version, added);
    assert forall i :: 0 <= i < |added| ==> Visible(kept, version, added[i]);
    hide Refines, Seen, Insert, PutAll;
    SeenRefined(kept);
    PutRefinesIff(kept, Seen(kept), version, added);
    SeenUnique(Insert(kept, version, added).value, PutAll(Seen(kept), added));
  }

  /** Every value of the result was there before or is put. */
  lemma {:induction false} ValuesAfterPut(t: Table, added: seq<IndexAndValue>, k: Bytes) returns (i: int)
    requires k in PutAll(t, added)
    ensures i == -1 || 0 <= i < |added|
    ensures i == -1 ==> k in t && PutAll(t, added)[k] == t[k]
    ensures i >= 0 ==> added[i].indexMAC == k && PutAll(t, added)[k] == added[i].valueMAC
  {
    if added == [] {
      i := -1;
    } else if added[|added| - 1].indexMAC == k {
      i := |added| - 1;
    } else {
      i := ValuesAfterPut(t, added[..|added| - 1], k);
    }
  }

  lemma OnlyOnce(t: Table, added: seq<IndexAndValue>, m: nat)
    requires FreshMACs(t, added) && m < |added|
    requires var u := PutAll(t, added); added[m].indexMAC in u && u[added[m].indexMAC] == added[m].valueMAC
    ensures Copies(PutAll(t, added), added[m].valueMAC) == 1
  {
    hide PutAll;
    var u, x := PutAll(t, added), added[m].valueMAC;
    var where := set k | k in u && u[k] == x;
    forall k | k in where ensures k == added[m].indexMAC {
      var i := ValuesAfterPut(t, added, k);
    }
    assert where == {added[m].indexMAC};
  }

  lemma NotStored(u: Table, x: Bytes)
    requires forall k :: k in u ==> u[k] != x
    ensures Copies(u, x) == 0
  {
    assert (set k | k in u && u[k] == x) == {};
  }

  lemma RefusedInsert(u: Table, added: seq<IndexAndValue>)
    requires added != [] && FreshMACs(u, added)
    ensures !SameCopies(PutAll(u, added), u)
  {
    var x := added[|added| - 1].valueMAC;
    OnlyOnce(u, added, |added| - 1);
    NotStored(u, x);
    DifferentCopies(PutAll(u, added), u, x);
  }

  /** A row behind a later version of its index is stored and yet not seen. */
  lemma HiddenRow(kept: SqlRows, version: nat, added: seq<IndexAndValue>, out: SqlRows, i: nat, v: nat)
    requires DistinctMACs(added) && Free(kept, version, added) && Inserted(kept, version, added, out)
    requires FreshMACs(Seen(kept), added)
    requires i < |added| && Row(v, added[i].indexMAC) in kept && v >= version
    ensures forall k :: k in Seen(out) ==> Seen(out)[k] != added[i].valueMAC
  {
    var index := added[i].indexMAC;
    var w := NewestExists(kept, index, v);
    hide Seen, DistinctMACs;
    forall k | k in Seen(out) ensures Seen(out)[k] != added[i].valueMAC {
      var r := SeenFrom(out, k);
      if r in kept {
        assert Newest(kept, r);
        SeenAt(kept, r);
      } else {
        var j :| 0 <= j < |added| && added[j].indexMAC == r.indexMAC;
        assert Row(w, index) in out && w > version;
        assert r == Row(version, added[j].indexMAC) && out[r] == added[j].valueMAC;
        assert j != i;
      }
    }
  }

  lemma SeenFrom(rows: SqlRows, k: Bytes) returns (r: Row)
    requires k in Seen(rows)
    ensures Newest(rows, r) && r.indexMAC == k && Seen(rows)[k] == rows[r]
  {
    r :| r in rows && Newest(rows, r) && r.indexMAC == k;
    SeenAt(rows, r);
  }

  lemma HiddenInsert(kept: SqlRows, version: nat, added: seq<IndexAndValue>, out: SqlRows, i: nat, v: nat)
    requires DistinctMACs(added) && Free(kept, version, added) && Inserted(kept, version, added, out)
    requires FreshMACs(Seen(kept), added)
    requires i < |added| && Row(v, added[i].indexMAC) in kept && v >= version
    ensures !SameCopies(PutAll(Seen(kept), added), Seen(out))
  {
    hide Seen, PutAll, Copies, Free, Inserted, DistinctMACs, FreshMACs;
    var u, x := Seen(kept), added[i].valueMAC;
    HiddenRow(kept, version, added, out, i, v);
    NotStored(Seen(out), x);
    PutIsThere(u, added, i);
    OnlyOnce(u, added, i);
    DifferentCopies(PutAll(u, added), Seen(out), x);
  }

  lemma PutIsThere(t: Table, added: seq<IndexAndValue>, i: nat)
    requires DistinctMACs(added) && i < |added|
    ensures added[i].indexMAC in PutAll(t, added) && PutAll(t, added)[added[i].indexMAC] == added[i].valueMAC
  {
    hide PutAll, DistinctMACs;
    PutAllAt(t, added, added[i].indexMAC);
  }

  lemma DifferentCopies(t: Table, u: Table, x: Bytes)
    requires Copies(t, x) == 1 && Copies(u, x) == 0
    ensures !SameCopies(t, u)
  {
    hide Copies;
    assert Copies(t, x) % 0x1_0000 == 1 && Copies(u, x) % 0x1_0000 == 0;
  }

  lemma StillFresh(t: Table, removed: seq<Bytes>, added: seq<IndexAndValue>)
    requires FreshMACs(t, added)
    ensures FreshMACs(DeleteAll(t, removed), added)
  {
  }

  lemma SameCopiesOfSelf(t: Table)
    ensures SameCopies(t, t)
  {
  }

  lemma CopiesAfterInsertIff(kept: SqlRows, version: nat, added: seq<IndexAndValue>)
    requires FreshMACs(Seen(kept), added)
    ensures var out := Insert(kept, version, added);
            SameCopies(PutAll(Seen(kept), added), Seen(if out.None? then kept else out.value)) <==>
              Storable(kept, version, added)
  {
    var out := Insert(kept, version, added);
    InsertSucceedsIff(kept, version, added);
    if Storable(kept, version, added) {
      StorableIsShown(kept, version, added);
      SameCopiesOfSelf(PutAll(Seen(kept), added));
    } else if out.None? {
      InsertNothing(kept, version);
      hide Insert, Seen, PutAll, SameCopies;
      RefusedInsert(Seen(kept), added);
    } else {
      hide Insert, Seen, PutAll, SameCopies, Inserted;
      var i, v: nat :| 0 <= i < |added| && Row(v, added[i].indexMAC) in kept && v >= version;
      HiddenInsert(kept, version, added, out.value, i, v);
    }
  }

  /**
   * With fresh values: agreement survives the write of a patch if and only if the store can take what it lists, that
   * is, it lists no index twice, its MACs have 32 bytes, and its version is above those kept for the same indexes.
   */
  lemma FreshWriteAgreesIff(c: SqlCollection, state: HashState, ms: seq<SyncdMutation>)
    requires WellSized(ms) && FreshMACs(Seen(c.rows), AddedOf(ms))
    ensures var t, w := Seen(c.rows), PatchWrite(c, state, ms);
            ((forall expand: Expander, h: Hash :: Agrees(expand, h, t) ==>
              Agrees(expand, SequentialHash(expand, h, t, ms), Seen(w.collection.rows)))
             <==> Storable(Delete(c.rows, RemovedOf(ms)), state.version, AddedOf(ms)))
            && (Storable(Delete(c.rows, RemovedOf(ms)), state.version, AddedOf(ms)) ==>
                  w.ok && Shown(w.collection) == Collection(state, ApplyMutations(t, ms)))
  {
    var kept, added := Delete(c.rows, RemovedOf(ms)), AddedOf(ms);
    hide Agrees, SequentialHash, ApplyMutations, SameCopies, Seen, Insert, Delete, PutAll, AddedOf, RemovedOf, Storable;
    SeenAfterDelete(c.rows, RemovedOf(ms));
    StillFresh(Seen(c.rows), RemovedOf(ms), added);
    ListsAreMutations(Seen(c.rows), ms);
    WriteAgreesIff(c, state, ms);
    CopiesAfterInsertIff(kept, state.version, added);
    if Storable(kept, state.version, added) {
      StorableIsShown(kept, state.version, added);
    }
  }

  /* ---------- Which patches list an index twice ---------- */

  /** A set that no later remove takes back. */
  predicate Lasting(ms: seq<SyncdMutation>, i: nat)
  {
    i < |ms| && ms[i].op.SET? &&
    forall k :: i < k < |ms| && ms[k].op.REMOVE? ==> ms[k].record.index != ms[i].record.index
  }

  /** The index is set twice, and not removed after the first time. */
  predicate SetTwice(ms: seq<SyncdMutation>, x: Bytes)
  {
    exists i: nat, j: nat :: i < j < |ms| && Lasting(ms, i) && ms[j].op.SET? &&
      ms[i].record.index == x == ms[j].record.index
  }

  ghost predicate SetOnce(ms: seq<SyncdMutation>)
  {
    forall x :: !SetTwice(ms, x)
  }

  predicate Twice(macs: seq<IndexAndValue>, x: Bytes)
  {
    exists i, j :: 0 <= i < j < |macs| && macs[i].indexMAC == x == macs[j].indexMAC
  }

  /** The list has a row for the index. */
  predicate Lists(macs: seq<IndexAndValue>, x: Bytes)
  {
    exists i :: 0 <= i < |macs| && macs[i].indexMAC == x
  }

  lemma ListsSnoc(macs: seq<IndexAndValue>, m: IndexAndValue, x: Bytes)
    ensures Lists(macs + [m], x) <==> m.indexMAC == x || Lists(macs, x)
    ensures Twice(macs + [m], x) <==> Twice(macs, x) || (m.indexMAC == x && Lists(macs, x))
  {
    var all := macs + [m];
    assert forall i :: 0 <= i < |macs| ==> all[i] == macs[i];
    assert all[|macs|] == m;
  }

  lemma {:induction false} WithoutIndexLists(macs: seq<IndexAndValue>, k: Bytes, x: Bytes)
    ensures Lists(WithoutIndex(macs, k), x) <==> x != k && Lists(macs, x)
    ensures Twice(WithoutIndex(macs, k), x) <==> x != k && Twice(macs, x)
  {
    if macs != [] {
      var n := |macs| - 1;
      WithoutIndexLists(macs[..n], k, x);
      assert macs == macs[..n] + [macs[n]];
      hide Lists, Twice;
      ListsSnoc(macs[..n], macs[n], x);
      ListsSnoc(WithoutIndex(macs[..n], k), macs[n], x);
    }
  }

  ghost predicate Lasts(ms: seq<SyncdMutation>, x: Bytes)
  {
    exists i: nat :: Lasting(ms, i) && ms[i].record.index == x
  }

  lemma LastingStep(ms: seq<SyncdMutation>, i: nat)
    requires ms != []
    ensures var n := |ms| - 1;
            Lasting(ms, i) <==>
              (i == n && ms[n].op.SET?) ||
                (Lasting(ms[..n], i) && !(ms[n].op.REMOVE? && ms[n].record.index == ms[i].record.index))
  {
    var n := |ms| - 1;
    assert forall i :: 0 <= i < n ==> ms[..n][i] == ms[i];
  }

  lemma LastsStep(ms: seq<SyncdMutation>, x: Bytes)
    requires ms != []
    ensures var n := |ms| - 1;
            var front, m := ms[..n], ms[n];
            && (Lasts(ms, x) <==> if m.record.index == x then m.op.SET? else Lasts(front, x))
            && (SetTwice(ms, x) <==>
                  if m.op.SET? then SetTwice(front, x) || (m.record.index == x && Lasts(front, x))
                  else m.record.index != x && SetTwice(front, x))
  {
    var n := |ms| - 1;
    var front, m := ms[..n], ms[n];
    assert forall i :: 0 <= i < n ==> front[i] == ms[i];
    forall i: nat ensures Lasting(ms, i) <==>
        (i == n && m.op.SET?) || (Lasting(front, i) && !(m.op.REMOVE? && m.record.index == ms[i].record.index)) {
      LastingStep(ms, i);
    }
    assert forall i: nat :: Lasting(front, i) ==> i < n;
    hide Lasting;
    if m.record.index == x && m.op.SET? {
      assert Lasting(ms, n);
    }
    if Lasts(ms, x) && m.record.index != x {
      var i: nat :| Lasting(ms, i) && ms[i].record.index == x;
      assert Lasting(front, i) && front[i].record.index == x;
    }
    if Lasts(front, x) && m.record.index != x {
      var i: nat :| Lasting(front, i) && front[i].record.index == x;
      assert Lasting(ms, i) && ms[i].record.index == x;
    }
    TwiceStep(ms, x);
  }

  lemma TwiceStep(ms: seq<SyncdMutation>, x: Bytes)
    requires ms != []
    ensures var n := |ms| - 1;
            var front, m := ms[..n], ms[n];
            SetTwice(ms, x) <==>
              if m.op.SET? then SetTwice(front, x) || (m.record.index == x && Lasts(front, x))
              else m.record.index != x && SetTwice(front, x)
  {
    var n := |ms| - 1;
    var front, m := ms[..n], ms[n];
    assert forall i :: 0 <= i < n ==> front[i] == ms[i];
    forall i: nat ensures Lasting(ms, i) <==>
        (i == n && m.op.SET?) || (Lasting(front, i) && !(m.op.REMOVE? && m.record.index == ms[i].record.index)) {
      LastingStep(ms, i);
    }
    assert forall i: nat :: Lasting(front, i) ==> i < n;
    hide Lasting;
    if SetTwice(ms, x) {
      var i: nat, j: nat :| i < j < |ms| && Lasting(ms, i) && ms[j].op.SET? &&
          ms[i].record.index == x == ms[j].record.index;
      assert Lasting(front, i) && front[i].record.index == x;
      if j < n {
        assert front[j].op.SET?;
        assert SetTwice(front, x);
      }
    }
    if SetTwice(front, x) && !(m.op.REMOVE? && m.record.index == x) {
      var i: nat, j: nat :| i < j < |front| && Lasting(front, i) && front[j].op.SET? &&
          front[i].record.index == x == front[j].record.index;
      assert Lasting(ms, i) && ms[j].op.SET? && ms[i].record.index == x == ms[j].record.index;
    }
    if m.op.SET? && m.record.index == x && Lasts(front, x) {
      var i: nat :| Lasting(front, i) && front[i].record.index == x;
      assert i < n && Lasting(ms, i) && ms[i].record.index == x == ms[n].record.index && ms[n].op.SET?;
    }
  }

  /** A patch lists an index for insertion if it sets it for good, and lists it twice if it does so twice. */
  lemma {:induction false} ListedIff(ms: seq<SyncdMutation>, x: Bytes)
    requires WellSized(ms)
    ensures (Lists(AddedOf(ms), x) <==> Lasts(ms, x)) && (Twice(AddedOf(ms), x) <==> SetTwice(ms, x))
  {
    if ms == [] {
      assert !Lasts(ms, x) && !SetTwice(ms, x);
    } else {
      hide Lists, Twice, Lasts, SetTwice, WithoutIndex;
      var n := |ms| - 1;
      var front, m := ms[..n], ms[n];
      ListedIff(front, x);
      LastsStep(ms, x);
      if m.op.REMOVE? {
        WithoutIndexLists(AddedOf(front), m.record.index, x);
      } else {
        ListsSnoc(AddedOf(front), IndexAndValue(m.record.index, ValueMAC(m.record.value)), x);
      }
    }
  }

  lemma DistinctIffNeverTwice(macs: seq<IndexAndValue>)
    ensures DistinctMACs(macs) <==> forall x :: !Twice(macs, x)
  {
    if i, j :| 0 <= i < j < |macs| && macs[i].indexMAC == macs[j].indexMAC {
      assert Twice(macs, macs[i].indexMAC);
    }
  }

  /**
   * The rows a patch lists are distinct if and only if it sets no index twice without removing it after the first time.
   */
  lemma DistinctIffSetOnce(ms: seq<SyncdMutation>)
    requires WellSized(ms)
    ensures DistinctMACs(AddedOf(ms)) <==> SetOnce(ms)
  {
    hide Twice, SetTwice, AddedOf, DistinctMACs;
    DistinctIffNeverTwice(AddedOf(ms));
    forall x ensures Twice(AddedOf(ms), x) <==> SetTwice(ms, x) {
      ListedIff(ms, x);
    }
  }

  /**
   * A patch that sets an index twice, with fresh values: the insert is refused after version and hash are written,
   * and under some expansion hash and table no longer agree.
   */
  lemma RepeatedSetBreaks(c: SqlCollection, state: HashState, ms: seq<SyncdMutation>)
    returns (expand: Expander, h: Hash)
    requires WellSized(ms) && FreshMACs(Seen(c.rows), AddedOf(ms)) && !SetOnce(ms)
    ensures var t, w := Seen(c.rows), PatchWrite(c, state, ms);
            && !w.ok && w.collection.state == state && Agrees(expand, h, t)
            && !Agrees(expand, SequentialHash(expand, h, t, ms), Seen(w.collection.rows))
  {
    hide Agrees, SequentialHash, Seen, AddedOf, Insert, SetOnce, DistinctMACs, FreshMACs;
    DistinctIffSetOnce(ms);
    InsertSucceedsIff(Delete(c.rows, RemovedOf(ms)), state.version, AddedOf(ms));
    FreshWriteAgreesIff(c, state, ms);
    var t, after := Seen(c.rows), Seen(PatchWrite(c, state, ms).collection.rows);
    expand, h :| Agrees(expand, h, t) && !Agrees(expand, SequentialHash(expand, h, t, ms), after);
  }

  /** With fresh values, a write that the store does not take loses agreement under some expansion. */
  lemma UntakenBreaks(c: SqlCollection, state: HashState, ms: seq<SyncdMutation>) returns (expand: Expander, h: Hash)
    requires WellSized(ms) && FreshMACs(Seen(c.rows), AddedOf(ms)) && !TakesPatch(c, state.version, ms)
    ensures var t, w := Seen(c.rows), PatchWrite(c, state, ms);
            Agrees(expand, h, t) && !Agrees(expand, SequentialHash(expand, h, t, ms), Seen(w.collection.rows))
  {
    var kept, added := Delete(c.rows, RemovedOf(ms)), AddedOf(ms);
    hide Agrees, SequentialHash, Seen, AddedOf, Insert, FreshMACs, Takes, Storable;
    FreshWriteAgreesIff(c, state, ms);
    if Storable(kept, state.version, added) {
      StorableIsTaken(kept, state.version, added);
      assert false;
    }
    var t, after := Seen(c.rows), Seen(PatchWrite(c, state, ms).collection.rows);
    expand, h :| Agrees(expand, h, t) && !Agrees(expand, SequentialHash(expand, h, t, ms), after);
  }

  /* ---------- Snapshots ---------- */

  /** How often a value is stored once the snapshot's values are added to what was there. */
  function Expected(t: Table, ms: seq<SyncdMutation>, x: Bytes): nat
    requires WellSized(ms)
  {
    Copies(t, x) + multiset(Added(ms))[x]
  }

  lemma AgreesWithList(expand: Expander, h: Hash, t: Table)
    ensures Agrees(expand, h, t) <==>
            forall j: nat :: j < WORDS ==> Word(h, j) == Sum(Weight(expand, j), Listed(t)) % 0x1_0000
  {
    hide MapSum, Sum, Listed, Weight;
    TableSums(expand, t, t);
  }

  lemma SnapshotHashAgreesIff(expand: Expander, h: Hash, t: Table, ms: seq<SyncdMutation>, after: Table)
    requires WellSized(ms) && Agrees(expand, h, t)
    ensures Agrees(expand, SubtractThenAdd(expand, h, [], Added(ms)), after)
       <==> SameSums(expand, Listed(t) + Added(ms), Listed(after))
  {
    hide Sum, Listed, Weight, Added, SubtractThenAdd, Agrees, Word;
    var g := SubtractThenAdd(expand, h, [], Added(ms));
    AgreesWithList(expand, h, t);
    AgreesWithList(expand, g, after);
    NothingSums(expand);
    forall j: nat | j < WORDS ensures Word(g, j) == Sum(Weight(expand, j), Listed(t) + Added(ms)) % 0x1_0000 {
      SubtractThenAddWord(expand, h, [], Added(ms), j);
      SumAppend(Weight(expand, j), Listed(t), Added(ms));
      ModShift(Sum(Weight(expand, j), Listed(t)), Sum(Weight(expand, j), Added(ms)));
    }
  }

  /**
   * For every snapshot and any rows: after its write the new hash agrees with what is stored, under every expansion,
   * if and only if each value is stored as often as before plus as often as the snapshot has it, modulo 2^16.
   */
  lemma SnapshotWriteAgreesIff(c: SqlCollection, state: HashState, ms: seq<SyncdMutation>)
    requires WellSized(ms)
    ensures var t, after := Seen(c.rows), Seen(PatchWrite(c, state, ms).collection.rows);
            (forall expand: Expander, h: Hash ::
               Agrees(expand, h, t) ==> Agrees(expand, SubtractThenAdd(expand, h, [], Added(ms)), after))
            <==> forall x :: Copies(after, x) % 0x1_0000 == Expected(t, ms, x) % 0x1_0000
  {
    hide Agrees, Seen, PatchWrite, SumHash, Added, SubtractThenAdd, SameSums, Congruent, Listed, Expected, Copies;
    var t, after := Seen(c.rows), Seen(PatchWrite(c, state, ms).collection.rows);
    var list := Listed(t) + Added(ms);
    SumsAgreeIff(list, Listed(after));
    ExpectedCounts(t, ms, after);
    if Congruent(list, Listed(after)) {
      forall expand: Expander, h: Hash | Agrees(expand, h, t)
        ensures Agrees(expand, SubtractThenAdd(expand, h, [], Added(ms)), after)
      {
        SnapshotHashAgreesIff(expand, h, t, ms, after);
        assert SameSums(expand, list, Listed(after));
      }
    } else {
      var expand: Expander :| !SameSums(expand, list, Listed(after));
      SumHashAgrees(expand, t);
      SnapshotHashAgreesIff(expand, SumHash(expand, t), t, ms, after);
    }
  }

  lemma ExpectedCounts(t: Table, ms: seq<SyncdMutation>, after: Table)
    requires WellSized(ms)
    ensures Congruent(Listed(t) + Added(ms), Listed(after))
       <==> forall x :: Copies(after, x) % 0x1_0000 == Expected(t, ms, x) % 0x1_0000
  {
    hide Listed, Copies, Added;
    forall x ensures multiset(Listed(t) + Added(ms))[x] == Expected(t, ms, x) &&
        multiset(Listed(after))[x] == Copies(after, x) {
      ListedCopies(t, x);
      ListedCopies(after, x);
    }
  }

  lemma {:induction false} RowsOfSets(ms: seq<SyncdMutation>)
    requires WellSized(ms) && AllSets(ms)
    ensures RemovedOf(ms) == [] && |AddedOf(ms)| == |ms| == |Added(ms)|
    ensures forall i :: 0 <= i < |ms| ==> AddedOf(ms)[i] == IndexAndValue(ms[i].record.index, Added(ms)[i])
  {
    hide ValueMAC;
    if ms != [] {
      var n := |ms| - 1;
      RowsOfSets(ms[..n]);
      assert RemovedOf(ms) == RemovedOf(ms[..n]) && Added(ms) == Added(ms[..n]) + [ValueMAC(ms[n].record.value)];
      assert AddedOf(ms) == AddedOf(ms[..n]) + [IndexAndValue(ms[n].record.index, ValueMAC(ms[n].record.value))];
      hide AddedOf, Added, RemovedOf;
      forall i | 0 <= i < |ms| ensures AddedOf(ms)[i] == IndexAndValue(ms[i].record.index, Added(ms)[i]) {
        assert i < n ==> ms[..n][i] == ms[i];
      }
    }
  }

  /**
   * A snapshot of pairwise different values on an empty collection: agreement survives its write if and only if no
   * index occurs twice and all MACs have 32 bytes. Otherwise its version and hash stand over an empty table.
   */
  lemma FreshSnapshotWriteAgreesIff(c: SqlCollection, state: HashState, ms: seq<SyncdMutation>)
    requires WellSized(ms) && AllSets(ms) && c.rows == map[] && FreshMACs(map[], AddedOf(ms))
    ensures var w := PatchWrite(c, state, ms);
            ((forall expand: Expander, h: Hash :: Agrees(expand, h, map[]) ==>
                Agrees(expand, SubtractThenAdd(expand, h, [], Added(ms)), Seen(w.collection.rows)))
             <==> DistinctMACs(AddedOf(ms)) && AllFit(AddedOf(ms)))
  {
    hide Seen, PatchWrite, PutAll, AddedOf, Agrees, SubtractThenAdd, Expected, Copies, DistinctMACs, AllFit, FreshMACs;
    var added := AddedOf(ms);
    FirstWrite(c, state, ms);
    SnapshotWriteAgreesIff(c, state, ms);
    if DistinctMACs(added) && AllFit(added) {
      forall x ensures Copies(PutAll(map[], added), x) == Expected(map[], ms, x) {
        PutCounts(ms, x);
      }
    } else {
      NotNothing(ms);
      LastCount(ms);
      UnequalCount(ms);
    }
  }

  lemma NotNothing(ms: seq<SyncdMutation>)
    requires WellSized(ms) && !(DistinctMACs(AddedOf(ms)) && AllFit(AddedOf(ms)))
    ensures ms != []
  {
  }

  lemma UnequalCount(ms: seq<SyncdMutation>)
    requires WellSized(ms) && ms != [] && |Added(ms)| == |ms| && multiset(Added(ms))[Added(ms)[|ms| - 1]] == 1
    ensures exists x :: Copies(map[], x) % 0x1_0000 != Expected(map[], ms, x) % 0x1_0000
  {
    hide Copies, Added;
    var x := Added(ms)[|ms| - 1];
    NothingStored(x);
    assert Copies(map[], x) % 0x1_0000 != Expected(map[], ms, x) % 0x1_0000;
  }

  /** What the first write of a collection shows: all of it, or nothing. */
  lemma FirstWrite(c: SqlCollection, state: HashState, ms: seq<SyncdMutation>)
    requires WellSized(ms) && AllSets(ms) && c.rows == map[]
    ensures Seen(c.rows) == map[]
    ensures Seen(PatchWrite(c, state, ms).collection.rows) ==
            if DistinctMACs(AddedOf(ms)) && AllFit(AddedOf(ms)) then PutAll(map[], AddedOf(ms)) else map[]
  {
    hide AddedOf, PutAll, Insert, Seen, Delete, DistinctMACs, AllFit;
    RowsOfSets(ms);
    NothingSeen();
    InsertFirst(state.version, AddedOf(ms));
  }

  lemma NothingSeen()
    ensures Seen(map[]) == map[] && Delete(map[], []) == map[]
  {
  }

  lemma InsertFirst(version: nat, added: seq<IndexAndValue>)
    ensures Insert(map[], version, added).Some? <==> DistinctMACs(added) && AllFit(added)
    ensures Insert(map[], version, added).Some? ==> Seen(Insert(map[], version, added).value) == PutAll(map[], added)
  {
    hide PutAll, Insert, Seen, DistinctMACs, AllFit;
    NothingSeen();
    assert Free(map[], version, added);
    InsertSucceedsIff(map[], version, added);
    if DistinctMACs(added) && AllFit(added) {
      assert Storable(map[], version, added);
      StorableIsShown(map[], version, added);
    }
  }

  lemma NothingStored(x: Bytes)
    ensures Copies(map[], x) == 0
  {
    CopiesBounded(map[], x);
  }

  lemma LastCount(ms: seq<SyncdMutation>)
    requires WellSized(ms) && AllSets(ms) && ms != [] && FreshMACs(map[], AddedOf(ms))
    ensures |Added(ms)| == |ms| && multiset(Added(ms))[Added(ms)[|ms| - 1]] == 1
  {
    RowsOfSets(ms);
    hide AddedOf;
    var vs, n := Added(ms), |ms| - 1;
    assert forall i :: 0 <= i < n ==> AddedOf(ms)[i].valueMAC != AddedOf(ms)[n].valueMAC;
    AbsentCount(vs[..n], vs[n]);
    CountStep(vs, vs[n]);
  }

  /** With distinct indexes, every value is stored as often as it is put. */
  lemma {:induction false} PutCounts(ms: seq<SyncdMutation>, x: Bytes)
    requires WellSized(ms) && AllSets(ms) && DistinctMACs(AddedOf(ms))
    ensures Copies(PutAll(map[], AddedOf(ms)), x) == Expected(map[], ms, x)
  {
    NothingStored(x);
    if ms != [] {
      hide Copies, Added, AddedOf;
      var n := |ms| - 1;
      SetsStep(ms);
      var before, m := AddedOf(ms[..n]), AddedOf(ms)[n];
      assert forall i :: 0 <= i < n ==> before[i] == AddedOf(ms)[i];
      PutCounts(ms[..n], x);
      PutOneMore(map[], before, m);
      NotPut(before, m.indexMAC);
      CopiesWithNew(PutAll(map[], before), m.indexMAC, m.valueMAC, x);
      CountSnoc(Added(ms[..n]), m.valueMAC, x);
    }
  }

  lemma SetsStep(ms: seq<SyncdMutation>)
    requires WellSized(ms) && AllSets(ms) && ms != []
    ensures var n := |ms| - 1;
            && |AddedOf(ms[..n])| == n && |AddedOf(ms)| == |ms|
            && AddedOf(ms) == AddedOf(ms[..n]) + [AddedOf(ms)[n]]
            && Added(ms) == Added(ms[..n]) + [AddedOf(ms)[n].valueMAC]
  {
    RowsOfSets(ms);
    RowsOfSets(ms[..|ms| - 1]);
  }

  lemma NotPut(macs: seq<IndexAndValue>, k: Bytes)
    requires forall i :: 0 <= i < |macs| ==> macs[i].indexMAC != k
    ensures k !in PutAll(map[], macs)
  {
    if k in PutAll(map[], macs) {
      var i := ValuesAfterPut(map[], macs, k);
      assert false;
    }
  }

  lemma CopiesWithNew(t: Table, k: Bytes, v: Bytes, x: Bytes)
    requires k !in t
    ensures Copies(t[k := v], x) == Copies(t, x) + if v == x then 1 else 0
  {
    CopiesWithout(t[k := v], k, x);
    assert t[k := v] - {k} == t;
  }
}
