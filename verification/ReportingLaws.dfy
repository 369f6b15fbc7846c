/** What follows for the reporting filter from computing a tree transformation. */
module ReportingLaws {
  import opened Bytes
  import opened Reporting
  import opened ReportingFilter

  /* ---------- Sizes never grow ---------- */

  lemma {:induction false} UvarintSizeMonotone(a: nat, b: nat)
    requires a <= b
    ensures |PutUvarint(a)| <= |PutUvarint(b)|
    decreases b
  {
    if a >= 128 {
      UvarintSizeMonotone(a / 128, b / 128);
    }
  }

  lemma {:induction false} EncodeAppend(a: seq<Field>, b: seq<Field>)
    ensures Encode(a + b) == Encode(a) + Encode(b)
  {
    hide EncodeField;
    if a == [] {
      assert a + b == b;
    } else {
      EncodeAppend(a[1..], b);
      assert (a + b)[1..] == a[1..] + b && (a + b)[0] == a[0];
      assert EncodeField(a[0]) + (Encode(a[1..]) + Encode(b)) == EncodeField(a[0]) + Encode(a[1..]) + Encode(b);
    }
  }

  lemma {:induction false} InsertSize(f: Field, fs: seq<Field>)
    ensures |Encode(Insert(f, fs))| == |EncodeField(f)| + |Encode(fs)|
  {
    hide EncodeField;
    EncodeAppend([f], fs);
    OneField(f);
    if fs == [] {
      assert [f] + fs == [f];
    } else if f.number > fs[0].number {
      InsertSize(f, fs[1..]);
      EncodeAppend([fs[0]], Insert(f, fs[1..]));
      OneField(fs[0]);
    }
  }

  lemma OneField(f: Field)
    ensures Encode([f]) == EncodeField(f)
  {
    hide EncodeField;
    assert [f][1..] == [] && Encode([]) == [];
  }

  lemma {:induction false} SortSize(fs: seq<Field>)
    ensures |Encode(Sort(fs))| == |Encode(fs)|
  {
    hide EncodeField;
    if fs != [] {
      SortSize(fs[1..]);
      InsertSize(fs[0], Sort(fs[1..]));
    }
  }

  lemma {:induction false} KeepFieldShrinks(config: seq<Config>, f: Field)
    ensures |Encode(KeepField(config, f))| <= |EncodeField(f)|
    decreases f, 1
  {
    hide PutUvarint, Find;
    OneField(f);
    var c := Find(config, f.number);
    if c.Some? && Descends(c.value) && f.payload.Message? {
      var sub := Filter(c.value.subfields, f.payload.fields);
      FilterShrinks(c.value.subfields, f.payload.fields);
      UvarintSizeMonotone(|Encode(sub)|, |Encode(f.payload.fields)|);
      OneField(Field(f.number, Message(sub)));
    }
  }

  lemma {:induction false} FilterShrinks(config: seq<Config>, fs: seq<Field>)
    ensures |Encode(Filter(config, fs))| <= |Encode(fs)|
    decreases fs, 1
  {
    KeepAllShrinks(config, fs);
    SortSize(KeepAll(config, fs));
  }

  lemma {:induction false} KeepAllShrinks(config: seq<Config>, fs: seq<Field>)
    ensures |Encode(KeepAll(config, fs))| <= |Encode(fs)|
    decreases fs, 0
  {
    hide EncodeField, KeepField;
    if fs != [] {
      KeepFieldShrinks(config, fs[0]);
      KeepAllShrinks(config, fs[1..]);
      EncodeAppend(KeepField(config, fs[0]), KeepAll(config, fs[1..]));
    }
  }

  /* ---------- The filtered tree is again such a message, and filtering leaves it alone ---------- */

  /** A field that is well formed, fits the configuration and is kept as it is. */
  predicate Settled(config: seq<Config>, f: Field)
  {
    WellFormed(f) && FieldFits(config, f) && KeepField(config, f) == [f]
  }

  predicate AllSettled(config: seq<Config>, fs: seq<Field>)
  {
    forall i :: 0 <= i < |fs| ==> Settled(config, fs[i])
  }

  lemma {:induction false} SortedIsFixed(fs: seq<Field>)
    requires SortedFields(fs)
    ensures Sort(fs) == fs
  {
    if fs != [] {
      SortedIsFixed(fs[1..]);
      assert fs == [fs[0]] + fs[1..];
    }
  }

  lemma {:induction false} SettledIsFixed(config: seq<Config>, fs: seq<Field>)
    requires AllSettled(config, fs)
    ensures KeepAll(config, fs) == fs
  {
    hide KeepField, WellFormed, FieldFits;
    if fs != [] {
      SettledIsFixed(config, fs[1..]);
      assert fs == [fs[0]] + fs[1..];
    }
  }

  lemma {:induction false} InsertDistinct(f: Field, fs: seq<Field>)
    requires DistinctNumbers(fs) && forall i :: 0 <= i < |fs| ==> fs[i].number != f.number
    ensures DistinctNumbers(Insert(f, fs))
  {
    if fs != [] && f.number > fs[0].number {
      var rest := Insert(f, fs[1..]);
      InsertDistinct(f, fs[1..]);
      InsertPermutes(f, fs[1..]);
      forall j | 0 <= j < |rest| ensures fs[0].number != rest[j].number {
        assert rest[j] in multiset(rest);
        assert rest[j] == f || rest[j] in fs[1..];
      }
      hide Insert;
      assert DistinctNumbers([fs[0]] + rest);
    }
  }

  lemma {:induction false} SortDistinct(fs: seq<Field>)
    requires DistinctNumbers(fs)
    ensures DistinctNumbers(Sort(fs))
  {
    if fs != [] {
      var rest := Sort(fs[1..]);
      SortDistinct(fs[1..]);
      SortSorts(fs[1..]);
      forall j | 0 <= j < |rest| ensures rest[j].number != fs[0].number {
        assert rest[j] in multiset(rest);
        assert rest[j] in fs[1..];
      }
      InsertDistinct(fs[0], rest);
    }
  }

  lemma {:induction false} SettledAfterSort(config: seq<Config>, fs: seq<Field>)
    requires AllSettled(config, fs)
    ensures AllSettled(config, Sort(fs))
  {
    hide Settled;
    SortSorts(fs);
    var r := Sort(fs);
    forall i | 0 <= i < |r| ensures Settled(config, r[i]) {
      assert r[i] in multiset(r);
      assert r[i] in fs;
    }
  }

  lemma {:induction false} KeptIsSettled(config: seq<Config>, f: Field)
    requires WellFormed(f) && FieldFits(config, f)
    ensures AllSettled(config, KeepField(config, f))
    decreases f, 1
  {
    hide Find;
    var c := Find(config, f.number);
    if c.Some? && Descends(c.value) && f.payload.Message? {
      var subs, fs := c.value.subfields, f.payload.fields;
      var sub := Filter(subs, fs);
      FilterSettles(subs, fs);
      FilterShrinks(subs, fs);
      hide Filter, Encode;
      if sub != [] {
        assert Settled(config, Field(f.number, Message(sub)));
      }
    }
  }

  lemma {:induction false} KeepAllSettles(config: seq<Config>, fs: seq<Field>)
    requires AllWellFormed(fs) && forall i :: 0 <= i < |fs| ==> FieldFits(config, fs[i])
    ensures AllSettled(config, KeepAll(config, fs))
    decreases fs, 0
  {
    if fs != [] {
      KeptIsSettled(config, fs[0]);
      KeepAllSettles(config, fs[1..]);
      hide Settled, KeepField;
    }
  }

  lemma {:induction false} FilterSettles(config: seq<Config>, fs: seq<Field>)
    requires AllWellFormed(fs) && Fits(config, fs)
    ensures AllWellFormed(Filter(config, fs)) && Fits(config, Filter(config, fs))
    ensures Filter(config, Filter(config, fs)) == Filter(config, fs)
    decreases fs, 1
  {
    hide FieldFits, WellFormed, KeepField;
    var kept := KeepAll(config, fs);
    KeepAllSettles(config, fs);
    SettledAfterSort(config, kept);
    KeptAreDistinct(config, fs);
    SortDistinct(kept);
    SortSorts(kept);
    var out := Filter(config, fs);
    SettledIsFixed(config, out);
    SortedIsFixed(out);
    assert forall i :: 0 <= i < |out| ==> Settled(config, out[i]);
  }

  /** Extracting from what was extracted changes nothing. */
  lemma ExtractionIsIdempotent(sort: Sorter, config: seq<Config>, fs: seq<Field>)
    requires SortsByNumber(sort) && AllWellFormed(fs) && Fits(config, fs)
    ensures var out := Extract(sort, Encode(fs), config);
            out.Some? && Extract(sort, out.value, config) == out
  {
    hide Extract, Filter, Fits, AllWellFormed, Encode;
    FilterIsExtraction(sort, config, fs);
    FilterSettles(config, fs);
    FilterIsExtraction(sort, config, Filter(config, fs));
  }

  /* ---------- The order of fields ---------- */

  lemma {:induction false} KeepAllAppend(config: seq<Config>, a: seq<Field>, b: seq<Field>)
    ensures KeepAll(config, a + b) == KeepAll(config, a) + KeepAll(config, b)
  {
    hide KeepField;
    if a == [] {
      assert a + b == b;
    } else {
      KeepAllAppend(config, a[1..], b);
      assert (a + b)[1..] == a[1..] + b && (a + b)[0] == a[0];
    }
  }

  lemma {:induction false} KeepAllPermutes(config: seq<Config>, a: seq<Field>, b: seq<Field>)
    requires multiset(a) == multiset(b)
    ensures multiset(KeepAll(config, a)) == multiset(KeepAll(config, b))
  {
    hide KeepField, KeepAll;
    if a == [] {
      NothingLeft(b);
    } else {
      var i := PositionOf(b, a[0], a);
      TailMultiset(a);
      Without(b, i);
      KeepAllPermutes(config, a[1..], b[..i] + b[i + 1..]);
      KeepAround(config, a, 0);
      KeepAround(config, b, i);
      assert a[..0] + a[1..] == a[1..];
    }
  }

  lemma KeepAround(config: seq<Config>, b: seq<Field>, i: nat)
    requires i < |b|
    ensures multiset(KeepAll(config, b))
         == multiset(KeepAll(config, [b[i]])) + multiset(KeepAll(config, b[..i] + b[i + 1..]))
  {
    hide KeepField, KeepAll;
    var front, back := b[..i], b[i + 1..];
    assert b == front + ([b[i]] + back);
    KeepAllAppend(config, front, back);
    KeepAllAppend(config, front, [b[i]] + back);
    KeepAllAppend(config, [b[i]], back);
  }

  lemma PositionOf(b: seq<Field>, x: Field, a: seq<Field>) returns (i: nat)
    requires multiset(a) == multiset(b) && x in a
    ensures i < |b| && b[i] == x
  {
    assert x in multiset(b);
    i :| 0 <= i < |b| && b[i] == x;
  }

  lemma Without(b: seq<Field>, i: nat)
    requires i < |b|
    ensures multiset(b[..i] + b[i + 1..]) == multiset(b) - multiset{b[i]}
  {
    assert b == b[..i] + ([b[i]] + b[i + 1..]);
    ConsMultiset(b[i], b[i + 1..]);
  }

  lemma {:induction false} EntriesPermute(a: seq<Field>, b: seq<Field>)
    requires multiset(a) == multiset(b)
    ensures multiset(AsEntries(a)) == multiset(AsEntries(b))
  {
    hide EntryOf, AsEntries;
    if a == [] {
      NothingLeft(b);
    } else {
      var i := PositionOf(b, a[0], a);
      TailMultiset(a);
      Without(b, i);
      EntriesPermute(a[1..], b[..i] + b[i + 1..]);
      ConsEntries(a[0], a[1..]);
      assert a == [a[0]] + a[1..];
      EntriesAround(b, i);
    }
  }

  lemma EntriesAround(b: seq<Field>, i: nat)
    requires i < |b|
    ensures multiset(AsEntries(b)) == multiset{EntryOf(b[i])} + multiset(AsEntries(b[..i] + b[i + 1..]))
  {
    hide EntryOf, AsEntries;
    EntriesSplit(b, i);
    AsEntriesAppend(b[..i], b[i + 1..]);
    MiddleMultiset(AsEntries(b[..i]), EntryOf(b[i]), AsEntries(b[i + 1..]));
  }

  lemma ConsedEntries(f: Field, fs: seq<Field>)
    ensures AsEntries([f] + fs) == [EntryOf(f)] + AsEntries(fs)
  {
    hide EntryOf, AsEntries;
    ConsEntries(f, fs);
  }

  lemma EntriesSplit(b: seq<Field>, i: nat)
    requires i < |b|
    ensures AsEntries(b) == AsEntries(b[..i]) + ([EntryOf(b[i])] + AsEntries(b[i + 1..]))
  {
    hide EntryOf, AsEntries;
    var front, back := b[..i], b[i + 1..];
    var tail := [b[i]] + back;
    assert b == front + tail;
    AsEntriesAppend(front, tail);
    ConsedEntries(b[i], back);
  }

  /** Two messages with the same fields in any order, extracted with any two sorts, give the same bytes. */
  lemma OrderIsIrrelevant(sort: Sorter, sort': Sorter, config: seq<Config>, fs: seq<Field>, gs: seq<Field>)
    requires SortsByNumber(sort) && SortsByNumber(sort') && multiset(fs) == multiset(gs)
    requires AllWellFormed(fs) && Fits(config, fs) && AllWellFormed(gs) && Fits(config, gs)
    ensures Extract(sort, Encode(fs), config) == Extract(sort', Encode(gs), config)
  {
    FilterIsExtraction(sort, config, fs);
    FilterIsExtraction(sort', config, gs);
    hide Extract, Encode, FieldFits, WellFormed;
    KeepAllPermutes(config, fs, gs);
    KeptAreDistinct(config, fs);
    SameSorted(KeepAll(config, fs), KeepAll(config, gs));
  }

  lemma SameSorted(a: seq<Field>, b: seq<Field>)
    requires multiset(a) == multiset(b) && DistinctNumbers(a)
    ensures Encode(Sort(a)) == Encode(Sort(b))
  {
    hide EncodeField, Sort;
    SortSorts(a);
    SortSorts(b);
    EntriesPermute(a, Sort(a));
    EntriesPermute(a, Sort(b));
    var x, y := AsEntries(Sort(a)), AsEntries(Sort(b));
    DistinctTies(a, x);
    SortedEntries(Sort(a));
    SortedEntries(Sort(b));
    SortedOrderIsUnique(x, y);
    ConcatIsEncode(Sort(a));
    ConcatIsEncode(Sort(b));
  }

  /* ---------- What the configuration means ---------- */

  /** The first entry with the number counts, and only one with the number. */
  lemma {:induction false} FirstIsFound(config: seq<Config>, number: int)
    ensures Find(config, number).None? <==> forall i :: 0 <= i < |config| ==> config[i].number != number
    ensures Find(config, number).Some? ==>
              exists i :: 0 <= i < |config| && config[i] == Find(config, number).value && config[i].number == number
                          && forall j :: 0 <= j < i ==> config[j].number != number
  {
    if config != [] {
      FirstIsFound(config[1..], number);
      assert forall i :: 0 < i < |config| ==> config[i] == config[1..][i - 1];
      if config[0].number != number && Find(config, number).Some? {
        var i :| 0 <= i < |config[1..]| && config[1..][i] == Find(config, number).value &&
            config[1..][i].number == number
                 && forall j :: 0 <= j < i ==> config[1..][j].number != number;
        assert config[i + 1] == config[1..][i];
        forall j | 0 <= j < i + 1 ensures config[j].number != number {
          assert j > 0 ==> config[j] == config[1..][j - 1];
        }
      }
    }
  }

  /**
   * One field with a submessage of one varint field: copied whole if the configuration names it alone, cut down to the
   * configured subfields if it names any, and dropped if it is said to be a message and none is named.
   */
  lemma WhatIsKept(number: nat, sub: nat, v: nat)
    ensures var f := Field(number, Message([Field(sub, Varint(v))]));
            && KeepField([Config(number, false, [])], f) == [f]
            && KeepField([Config(number, false, [Config(sub, false, [])])], f) == [f]
            && KeepField([Config(number, true, [Config(sub, false, [])])], f) == [f]
            && KeepField([Config(number, false, [Config(sub + 1, false, [])])], f) == []
            && KeepField([Config(number, true, [])], f) == []
            && KeepField([Config(number + 1, true, [])], f) == []
  {
    var f := Field(number, Message([Field(sub, Varint(v))]));
    OneKept([Config(sub, false, [])], Field(sub, Varint(v)), true);
    assert [Config(sub + 1, false, [])][1..] == [];
    OneKept([Config(sub + 1, false, [])], Field(sub, Varint(v)), false);
    OneKept([], Field(sub, Varint(v)), false);
    var other := [Config(number + 1, true, [])];
    assert other[1..] == [] && Find(other[1..], number) == None;
    assert Find(other, number) == None;
    hide Filter;
  }

  lemma OneKept(config: seq<Config>, f: Field, kept: bool)
    requires f.payload.Varint? && kept == Find(config, f.number).Some?
    ensures Filter(config, [f]) == if kept then [f] else []
  {
    assert [f][1..] == [] && KeepAll(config, []) == [];
    assert KeepAll(config, [f]) == (if kept then [f] else []) + [];
    assert kept ==> Sort([f]) == Insert(f, Sort([f][1..]));
  }

  /** Varints are little-endian groups of seven bits: 300 is two bytes. */
  lemma VarintBytes()
    ensures PutUvarint(300) == [172, 2] && ReadUvarint([172, 2], 0) == Value(300, 2)
  {
    assert PutUvarint(2) == [2];
    assert [172, 2][1..] == [2];
  }
}
