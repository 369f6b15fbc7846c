/** The byte-level extraction computes the tree filter; hence it is idempotent and blind to the order of fields. */
module ReportingFilter {
  import opened Bytes
  import opened Reporting

  function EntryOf(f: Field): Entry
  {
    Entry(f.number, EncodeField(f))
  }

  function AsEntries(fs: seq<Field>): (es: seq<Entry>)
    ensures |es| == |fs|
  {
    if fs == [] then [] else [EntryOf(fs[0])] + AsEntries(fs[1..])
  }

  lemma {:induction false} AsEntriesAt(fs: seq<Field>, i: nat)
    requires i < |fs|
    ensures AsEntries(fs)[i] == EntryOf(fs[i])
  {
    hide EntryOf;
    if i > 0 {
      AsEntriesAt(fs[1..], i - 1);
    }
  }

  lemma {:induction false} AsEntriesAppend(a: seq<Field>, b: seq<Field>)
    ensures AsEntries(a + b) == AsEntries(a) + AsEntries(b)
  {
    hide EntryOf;
    if a == [] {
      assert a + b == b;
    } else {
      AsEntriesAppend(a[1..], b);
      assert (a + b)[1..] == a[1..] + b && (a + b)[0] == a[0];
    }
  }

  lemma {:induction false} ConcatIsEncode(fs: seq<Field>)
    ensures Concat(AsEntries(fs)) == Encode(fs)
  {
    hide EncodeField;
    if fs != [] {
      ConcatIsEncode(fs[1..]);
      assert AsEntries(fs)[1..] == AsEntries(fs[1..]);
    }
  }

  /* ---------- Sorting ---------- */

  predicate DistinctNumbers(fs: seq<Field>)
  {
    forall i, j :: 0 <= i < j < |fs| ==> fs[i].number != fs[j].number
  }

  predicate SortedFields(fs: seq<Field>)
  {
    forall i, j :: 0 <= i < j < |fs| ==> fs[i].number <= fs[j].number
  }

  lemma {:induction false} InsertPermutes(f: Field, fs: seq<Field>)
    ensures multiset(Insert(f, fs)) == multiset{f} + multiset(fs)
  {
    if fs != [] && f.number > fs[0].number {
      InsertPermutes(f, fs[1..]);
      assert fs == [fs[0]] + fs[1..];
    }
  }

  lemma {:induction false} InsertSorts(f: Field, fs: seq<Field>)
    requires SortedFields(fs)
    ensures SortedFields(Insert(f, fs))
  {
    if fs != [] && f.number > fs[0].number {
      var rest := Insert(f, fs[1..]);
      InsertSorts(f, fs[1..]);
      InsertPermutes(f, fs[1..]);
      forall j | 0 <= j < |rest| ensures fs[0].number <= rest[j].number {
        assert rest[j] in multiset(rest);
        assert rest[j] == f || rest[j] in fs[1..];
      }
      hide Insert;
      assert SortedFields([fs[0]] + rest);
    }
  }

  lemma {:induction false} SortSorts(fs: seq<Field>)
    ensures SortedFields(Sort(fs)) && multiset(Sort(fs)) == multiset(fs)
  {
    if fs != [] {
      SortSorts(fs[1..]);
      InsertSorts(fs[0], Sort(fs[1..]));
      InsertPermutes(fs[0], Sort(fs[1..]));
      assert fs == [fs[0]] + fs[1..];
      hide Insert, SortedFields;
    }
  }

  /** Entries with the same number are the same entry. */
  ghost predicate TiesEqual(es: seq<Entry>)
  {
    forall x, y :: x in es && y in es && x.number == y.number ==> x == y
  }

  lemma SortedHead(a: seq<Entry>, b: seq<Entry>)
    requires a != [] && multiset(a) == multiset(b) && SortedByNumber(a) && SortedByNumber(b)
    ensures b != [] && b[0] in a && a[0].number == b[0].number
  {
    assert a[0] in multiset(b);
    var i :| 0 <= i < |b| && b[i] == a[0];
    assert b[0] in multiset(a);
    var k :| 0 <= k < |a| && a[k] == b[0];
  }

  /** If ties are equal, there is only one sorted order, whatever the sort does with ties. */
  lemma {:induction false} SortedOrderIsUnique(a: seq<Entry>, b: seq<Entry>)
    requires multiset(a) == multiset(b) && SortedByNumber(a) && SortedByNumber(b) && TiesEqual(a)
    ensures a == b
  {
    hide SortedByNumber, TiesEqual;
    if a == [] {
      NothingLeft(b);
    } else {
      SortedHead(a, b);
      TieAtHead(a, b[0]);
      TailMultiset(a);
      TailMultiset(b);
      TailsKeep(a);
      TailsKeep(b);
      SortedOrderIsUnique(a[1..], b[1..]);
      assert a == [a[0]] + a[1..] && b == [b[0]] + b[1..];
    }
  }

  lemma TieAtHead(a: seq<Entry>, x: Entry)
    requires a != [] && TiesEqual(a) && x in a && x.number == a[0].number
    ensures x == a[0]
  {
    assert a[0] in a;
  }

  lemma TailsKeep(a: seq<Entry>)
    requires a != []
    ensures SortedByNumber(a) ==> SortedByNumber(a[1..])
    ensures TiesEqual(a) ==> TiesEqual(a[1..])
  {
  }

  lemma ConsEntries(f: Field, fs: seq<Field>)
    ensures AsEntries([f] + fs) == [EntryOf(f)] + AsEntries(fs)
    ensures multiset(AsEntries([f] + fs)) == multiset{EntryOf(f)} + multiset(AsEntries(fs))
  {
    hide EntryOf;
    assert ([f] + fs)[1..] == fs;
    ConsMultiset(EntryOf(f), AsEntries(fs));
  }

  lemma {:induction false} EntriesOfInsert(f: Field, fs: seq<Field>)
    ensures multiset(AsEntries(Insert(f, fs))) == multiset{EntryOf(f)} + multiset(AsEntries(fs))
  {
    hide EntryOf, AsEntries;
    ConsEntries(f, fs);
    if fs == [] {
      assert [f] + fs == [f];
    } else if f.number > fs[0].number {
      EntriesOfInsert(f, fs[1..]);
      ConsEntries(fs[0], fs[1..]);
      ConsEntries(fs[0], Insert(f, fs[1..]));
      assert fs == [fs[0]] + fs[1..];
    }
  }

  lemma {:induction false} EntriesOfSort(fs: seq<Field>)
    ensures multiset(AsEntries(Sort(fs))) == multiset(AsEntries(fs))
  {
    if fs != [] {
      EntriesOfSort(fs[1..]);
      EntriesOfInsert(fs[0], Sort(fs[1..]));
      ConsEntries(fs[0], fs[1..]);
      assert fs == [fs[0]] + fs[1..];
      hide EntryOf, AsEntries, Insert;
    }
  }

  /** Whatever sort is used, distinctly numbered fields come out in one order. */
  lemma AnySortWillDo(sort: Sorter, fs: seq<Field>)
    requires SortsByNumber(sort) && DistinctNumbers(fs)
    ensures Concat(sort(AsEntries(fs))) == Encode(Sort(fs))
  {
    hide EncodeField, Sort;
    SortSorts(fs);
    EntriesOfSort(fs);
    var es := AsEntries(Sort(fs));
    SortedEntries(Sort(fs));
    DistinctTies(fs, es);
    SortedOrderIsUnique(es, sort(AsEntries(fs)));
    ConcatIsEncode(Sort(fs));
  }

  lemma SortedEntries(fs: seq<Field>)
    requires SortedFields(fs)
    ensures SortedByNumber(AsEntries(fs))
  {
    hide EncodeField;
    forall i, j | 0 <= i < j < |fs| ensures AsEntries(fs)[i].number <= AsEntries(fs)[j].number {
      AsEntriesAt(fs, i);
      AsEntriesAt(fs, j);
    }
  }

  lemma DistinctTies(fs: seq<Field>, es: seq<Entry>)
    requires DistinctNumbers(fs) && multiset(es) == multiset(AsEntries(fs))
    ensures TiesEqual(es)
  {
    hide EntryOf;
    forall x, y | x in es && y in es && x.number == y.number
      ensures x == y
    {
      var i := IndexOf(fs, es, x);
      var j := IndexOf(fs, es, y);
      EntryNumber(fs[i]);
      EntryNumber(fs[j]);
      assert i == j;
    }
  }

  lemma EntryNumber(f: Field)
    ensures EntryOf(f).number == f.number
  {
  }

  lemma IndexOf(fs: seq<Field>, es: seq<Entry>, x: Entry) returns (i: nat)
    requires multiset(es) == multiset(AsEntries(fs)) && x in es
    ensures i < |fs| && EntryOf(fs[i]) == x
  {
    hide EntryOf;
    assert x in multiset(AsEntries(fs));
    i :| 0 <= i < |fs| && AsEntries(fs)[i] == x;
    AsEntriesAt(fs, i);
  }

  /* ---------- What is kept ---------- */

  lemma KeepFieldNumber(config: seq<Config>, f: Field)
    ensures var k := KeepField(config, f);
            |k| <= 1 && (k != [] ==> k[0].number == f.number && Find(config, f.number).Some?)
  {
  }

  lemma {:induction false} KeptNumbers(config: seq<Config>, fs: seq<Field>, i: nat)
    requires i < |KeepAll(config, fs)|
    ensures exists j ::
              0 <= j < |fs| && fs[j].number == KeepAll(config, fs)[i].number && Find(config, fs[j].number).Some?
  {
    hide KeepField;
    KeepFieldNumber(config, fs[0]);
    var own := KeepField(config, fs[0]);
    if i >= |own| {
      KeptNumbers(config, fs[1..], i - |own|);
      var j :| 0 <= j < |fs[1..]| && fs[1..][j].number == KeepAll(config, fs)[i].number &&
          Find(config, fs[1..][j].number).Some?;
      assert fs[j + 1] == fs[1..][j];
    }
  }

  lemma {:induction false} KeptAreDistinct(config: seq<Config>, fs: seq<Field>)
    requires forall i, j :: 0 <= i < j < |fs| && Find(config, fs[i].number).Some? ==> fs[i].number != fs[j].number
    ensures DistinctNumbers(KeepAll(config, fs))
  {
    hide KeepField, Find;
    if fs != [] {
      KeepFieldNumber(config, fs[0]);
      KeptAreDistinct(config, fs[1..]);
      var own, rest := KeepField(config, fs[0]), KeepAll(config, fs[1..]);
      if own != [] {
        forall i | 0 <= i < |rest| ensures rest[i].number != own[0].number {
          KeptNumbers(config, fs[1..], i);
          var j :| 0 <= j < |fs[1..]| && fs[1..][j].number == rest[i].number && Find(config, fs[1..][j].number).Some?;
          assert fs[j + 1] == fs[1..][j];
        }
        assert KeepAll(config, fs) == [own[0]] + rest;
      } else {
        assert KeepAll(config, fs) == rest;
      }
    }
  }

  /* ---------- Scanning an encoded message ---------- */

  lemma {:induction false} EncodedNonEmpty(fs: seq<Field>)
    ensures Encode(fs) == [] <==> fs == []
  {
  }

  lemma TagFits(f: Field)
    requires f.number < 0x2000_0000_0000_0000
    ensures Tag(f) < Room(0) && Tag(f) / 8 == f.number && Tag(f) % 8 == WireType(f.payload)
  {
    RoomAtStart();
  }

  /** The head of a field: its tag is read back and the payload follows. */
  lemma FieldHead(f: Field, rest: Bytes)
    requires f.number < 0x2000_0000_0000_0000
    ensures var data := EncodeField(f) + rest;
            var n := |PutUvarint(Tag(f))|;
            && ReadUvarint(data, 0) == Value(Tag(f), n)
            && data[n..] == EncodePayload(f.payload) + rest
            && data[..|EncodeField(f)|] == EncodeField(f) && |EncodeField(f)| == n + |EncodePayload(f.payload)|
  {
    hide PutUvarint, ReadUvarint, EncodePayload, Room;
    TagFits(f);
    var payload := EncodePayload(f.payload);
    UvarintRoundTrip(Tag(f), 0, payload + rest);
    assert EncodeField(f) + rest == PutUvarint(Tag(f)) + (payload + rest);
  }

  lemma ScanScalar(sort: Sorter, config: seq<Config>, f: Field, rest: Bytes)
    requires WellFormed(f) && WireType(f.payload) != 2
    ensures ScanLevel(sort, EncodeField(f) + rest, config)
         == Before(AsEntries(KeepField(config, f)), ScanLevel(sort, rest, config))
  {
    hide PutUvarint, ReadUvarint, EncodeField, Find, Room, Tag;
    var data := EncodeField(f) + rest;
    FieldHead(f, rest);
    TagFits(f);
    var payload := EncodePayload(f.payload);
    assert (payload + rest)[|payload|..] == rest;
    assert AsEntries([]) == [] && AsEntries([f]) == [EntryOf(f)];
    if f.payload.Varint? {
      RoomAtStart();
      UvarintRoundTrip(f.payload.value, 0, rest);
    }
  }

  lemma ScanBytes(sort: Sorter, config: seq<Config>, f: Field, value: Bytes, rest: Bytes)
    requires f.number < 0x2000_0000_0000_0000 && WireType(f.payload) == 2 && |value| < LENGTH_LIMIT
    requires EncodePayload(f.payload) == PutUvarint(|value|) + value
    ensures var c := Find(config, f.number);
            var own := if c.None? then Entries([]) else BytesEntry(sort, Tag(f), EncodeField(f), value, c.value);
            own.Entries? ==>
              ScanLevel(sort, EncodeField(f) + rest, config) == Before(own.entries, ScanLevel(sort, rest, config))
  {
    hide ScanLevel, PutUvarint, ReadUvarint, EncodeField, EncodePayload, BytesEntry, Find, Room, Tag;
    var data := EncodeField(f) + rest;
    FieldHead(f, rest);
    TagFits(f);
    RoomAtStart();
    var l := PutUvarint(|value|);
    UvarintRoundTrip(|value|, 0, value + rest);
    var after := l + value + rest;
    assert after == l + (value + rest);
    assert after[|l|..|l| + |value|] == value && after[|l| + |value|..] == rest;
    ScanBytesStep(sort, data, config, Tag(f), |PutUvarint(Tag(f))|, |value|, |l|);
  }

  /** One turn of the loop on a length-delimited field that lies inside the data. */
  lemma ScanBytesStep(sort: Sorter, data: Bytes, config: seq<Config>, tag: nat, t: nat, l: nat, n: nat)
    requires ReadUvarint(data, 0) == Value(tag, t) && tag % 8 == 2
    requires ReadUvarint(data[t..], 0) == Value(l, n) && l < LENGTH_LIMIT && t + n + l <= |data|
    ensures var c := Find(config, tag / 8);
            var own := if c.None? then Entries([])
                       else BytesEntry(sort, tag, data[..t + n + l], data[t..][n..n + l], c.value);
            own.Entries? ==>
              ScanLevel(sort, data, config) == Before(own.entries, ScanLevel(sort, data[t..][n + l..], config))
  {
    hide ReadUvarint, BytesEntry, Find;
  }

  lemma {:induction false} ScanField(sort: Sorter, config: seq<Config>, f: Field, rest: Bytes)
    requires SortsByNumber(sort) && WellFormed(f) && FieldFits(config, f)
    ensures ScanLevel(sort, EncodeField(f) + rest, config)
         == Before(AsEntries(KeepField(config, f)), ScanLevel(sort, rest, config))
    decreases f, 1
  {
    hide ScanLevel, PutUvarint, Find, SortsByNumber;
    assert AsEntries([]) == [] && AsEntries([f]) == [EntryOf(f)];
    match f.payload
    case Len(b) => ScanBytes(sort, config, f, b, rest);
    case Message(fs) =>
      ScanBytes(sort, config, f, Encode(fs), rest);
      var c := Find(config, f.number);
      if c.Some? && Descends(c.value) {
        FilterIsExtraction(sort, c.value.subfields, fs);
        var sub := Filter(c.value.subfields, fs);
        EncodedNonEmpty(sub);
        var kept := Field(f.number, Message(sub));
        assert AsEntries([kept]) == [EntryOf(kept)];
        assert EncodeField(kept) == PutUvarint(Tag(f)) + PutUvarint(|Encode(sub)|) + Encode(sub);
      }
    case _ => ScanScalar(sort, config, f, rest);
  }

  lemma {:induction false} ScanAll(sort: Sorter, config: seq<Config>, fs: seq<Field>)
    requires SortsByNumber(sort) && AllWellFormed(fs) && forall i :: 0 <= i < |fs| ==> FieldFits(config, fs[i])
    ensures ScanLevel(sort, Encode(fs), config) == Entries(AsEntries(KeepAll(config, fs)))
    decreases fs, 0
  {
    if fs == [] {
      assert ReadUvarint([], 0) == Short;
    } else {
      ScanField(sort, config, fs[0], Encode(fs[1..]));
      ScanAll(sort, config, fs[1..]);
      AsEntriesAppend(KeepField(config, fs[0]), KeepAll(config, fs[1..]));
      hide ScanLevel, EncodeField, KeepField, FieldFits, WellFormed;
    }
  }

  /**
   * On every well-formed message whose configured numbers occur once per level, and whichever sort is used, the
   * extraction from the bytes is the encoding of the filtered tree.
   */
  lemma {:induction false} FilterIsExtraction(sort: Sorter, config: seq<Config>, fs: seq<Field>)
    requires SortsByNumber(sort) && AllWellFormed(fs) && Fits(config, fs)
    ensures Extract(sort, Encode(fs), config) == Some(Encode(Filter(config, fs)))
    decreases fs, 1
  {
    hide ScanLevel, FieldFits, WellFormed;
    ScanAll(sort, config, fs);
    KeptAreDistinct(config, fs);
    AnySortWillDo(sort, KeepAll(config, fs));
  }
}
