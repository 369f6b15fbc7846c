/**
 * The extraction calls an unstable sort at every level it descends into. Exactly when does its result not depend on
 * what that sort does with equal numbers?
 */
module ReportingSorts {
  import opened Bytes
  import opened Reporting
  import opened ReportingToken
  import opened ReportingTies

  /* ---------- What a level consists of, whatever the sort ---------- */

  /** A field that is copied, or one whose submessage is extracted in turn. */
  datatype Piece = Whole(entry: Entry) | Sub(tag: nat, value: Bytes, config: seq<Config>)

  datatype Ending = Complete | UnknownType | OutOfRange

  datatype Level = Level(pieces: seq<Piece>, ending: Ending)

  function Onto(own: seq<Piece>, l: Level): Level
  {
    Level(own + l.pieces, l.ending)
  }

  function Copied(c: Option<Config>, tag: nat, bytes: Bytes): seq<Piece>
  {
    if c.None? then [] else [Whole(Entry(tag / 8, bytes))]
  }

  /** One turn of the loop: it ends, or it leaves at most one piece and goes on with the rest. */
  datatype Turn = Ends(ending: Ending) | GoesOn(own: seq<Piece>, rest: Bytes)

  function TurnAt(data: Bytes, config: seq<Config>): (r: Turn)
    ensures r.GoesOn? ==> |r.rest| < |data| && |r.own| <= 1
  {
    var t := ReadUvarint(data, 0);
    if !t.Value? then Ends(Complete) else
      var tag := t.value;
      var c := Find(config, tag / 8);
      var v := ReadUvarint(data[t.size..], 0);
      if tag % 8 == 0 then
        if v.Overflow? then Ends(OutOfRange) else
          var n := t.size + Size(v);
          GoesOn(Copied(c, tag, data[..n]), data[n..])
      else if tag % 8 == 1 || tag % 8 == 5 then
        var n := t.size + if tag % 8 == 1 then 8 else 4;
        if n > |data| then Ends(if c.None? then Complete else OutOfRange)
        else GoesOn(Copied(c, tag, data[..n]), data[n..])
      else if tag % 8 == 2 then
        if v.Overflow? || (v.Value? && v.value >= LENGTH_LIMIT) then Ends(OutOfRange) else
          var start := t.size + Size(v);
          var end := start + if v.Value? then v.value else 0;
          if c.None? then GoesOn([], Left(data, end))
          else if end > |data| then Ends(OutOfRange)
          else if Descends(c.value) then GoesOn([Sub(tag, data[start..end], c.value.subfields)], data[end..])
          else GoesOn([Whole(Entry(tag / 8, data[..end]))], data[end..])
      else Ends(UnknownType)
  }

  /** The fields of a level up to where the loop ends, and how it ends. */
  function Parse(data: Bytes, config: seq<Config>): Level
    decreases |data|
  {
    match TurnAt(data, config)
    case Ends(ending) => Level([], ending)
    case GoesOn(own, rest) => Onto(own, Parse(rest, config))
  }

  /** What a piece contributes under a sort. */
  function PieceScan(sort: Sorter, p: Piece): Scan
  {
    match p
    case Whole(e) => Entries([e])
    case Sub(tag, value, config) =>
      match Extract(sort, value, config)
      case None => Undefined
      case Some(sub) =>
        Entries(if sub == [] then [] else [Entry(tag / 8, PutUvarint(tag) + PutUvarint(|sub|) + sub)])
  }

  function Render(sort: Sorter, pieces: seq<Piece>, ending: Ending): Scan
  {
    if pieces == [] then
      (match ending case Complete => Entries([]) case UnknownType => Nothing case OutOfRange => Undefined)
    else
      var own := PieceScan(sort, pieces[0]);
      if own.Entries? then Before(own.entries, Render(sort, pieces[1..], ending)) else own
  }

  lemma RenderOnto(sort: Sorter, own: seq<Piece>, l: Level)
    requires |own| <= 1
    ensures Render(sort, Onto(own, l).pieces, l.ending) ==
            if own == [] then Render(sort, l.pieces, l.ending)
            else var s := PieceScan(sort, own[0]);
                 if s.Entries? then Before(s.entries, Render(sort, l.pieces, l.ending)) else s
  {
    hide PieceScan;
    if own == [] {
      assert own + l.pieces == l.pieces;
    } else {
      assert (own + l.pieces)[1..] == l.pieces;
    }
  }

  /** What a turn means for the scan. */
  ghost predicate TurnScans(sort: Sorter, data: Bytes, config: seq<Config>, r: Turn)
  {
    match r
    case Ends(ending) => ScanLevel(sort, data, config) == Render(sort, [], ending)
    case GoesOn(own, rest) =>
      ScanLevel(sort, data, config) ==
        if own == [] then ScanLevel(sort, rest, config)
        else var s := PieceScan(sort, own[0]);
             if s.Entries? then Before(s.entries, ScanLevel(sort, rest, config)) else s
  }

  /** Scanning is rendering what was parsed. */
  lemma {:induction false} ScanIsRender(sort: Sorter, data: Bytes, config: seq<Config>)
    ensures ScanLevel(sort, data, config) == Render(sort, Parse(data, config).pieces, Parse(data, config).ending)
    decreases |data|
  {
    hide ScanLevel, TurnAt, Render, PieceScan;
    TurnIsScan(sort, data, config);
    var r := TurnAt(data, config);
    if r.GoesOn? {
      ScanIsRender(sort, r.rest, config);
      RenderOnto(sort, r.own, Parse(r.rest, config));
    }
  }

  lemma TurnIsScan(sort: Sorter, data: Bytes, config: seq<Config>)
    ensures TurnScans(sort, data, config, TurnAt(data, config))
  {
    hide ScanLevel, ReadUvarint, Find, Render, Extract;
    RenderNothing(sort);
    var t := ReadUvarint(data, 0);
    if !t.Value? {
      NothingToScan(sort, data, config);
    } else if t.value % 8 == 0 {
      VarintTurn(sort, data, config, t.value, t.size);
    } else if t.value % 8 == 1 || t.value % 8 == 5 {
      FixedTurn(sort, data, config, t.value, t.size);
    } else if t.value % 8 == 2 {
      BytesTurn(sort, data, config, t.value, t.size);
    } else {
      UnknownWire(sort, data, config, t.value, t.size);
    }
  }

  lemma RenderNothing(sort: Sorter)
    ensures Render(sort, [], Complete) == Entries([]) && Render(sort, [], UnknownType) == Nothing
    ensures Render(sort, [], OutOfRange) == Undefined
  {
  }

  lemma VarintTurn(sort: Sorter, data: Bytes, config: seq<Config>, tag: nat, t: nat)
    requires ReadUvarint(data, 0) == Value(tag, t) && tag % 8 == 0
    ensures TurnScans(sort, data, config, TurnAt(data, config))
  {
    hide ScanLevel, ReadUvarint, Find, Render, Extract;
    RenderNothing(sort);
    VarintStep(sort, data, config, tag, t);
    BeforeTwice([], [], ScanLevel(sort, data[t + Size(ReadUvarint(data[t..], 0))..], config));
  }

  lemma FixedTurn(sort: Sorter, data: Bytes, config: seq<Config>, tag: nat, t: nat)
    requires ReadUvarint(data, 0) == Value(tag, t) && (tag % 8 == 1 || tag % 8 == 5)
    ensures TurnScans(sort, data, config, TurnAt(data, config))
  {
    hide ScanLevel, ReadUvarint, Find, Render, Extract;
    RenderNothing(sort);
    var n := if tag % 8 == 1 then 8 else 4;
    FixedStep(sort, data, config, tag, t, n);
    if t + n <= |data| {
      BeforeTwice([], [], ScanLevel(sort, data[t + n..], config));
    }
  }

  lemma BytesTurn(sort: Sorter, data: Bytes, config: seq<Config>, tag: nat, t: nat)
    requires ReadUvarint(data, 0) == Value(tag, t) && tag % 8 == 2
    ensures TurnScans(sort, data, config, TurnAt(data, config))
  {
    hide ScanLevel, ReadUvarint, Find, Render, Extract;
    RenderNothing(sort);
    var v := ReadUvarint(data[t..], 0);
    var c := Find(config, tag / 8);
    if v.Overflow? || (v.Value? && v.value >= LENGTH_LIMIT) {
      TooLong(sort, data, config, tag, t);
    } else {
      var l := if v.Value? then v.value else 0;
      var end := t + Size(v) + l;
      BytesStep(sort, data, config, tag, t, l, Size(v));
      if c.Some? && end <= |data| {
        var r := TurnAt(data, config);
        assert BytesEntry(sort, tag, data[..end], data[t + Size(v)..end], c.value) == PieceScan(sort, r.own[0]);
      }
    }
  }

  /* ---------- One sort to compare with ---------- */

  function Place(e: Entry, es: seq<Entry>): seq<Entry>
  {
    if es == [] then [e] else if e.number <= es[0].number then [e] + es else [es[0]] + Place(e, es[1..])
  }

  function StableSort(es: seq<Entry>): seq<Entry>
  {
    if es == [] then [] else Place(es[0], StableSort(es[1..]))
  }

  lemma {:induction false} PlacePermutes(e: Entry, es: seq<Entry>)
    ensures multiset(Place(e, es)) == multiset{e} + multiset(es)
  {
    ConsMultiset(e, es);
    if es != [] && e.number > es[0].number {
      PlacePermutes(e, es[1..]);
      TailMultiset(es);
      ConsMultiset(es[0], Place(e, es[1..]));
    }
  }

  lemma {:induction false} PlaceSorts(e: Entry, es: seq<Entry>)
    requires SortedByNumber(es)
    ensures SortedByNumber(Place(e, es))
  {
    if es != [] && e.number > es[0].number {
      var rest := Place(e, es[1..]);
      PlaceSorts(e, es[1..]);
      PlacePermutes(e, es[1..]);
      forall j | 0 <= j < |rest| ensures es[0].number <= rest[j].number {
        assert rest[j] in multiset(rest);
        assert rest[j] == e || rest[j] in es[1..];
      }
      hide Place;
      assert SortedByNumber([es[0]] + rest);
    }
  }

  lemma {:induction false} StableSorts(es: seq<Entry>)
    ensures SortOf(StableSort(es), es)
  {
    hide SortedByNumber;
    if es == [] {
      assert SortedByNumber([]) by { EmptyIsSorted(); }
    } else {
      StableSorts(es[1..]);
      PlaceSorts(es[0], StableSort(es[1..]));
      PlacePermutes(es[0], StableSort(es[1..]));
      TailMultiset(es);
    }
  }

  lemma EmptyIsSorted()
    ensures SortedByNumber([])
  {
  }

  /** The stable sort, except that one list is put into another order. */
  function Except(odd: seq<Entry>, order: seq<Entry>): Sorter
  {
    es => if es == odd then order else StableSort(es)
  }

  lemma ExceptSorts(odd: seq<Entry>, order: seq<Entry>)
    requires SortOf(order, odd)
    ensures SortsByNumber(Except(odd, order))
  {
    forall es ensures SortOf(Except(odd, order)(es), es) {
      StableSorts(es);
    }
    hide SortedByNumber, StableSort;
  }

  /* ---------- Shapes: numbers and lengths do not depend on the sort ---------- */

  predicate SameShape(a: seq<Entry>, b: seq<Entry>)
  {
    |a| == |b| && forall i :: 0 <= i < |a| ==> a[i].number == b[i].number && |a[i].bytes| == |b[i].bytes|
  }

  function Total(es: seq<Entry>): nat
  {
    |Concat(es)|
  }

  lemma {:induction false} SameShapeTotal(a: seq<Entry>, b: seq<Entry>)
    requires SameShape(a, b)
    ensures Total(a) == Total(b)
  {
    if a != [] {
      SameShapeTotal(a[1..], b[1..]);
    }
  }

  lemma {:induction false} PermutedTotal(a: seq<Entry>, b: seq<Entry>)
    requires multiset(a) == multiset(b)
    ensures Total(a) == Total(b)
    decreases |a|
  {
    hide Concat;
    if a == [] {
      NothingLeft(b);
    } else {
      assert a[0] in multiset(b);
      var i :| 0 <= i < |b| && b[i] == a[0];
      var c := b[..i] + b[i + 1..];
      WithoutOne(b, i, c);
      TailMultiset(a);
      PermutedTotal(a[1..], c);
      ConcatStep(a);
      TotalWithout(b, i, c);
    }
  }

  lemma TotalWithout(b: seq<Entry>, i: nat, c: seq<Entry>)
    requires i < |b| && c == b[..i] + b[i + 1..]
    ensures Total(b) == |b[i].bytes| + Total(c)
  {
    hide Concat;
    ConcatAppend(b[..i], b[i..]);
    assert b == b[..i] + b[i..] && b[i..][1..] == b[i + 1..];
    ConcatStep(b[i..]);
    ConcatAppend(b[..i], b[i + 1..]);
  }

  lemma SortedTotal(sort: Sorter, es: seq<Entry>)
    requires SortsByNumber(sort)
    ensures |Concat(sort(es))| == Total(es)
  {
    PermutedTotal(sort(es), es);
  }

  /** Two scans that end alike and have entries of the same shape. */
  predicate Alike(a: Scan, b: Scan)
  {
    match a
    case Entries(es) => b.Entries? && SameShape(es, b.entries)
    case Nothing => b.Nothing?
    case Undefined => b.Undefined?
  }

  lemma {:induction false} PiecesAlike(s: Sorter, s': Sorter, pieces: seq<Piece>, ending: Ending, size: nat)
    requires SortsByNumber(s) && SortsByNumber(s') && PiecesWithin(pieces, size)
    ensures Alike(Render(s, pieces, ending), Render(s', pieces, ending))
    decreases size, |pieces|
  {
    hide SortsByNumber, PieceScan;
    if pieces != [] {
      PieceAlike(s, s', pieces[0], size);
      PiecesAlike(s, s', pieces[1..], ending, size);
    }
  }

  lemma {:induction false} PieceAlike(s: Sorter, s': Sorter, p: Piece, size: nat)
    requires SortsByNumber(s) && SortsByNumber(s') && PieceWithin(p, size)
    ensures Alike(PieceScan(s, p), PieceScan(s', p))
    decreases size, 0
  {
    hide SortsByNumber, Extract;
    if p.Sub? {
      ExtractsAlike(s, s', p.value, p.config);
    }
  }

  /** The length of what is extracted, and whether it is defined, do not depend on the sort. */
  lemma {:induction false} ExtractsAlike(s: Sorter, s': Sorter, data: Bytes, config: seq<Config>)
    requires SortsByNumber(s) && SortsByNumber(s')
    ensures var a, b := Extract(s, data, config), Extract(s', data, config);
            a.Some? == b.Some? && (a.Some? ==> |a.value| == |b.value|)
    ensures Alike(ScanLevel(s, data, config), ScanLevel(s', data, config))
    decreases |data|
  {
    hide SortsByNumber, ScanLevel, Parse, Render, Concat;
    var l := Parse(data, config);
    ScanIsRender(s, data, config);
    ScanIsRender(s', data, config);
    ParseWithin(data, config);
    PiecesAlike(s, s', l.pieces, l.ending, |data|);
    var a, b := ScanLevel(s, data, config), ScanLevel(s', data, config);
    if a.Entries? {
      SortedTotal(s, a.entries);
      SortedTotal(s', b.entries);
      SameShapeTotal(a.entries, b.entries);
    }
  }

  /** Submessages are shorter than the message they are in. */
  predicate PieceWithin(p: Piece, size: nat)
  {
    p.Sub? ==> |p.value| < size
  }

  predicate PiecesWithin(pieces: seq<Piece>, size: nat)
  {
    forall i :: 0 <= i < |pieces| ==> PieceWithin(pieces[i], size)
  }

  lemma TurnWithin(data: Bytes, config: seq<Config>)
    ensures var r := TurnAt(data, config); r.GoesOn? ==> PiecesWithin(r.own, |data|)
  {
    hide ReadUvarint, Find;
  }

  lemma {:induction false} ParseWithin(data: Bytes, config: seq<Config>)
    ensures PiecesWithin(Parse(data, config).pieces, |data|)
    decreases |data|
  {
    hide TurnAt;
    TurnWithin(data, config);
    var r := TurnAt(data, config);
    if r.GoesOn? {
      ParseWithin(r.rest, config);
    }
  }

  /* ---------- The condition, at every level ---------- */

  const STABLE: Sorter := es => StableSort(es)

  lemma StableIsLawful()
    ensures SortsByNumber(STABLE)
  {
    forall es ensures SortOf(STABLE(es), es) {
      StableSorts(es);
    }
    hide SortedByNumber, StableSort;
  }

  /**
   * Wherever a level is extracted at all, its tied entries commute, and so it is in the submessages it descends into.
   */
  ghost predicate TiesCommuteBelow(data: Bytes, config: seq<Config>)
    decreases |data|
  {
    ParseWithin(data, config);
    var scan, l := ScanLevel(STABLE, data, config), Parse(data, config);
    scan.Entries? ==>
      && TiesCommute(scan.entries)
      && forall i :: 0 <= i < |l.pieces| && l.pieces[i].Sub? ==> TiesCommuteBelow(l.pieces[i].value, l.pieces[i].config)
  }

  lemma {:induction false} RenderSame(s: Sorter, s': Sorter, pieces: seq<Piece>, ending: Ending)
    requires forall i :: 0 <= i < |pieces| ==> PieceScan(s, pieces[i]) == PieceScan(s', pieces[i])
    ensures Render(s, pieces, ending) == Render(s', pieces, ending)
  {
    hide PieceScan;
    if pieces != [] {
      assert forall i :: 0 <= i < |pieces| - 1 ==> pieces[1..][i] == pieces[i + 1];
      assert PieceScan(s, pieces[0]) == PieceScan(s', pieces[0]);
      RenderSame(s, s', pieces[1..], ending);
    }
  }

  lemma AnyOrder(s: Sorter, es: seq<Entry>)
    requires SortsByNumber(s) && TiesCommute(es)
    ensures Concat(s(es)) == Concat(StableSort(es))
  {
    hide TiesCommute, Concat, StableSort;
    StableSorts(es);
    CommuteElsewhere(es, s(es));
    SameBytes(s(es), StableSort(es));
  }

  lemma {:induction false} AllSortsAgree(s: Sorter, data: Bytes, config: seq<Config>)
    requires SortsByNumber(s) && TiesCommuteBelow(data, config)
    ensures Extract(s, data, config) == Extract(STABLE, data, config)
    decreases |data|
  {
    StableIsLawful();
    hide SortsByNumber, ScanLevel, Parse, Render, TiesCommute, Concat, StableSort;
    var scan, l := ScanLevel(STABLE, data, config), Parse(data, config);
    if scan.Entries? {
      ParseWithin(data, config);
      forall i | 0 <= i < |l.pieces| ensures PieceScan(s, l.pieces[i]) == PieceScan(STABLE, l.pieces[i]) {
        if l.pieces[i].Sub? {
          assert PieceWithin(l.pieces[i], |data|);
          AllSortsAgree(s, l.pieces[i].value, l.pieces[i].config);
        }
      }
      RenderSame(s, STABLE, l.pieces, l.ending);
      ScanIsRender(s, data, config);
      ScanIsRender(STABLE, data, config);
      AnyOrder(s, scan.entries);
    } else {
      ExtractsAlike(s, STABLE, data, config);
    }
  }

  /* ---------- A tie that shows ---------- */

  lemma TotalAppend(a: seq<Entry>, b: seq<Entry>)
    ensures Total(a + b) == Total(a) + Total(b)
  {
    ConcatAppend(a, b);
  }

  lemma OneEntry(e: Entry)
    ensures Concat([e]) == e.bytes && Total([e]) == |e.bytes|
  {
    assert [e][1..] == [];
    assert e.bytes + [] == e.bytes;
  }

  /** On levels no longer than the odd list, only the odd list itself can tell the two sorts apart. */
  lemma {:induction false} SameUpTo(odd: seq<Entry>, order: seq<Entry>, data: Bytes, config: seq<Config>)
    requires SortOf(order, odd)
    ensures var scan := ScanLevel(STABLE, data, config);
            scan.Entries? && Total(scan.entries) <= Total(odd) ==> ScanLevel(Except(odd, order), data, config) == scan
    decreases |data|
  {
    hide ScanLevel, Parse, Render, SortOf, Total, Except;
    var l := Parse(data, config);
    ParseWithin(data, config);
    ScanIsRender(STABLE, data, config);
    ScanIsRender(Except(odd, order), data, config);
    PiecesSameUpTo(odd, order, l.pieces, l.ending, |data|);
  }

  lemma {:induction false} PiecesSameUpTo(odd: seq<Entry>, order: seq<Entry>, pieces: seq<Piece>, ending: Ending,
                                          size: nat)
    requires SortOf(order, odd) && PiecesWithin(pieces, size)
    ensures var scan := Render(STABLE, pieces, ending);
            scan.Entries? && Total(scan.entries) <= Total(odd) ==> Render(Except(odd, order), pieces, ending) == scan
    decreases size, |pieces|
  {
    hide SortOf, Total, PieceScan, Except;
    if pieces != [] {
      PieceSameUpTo(odd, order, pieces[0], size);
      PiecesSameUpTo(odd, order, pieces[1..], ending, size);
      var own, rest := PieceScan(STABLE, pieces[0]), Render(STABLE, pieces[1..], ending);
      if own.Entries? && rest.Entries? {
        TotalAppend(own.entries, rest.entries);
      }
    }
  }

  lemma {:induction false} PieceSameUpTo(odd: seq<Entry>, order: seq<Entry>, p: Piece, size: nat)
    requires SortOf(order, odd) && PieceWithin(p, size)
    ensures var own := PieceScan(STABLE, p);
            own.Entries? && Total(own.entries) <= Total(odd) ==> PieceScan(Except(odd, order), p) == own
    decreases size, 0
  {
    hide SortOf, ScanLevel, StableSort, Concat;
    var own := PieceScan(STABLE, p);
    if p.Sub? && own.Entries? && Total(own.entries) <= Total(odd) {
      StableIsLawful();
      ExceptSorts(odd, order);
      hide SortsByNumber;
      var sub := Extract(STABLE, p.value, p.config).value;
      ExtractsAlike(STABLE, Except(odd, order), p.value, p.config);
      if sub != [] {
        OneEntry(own.entries[0]);
        SameUpTo(odd, order, p.value, p.config);
        StableTotal(p.value, p.config);
      }
    }
  }

  lemma StableTotal(data: Bytes, config: seq<Config>)
    ensures var scan := ScanLevel(STABLE, data, config);
            scan.Entries? ==>
              Extract(STABLE, data, config).Some? && |Extract(STABLE, data, config).value| == Total(scan.entries)
  {
    hide ScanLevel;
    StableIsLawful();
    var scan := ScanLevel(STABLE, data, config);
    if scan.Entries? {
      SortedTotal(STABLE, scan.entries);
    }
  }

  predicate SameForm(e: Entry, f: Entry)
  {
    e.number == f.number && |e.bytes| == |f.bytes|
  }

  lemma ShapeStep(a: seq<Entry>, b: seq<Entry>)
    requires a != [] && b != []
    ensures SameShape(a, b) <==> SameForm(a[0], b[0]) && SameShape(a[1..], b[1..])
  {
    if SameForm(a[0], b[0]) && SameShape(a[1..], b[1..]) {
      forall i | 0 <= i < |a| ensures SameForm(a[i], b[i]) {
        if i > 0 {
          assert a[i] == a[1..][i - 1] && b[i] == b[1..][i - 1];
        }
      }
    }
  }

  lemma {:induction false} PlaceInStep(e: Entry, f: Entry, a: seq<Entry>, b: seq<Entry>)
    requires SameForm(e, f) && SameShape(a, b)
    ensures SameShape(Place(e, a), Place(f, b)) && (Place(e, a) == Place(f, b) ==> e == f && a == b)
    decreases |a|
  {
    hide SameShape;
    SameLengths(a, b);
    if a == [] {
      ShapeStep([e], [f]);
      assert [e][1..] == [] && [f][1..] == [];
    } else {
      ShapeStep(a, b);
      if e.number <= a[0].number {
        assert ([e] + a)[1..] == a && ([f] + b)[1..] == b;
        ShapeStep([e] + a, [f] + b);
      } else {
        PlaceInStep(e, f, a[1..], b[1..]);
        var p, q := Place(e, a[1..]), Place(f, b[1..]);
        assert ([a[0]] + p)[1..] == p && ([b[0]] + q)[1..] == q;
        ShapeStep([a[0]] + p, [b[0]] + q);
        assert a == [a[0]] + a[1..] && b == [b[0]] + b[1..];
      }
    }
  }

  lemma SameLengths(a: seq<Entry>, b: seq<Entry>)
    requires SameShape(a, b)
    ensures |a| == |b|
  {
  }

  /** The stable sort moves positions, not contents: lists of one shape that differ are sorted to lists that differ. */
  lemma {:induction false} SortInStep(a: seq<Entry>, b: seq<Entry>)
    requires SameShape(a, b)
    ensures SameShape(StableSort(a), StableSort(b)) && (StableSort(a) == StableSort(b) ==> a == b)
  {
    SameLengths(a, b);
    if a != [] {
      ShapeStep(a, b);
      SortInStep(a[1..], b[1..]);
      hide SameShape, Place;
      PlaceInStep(a[0], b[0], StableSort(a[1..]), StableSort(b[1..]));
      assert a == [a[0]] + a[1..] && b == [b[0]] + b[1..];
    }
  }

  lemma {:induction false} BytesTell(a: seq<Entry>, b: seq<Entry>)
    requires SameShape(a, b) && Concat(a) == Concat(b)
    ensures a == b
  {
    SameLengths(a, b);
    if a != [] {
      ShapeStep(a, b);
      hide SameShape;
      var n := |a[0].bytes|;
      assert Concat(a)[..n] == a[0].bytes && Concat(b)[..n] == b[0].bytes;
      assert Concat(a)[n..] == Concat(a[1..]) && Concat(b)[n..] == Concat(b[1..]);
      BytesTell(a[1..], b[1..]);
      assert a == [a[0]] + a[1..] && b == [b[0]] + b[1..];
    }
  }

  /** The odd list tells the two sorts apart on this message. */
  ghost predicate Told(odd: seq<Entry>, order: seq<Entry>, data: Bytes, config: seq<Config>)
  {
    && SortOf(order, odd)
    && ScanLevel(STABLE, data, config).Entries? && Total(odd) <= Total(ScanLevel(STABLE, data, config).entries)
    && Extract(Except(odd, order), data, config) != Extract(STABLE, data, config)
  }

  lemma ToldByPiece(odd: seq<Entry>, order: seq<Entry>, p: Piece)
    requires p.Sub? && Told(odd, order, p.value, p.config)
    ensures var a, b := PieceScan(STABLE, p), PieceScan(Except(odd, order), p);
            a.Entries? && b.Entries? && Alike(a, b) && a.entries != b.entries && Total(a.entries) > Total(odd)
  {
    hide ScanLevel, StableSort, Concat, SortOf, Extract;
    StableIsLawful();
    ExceptSorts(odd, order);
    hide SortsByNumber;
    ExtractsAlike(STABLE, Except(odd, order), p.value, p.config);
    StableTotal(p.value, p.config);
    var x, y := Extract(STABLE, p.value, p.config).value, Extract(Except(odd, order), p.value, p.config).value;
    var head := PutUvarint(p.tag) + PutUvarint(|x|);
    assert (head + x)[|head|..] == x && (head + y)[|head|..] == y;
    OneEntry(Entry(p.tag / 8, head + x));
  }

  lemma {:induction false} ToldByPieces(odd: seq<Entry>, order: seq<Entry>, pieces: seq<Piece>, ending: Ending, i: nat,
                                        size: nat)
    requires i < |pieces| && pieces[i].Sub? && Told(odd, order, pieces[i].value, pieces[i].config) &&
        PiecesWithin(pieces, size)
    requires Render(STABLE, pieces, ending).Entries?
    ensures var a, b := Render(STABLE, pieces, ending), Render(Except(odd, order), pieces, ending);
            b.Entries? && SameShape(a.entries, b.entries) && a.entries != b.entries && Total(a.entries) > Total(odd)
    decreases i
  {
    StableIsLawful();
    ExceptSorts(odd, order);
    hide SortsByNumber, Told, PieceScan, Total;
    var s := Except(odd, order);
    hide Except;
    PiecesAlike(STABLE, s, pieces, ending, size);
    PieceAlike(STABLE, s, pieces[0], size);
    var own, own' := PieceScan(STABLE, pieces[0]), PieceScan(s, pieces[0]);
    var rest, rest' := Render(STABLE, pieces[1..], ending), Render(s, pieces[1..], ending);
    TotalAppend(own.entries, rest.entries);
    var n := |own.entries|;
    assert (own.entries + rest.entries)[..n] == own.entries && (own.entries + rest.entries)[n..] == rest.entries;
    assert (own'.entries + rest'.entries)[..n] == own'.entries && (own'.entries + rest'.entries)[n..] == rest'.entries;
    if i == 0 {
      ToldByPiece(odd, order, pieces[0]);
    } else {
      assert pieces[1..][i - 1] == pieces[i];
      ToldByPieces(odd, order, pieces[1..], ending, i - 1, size);
    }
  }

  /** A difference inside a submessage shows in the message: nothing can hide it. */
  lemma ToldOutside(odd: seq<Entry>, order: seq<Entry>, data: Bytes, config: seq<Config>, i: nat)
    requires ScanLevel(STABLE, data, config).Entries?
    requires var ps := Parse(data, config).pieces; i < |ps| && ps[i].Sub? && Told(odd, order, ps[i].value, ps[i].config)
    ensures Told(odd, order, data, config)
  {
    var l, s := Parse(data, config), Except(odd, order);
    assert SortOf(order, odd);
    hide ScanLevel, StableSort, Concat, SortOf, Parse, Render, Total;
    ParseWithin(data, config);
    ScanIsRender(STABLE, data, config);
    ScanIsRender(s, data, config);
    ToldByPieces(odd, order, l.pieces, l.ending, i, |data|);
    var a, b := ScanLevel(STABLE, data, config).entries, ScanLevel(s, data, config).entries;
    SameShapeTotal(a, b);
    SortInStep(a, b);
    if Concat(StableSort(a)) == Concat(StableSort(b)) {
      BytesTell(StableSort(a), StableSort(b));
      assert false;
    }
  }

  lemma OddLevel(data: Bytes, config: seq<Config>) returns (odd: seq<Entry>, order: seq<Entry>)
    requires ScanLevel(STABLE, data, config).Entries? && !TiesCommute(ScanLevel(STABLE, data, config).entries)
    ensures Told(odd, order, data, config)
  {
    hide ScanLevel, StableSort, Concat;
    odd := ScanLevel(STABLE, data, config).entries;
    order := OtherOrder(odd);
    SameUpTo(odd, order, data, config);
  }

  lemma OtherOrder(es: seq<Entry>) returns (order: seq<Entry>)
    requires !TiesCommute(es)
    ensures SortOf(order, es) && Concat(order) != Concat(StableSort(es))
  {
    hide Commute, StableSort, Concat, SortedByNumber;
    StableIsLawful();
    var i, j :| 0 <= i < |es| && 0 <= j < |es| && es[i].number == es[j].number && !Commute(es[i], es[j]);
    StableSorts(es);
    Disagreement(StableSort(es), es, es[i], es[j]);
    var a, b :| SortOf(a, es) && SortOf(b, es) && Concat(a) != Concat(b);
    order := if Concat(a) != Concat(StableSort(es)) then a else b;
  }

  lemma {:induction false} SomeSortDiffers(data: Bytes, config: seq<Config>)
    returns (odd: seq<Entry>, order: seq<Entry>)
    requires !TiesCommuteBelow(data, config)
    ensures Told(odd, order, data, config)
    decreases |data|
  {
    hide ScanLevel, Parse, Told;
    var scan, ps := ScanLevel(STABLE, data, config), Parse(data, config).pieces;
    if !TiesCommute(scan.entries) {
      odd, order := OddLevel(data, config);
    } else {
      ParseWithin(data, config);
      var i :| 0 <= i < |ps| && ps[i].Sub? && !TiesCommuteBelow(ps[i].value, ps[i].config);
      assert PieceWithin(ps[i], |data|);
      odd, order := SomeSortDiffers(ps[i].value, ps[i].config);
      ToldOutside(odd, order, data, config, i);
    }
  }

  /**
   * The extracted bytes are the same for every lawful sort if and only if tied entries commute at every level that
   * is descended into; for every input and configuration.
   */
  lemma SortIrrelevantIff(data: Bytes, config: seq<Config>)
    ensures (forall s: Sorter, s': Sorter :: SortsByNumber(s) && SortsByNumber(s') ==>
        Extract(s, data, config) == Extract(s', data, config))
       <==> TiesCommuteBelow(data, config)
  {
    hide Extract, SortsByNumber, TiesCommuteBelow;
    if TiesCommuteBelow(data, config) {
      forall s: Sorter, s': Sorter | SortsByNumber(s) && SortsByNumber(s')
        ensures Extract(s, data, config) == Extract(s', data, config)
      {
        AllSortsAgree(s, data, config);
        AllSortsAgree(s', data, config);
      }
    } else {
      var odd, order := SomeSortDiffers(data, config);
      StableIsLawful();
      ExceptSorts(odd, order);
    }
  }

  /* ---------- Two messages ---------- */

  const TWICE: Bytes := [8, 1, 8, 2]
  const NESTED: Bytes := [26, 4, 8, 1, 8, 2]
  const FIRST: seq<Config> := [Config(1, false, [])]
  const THIRD: seq<Config> := [Config(3, true, FIRST)]

  lemma OneByteRead(b: Bytes)
    requires b != [] && b[0] < 128
    ensures ReadUvarint(b, 0) == Value(b[0], 1)
  {
  }

  lemma OneVarintTurn(data: Bytes)
    requires |data| >= 2 && data[0] == 8 && data[1] < 128
    ensures TurnAt(data, FIRST) == GoesOn([Whole(Entry(1, data[..2]))], data[2..])
  {
    OneByteRead(data);
    OneByteRead(data[1..]);
    assert Find(FIRST, 1) == Some(FIRST[0]);
    hide ReadUvarint, Find;
  }

  /** Field 1 twice: two lawful sorts, two results. */
  lemma RepeatedField() returns (s: Sorter, s': Sorter)
    ensures SortsByNumber(s) && SortsByNumber(s') && Extract(s, TWICE, FIRST) != Extract(s', TWICE, FIRST)
  {
    var odd, order := RepeatedFieldTold();
    StableIsLawful();
    ExceptSorts(odd, order);
    hide Extract;
    s, s' := STABLE, Except(odd, order);
  }

  lemma RepeatedFieldTold() returns (odd: seq<Entry>, order: seq<Entry>)
    ensures Told(odd, order, TWICE, FIRST)
  {
    var x, y := Entry(1, [8, 1]), Entry(1, [8, 2]);
    OneVarintTurn(TWICE);
    OneVarintTurn(TWICE[2..]);
    assert TWICE[..2] == [8, 1] && TWICE[2..][..2] == [8, 2] && TWICE[2..][2..] == [];
    assert TurnAt([], FIRST) == Ends(Complete) by { assert ReadUvarint([], 0) == Short; }
    hide TurnAt;
    assert Parse([], FIRST) == Level([], Complete);
    assert Parse(TWICE[2..], FIRST) == Level([Whole(y)], Complete);
    assert Parse(TWICE, FIRST) == Level([Whole(x), Whole(y)], Complete);
    ScanIsRender(STABLE, TWICE, FIRST);
    hide ScanLevel, Parse;
    RenderTwo(x, y);
    assert !Commute(x, y) by { assert (x.bytes + y.bytes)[1] == 1 && (y.bytes + x.bytes)[1] == 2; }
    assert [x, y][0] == x && [x, y][1] == y;
    hide Commute;
    odd, order := OddLevel(TWICE, FIRST);
  }

  lemma RenderTwo(x: Entry, y: Entry)
    ensures Render(STABLE, [Whole(x), Whole(y)], Complete) == Entries([x, y])
  {
    assert [Whole(x), Whole(y)][1..] == [Whole(y)] && [Whole(y)][1..] == [];
    RenderNothing(STABLE);
    assert Render(STABLE, [Whole(y)], Complete) == Entries([y] + []);
  }

  lemma ParseNested()
    ensures Parse(NESTED, THIRD) == Level([Sub(26, TWICE, FIRST)], Complete)
  {
    NestedTurn();
    hide TurnAt;
    assert Parse([], THIRD) == Level([], Complete);
  }

  lemma NestedTurn()
    ensures TurnAt(NESTED, THIRD) == GoesOn([Sub(26, TWICE, FIRST)], []) && TurnAt([], THIRD) == Ends(Complete)
  {
    assert ReadUvarint([], 0) == Short;
    OneByteRead(NESTED);
    OneByteRead(NESTED[1..]);
    assert Find(THIRD, 3) == Some(THIRD[0]);
    hide ReadUvarint, Find;
    assert NESTED[2..6] == TWICE && NESTED[6..] == [];
  }

  /** The same inside a submessage: the top level has one entry only, and yet two lawful sorts give two results. */
  lemma RepeatedInside() returns (s: Sorter, s': Sorter)
    ensures SortsByNumber(s) && SortsByNumber(s') && Extract(s, NESTED, THIRD) != Extract(s', NESTED, THIRD)
  {
    hide ScanLevel, Parse, Extract, SortsByNumber;
    ParseNested();
    var odd, order := RepeatedFieldTold();
    ScanIsRender(STABLE, NESTED, THIRD);
    StableTotal(TWICE, FIRST);
    RenderSub(26, TWICE, FIRST);
    ToldOutside(odd, order, NESTED, THIRD, 0);
    StableIsLawful();
    ExceptSorts(odd, order);
    s, s' := STABLE, Except(odd, order);
  }

  lemma RenderSub(tag: nat, value: Bytes, config: seq<Config>)
    requires Extract(STABLE, value, config).Some?
    ensures Render(STABLE, [Sub(tag, value, config)], Complete).Entries?
  {
    hide Extract;
    assert [Sub(tag, value, config)][1..] == [];
    RenderNothing(STABLE);
  }
}
