/**
 * The extraction as it is written in reportingtoken.go: a cursor, a list of fields that grows, recursion and a final
 * sort.
 */
module ReportingToken {
  import opened Bytes
  import opened Reporting

  method GetConfigForField(fields: seq<Config>, number: int) returns (r: Option<Config>)
    ensures r == Find(fields, number)
  {
    assert fields[0..] == fields;
    for i := 0 to |fields|
      invariant Find(fields, number) == Find(fields[i..], number)
    {
      if fields[i].number == number {
        return Some(fields[i]);
      }
      assert fields[i..][1..] == fields[i + 1..];
    }
    r := None;
  }

  /** What is left of the data at a cursor that may have run past its end. */
  function Left(data: Bytes, i: nat): Bytes
  {
    if i <= |data| then data[i..] else []
  }

  lemma NothingToScan(sort: Sorter, data: Bytes, config: seq<Config>)
    requires !ReadUvarint(data, 0).Value?
    ensures ScanLevel(sort, data, config) == Entries([])
  {
  }

  lemma BeforeTwice(a: seq<Entry>, b: seq<Entry>, s: Scan)
    ensures Before(a, Before(b, s)) == Before(a + b, s)
    ensures Before([], s) == s
  {
    if s.Entries? {
      assert a + (b + s.entries) == a + b + s.entries && [] + s.entries == s.entries;
    }
  }

  /** What one field does to the level, once its tag is read. */
  datatype FieldStep = Advance(entries: seq<Entry>, size: nat) | Stop(result: Option<Bytes>)

  /** One turn of the loop: how far the cursor moves and what is collected. */
  ghost predicate StepIs(sort: Sorter, data: Bytes, config: seq<Config>, s: FieldStep)
  {
    match s
    case Advance(own, size) =>
      size > 0 && ScanLevel(sort, data, config) == Before(own, ScanLevel(sort, Left(data, size), config))
    case Stop(None) => ScanLevel(sort, data, config) == Undefined
    case Stop(Some(out)) => out == [] && ScanLevel(sort, data, config) == Nothing
  }

  lemma PastTheEnd(sort: Sorter, config: seq<Config>)
    ensures ScanLevel(sort, [], config) == Entries([])
  {
    assert ReadUvarint([], 0) == Short;
  }

  /** The size of a varint that was read, 0 for one that is cut short. */
  function Size(v: Uvarint): nat
  {
    if v.Value? then v.size else 0
  }

  lemma VarintStep(sort: Sorter, data: Bytes, config: seq<Config>, tag: nat, t: nat)
    requires ReadUvarint(data, 0) == Value(tag, t) && tag % 8 == 0
    ensures var v := ReadUvarint(data[t..], 0);
            var n := t + Size(v);
            ScanLevel(sort, data, config) ==
              if v.Overflow? then Undefined
              else Before(if Find(config, tag / 8).None? then [] else [Entry(tag / 8, data[..n])],
                          ScanLevel(sort, data[n..], config))
  {
    hide ReadUvarint, Find;
    var v := ReadUvarint(data[t..], 0);
    assert data[t..][Size(v)..] == data[t + Size(v)..];
    if v.Short? {
      NothingToScan(sort, data[t..], config);
    }
  }

  lemma FixedStep(sort: Sorter, data: Bytes, config: seq<Config>, tag: nat, t: nat, n: nat)
    requires ReadUvarint(data, 0) == Value(tag, t)
    requires (tag % 8 == 1 && n == 8) || (tag % 8 == 5 && n == 4)
    ensures ScanLevel(sort, data, config) ==
              if t + n > |data| then (if Find(config, tag / 8).None? then Entries([]) else Undefined)
              else Before(if Find(config, tag / 8).None? then [] else [Entry(tag / 8, data[..t + n])],
                          ScanLevel(sort, data[t + n..], config))
  {
    hide ReadUvarint, Find;
    if t + n <= |data| {
      assert data[t..][n..] == data[t + n..];
    }
  }

  /** A length-delimited field: its length is `l`, and `n` bytes are spent on it. */
  lemma BytesStep(sort: Sorter, data: Bytes, config: seq<Config>, tag: nat, t: nat, l: nat, n: nat)
    requires ReadUvarint(data, 0) == Value(tag, t) && tag % 8 == 2 && l < LENGTH_LIMIT
    requires var v := ReadUvarint(data[t..], 0); v == Value(l, n) || (v.Short? && l == 0 && n == 0)
    ensures var c := Find(config, tag / 8);
            var end := t + n + l;
            if c.None? then ScanLevel(sort, data, config) == ScanLevel(sort, Left(data, end), config)
            else if end > |data| then ScanLevel(sort, data, config) == Undefined
            else var own := BytesEntry(sort, tag, data[..end], data[t + n..end], c.value);
                 ScanLevel(sort, data, config) ==
                   if own.Entries? then Before(own.entries, ScanLevel(sort, data[end..], config)) else own
  {
    hide ReadUvarint, Find, BytesEntry;
    PastTheEnd(sort, config);
    var end := t + n + l;
    if end <= |data| {
      assert data[t..][n + l..] == data[end..] && data[t..][n..n + l] == data[t + n..end];
      BeforeTwice([], [], ScanLevel(sort, data[end..], config));
    }
    if ReadUvarint(data[t..], 0).Short? {
      NothingToScan(sort, data[t..], config);
      assert data[t..t] == [];
      var c := Find(config, tag / 8);
      NothingMore(BytesEntry(sort, tag, data[..t], [], if c.Some? then c.value else Config(0, false, [])));
    }
  }

  lemma NothingMore(s: Scan)
    ensures s.Entries? ==> Before(s.entries, Entries([])) == s
  {
    if s.Entries? {
      assert s.entries + [] == s.entries;
    }
  }

  method ExtractReportingTokenContent(sort: Sorter, data: Bytes, config: seq<Config>) returns (r: Option<Bytes>)
    ensures r == Extract(sort, data, config)
    decreases |data|, 2
  {
    hide ScanLevel, ReadUvarint, Find;
    var fields: seq<Entry> := [];
    var i := 0;
    assert data[0..] == data;
    BeforeTwice([], [], ScanLevel(sort, data, config));
    while i < |data|
      invariant ScanLevel(sort, data, config) == Before(fields, ScanLevel(sort, Left(data, i), config))
      decreases |data| - i
    {
      var t := ReadUvarint(data[i..], 0);
      if !t.Value? {
        NothingToScan(sort, data[i..], config);
        NothingMore(Entries(fields));
        return Some(Concat(sort(fields)));
      }
      var step := OneField(sort, data[i..], config, t.value, t.size);
      if step.Stop? {
        return step.result;
      }
      BeforeTwice(fields, step.entries, ScanLevel(sort, Left(data[i..], step.size), config));
      assert Left(data[i..], step.size) == Left(data, i + step.size);
      fields := fields + step.entries;
      i := i + step.size;
    }
    assert Left(data, i) == [];
    PastTheEnd(sort, config);
    NothingMore(Entries(fields));
    r := Some(Concat(sort(fields)));
  }

  /** The two switches over the wire type. */
  method OneField(sort: Sorter, data: Bytes, config: seq<Config>, tag: nat, tagLen: nat) returns (s: FieldStep)
    requires ReadUvarint(data, 0) == Value(tag, tagLen)
    ensures StepIs(sort, data, config, s)
    decreases |data|, 1
  {
    hide ScanLevel, ReadUvarint, Find;
    var cfg := GetConfigForField(config, tag / 8);
    if tag % 8 == 0 {
      var v := ReadUvarint(data[tagLen..], 0);
      VarintStep(sort, data, config, tag, tagLen);
      if v.Overflow? {
        return Stop(None);
      }
      var n := tagLen + Size(v);
      s := Advance(if cfg.None? then [] else [Entry(tag / 8, data[..n])], n);
    } else if tag % 8 == 1 || tag % 8 == 5 {
      var n := tagLen + if tag % 8 == 1 then 8 else 4;
      FixedStep(sort, data, config, tag, tagLen, n - tagLen);
      PastTheEnd(sort, config);
      if cfg.None? {
        s := Advance([], n);
        BeforeTwice([], [], ScanLevel(sort, Left(data, n), config));
      } else if n > |data| {
        s := Stop(None);
      } else {
        s := Advance([Entry(tag / 8, data[..n])], n);
      }
    } else if tag % 8 == 2 {
      s := BytesField(sort, data, config, tag, tagLen, cfg);
    } else {
      UnknownWire(sort, data, config, tag, tagLen);
      s := Stop(Some([]));
    }
  }

  lemma UnknownWire(sort: Sorter, data: Bytes, config: seq<Config>, tag: nat, t: nat)
    requires ReadUvarint(data, 0) == Value(tag, t) && tag % 8 in {3, 4, 6, 7}
    ensures ScanLevel(sort, data, config) == Nothing
  {
    hide ReadUvarint, Find;
  }

  lemma TooLong(sort: Sorter, data: Bytes, config: seq<Config>, tag: nat, t: nat)
    requires ReadUvarint(data, 0) == Value(tag, t) && tag % 8 == 2
    requires var v := ReadUvarint(data[t..], 0); v.Overflow? || (v.Value? && v.value >= LENGTH_LIMIT)
    ensures ScanLevel(sort, data, config) == Undefined
  {
    hide ReadUvarint, Find;
  }

  method BytesField(sort: Sorter, data: Bytes, config: seq<Config>, tag: nat, tagLen: nat, cfg: Option<Config>)
    returns (s: FieldStep)
    requires ReadUvarint(data, 0) == Value(tag, tagLen) && tag % 8 == 2 && cfg == Find(config, tag / 8)
    ensures StepIs(sort, data, config, s)
    decreases |data|, 0
  {
    hide ScanLevel, ReadUvarint, Find;
    var v := ReadUvarint(data[tagLen..], 0);
    if v.Overflow? || (v.Value? && v.value >= LENGTH_LIMIT) {
      TooLong(sort, data, config, tag, tagLen);
      return Stop(None);
    }
    var l := if v.Value? then v.value else 0;
    var start := tagLen + Size(v);
    var end := start + l;
    BytesStep(sort, data, config, tag, tagLen, l, Size(v));
    BeforeTwice([], [], ScanLevel(sort, Left(data, end), config));
    if cfg.None? {
      return Advance([], end);
    }
    if end > |data| {
      return Stop(None);
    }
    if Descends(cfg.value) {
      var sub := ExtractReportingTokenContent(sort, data[start..end], cfg.value.subfields);
      if sub.None? {
        return Stop(None);
      }
      var own := Entry(tag / 8, PutUvarint(tag) + PutUvarint(|sub.value|) + sub.value);
      s := Advance(if |sub.value| > 0 then [own] else [], end);
    } else {
      s := Advance([Entry(tag / 8, data[..end])], end);
    }
  }
}
