/**
 * The reporting-token filter (reportingtoken.go): a protobuf message is cut down, on its bytes, to the configured
 * fields in order of field number, and the same inside configured submessages.
 */
module Reporting {
  import opened Bytes

  datatype Config = Config(number: int, isMessage: bool, subfields: seq<Config>)

  /* ---------- Varints ---------- */

  datatype Uvarint = Value(value: nat, size: nat) | Short | Overflow

  /** Go's binary.Uvarint, from its `i`-th byte on. */
  function ReadUvarint(b: Bytes, i: nat): (r: Uvarint)
    requires i <= 10
    ensures r.Value? ==> 1 <= r.size <= |b|
  {
    if b == [] then Short
    else if i == 10 then Overflow
    else if b[0] < 128 then (if i == 9 && b[0] > 1 then Overflow else Value(b[0], 1))
    else match ReadUvarint(b[1..], i + 1)
         case Value(v, n) => Value(b[0] % 128 + 128 * v, n + 1)
         case Short => Short
         case Overflow => Overflow
  }

  function PutUvarint(v: nat): (b: Bytes)
    ensures b != []
  {
    if v < 128 then [v] else [v % 128 + 128] + PutUvarint(v / 128)
  }

  /** One more than the largest number that fits from the `i`-th byte on; 2^64 at the start. */
  function Room(i: nat): nat
    decreases 9 - i
  {
    if i >= 9 then 2 else 128 * Room(i + 1)
  }

  lemma {:induction false} UvarintRoundTrip(v: nat, i: nat, rest: Bytes)
    requires i <= 9 && v < Room(i)
    ensures ReadUvarint(PutUvarint(v) + rest, i) == Value(v, |PutUvarint(v)|)
    decreases v
  {
    var b := PutUvarint(v) + rest;
    if v >= 128 {
      assert b[1..] == PutUvarint(v / 128) + rest && b[0] == v % 128 + 128;
      UvarintRoundTrip(v / 128, i + 1, rest);
    }
  }

  lemma RoomAtStart()
    ensures Room(0) == 0x1_0000_0000_0000_0000
  {
    assert Room(9) == 2;
    assert Room(6) == 128 * 128 * 128 * 2;
    assert Room(3) == 128 * 128 * 128 * Room(6);
  }

  /* ---------- Extraction on bytes ---------- */

  datatype Entry = Entry(number: int, bytes: Bytes)

  /** sort.Slice by number: which of two equal numbers comes first is not known. */
  type Sorter = seq<Entry> -> seq<Entry>

  predicate SortedByNumber(es: seq<Entry>)
  {
    forall i, j :: 0 <= i < j < |es| ==> es[i].number <= es[j].number
  }

  ghost predicate SortsByNumber(sort: Sorter)
  {
    forall es :: multiset(sort(es)) == multiset(es) && SortedByNumber(sort(es))
  }

  function Find(config: seq<Config>, number: int): Option<Config>
  {
    if config == [] then None
    else if config[0].number == number then Some(config[0])
    else Find(config[1..], number)
  }

  predicate Descends(c: Config)
  {
    c.isMessage || |c.subfields| > 0
  }

  function Concat(es: seq<Entry>): Bytes
  {
    if es == [] then [] else es[0].bytes + Concat(es[1..])
  }

  /**
   * The entries of one level; `Nothing` for an unknown wire type, where the code returns nil; `Undefined` where it
   * would slice out of range or move its cursor backwards.
   */
  datatype Scan = Entries(entries: seq<Entry>) | Nothing | Undefined

  function Before(own: seq<Entry>, rest: Scan): Scan
  {
    match rest case Entries(es) => Entries(own + es) case Nothing => Nothing case Undefined => Undefined
  }

  const LENGTH_LIMIT := 0x4000_0000_0000_0000

  /** What a length-delimited field contributes. */
  function BytesEntry(sort: Sorter, tag: nat, whole: Bytes, value: Bytes, c: Config): (r: Scan)
    decreases |value|, 2
  {
    if !Descends(c) then Entries([Entry(tag / 8, whole)]) else
      match Extract(sort, value, c.subfields)
      case None => Undefined
      case Some(sub) =>
        Entries(if sub == [] then [] else [Entry(tag / 8, PutUvarint(tag) + PutUvarint(|sub|) + sub)])
  }

  function ScanLevel(sort: Sorter, data: Bytes, config: seq<Config>): Scan
    decreases |data|, 0
  {
    var t := ReadUvarint(data, 0);
    if !t.Value? then Entries([]) else
      var tag, after := t.value, data[t.size..];
      var c := Find(config, tag / 8);
      var wire := tag % 8;
      if wire == 0 then
        match ReadUvarint(after, 0)
        case Overflow => Undefined
        case Short => Entries(if c.None? then [] else [Entry(tag / 8, data[..t.size])])
        case Value(_, n) =>
          Before(if c.None? then [] else [Entry(tag / 8, data[..t.size + n])], ScanLevel(sort, after[n..], config))
      else if wire == 1 || wire == 5 then
        var n := if wire == 1 then 8 else 4;
        if |after| < n then (if c.None? then Entries([]) else Undefined)
        else Before(if c.None? then [] else [Entry(tag / 8, data[..t.size + n])], ScanLevel(sort, after[n..], config))
      else if wire == 2 then
        match ReadUvarint(after, 0)
        case Overflow => Undefined
        case Short => if c.None? then Entries([]) else BytesEntry(sort, tag, data[..t.size], [], c.value)
        case Value(l, n) =>
          if l >= LENGTH_LIMIT then Undefined
          else if |after| - n < l then (if c.None? then Entries([]) else Undefined)
          else
            var own := if c.None? then Entries([])
                       else BytesEntry(sort, tag, data[..t.size + n + l], after[n..n + l], c.value);
            (match own
             case Nothing => Nothing
             case Undefined => Undefined
             case Entries(es) => Before(es, ScanLevel(sort, after[n + l..], config)))
      else Nothing
  }

  function Extract(sort: Sorter, data: Bytes, config: seq<Config>): Option<Bytes>
    decreases |data|, 1
  {
    match ScanLevel(sort, data, config)
    case Undefined => None
    case Nothing => Some([])
    case Entries(es) => Some(Concat(sort(es)))
  }

  /* ---------- Messages as trees ---------- */

  datatype Payload =
    | Varint(value: nat)
    | Fixed64(bytes: Bytes)
    | Len(bytes: Bytes)
    | Message(fields: seq<Field>)
    | Fixed32(bytes: Bytes)

  datatype Field = Field(number: nat, payload: Payload)

  function WireType(p: Payload): nat
  {
    match p case Varint(_) => 0 case Fixed64(_) => 1 case Len(_) => 2 case Message(_) => 2 case Fixed32(_) => 5
  }

  function Tag(f: Field): nat
  {
    f.number * 8 + WireType(f.payload)
  }

  function EncodePayload(p: Payload): Bytes
    decreases p, 0
  {
    match p
    case Varint(v) => PutUvarint(v)
    case Fixed64(b) => b
    case Len(b) => PutUvarint(|b|) + b
    case Message(fs) => PutUvarint(|Encode(fs)|) + Encode(fs)
    case Fixed32(b) => b
  }

  function EncodeField(f: Field): Bytes
    decreases f, 1
  {
    PutUvarint(Tag(f)) + EncodePayload(f.payload)
  }

  function Encode(fs: seq<Field>): Bytes
    decreases fs, 0
  {
    if fs == [] then [] else EncodeField(fs[0]) + Encode(fs[1..])
  }

  /** A message as a protobuf encoder makes it: numbers and lengths within their types. */
  predicate WellFormed(f: Field)
    decreases f, 1
  {
    && f.number < 0x2000_0000_0000_0000
    && match f.payload
       case Varint(v) => v < 0x1_0000_0000_0000_0000
       case Fixed64(b) => |b| == 8
       case Fixed32(b) => |b| == 4
       case Len(b) => |b| < LENGTH_LIMIT
       case Message(fs) => |Encode(fs)| < LENGTH_LIMIT && forall i :: 0 <= i < |fs| ==> WellFormed(fs[i])
  }

  predicate AllWellFormed(fs: seq<Field>)
  {
    forall i :: 0 <= i < |fs| ==> WellFormed(fs[i])
  }

  /**
   * Where the configuration expects a submessage, the length-delimited payload is one; configured numbers occur once.
   */
  predicate FieldFits(config: seq<Config>, f: Field)
    decreases f, 1
  {
    var c := Find(config, f.number);
    c.Some? && Descends(c.value) && WireType(f.payload) == 2 ==>
      f.payload.Message? && Fits(c.value.subfields, f.payload.fields)
  }

  predicate Fits(config: seq<Config>, fs: seq<Field>)
    decreases fs, 0
  {
    && (forall i :: 0 <= i < |fs| ==> FieldFits(config, fs[i]))
    && (forall i, j :: 0 <= i < j < |fs| && Find(config, fs[i].number).Some? ==> fs[i].number != fs[j].number)
  }

  /** A field as the filter leaves it, or nothing. */
  function KeepField(config: seq<Config>, f: Field): seq<Field>
    decreases f, 1
  {
    var c := Find(config, f.number);
    if c.None? then []
    else if Descends(c.value) && f.payload.Message? then
      var sub := Filter(c.value.subfields, f.payload.fields);
      if sub == [] then [] else [Field(f.number, Message(sub))]
    else [f]
  }

  function KeepAll(config: seq<Config>, fs: seq<Field>): seq<Field>
    decreases fs, 0
  {
    if fs == [] then [] else KeepField(config, fs[0]) + KeepAll(config, fs[1..])
  }

  function Insert(f: Field, fs: seq<Field>): seq<Field>
  {
    if fs == [] then [f]
    else if f.number <= fs[0].number then [f] + fs
    else [fs[0]] + Insert(f, fs[1..])
  }

  function Sort(fs: seq<Field>): seq<Field>
  {
    if fs == [] then [] else Insert(fs[0], Sort(fs[1..]))
  }

  /** The meaning of the filter: unconfigured fields and emptied submessages dropped, the rest sorted by number. */
  function Filter(config: seq<Config>, fs: seq<Field>): seq<Field>
    decreases fs, 1
  {
    Sort(KeepAll(config, fs))
  }
}
