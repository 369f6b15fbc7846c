/** Reading back what was written: what every tree becomes, and which trees come back unchanged. */
module XmlRoundTrip {
  import opened Bytes
  import opened Decimal
  import opened Jid
  import opened Tokens
  import opened XmlFormat

  /* ---------- Pieces ---------- */

  lemma IntRoundTrip(v: nat, n: nat, rest: Bytes)
    requires v < Pow256(n)
    ensures ReadInt(BigEndian(v, n) + rest, n) == Parsed(v, rest)
  {
    BigEndianInverse(v, n);
    assert (BigEndian(v, n) + rest)[..n] == BigEndian(v, n);
    assert (BigEndian(v, n) + rest)[n..] == rest;
  }

  lemma SmallPowers()
    ensures Pow256(1) == 0x100 && Pow256(2) == 0x1_0000 && Pow256(4) == 0x1_0000_0000
  {
    assert Pow256(3) == 256 * Pow256(2);
  }

  lemma LengthRoundTrip(d: Dictionary, s: Bytes, rest: Bytes, asString: bool)
    requires |s| < MAX_LENGTH
    ensures ReadValue(d, EncodeLength(|s|) + s + rest, asString) == Parsed(if asString then Str(s) else Raw(s), rest)
  {
    var n := |s|;
    var b := EncodeLength(n) + s + rest;
    SmallPowers();
    assert (s + rest)[..n] == s && (s + rest)[n..] == rest;
    if n < 256 {
      assert b[1..] == [n] + (s + rest);
      assert BigEndian(n, 1) == [n];
      IntRoundTrip(n, 1, s + rest);
    } else if n < 0x10_0000 {
      assert b[1..] == Int20(n) + (s + rest);
      Int20RoundTrip(n, s + rest);
    } else {
      assert b[1..] == BigEndian(n, 4) + (s + rest);
      IntRoundTrip(n, 4, s + rest);
    }
  }

  lemma Int20RoundTrip(n: nat, rest: Bytes)
    requires n < 0x10_0000
    ensures ReadInt20(Int20(n) + rest) == Parsed(n, rest)
  {
    var b := Int20(n) + rest;
    TwoBytes(n);
    assert b[1..3] == [n / 256 % 256, n % 256] && b[3..] == rest;
    FromTwoBytes(n / 256 % 256, n % 256);
    hide BigEndian, FromBigEndian;
    TwentyBits(n);
  }

  lemma FromTwoBytes(high: byte, low: byte)
    ensures FromBigEndian([high, low]) == high as int * 256 + low as int
  {
    assert [high, low][..1] == [high] && [high][..0] == [];
    assert FromBigEndian([high]) == high as int;
  }

  lemma TwentyBits(n: nat)
    requires n < 0x10_0000
    ensures n == n / 0x1_0000 % 16 % 16 * 0x1_0000 + (n / 256 % 256 * 256 + n % 256)
  {
  }

  lemma TwoBytes(n: nat)
    ensures BigEndian(n, 2) == [n / 256 % 256, n % 256]
  {
    assert BigEndian(n / 256, 1) == BigEndian(n / 256 / 256, 0) + [n / 256 % 256];
  }

  lemma {:induction false} PairsRoundTrip(hex: bool, s: Bytes)
    requires forall i :: 0 <= i < |s| ==> PackableChar(hex, s[i])
    ensures UnpackPairs(hex, PackPairs(hex, s)) == Some(if |s| % 2 == 0 then s else s + [FillerChar(hex)])
  {
    hide PackChar, UnpackChar, UnpackPairs;
    var filler := [FillerChar(hex)];
    if s == [] {
      NothingUnpacks(hex);
    } else if |s| == 1 {
      NothingUnpacks(hex);
      CharRoundTrip(hex, s[0]);
      UnpackCons(hex, PackChar(hex, s[0]), 15, [], s[0], FillerChar(hex));
      assert PackPairs(hex, s) == [PackChar(hex, s[0]) * 16 + 15] + [];
      assert s + filler == [s[0], FillerChar(hex)] + [];
    } else {
      CharRoundTrip(hex, s[0]);
      CharRoundTrip(hex, s[1]);
      PairsRoundTrip(hex, s[2..]);
      UnpackCons(hex, PackChar(hex, s[0]), PackChar(hex, s[1]), PackPairs(hex, s[2..]), s[0], s[1]);
      assert s == [s[0], s[1]] + s[2..] && s + filler == [s[0], s[1]] + (s[2..] + filler);
    }
  }

  lemma NothingUnpacks(hex: bool)
    ensures UnpackPairs(hex, []) == Some([])
  {
  }

  lemma UnpackCons(hex: bool, v: byte, w: byte, rest: Bytes, x: byte, y: byte)
    requires v < 16 && w < 16 && UnpackChar(hex, v) == Some(x) && UnpackChar(hex, w) == Some(y)
    requires UnpackPairs(hex, rest).Some?
    ensures UnpackPairs(hex, [v * 16 + w] + rest) == Some([x, y] + UnpackPairs(hex, rest).value)
  {
    hide UnpackChar;
    var b: Bytes := [v * 16 + w] + rest;
    assert b[0] / 16 == v && b[0] % 16 == w && b[1..] == rest;
  }

  /** What the filler of an odd last character reads as. */
  function FillerChar(hex: bool): (c: byte)
    ensures UnpackChar(hex, 15) == Some(c)
  {
    if hex then 70 else 0
  }

  lemma CharRoundTrip(hex: bool, c: byte)
    requires PackableChar(hex, c)
    ensures UnpackChar(hex, PackChar(hex, c)) == Some(c)
  {
  }

  lemma PackedRoundTrip(hex: bool, s: Bytes, rest: Bytes)
    requires Packable(hex, s)
    ensures ReadPacked(hex, EncodePacked(hex, s)[1..] + rest) == Parsed(Str(s), rest)
  {
    var size := PackedSize(|s|);
    var pairs := PackPairs(hex, s);
    var b := EncodePacked(hex, s)[1..] + rest;
    assert b == [size] + pairs + rest;
    assert size % 128 == |pairs|;
    assert b[1..1 + |pairs|] == pairs && b[1 + |pairs|..] == rest;
    PairsRoundTrip(hex, s);
    if |s| % 2 == 1 {
      assert (s + [FillerChar(hex)])[..|s|] == s;
    }
  }

  lemma StringRoundTrip(d: Dictionary, s: Bytes, rest: Bytes, asString: bool)
    requires Consistent(d) && |s| < MAX_LENGTH
    ensures ReadValue(d, EncodeString(d, s) + rest, asString)
         == Parsed(if asString || !WrittenRaw(d, s) then Str(s) else Raw(s), rest)
  {
    hide ReadValue, ReadPacked, EncodePacked, EncodeLength, ReadDouble;
    var b := EncodeString(d, s) + rest;
    if s in d.singleIndex {
      assert b[0] == d.singleIndex[s] && b[1..] == rest;
      ReadTextByTag(d, b, asString);
    } else if s in d.doubleIndex {
      DoubleTokenRoundTrip(d, s, rest);
      var i := d.doubleIndex[s];
      assert b[0] == DICTIONARY_0 + i.dictionary && b[1..] == [i.index] + rest;
      ReadTextByTag(d, b, asString);
    } else if Packable(false, s) {
      PackedStart(false, s);
      assert b[0] == NIBBLE_8 && b[1..] == EncodePacked(false, s)[1..] + rest;
      PackedRoundTrip(false, s, rest);
      ReadTextByTag(d, b, asString);
    } else if Packable(true, s) {
      PackedStart(true, s);
      assert b[0] == HEX_8 && b[1..] == EncodePacked(true, s)[1..] + rest;
      PackedRoundTrip(true, s, rest);
      ReadTextByTag(d, b, asString);
    } else {
      LengthRoundTrip(d, s, rest, asString);
    }
  }

  lemma PackedStart(hex: bool, s: Bytes)
    requires Packable(hex, s)
    ensures |EncodePacked(hex, s)| >= 2 && EncodePacked(hex, s)[0] == if hex then HEX_8 else NIBBLE_8
  {
  }

  lemma DoubleTokenRoundTrip(d: Dictionary, s: Bytes, rest: Bytes)
    requires Consistent(d) && s in d.doubleIndex
    ensures var i := d.doubleIndex[s];
            ReadDouble(d, DICTIONARY_0 + i.dictionary, [i.index] + rest) == Parsed(Str(s), rest)
  {
    var i := d.doubleIndex[s];
    SmallPowers();
    assert BigEndian(i.index, 1) == [i.index];
    IntRoundTrip(i.index, 1, rest);
  }

  /** The tag byte alone decides how text is read. */
  lemma ReadTextByTag(d: Dictionary, b: Bytes, asString: bool)
    requires b != []
    ensures 1 <= b[0] < DICTIONARY_0 ==> ReadValue(d, b, asString) == ReadToken(d, b[0], b[1..])
    ensures DICTIONARY_0 <= b[0] < DICTIONARY_0 + 4 ==> ReadValue(d, b, asString) == ReadDouble(d, b[0], b[1..])
    ensures b[0] == NIBBLE_8 ==> ReadValue(d, b, asString) == ReadPacked(false, b[1..])
    ensures b[0] == HEX_8 ==> ReadValue(d, b, asString) == ReadPacked(true, b[1..])
  {
    hide ReadADJid, ReadFBJid, ReadInteropJid, ReadJidPair, ReadNodes, ReadPacked, ReadToken, ReadDouble;
  }

  /* ---------- JIDs ---------- */

  /** What a JID becomes: each encoding carries only some of the fields. */
  function NormalJid(j: JID): JID
  {
    if WrittenAsAD(j) then JID(j.user, 0, j.device % 256, 0, j.server)
    else if j.server == MESSENGER_SERVER then JID(j.user, 0, j.device, 0, j.server)
    else if j.server == INTEROP_SERVER then JID(j.user, 0, j.device, j.integrator, j.server)
    else JID(j.user, 0, 0, 0, j.server)
  }

  lemma Uint16RoundTrip(v: uint16)
    ensures Uint16(BigEndian(v, 2)) == v
  {
    TwoBytes(v);
  }

  lemma ADJidRoundTrip(d: Dictionary, j: JID, rest: Bytes)
    requires Consistent(d) && ShortJid(j) && WrittenAsAD(j)
    ensures ReadADJid(d, EncodeJid(d, j)[1..] + rest) == Parsed(Jid(NormalJid(j)), rest)
  {
    hide ReadValue, EncodeString, BigEndian, Uint16;
    var b := EncodeJid(d, j)[1..] + rest;
    assert b == [j.ActualAgent(), j.device % 256] + (EncodeString(d, j.user) + rest);
    assert b[2..] == EncodeString(d, j.user) + rest;
    StringRoundTrip(d, j.user, rest, true);
  }

  lemma FBJidRoundTrip(d: Dictionary, j: JID, rest: Bytes)
    requires Consistent(d) && ShortJid(j) && !WrittenAsAD(j) && j.server == MESSENGER_SERVER
    ensures ReadFBJid(d, EncodeJid(d, j)[1..] + rest) == Parsed(Jid(NormalJid(j)), rest)
  {
    hide ReadValue, EncodeString, BigEndian, Uint16;
    var user, server := EncodeString(d, j.user), EncodeString(d, j.server);
    var tail := BigEndian(j.device, 2) + (server + rest);
    assert EncodeJid(d, j)[1..] + rest == user + tail;
    assert tail[2..] == server + rest && tail[..2] == BigEndian(j.device, 2);
    StringRoundTrip(d, j.user, tail, true);
    StringRoundTrip(d, j.server, rest, true);
    Uint16RoundTrip(j.device);
  }

  lemma InteropJidRoundTrip(d: Dictionary, j: JID, rest: Bytes)
    requires Consistent(d) && ShortJid(j) && !WrittenAsAD(j)
    requires j.server != MESSENGER_SERVER && j.server == INTEROP_SERVER
    ensures ReadInteropJid(d, EncodeJid(d, j)[1..] + rest) == Parsed(Jid(NormalJid(j)), rest)
  {
    hide ReadValue, EncodeString, BigEndian, Uint16;
    var user, server := EncodeString(d, j.user), EncodeString(d, j.server);
    var tail := BigEndian(j.device, 2) + BigEndian(j.integrator, 2) + (server + rest);
    assert EncodeJid(d, j)[1..] + rest == user + tail;
    assert tail[4..] == server + rest;
    assert tail[..2] == BigEndian(j.device, 2) && tail[2..4] == BigEndian(j.integrator, 2);
    StringRoundTrip(d, j.user, tail, true);
    StringRoundTrip(d, j.server, rest, true);
    Uint16RoundTrip(j.device);
    Uint16RoundTrip(j.integrator);
  }

  lemma PairJidRoundTrip(d: Dictionary, j: JID, rest: Bytes)
    requires Consistent(d) && ShortJid(j) && !WrittenAsAD(j)
    requires j.server != MESSENGER_SERVER && j.server != INTEROP_SERVER
    ensures ReadJidPair(d, EncodeJid(d, j)[1..] + rest) == Parsed(Jid(NormalJid(j)), rest)
  {
    hide ReadValue, EncodeString;
    var user, server := EncodeString(d, j.user), EncodeString(d, j.server);
    StringRoundTrip(d, j.server, rest, true);
    if j.user == [] {
      var b := [LIST_EMPTY] + (server + rest);
      assert EncodeJid(d, j)[1..] + rest == b && b[1..] == server + rest;
      ReadByTag(d, b, true);
    } else {
      assert EncodeJid(d, j)[1..] + rest == user + (server + rest);
      StringRoundTrip(d, j.user, server + rest, true);
    }
  }

  /** The tag byte alone decides which JID reader runs. */
  lemma ReadByTag(d: Dictionary, b: Bytes, asString: bool)
    requires b != []
    ensures b[0] == LIST_EMPTY ==> ReadValue(d, b, asString) == Parsed(Nil, b[1..])
    ensures b[0] == AD_JID ==> ReadValue(d, b, asString) == ReadADJid(d, b[1..])
    ensures b[0] == FB_JID ==> ReadValue(d, b, asString) == ReadFBJid(d, b[1..])
    ensures b[0] == INTEROP_JID ==> ReadValue(d, b, asString) == ReadInteropJid(d, b[1..])
    ensures b[0] == JID_PAIR ==> ReadValue(d, b, asString) == ReadJidPair(d, b[1..])
  {
    hide ReadADJid, ReadFBJid, ReadInteropJid, ReadJidPair, ReadNodes, ReadPacked;
  }

  lemma JidRoundTrip(d: Dictionary, j: JID, rest: Bytes, asString: bool)
    requires Consistent(d) && ShortJid(j)
    ensures ReadValue(d, EncodeJid(d, j) + rest, asString) == Parsed(Jid(NormalJid(j)), rest)
  {
    hide ReadValue, EncodeString, NormalJid, ReadADJid, ReadFBJid, ReadInteropJid, ReadJidPair;
    var e := EncodeJid(d, j);
    assert (e + rest)[0] == e[0] && (e + rest)[1..] == e[1..] + rest;
    ReadByTag(d, e + rest, asString);
    if WrittenAsAD(j) {
      ADJidRoundTrip(d, j, rest);
    } else if j.server == MESSENGER_SERVER {
      FBJidRoundTrip(d, j, rest);
    } else if j.server == INTEROP_SERVER {
      InteropJidRoundTrip(d, j, rest);
    } else {
      PairJidRoundTrip(d, j, rest);
    }
  }

  /* ---------- Trees ---------- */

  /** What a value becomes when it is read as an attribute (`asString`) or as content. */
  function NormalValue(d: Dictionary, v: Value, asString: bool): Value
    decreases v, 0
  {
    match v
    case Nil => Nil
    case Str(s) => if asString || !WrittenRaw(d, s) then Str(s) else Raw(s)
    case Int(n) => if asString || !WrittenRaw(d, Itoa(n)) then Str(Itoa(n)) else Raw(Itoa(n))
    case Bool(b) => var s := if b then TRUE_TEXT else FALSE_TEXT;
                    if asString || !WrittenRaw(d, s) then Str(s) else Raw(s)
    case Raw(b) => if asString then Str(b) else Raw(b)
    case Jid(j) => Jid(NormalJid(j))
    case List(ns) => if ns == [] then Nil else List(NormalNodes(d, ns))
  }

  function NormalNodes(d: Dictionary, ns: seq<Node>): (r: seq<Node>)
    ensures |r| == |ns|
    decreases ns, 0
  {
    if ns == [] then [] else [NormalNode(d, ns[0])] + NormalNodes(d, ns[1..])
  }

  function NormalAttrs(d: Dictionary, attrs: seq<Attr>): (r: seq<Attr>)
    decreases attrs, 0
  {
    if attrs == [] then []
    else if Skipped(attrs[0]) then NormalAttrs(d, attrs[1..])
    else [Attr(attrs[0].key, NormalValue(d, attrs[0].value, true))] + NormalAttrs(d, attrs[1..])
  }

  function NormalNode(d: Dictionary, n: Node): Node
    decreases n, 1
  {
    Node(n.tag, NormalAttrs(d, n.attrs), NormalValue(d, n.content, false))
  }

  /** A tag that the decoder accepts, and list sizes that fit in two bytes, all the way down. */
  predicate Readable(n: Node)
    decreases n, 1
  {
    && n.tag != [] && n.tag != ZERO_TAG && NodeListSize(n) < 0x1_0000
    && (forall i :: 0 <= i < |n.attrs| ==> ReadableValue(n.attrs[i].value))
    && ReadableValue(n.content)
  }

  predicate ReadableValue(v: Value)
    decreases v, 0
  {
    v.List? ==> |v.nodes| < 0x1_0000 && forall i :: 0 <= i < |v.nodes| ==> Readable(v.nodes[i])
  }

  lemma ListStartRoundTrip(size: nat, rest: Bytes)
    requires size < 0x1_0000
    ensures var b := EncodeListStart(size) + rest;
            b != [] && ReadListSize(b[0], b[1..]) == Parsed(size, rest)
            && (b[0] == LIST_EMPTY <==> size == 0) && (b[0] in {LIST_EMPTY, LIST_8, LIST_16})
  {
    var b := EncodeListStart(size) + rest;
    SmallPowers();
    if size == 0 {
      assert b[1..] == rest;
    } else if size < 256 {
      assert b[1..] == [size] + rest && BigEndian(size, 1) == [size];
      IntRoundTrip(size, 1, rest);
    } else {
      assert b[1..] == BigEndian(size, 2) + rest;
      IntRoundTrip(size, 2, rest);
    }
  }

  /** Reading a list value once its size is known. */
  lemma ReadListValue(d: Dictionary, b: Bytes, size: nat, rest: Bytes, asString: bool)
    requires b != [] && b[0] in {LIST_8, LIST_16} && ReadListSize(b[0], b[1..]) == Parsed(size, rest)
    ensures ReadNodes(d, rest, size).Parsed? ==>
              ReadValue(d, b, asString) == Parsed(List(ReadNodes(d, rest, size).value), ReadNodes(d, rest, size).rest)
  {
    hide ReadNodes, ReadListSize, ReadADJid, ReadFBJid, ReadInteropJid, ReadJidPair, ReadPacked;
  }

  lemma {:induction false} ValueRoundTrip(d: Dictionary, v: Value, rest: Bytes, asString: bool)
    requires Consistent(d) && WritableValue(v) && ReadableValue(v)
    ensures ReadValue(d, EncodeValue(d, v) + rest, asString) == Parsed(NormalValue(d, v, asString), rest)
    decreases v, 0
  {
    hide ReadValue, EncodeString, EncodeJid, NormalJid, EncodeLength, ReadNodes;
    match v
    case Nil =>
      var b := [LIST_EMPTY] + rest;
      assert b[1..] == rest;
      ReadByTag(d, b, asString);
    case Str(s) => StringRoundTrip(d, s, rest, asString);
    case Int(n) => StringRoundTrip(d, Itoa(n), rest, asString);
    case Bool(f) => StringRoundTrip(d, if f then TRUE_TEXT else FALSE_TEXT, rest, asString);
    case Raw(bytes) => LengthRoundTrip(d, bytes, rest, asString);
    case Jid(j) => JidRoundTrip(d, j, rest, asString);
    case List(ns) =>
      var body := EncodeNodes(d, ns) + rest;
      var b := EncodeListStart(|ns|) + body;
      assert EncodeValue(d, v) + rest == b;
      ListStartRoundTrip(|ns|, body);
      NodesRoundTrip(d, ns, rest);
      if ns == [] {
        assert body == rest;
        ReadByTag(d, b, asString);
        assert b[1..] == rest;
      } else {
        ReadListValue(d, b, |ns|, body, asString);
      }
  }

  lemma {:induction false} NodesRoundTrip(d: Dictionary, ns: seq<Node>, rest: Bytes)
    requires Consistent(d) && forall i :: 0 <= i < |ns| ==> Writable(ns[i]) && Readable(ns[i])
    ensures ReadNodes(d, EncodeNodes(d, ns) + rest, |ns|) == Parsed(NormalNodes(d, ns), rest)
    decreases ns, 0
  {
    hide ReadNode, EncodeNode, NormalNode;
    if ns == [] {
      assert EncodeNodes(d, ns) + rest == rest;
    } else {
      var tail := EncodeNodes(d, ns[1..]) + rest;
      assert EncodeNodes(d, ns) + rest == EncodeNode(d, ns[0]) + tail;
      NodeRoundTrip(d, ns[0], tail);
      NodesRoundTrip(d, ns[1..], rest);
    }
  }

  lemma CountFirst(attrs: seq<Attr>)
    requires attrs != []
    ensures CountAttributes(attrs) == CountAttributes(attrs[1..]) + if Skipped(attrs[0]) then 0 else 1
  {
    var n := |attrs| - 1;
    if n > 0 {
      CountFirst(attrs[..n]);
      assert attrs[..n][1..] == attrs[1..][..n - 1];
    }
  }

  lemma {:induction false} AttrsRoundTrip(d: Dictionary, attrs: seq<Attr>, rest: Bytes)
    requires Consistent(d) && WritableAttrs(attrs)
    requires forall i :: 0 <= i < |attrs| ==> ReadableValue(attrs[i].value)
    ensures ReadAttrs(d, EncodeAttrs(d, attrs) + rest, CountAttributes(attrs)) == Parsed(NormalAttrs(d, attrs), rest)
    decreases attrs, 0
  {
    hide ReadValue, EncodeValue, EncodeString, NormalValue, WritableValue, ReadableValue, WrittenRaw;
    if attrs == [] {
      assert EncodeAttrs(d, attrs) + rest == rest;
    } else {
      CountFirst(attrs);
      AttrsRoundTrip(d, attrs[1..], rest);
      if !Skipped(attrs[0]) {
        var tail := EncodeAttrs(d, attrs[1..]) + rest;
        var value := EncodeValue(d, attrs[0].value) + tail;
        assert EncodeAttrs(d, attrs) + rest == EncodeString(d, attrs[0].key) + value;
        StringRoundTrip(d, attrs[0].key, value, true);
        ValueRoundTrip(d, attrs[0].value, tail, true);
      }
    }
  }

  /** The decoder reads back every readable tree, in normal form, and stops exactly where the encoder stopped. */
  lemma {:induction false} NodeRoundTrip(d: Dictionary, n: Node, rest: Bytes)
    requires Consistent(d) && Writable(n) && Readable(n)
    ensures ReadNode(d, EncodeNode(d, n) + rest) == Parsed(NormalNode(d, n), rest)
    decreases n, 1
  {
    hide ReadValue, EncodeValue, EncodeString, ReadAttrs, EncodeAttrs, NormalAttrs, ReadListSize, EncodeListStart,
      WrittenRaw;
    var content := (if n.content == Nil then [] else EncodeValue(d, n.content)) + rest;
    var attrs := EncodeAttrs(d, n.attrs) + content;
    var tag := EncodeString(d, n.tag) + attrs;
    var b := EncodeListStart(NodeListSize(n)) + tag;
    assert EncodeNode(d, n) + rest == b;
    ListStartRoundTrip(NodeListSize(n), tag);
    StringRoundTrip(d, n.tag, attrs, true);
    AttrsRoundTrip(d, n.attrs, content);
    if n.content == Nil {
      assert content == rest;
    } else {
      ValueRoundTrip(d, n.content, rest, false);
    }
  }
}
