/** The decoder as it is written: a cursor that every read moves (binary/decoder.go, binary/node.go). */
module XmlReader {
  import opened Bytes
  import opened Jid
  import opened Tokens
  import opened XmlFormat
  import opened XmlTree
  import XmlRoundTrip

  /** A value, an error, or a failed type assertion or slice, which panics. */
  datatype Read<+T> = Got(value: T) | Failed | Panicked

  function ReportNat(p: Parsed<nat>): Read<nat>
  {
    match p case Parsed(v, _) => Got(v) case Malformed => Failed case Panic => Panicked
  }

  function ReportValue(p: Parsed<Value>): Read<TreeValue>
  {
    match p case Parsed(v, _) => Got(ForgetValue(v)) case Malformed => Failed case Panic => Panicked
  }

  function ReportNode(p: Parsed<Node>): Read<Tree>
  {
    match p case Parsed(v, _) => Got(Forget(v)) case Malformed => Failed case Panic => Panicked
  }

  function ReportNodes(p: Parsed<seq<Node>>): Read<seq<Tree>>
  {
    match p case Parsed(v, _) => Got(ForgetNodes(v)) case Malformed => Failed case Panic => Panicked
  }

  function ReportAttrs(p: Parsed<seq<Attr>>): Read<map<Bytes, TreeValue>>
  {
    match p case Parsed(v, _) => Got(ForgetAttrs(v)) case Malformed => Failed case Panic => Panicked
  }

  function Prepend<T>(before: seq<T>, p: Parsed<seq<T>>): Parsed<seq<T>>
  {
    match p case Parsed(v, rest) => Parsed(before + v, rest) case Malformed => Malformed case Panic => Panic
  }

  function PrependText(before: Bytes, p: Option<Bytes>): Option<Bytes>
  {
    match p case Some(t) => Some(before + t) case None => None
  }

  lemma {:induction false} ForgetNodesSnoc(ns: seq<Node>, n: Node)
    ensures ForgetNodes(ns + [n]) == ForgetNodes(ns) + [Forget(n)]
  {
    hide Forget;
    if ns != [] {
      ForgetNodesSnoc(ns[1..], n);
      assert (ns + [n])[1..] == ns[1..] + [n];
    } else {
      assert ns + [n] == [n] && [n][1..] == [];
    }
  }

  lemma ReadNodesStep(d: Dictionary, b: Bytes, n: nat, before: seq<Node>)
    requires n > 0
    ensures var p := ReadNode(d, b);
            Prepend(before, ReadNodes(d, b, n))
              == if p.Malformed? then Malformed else if p.Panic? then Panic
                 else Prepend(before + [p.value], ReadNodes(d, p.rest, n - 1))
  {
    hide ReadNode;
    var p := ReadNode(d, b);
    if p.Parsed? {
      var rest := ReadNodes(d, p.rest, n - 1);
      if rest.Parsed? {
        assert before + ([p.value] + rest.value) == before + [p.value] + rest.value;
      }
    }
  }

  lemma ReadAttrsStep(d: Dictionary, b: Bytes, n: nat, before: seq<Attr>)
    requires n > 0
    ensures var k := ReadValue(d, b, true);
            var all := Prepend(before, ReadAttrs(d, b, n));
            if k.Malformed? then all == Malformed else if k.Panic? then all == Panic
            else if !k.value.Str? then all == Malformed else
              var v := ReadValue(d, k.rest, true);
              all == if v.Malformed? then Malformed else if v.Panic? then Panic
                     else Prepend(before + [Attr(k.value.text, v.value)], ReadAttrs(d, v.rest, n - 1))
  {
    hide ReadValue;
    var k := ReadValue(d, b, true);
    if k.Parsed? && k.value.Str? {
      var v := ReadValue(d, k.rest, true);
      if v.Parsed? {
        var rest := ReadAttrs(d, v.rest, n - 1);
        if rest.Parsed? {
          var a := Attr(k.value.text, v.value);
          assert before + ([a] + rest.value) == before + [a] + rest.value;
        }
      }
    }
  }

  class BinaryDecoder {
    const dict: Dictionary
    const data: Bytes
    var index: nat

    constructor (dict: Dictionary, data: Bytes)
      ensures this.dict == dict && this.data == data && index == 0
    {
      this.dict := dict;
      this.data := data;
      index := 0;
    }

    /** The cursor never passes the end of the data. */
    predicate Valid()
      reads this
    {
      index <= |data|
    }

    /** The bytes still to be read. */
    function Rest(): Bytes
      requires Valid()
      reads this
    {
      data[index..]
    }

    method ReadByte() returns (r: Read<nat>)
      requires Valid()
      modifies this
      ensures Valid()
      ensures old(Rest()) == [] ==> r.Failed? && index == old(index)
      ensures old(Rest()) != [] ==> r == Got(old(Rest())[0]) && Rest() == old(Rest())[1..] && index == old(index) + 1
    {
      if index + 1 > |data| {
        return Failed;
      }
      var b := data[index];
      index := index + 1;
      r := Got(b);
    }

    method ReadIntN(n: nat) returns (r: Read<nat>)
      requires Valid()
      modifies this
      ensures Valid()
      ensures r == ReportNat(ReadInt(old(Rest()), n))
      ensures r.Got? ==> Rest() == old(Rest())[n..] && index == old(index) + n
    {
      if index + n > |data| {
        return Failed;
      }
      ghost var bytes := Rest()[..n];
      var ret: nat := 0;
      for i := 0 to n
        invariant index == old(index) && ret == FromBigEndian(bytes[..i]) * Pow256(n - i)
      {
        assert bytes[..i + 1][..i] == bytes[..i] && bytes[i] == data[index + i];
        BigEndianStep(FromBigEndian(bytes[..i]), bytes[i] as int, Pow256(n - i - 1));
        ret := ret + data[index + i] as int * Pow256(n - i - 1);
      }
      assert bytes[..n] == bytes;
      index := index + n;
      r := Got(ret);
    }

    method ReadInt20() returns (r: Read<nat>)
      requires Valid()
      modifies this
      ensures Valid()
      ensures r == ReportNat(XmlFormat.ReadInt20(old(Rest())))
      ensures r.Got? ==> Rest() == old(Rest())[3..]
    {
      if index + 3 > |data| {
        return Failed;
      }
      ghost var two := Rest()[1..3];
      assert two[..1] == [two[0]] && [two[0]][..0] == [];
      assert FromBigEndian([two[0]]) == two[0] as int;
      var ret := data[index] % 16 * 0x1_0000 + data[index + 1] as int * 0x100 + data[index + 2] as int;
      index := index + 3;
      r := Got(ret);
    }

    method ReadBytesOrString(length: nat, asString: bool) returns (r: Read<TreeValue>)
      requires Valid()
      modifies this
      ensures Valid()
      ensures r == ReportValue(BytesOrString(Parsed(length, old(Rest())), asString))
      ensures r.Got? ==> Rest() == old(Rest())[length..]
    {
      if index + length > |data| {
        return Failed;
      }
      var bytes := data[index..index + length];
      assert bytes == Rest()[..length];
      index := index + length;
      r := Got(if asString then TStr(bytes) else TRaw(bytes));
    }

    method ReadPacked8(hex: bool) returns (r: Read<TreeValue>)
      requires Valid()
      modifies this
      ensures Valid()
      ensures r == ReportValue(ReadPacked(hex, old(Rest())))
      ensures r.Got? ==> Rest() == ReadPacked(hex, old(Rest())).rest
    {
      hide UnpackPairs, UnpackChar;
      ghost var b := Rest();
      var startByte := ReadByte();
      if !startByte.Got? {
        return Failed;
      }
      var n := startByte.value % 128;
      var build: Bytes := [];
      assert forall t: Bytes :: [] + t == t;
      for i := 0 to n
        invariant Valid() && 1 + i <= |b| && Rest() == b[1 + i..]
        invariant |b| >= 1 + n ==>
            UnpackPairs(hex, b[1..1 + n]) == PrependText(build, UnpackPairs(hex, b[1 + i..1 + n]))
      {
        UnpackStep(hex, b, 1 + i, 1 + n, build);
        var currByte := ReadByte();
        if !currByte.Got? {
          return Failed;
        }
        var first := UnpackChar(hex, currByte.value / 16);
        var second := UnpackChar(hex, currByte.value % 16);
        if first.None? || second.None? {
          return Failed;
        }
        build := build + [first.value, second.value];
      }
      XmlRoundTrip.NothingUnpacks(hex);
      assert b[1 + n..1 + n] == [] && build + [] == build;
      if startByte.value >= 128 {
        if build == [] {
          return Panicked;
        }
        build := build[..|build| - 1];
      }
      r := Got(TStr(build));
    }

    method ReadListSize(tag: nat) returns (r: Read<nat>)
      requires Valid()
      modifies this
      ensures Valid()
      ensures r == ReportNat(XmlFormat.ReadListSize(tag, old(Rest())))
      ensures r.Got? ==> Rest() == XmlFormat.ReadListSize(tag, old(Rest())).rest
    {
      if tag == LIST_EMPTY as int {
        return Got(0);
      } else if tag == LIST_8 as int {
        r := ReadIntN(1);
      } else if tag == LIST_16 as int {
        r := ReadIntN(2);
      } else {
        r := Failed;
      }
    }

    method Read(asString: bool) returns (r: Read<TreeValue>)
      requires Valid()
      modifies this
      ensures Valid()
      ensures r == ReportValue(ReadValue(dict, old(Rest()), asString))
      ensures r.Got? ==> Rest() == ReadValue(dict, old(Rest()), asString).rest
      decreases |data| - index, 0
    {
      hide ReadValue, ReadADJid, ReadFBJid, ReadInteropJid, ReadJidPair, ReadNodes, ReadPacked, FromBigEndian;
      ghost var b := Rest();
      NoValueInNothing(dict, asString);
      var tagByte := ReadByte();
      if !tagByte.Got? {
        return Failed;
      }
      var tag: nat := tagByte.value;
      ReadSizedValue(dict, b, asString);
      XmlRoundTrip.ReadByTag(dict, b, asString);
      if tag == LIST_EMPTY as int {
        return Got(TNil);
      } else if tag == LIST_8 as int || tag == LIST_16 as int {
        ReadListByTag(dict, b, asString);
        var nodes := ReadList(tag);
        r := match nodes case Got(ns) => Got(TList(ns)) case Failed => Failed case Panicked => Panicked;
      } else if tag == BINARY_8 as int {
        var size := ReadIntN(1);
        if !size.Got? { return Failed; }
        r := ReadBytesOrString(size.value, asString);
      } else if tag == BINARY_20 as int {
        var size := ReadInt20();
        if !size.Got? { return Failed; }
        r := ReadBytesOrString(size.value, asString);
      } else if tag == BINARY_32 as int {
        var size := ReadIntN(4);
        if !size.Got? { return Failed; }
        r := ReadBytesOrString(size.value, asString);
      } else if DICTIONARY_0 as int <= tag < DICTIONARY_0 as int + 4 {
        var i := ReadIntN(1);
        if !i.Got? { return Failed; }
        var token := GetDoubleToken(dict, tag - DICTIONARY_0 as int, i.value);
        r := if token.None? then Failed else Got(TStr(token.value));
      } else if tag == FB_JID as int {
        r := ReadFBJID();
      } else if tag == INTEROP_JID as int {
        r := ReadInteropJID();
      } else if tag == JID_PAIR as int {
        r := ReadJIDPair();
      } else if tag == AD_JID as int {
        r := ReadADJID();
      } else if tag == NIBBLE_8 as int {
        r := ReadPacked8(false);
      } else if tag == HEX_8 as int {
        r := ReadPacked8(true);
      } else if 1 <= tag < |dict.single| {
        r := Got(TStr(dict.single[tag]));
      } else {
        r := Failed;
      }
    }

    method ReadJIDPair() returns (r: Read<TreeValue>)
      requires Valid()
      modifies this
      ensures Valid()
      ensures r == ReportValue(ReadJidPair(dict, old(Rest())))
      ensures r.Got? ==> Rest() == ReadJidPair(dict, old(Rest())).rest
      decreases |data| - index, 1
    {
      hide ReadValue;
      var user := Read(true);
      if !user.Got? { return user; }
      var server := Read(true);
      if !server.Got? { return server; }
      if server.value == TNil { return Failed; }
      if !server.value.TStr? { return Panicked; }
      if user.value == TNil { return Got(TJid(NewJID([], server.value.text))); }
      if !user.value.TStr? { return Panicked; }
      r := Got(TJid(NewJID(user.value.text, server.value.text)));
    }

    method ReadInteropJID() returns (r: Read<TreeValue>)
      requires Valid()
      modifies this
      ensures Valid()
      ensures r == ReportValue(ReadInteropJid(dict, old(Rest())))
      ensures r.Got? ==> Rest() == ReadInteropJid(dict, old(Rest())).rest
      decreases |data| - index, 1
    {
      hide ReadValue, FromBigEndian;
      var user := Read(true);
      if !user.Got? { return user; }
      ghost var b1 := Rest();
      var device := ReadIntN(2);
      if !device.Got? { return Failed; }
      assert Rest() == b1[2..];
      var integrator := ReadIntN(2);
      if !integrator.Got? { return Failed; }
      assert Rest() == b1[4..] && b1[2..][..2] == b1[2..4];
      TwoByteNumber(b1[..2]);
      TwoByteNumber(b1[2..4]);
      var server := Read(true);
      if !server.Got? { return server; }
      if server.value != TStr(INTEROP_SERVER) { return Failed; }
      if !user.value.TStr? { return Panicked; }
      r := Got(TJid(JID(user.value.text, 0, device.value, integrator.value, INTEROP_SERVER)));
    }

    method ReadFBJID() returns (r: Read<TreeValue>)
      requires Valid()
      modifies this
      ensures Valid()
      ensures r == ReportValue(ReadFBJid(dict, old(Rest())))
      ensures r.Got? ==> Rest() == ReadFBJid(dict, old(Rest())).rest
      decreases |data| - index, 1
    {
      hide ReadValue, FromBigEndian;
      var user := Read(true);
      if !user.Got? { return user; }
      ghost var b1 := Rest();
      var device := ReadIntN(2);
      if !device.Got? { return Failed; }
      TwoByteNumber(b1[..2]);
      var server := Read(true);
      if !server.Got? { return server; }
      if server.value != TStr(MESSENGER_SERVER) { return Failed; }
      if !user.value.TStr? { return Panicked; }
      r := Got(TJid(JID(user.value.text, 0, device.value, 0, MESSENGER_SERVER)));
    }

    method ReadADJID() returns (r: Read<TreeValue>)
      requires Valid()
      modifies this
      ensures Valid()
      ensures r == ReportValue(ReadADJid(dict, old(Rest())))
      ensures r.Got? ==> Rest() == ReadADJid(dict, old(Rest())).rest
      decreases |data| - index, 1
    {
      hide ReadValue, NewADJID;
      ghost var b := Rest();
      var agent := ReadByte();
      if !agent.Got? { return Failed; }
      var device := ReadByte();
      if !device.Got? { return Failed; }
      assert Rest() == b[2..];
      var user := Read(true);
      if !user.Got? { return user; }
      if !user.value.TStr? { return Panicked; }
      r := Got(TJid(NewADJID(user.value.text, agent.value, device.value)));
    }

    method ReadAttributes(n: nat) returns (r: Read<map<Bytes, TreeValue>>)
      requires Valid()
      modifies this
      ensures Valid()
      ensures r == ReportAttrs(ReadAttrs(dict, old(Rest()), n))
      ensures r.Got? ==> Rest() == ReadAttrs(dict, old(Rest()), n).rest
      decreases |data| - index, 1
    {
      hide ReadValue, ReadAttrs;
      ghost var goal := ReadAttrs(dict, Rest(), n);
      ghost var seen: seq<Attr> := [];
      var ret: map<Bytes, TreeValue> := map[];
      assert forall s: seq<Attr> :: [] + s == s;
      for i := 0 to n
        invariant Valid() && old(index) <= index
        invariant goal == Prepend(seen, ReadAttrs(dict, Rest(), n - i))
        invariant ret == ForgetAttrs(seen)
      {
        ReadAttrsStep(dict, Rest(), n - i, seen);
        ghost var key := ReadValue(dict, Rest(), true);
        var keyIfc := Read(true);
        if keyIfc.Failed? { return Failed; }
        if keyIfc.Panicked? { return Panicked; }
        if !keyIfc.value.TStr? { return Failed; }
        ghost var value := ReadValue(dict, Rest(), true);
        var v := Read(true);
        if v.Failed? { return Failed; }
        if v.Panicked? { return Panicked; }
        ret := ret[keyIfc.value.text := v.value];
        ghost var a := Attr(key.value.text, value.value);
        assert (seen + [a])[..|seen|] == seen;
        seen := seen + [a];
      }
      NoAttrs(dict, Rest());
      assert seen + [] == seen;
      r := Got(ret);
    }

    method ReadList(tag: nat) returns (r: Read<seq<Tree>>)
      requires Valid() && (tag == LIST_8 as int || tag == LIST_16 as int)
      modifies this
      ensures Valid()
      ensures var size := XmlFormat.ReadListSize(tag, old(Rest()));
              if !size.Parsed? then r.Failed?
              else && r == ReportNodes(ReadNodes(dict, size.rest, size.value))
                   && (r.Got? ==> Rest() == ReadNodes(dict, size.rest, size.value).rest)
      decreases |data| - index, 1
    {
      hide XmlFormat.ReadNode, ReadNodes, Forget;
      var size := ReadListSize(tag);
      if !size.Got? { return Failed; }
      ghost var goal := ReadNodes(dict, Rest(), size.value);
      ghost var seen: seq<Node> := [];
      var ret: seq<Tree> := [];
      assert forall s: seq<Node> :: [] + s == s;
      for i := 0 to size.value
        invariant Valid() && old(index) <= index
        invariant goal == Prepend(seen, ReadNodes(dict, Rest(), size.value - i))
        invariant ret == ForgetNodes(seen)
      {
        ReadNodesStep(dict, Rest(), size.value - i, seen);
        ghost var node := XmlFormat.ReadNode(dict, Rest());
        var n := ReadNode();
        if n.Failed? { return Failed; }
        if n.Panicked? { return Panicked; }
        ForgetNodesSnoc(seen, node.value);
        ret := ret + [n.value];
        seen := seen + [node.value];
      }
      NoNodes(dict, Rest());
      assert seen + [] == seen;
      r := Got(ret);
    }

    method ReadNode() returns (r: Read<Tree>)
      requires Valid()
      modifies this
      ensures Valid()
      ensures r == ReportNode(XmlFormat.ReadNode(dict, old(Rest())))
      ensures r.Got? ==> Rest() == XmlFormat.ReadNode(dict, old(Rest())).rest
      decreases |data| - index, 0
    {
      hide ReadValue, ReadAttrs, FromBigEndian, ForgetAttrs;
      ghost var b := Rest();
      var size := ReadByte();
      if !size.Got? { return Failed; }
      var listSize := ReadListSize(size.value);
      if listSize.Failed? { return Failed; }
      if listSize.Panicked? { return Panicked; }
      var rawDesc := Read(true);
      if rawDesc.Failed? { return Failed; }
      if rawDesc.Panicked? { return Panicked; }
      if !rawDesc.value.TStr? { return Panicked; }
      var tag := rawDesc.value.text;
      if listSize.value == 0 || tag == [] { return Failed; }
      var attrs := ReadAttributes((listSize.value - 1) / 2);
      if attrs.Failed? { return Failed; }
      if attrs.Panicked? { return Panicked; }
      if listSize.value % 2 == 1 {
        assert ForgetValue(Nil) == TNil;
        return Got(Tree(tag, attrs.value, TNil));
      }
      var content := Read(false);
      if content.Failed? { return Failed; }
      if content.Panicked? { return Panicked; }
      r := Got(Tree(tag, attrs.value, content.value));
    }
  }

  /** Unmarshal: one element and nothing after it. */
  method Unmarshal(dict: Dictionary, data: Bytes) returns (r: Unmarshaled)
    ensures r == XmlTree.Unmarshal(dict, data)
  {
    hide XmlFormat.ReadNode, Forget;
    var d := new BinaryDecoder(dict, data);
    assert d.Rest() == data;
    var n := d.ReadNode();
    match n {
      case Failed => r := Invalid;
      case Panicked => r := Crash;
      case Got(tree) =>
        if d.index != |data| {
          r := Leftover(tree, |data| - d.index);
        } else {
          r := Unmarshaled(tree);
        }
    }
  }

  lemma NoValueInNothing(d: Dictionary, asString: bool)
    ensures ReadValue(d, [], asString) == Malformed
  {
  }

  lemma NoAttrs(d: Dictionary, b: Bytes)
    ensures ReadAttrs(d, b, 0) == Parsed([], b)
  {
  }

  lemma NoNodes(d: Dictionary, b: Bytes)
    ensures ReadNodes(d, b, 0) == Parsed([], b)
  {
  }

  lemma TwoByteNumber(b: Bytes)
    requires |b| == 2
    ensures FromBigEndian(b) == Uint16(b)
  {
    assert b[..1] == [b[0]] && [b[0]][..0] == [];
    assert FromBigEndian([b[0]]) == b[0] as int;
  }

  lemma ReadSizedValue(d: Dictionary, b: Bytes, asString: bool)
    requires b != []
    ensures b[0] == LIST_EMPTY ==> ReadValue(d, b, asString) == Parsed(Nil, b[1..])
    ensures b[0] == BINARY_8 ==> ReadValue(d, b, asString) == BytesOrString(ReadInt(b[1..], 1), asString)
    ensures b[0] == BINARY_20 ==> ReadValue(d, b, asString) == BytesOrString(ReadInt20(b[1..]), asString)
    ensures b[0] == BINARY_32 ==> ReadValue(d, b, asString) == BytesOrString(ReadInt(b[1..], 4), asString)
    ensures DICTIONARY_0 <= b[0] < DICTIONARY_0 + 4 ==> ReadValue(d, b, asString) == ReadDouble(d, b[0], b[1..])
    ensures b[0] == NIBBLE_8 ==> ReadValue(d, b, asString) == ReadPacked(false, b[1..])
    ensures b[0] == HEX_8 ==> ReadValue(d, b, asString) == ReadPacked(true, b[1..])
    ensures 1 <= b[0] < DICTIONARY_0 || DICTIONARY_0 + 4 <= b[0] < INTEROP_JID ==>
              ReadValue(d, b, asString) == ReadToken(d, b[0], b[1..])
  {
    hide ReadADJid, ReadFBJid, ReadInteropJid, ReadJidPair, ReadNodes, ReadPacked, BytesOrString, ReadInt, ReadInt20,
      ReadDouble, ReadToken;
  }

  lemma ReadListByTag(d: Dictionary, b: Bytes, asString: bool)
    requires b != [] && (b[0] == LIST_8 || b[0] == LIST_16)
    ensures var size := ReadListSize(b[0], b[1..]);
            ReadValue(d, b, asString)
              == if !size.Parsed? then Malformed else
                 var ns := ReadNodes(d, size.rest, size.value);
                 if ns.Malformed? then Malformed else if ns.Panic? then Panic else Parsed(List(ns.value), ns.rest)
  {
    hide ReadADJid, ReadFBJid, ReadInteropJid, ReadJidPair, ReadNodes, ReadPacked, BytesOrString, ReadInt, ReadInt20,
      ReadDouble, ReadToken, ReadListSize;
  }

  lemma UnpackStep(hex: bool, b: Bytes, i: nat, end: nat, build: Bytes)
    requires i < end
    ensures i < |b| && end <= |b| ==>
              var first, second := UnpackChar(hex, b[i] / 16), UnpackChar(hex, b[i] % 16);
              PrependText(build, UnpackPairs(hex, b[i..end]))
                == if first.None? || second.None? then None
                   else PrependText(build + [first.value, second.value], UnpackPairs(hex, b[i + 1..end]))
  {
    hide UnpackChar;
    if end <= |b| {
      var part := b[i..end];
      assert part[0] == b[i] && part[1..] == b[i + 1..end];
      var first, second := UnpackChar(hex, b[i] / 16), UnpackChar(hex, b[i] % 16);
      var rest := UnpackPairs(hex, b[i + 1..end]);
      if first.Some? && second.Some? && rest.Some? {
        assert build + ([first.value, second.value] + rest.value) == build + [first.value, second.value] + rest.value;
      }
    }
  }
}
