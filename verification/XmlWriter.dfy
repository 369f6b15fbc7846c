/** The encoder as it is written: a buffer that every operation appends to (binary/encoder.go). */
module XmlWriter {
  import opened Bytes
  import opened Decimal
  import opened Jid
  import opened Tokens
  import opened XmlFormat
  import XmlTree

  lemma PairStep(hex: bool, s: Bytes, i: nat)
    requires Packable(hex, s) && 2 * i + 1 < |s|
    ensures PackPairs(hex, s[2 * i..])
         == [PackChar(hex, s[2 * i]) * 16 + PackChar(hex, s[2 * i + 1])] + PackPairs(hex, s[2 * (i + 1)..])
  {
    assert s[2 * i..][2..] == s[2 * (i + 1)..];
  }

  lemma LastPair(hex: bool, s: Bytes)
    requires Packable(hex, s)
    ensures PackPairs(hex, s[2 * (|s| / 2)..])
         == if |s| % 2 != 0 then [PackChar(hex, s[|s| - 1]) * 16 + 15] else []
  {
  }

  lemma Associate(a: Bytes, b: Bytes, c: Bytes, d: Bytes, e: Bytes, f: Bytes)
    ensures a + b + c + d + e + f == a + (b + c + d + e + f)
    ensures f == [] ==> a + b + c + d + e == a + (b + c + d + e)
    ensures e == [] && f == [] ==> a + b + c + d == a + (b + c + d)
  {
  }

  class BinaryEncoder {
    const dict: Dictionary
    var data: Bytes

    constructor (dict: Dictionary)
      ensures this.dict == dict && data == [0]
    {
      this.dict := dict;
      data := [0];
    }

    method PushByte(b: byte)
      modifies this
      ensures data == old(data) + [b]
    {
      data := data + [b];
    }

    method PushBytes(bytes: Bytes)
      modifies this
      ensures data == old(data) + bytes
    {
      data := data + bytes;
    }

    /** Most significant byte first; the bits above `n` bytes are lost. */
    method PushIntN(value: nat, n: nat)
      modifies this
      ensures data == old(data) + BigEndian(value, n)
    {
      for i := 0 to n
        invariant data == old(data) + BigEndian(value, n)[..i]
      {
        var shifted := value / Pow256(n - 1 - i);
        BigEndianByte(value, n, i);
        PushByte(shifted % 256);
      }
    }

    method PushInt20(value: nat)
      modifies this
      ensures data == old(data) + Int20(value)
    {
      data := data + [value / 0x1_0000 % 16, value / 0x100 % 256, value % 256];
      assert BigEndian(value / 256, 1) == BigEndian(value / 256 / 256, 0) + [value / 256 % 256];
      assert Int20(value) == [value / 0x1_0000 % 16, value / 0x100 % 256, value % 256];
    }

    /** The source panics on a length of 2^31 - 1 or more. */
    method WriteByteLength(length: nat)
      requires length < MAX_LENGTH
      modifies this
      ensures data == old(data) + EncodeLength(length)
    {
      if length < 256 {
        PushByte(BINARY_8);
        PushIntN(length, 1);
        assert BigEndian(length, 1) == [length];
      } else if length < 0x10_0000 {
        PushByte(BINARY_20);
        PushInt20(length);
      } else {
        PushByte(BINARY_32);
        PushIntN(length, 4);
      }
      assert data == old(data) + EncodeLength(length);
    }

    method WriteBytes(value: Bytes)
      requires |value| < MAX_LENGTH
      modifies this
      ensures data == old(data) + (EncodeLength(|value|) + value)
    {
      WriteByteLength(|value|);
      PushBytes(value);
    }

    method WritePackedBytes(value: Bytes, hex: bool)
      requires Packable(hex, value)
      modifies this
      ensures data == old(data) + EncodePacked(hex, value)
    {
      hide PackPairs, PackChar;
      PushByte(if hex then HEX_8 else NIBBLE_8);
      PushByte(PackedSize(|value|));
      ghost var goal := data + PackPairs(hex, value);
      assert goal == old(data) + EncodePacked(hex, value);
      var l := |value| / 2;
      assert value[0..] == value;
      for i := 0 to l
        invariant data + PackPairs(hex, value[2 * i..]) == goal
      {
        PairStep(hex, value, i);
        PushByte(PackChar(hex, value[2 * i]) * 16 + PackChar(hex, value[2 * i + 1]));
      }
      LastPair(hex, value);
      if |value| % 2 != 0 {
        PushByte(PackChar(hex, value[|value| - 1]) * 16 + 15);
      }
    }

    method WriteString(s: Bytes)
      requires Consistent(dict) && |s| < MAX_LENGTH
      modifies this
      ensures data == old(data) + EncodeString(dict, s)
    {
      if s in dict.singleIndex {
        PushByte(dict.singleIndex[s]);
      } else if s in dict.doubleIndex {
        PushByte(DICTIONARY_0 + dict.doubleIndex[s].dictionary);
        PushByte(dict.doubleIndex[s].index);
      } else if Packable(false, s) {
        WritePackedBytes(s, false);
      } else if Packable(true, s) {
        WritePackedBytes(s, true);
      } else {
        WriteBytes(s);
      }
    }

    method WriteListStart(listSize: nat)
      modifies this
      ensures data == old(data) + EncodeListStart(listSize)
    {
      if listSize == 0 {
        PushByte(LIST_EMPTY);
      } else if listSize < 256 {
        PushByte(LIST_8);
        PushIntN(listSize, 1);
        assert BigEndian(listSize, 1) == [listSize];
      } else {
        PushByte(LIST_16);
        PushIntN(listSize, 2);
      }
      assert data == old(data) + EncodeListStart(listSize);
    }

    method WriteJID(j: JID)
      requires Consistent(dict) && ShortJid(j)
      modifies this
      ensures data == old(data) + EncodeJid(dict, j)
    {
      hide EncodeString, BigEndian;
      ghost var user, server := EncodeString(dict, j.user), EncodeString(dict, j.server);
      if WrittenAsAD(j) {
        PushByte(AD_JID);
        PushByte(j.ActualAgent());
        PushByte(j.device % 256);
        WriteString(j.user);
        assert data == old(data) + ([AD_JID, j.ActualAgent(), j.device % 256] + user);
      } else if j.server == MESSENGER_SERVER {
        PushByte(FB_JID);
        WriteString(j.user);
        PushIntN(j.device, 2);
        WriteString(j.server);
        Associate(old(data), [FB_JID], user, BigEndian(j.device, 2), server, []);
      } else if j.server == INTEROP_SERVER {
        PushByte(INTEROP_JID);
        WriteString(j.user);
        PushIntN(j.device, 2);
        PushIntN(j.integrator, 2);
        WriteString(j.server);
        Associate(old(data), [INTEROP_JID], user, BigEndian(j.device, 2), BigEndian(j.integrator, 2), server);
      } else {
        PushByte(JID_PAIR);
        if |j.user| == 0 {
          PushByte(LIST_EMPTY);
          WriteString(j.server);
          Associate(old(data), [JID_PAIR], [LIST_EMPTY], server, [], []);
        } else {
          WriteString(j.user);
          WriteString(j.server);
          Associate(old(data), [JID_PAIR], user, server, [], []);
        }
      }
    }

    method CountAttributes(attrs: seq<Attr>) returns (count: nat)
      ensures count == XmlFormat.CountAttributes(attrs)
    {
      count := 0;
      for i := 0 to |attrs|
        invariant count == XmlFormat.CountAttributes(attrs[..i])
      {
        assert attrs[..i + 1][..i] == attrs[..i];
        if !Skipped(attrs[i]) {
          count := count + 1;
        }
      }
      assert attrs[..|attrs|] == attrs;
    }

    method WriteAttributes(attrs: seq<Attr>)
      requires Consistent(dict) && WritableAttrs(attrs)
      modifies this
      ensures data == old(data) + EncodeAttrs(dict, attrs)
      decreases attrs, 0
    {
      hide EncodeString, EncodeValue, WritableValue;
      ghost var goal := data + EncodeAttrs(dict, attrs);
      assert attrs[0..] == attrs;
      for i := 0 to |attrs|
        invariant data + EncodeAttrs(dict, attrs[i..]) == goal
      {
        ghost var before, rest := data, attrs[i..];
        assert rest[0] == attrs[i] && rest[1..] == attrs[i + 1..];
        if !Skipped(attrs[i]) {
          WriteString(attrs[i].key);
          Write(attrs[i].value);
          assert data + EncodeAttrs(dict, attrs[i + 1..]) == before + EncodeAttrs(dict, rest);
        }
      }
    }

    method Write(v: Value)
      requires Consistent(dict) && WritableValue(v)
      modifies this
      ensures data == old(data) + EncodeValue(dict, v)
      decreases v, 0
    {
      hide EncodeString, EncodeJid, EncodeLength, EncodeListStart, EncodeNodes, Itoa;
      match v {
        case Nil => PushByte(LIST_EMPTY);
        case Jid(j) => WriteJID(j);
        case Str(s) => WriteString(s);
        case Int(n) => WriteString(Itoa(n));
        case Bool(b) => WriteString(if b then TRUE_TEXT else FALSE_TEXT);
        case Raw(b) => WriteBytes(b);
        case List(ns) =>
          WriteListStart(|ns|);
          WriteNodes(ns);
      }
    }

    /** The loop over a list of children. */
    method WriteNodes(ns: seq<Node>)
      requires Consistent(dict) && forall i :: 0 <= i < |ns| ==> Writable(ns[i])
      modifies this
      ensures data == old(data) + EncodeNodes(dict, ns)
      decreases ns, 0
    {
      hide EncodeNode;
      ghost var goal := data + EncodeNodes(dict, ns);
      assert ns[0..] == ns;
      for i := 0 to |ns|
        invariant data + EncodeNodes(dict, ns[i..]) == goal
      {
        ghost var rest := ns[i..];
        assert rest[0] == ns[i] && rest[1..] == ns[i + 1..];
        WriteNode(ns[i]);
      }
    }

    method WriteNode(n: Node)
      requires Consistent(dict) && Writable(n)
      modifies this
      ensures data == old(data) + EncodeNode(dict, n)
      decreases n, 1
    {
      hide EncodeString, EncodeValue, EncodeAttrs, EncodeListStart, WritableValue;
      if n.tag == ZERO_TAG {
        PushByte(LIST_8);
        PushByte(LIST_EMPTY);
        return;
      }
      var hasContent := 0;
      if n.content != Nil {
        hasContent := 1;
      }
      var count := CountAttributes(n.attrs);
      WriteListStart(2 * count + 1 + hasContent);
      WriteString(n.tag);
      WriteAttributes(n.attrs);
      if n.content != Nil {
        Write(n.content);
      }
      assert data == old(data) + EncodeNode(dict, n);
    }
  }

  /** Marshal: the bytes of a fresh encoder after one element. */
  method Marshal(dict: Dictionary, n: Node) returns (data: Bytes)
    requires Consistent(dict) && Writable(n)
    ensures data == XmlTree.Marshal(dict, n)
  {
    var w := new BinaryEncoder(dict);
    w.WriteNode(n);
    data := w.data;
  }
}
