/**
 * What the decoder refuses. It never looks at bytes it does not consume, so a message that is cut short is not
 * decoded, and one with bytes left over is reported.
 */
module XmlReject {
  import opened Bytes
  import opened Jid
  import opened Tokens
  import opened XmlFormat
  import opened XmlRoundTrip
  import opened XmlTree

  /* ---------- Bytes that follow do not matter ---------- */

  lemma IntExtends(b: Bytes, more: Bytes, n: nat)
    ensures ReadInt(b, n).Parsed? ==> ReadInt(b + more, n) == Parsed(ReadInt(b, n).value, ReadInt(b, n).rest + more)
  {
    hide FromBigEndian;
    if |b| >= n {
      assert (b + more)[..n] == b[..n] && (b + more)[n..] == b[n..] + more;
    }
  }

  lemma Int20Extends(b: Bytes, more: Bytes)
    ensures ReadInt20(b).Parsed? ==> ReadInt20(b + more) == Parsed(ReadInt20(b).value, ReadInt20(b).rest + more)
  {
    hide FromBigEndian;
    if |b| >= 3 {
      assert (b + more)[1..3] == b[1..3] && (b + more)[3..] == b[3..] + more;
    }
  }

  lemma BytesExtend(size: Parsed<nat>, more: Bytes, asString: bool)
    ensures BytesOrString(size, asString).Parsed? ==>
              var r := BytesOrString(size, asString);
              BytesOrString(Parsed(size.value, size.rest + more), asString) == Parsed(r.value, r.rest + more)
  {
    if size.Parsed? && |size.rest| >= size.value {
      var n := size.value;
      assert (size.rest + more)[..n] == size.rest[..n] && (size.rest + more)[n..] == size.rest[n..] + more;
    }
  }

  lemma PackedExtends(hex: bool, b: Bytes, more: Bytes)
    ensures ReadPacked(hex, b).Parsed? ==>
              ReadPacked(hex, b + more) == Parsed(ReadPacked(hex, b).value, ReadPacked(hex, b).rest + more)
  {
    hide UnpackPairs;
    if ReadPacked(hex, b).Parsed? {
      var n := 1 + b[0] % 128;
      assert (b + more)[0] == b[0] && (b + more)[1..n] == b[1..n] && (b + more)[n..] == b[n..] + more;
    }
  }

  lemma ListSizeExtends(tag: int, b: Bytes, more: Bytes)
    ensures ReadListSize(tag, b).Parsed? ==>
              ReadListSize(tag, b + more) == Parsed(ReadListSize(tag, b).value, ReadListSize(tag, b).rest + more)
  {
    hide ReadInt;
    IntExtends(b, more, 1);
    IntExtends(b, more, 2);
  }

  /** The value of any tag but a list or an identifier. */
  lemma ScalarExtends(d: Dictionary, b: Bytes, more: Bytes, asString: bool)
    requires b != [] && b[0] !in {LIST_8, LIST_16, FB_JID, INTEROP_JID, JID_PAIR, AD_JID}
    ensures var r := ReadValue(d, b, asString);
            r.Parsed? ==> ReadValue(d, b + more, asString) == Parsed(r.value, r.rest + more)
  {
    hide ReadInt, ReadInt20, BytesOrString, ReadPacked, ReadNodes, ReadADJid, ReadFBJid, ReadInteropJid, ReadJidPair;
    hide ReadListSize, GetDoubleToken;
    var b1 := b[1..];
    assert (b + more)[0] == b[0] && (b + more)[1..] == b1 + more;
    IntExtends(b1, more, 1);
    IntExtends(b1, more, 4);
    Int20Extends(b1, more);
    BytesExtend(ReadInt(b1, 1), more, asString);
    BytesExtend(ReadInt(b1, 4), more, asString);
    BytesExtend(ReadInt20(b1), more, asString);
    PackedExtends(false, b1, more);
    PackedExtends(true, b1, more);
    NotParsed(asString);
  }

  lemma NotParsed(asString: bool)
    ensures BytesOrString(Malformed, asString).Malformed? && !BytesOrString(Panic, asString).Parsed?
  {
  }

  lemma {:induction false} ValueExtends(d: Dictionary, b: Bytes, more: Bytes, asString: bool)
    ensures var r := ReadValue(d, b, asString);
            r.Parsed? ==> ReadValue(d, b + more, asString) == Parsed(r.value, r.rest + more)
    decreases |b|, 0
  {
    if b != [] {
      var b1 := b[1..];
      assert (b + more)[0] == b[0] && (b + more)[1..] == b1 + more;
      if b[0] == LIST_8 || b[0] == LIST_16 {
        ListSizeExtends(b[0], b1, more);
        var size := ReadListSize(b[0], b1);
        if size.Parsed? {
          SizeShrinks(b[0], b1);
          NodesExtend(d, size.rest, more, size.value);
        }
        hide ReadNodes, ReadListSize, ReadADJid, ReadFBJid, ReadInteropJid, ReadJidPair, ReadPacked, ReadInt, ReadInt20;
      } else if b[0] in {FB_JID, INTEROP_JID, JID_PAIR, AD_JID} {
        JidsExtend(d, b1, more);
        hide ReadNodes, ReadListSize, ReadADJid, ReadFBJid, ReadInteropJid, ReadJidPair, ReadPacked, ReadInt, ReadInt20;
      } else {
        ScalarExtends(d, b, more, asString);
      }
    }
  }

  lemma SizeShrinks(tag: int, b: Bytes)
    ensures ReadListSize(tag, b).Parsed? ==> |ReadListSize(tag, b).rest| <= |b|
  {
    hide FromBigEndian;
  }

  lemma {:induction false} JidsExtend(d: Dictionary, b: Bytes, more: Bytes)
    ensures ReadFBJid(d, b).Parsed? ==>
        ReadFBJid(d, b + more) == Parsed(ReadFBJid(d, b).value, ReadFBJid(d, b).rest + more)
    ensures ReadInteropJid(d, b).Parsed? ==>
              ReadInteropJid(d, b + more) == Parsed(ReadInteropJid(d, b).value, ReadInteropJid(d, b).rest + more)
    ensures ReadJidPair(d, b).Parsed? ==>
              ReadJidPair(d, b + more) == Parsed(ReadJidPair(d, b).value, ReadJidPair(d, b).rest + more)
    ensures ReadADJid(d, b).Parsed? ==>
        ReadADJid(d, b + more) == Parsed(ReadADJid(d, b).value, ReadADJid(d, b).rest + more)
    decreases |b|, 1
  {
    hide ReadValue, Uint16;
    ValueExtends(d, b, more, true);
    var user := ReadValue(d, b, true);
    if user.Parsed? {
      ValueExtends(d, user.rest, more, true);
      if |user.rest| >= 4 {
        ValueExtends(d, user.rest[4..], more, true);
        assert (user.rest + more)[4..] == user.rest[4..] + more && (user.rest + more)[2..4] == user.rest[2..4];
      }
      if |user.rest| >= 2 {
        ValueExtends(d, user.rest[2..], more, true);
        assert (user.rest + more)[2..] == user.rest[2..] + more && (user.rest + more)[..2] == user.rest[..2];
      }
    }
    if |b| >= 2 {
      ValueExtends(d, b[2..], more, true);
      assert (b + more)[2..] == b[2..] + more && (b + more)[0] == b[0] && (b + more)[1] == b[1];
    }
  }

  lemma {:induction false} AttrsExtend(d: Dictionary, b: Bytes, more: Bytes, n: nat)
    ensures var r := ReadAttrs(d, b, n); r.Parsed? ==> ReadAttrs(d, b + more, n) == Parsed(r.value, r.rest + more)
    decreases |b|, 1
  {
    hide ReadValue;
    if n > 0 {
      ValueExtends(d, b, more, true);
      var key := ReadValue(d, b, true);
      if key.Parsed? {
        ValueExtends(d, key.rest, more, true);
        var value := ReadValue(d, key.rest, true);
        if value.Parsed? {
          AttrsExtend(d, value.rest, more, n - 1);
        }
      }
    }
  }

  lemma {:induction false} NodesExtend(d: Dictionary, b: Bytes, more: Bytes, n: nat)
    ensures var r := ReadNodes(d, b, n); r.Parsed? ==> ReadNodes(d, b + more, n) == Parsed(r.value, r.rest + more)
    decreases |b|, 1
  {
    hide ReadNode;
    if n > 0 {
      NodeExtends(d, b, more);
      var node := ReadNode(d, b);
      if node.Parsed? {
        NodesExtend(d, node.rest, more, n - 1);
      }
    }
  }

  /** Whatever a node is decoded from, more bytes behind it change nothing but what is left over. */
  lemma {:induction false} NodeExtends(d: Dictionary, b: Bytes, more: Bytes)
    ensures var r := ReadNode(d, b); r.Parsed? ==> ReadNode(d, b + more) == Parsed(r.value, r.rest + more)
    decreases |b|, 0
  {
    hide ReadValue, ReadAttrs, ReadListSize;
    if b != [] {
      assert (b + more)[0] == b[0] && (b + more)[1..] == b[1..] + more;
      ListSizeExtends(b[0], b[1..], more);
      SizeShrinks(b[0], b[1..]);
      var size := ReadListSize(b[0], b[1..]);
      if size.Parsed? {
        ValueExtends(d, size.rest, more, true);
        var tag := ReadValue(d, size.rest, true);
        if tag.Parsed? && size.value > 0 {
          AttrsExtend(d, tag.rest, more, (size.value - 1) / 2);
          var attrs := ReadAttrs(d, tag.rest, (size.value - 1) / 2);
          if attrs.Parsed? {
            ValueExtends(d, attrs.rest, more, false);
          }
        }
      }
    }
  }

  /* ---------- Cut short, or too long ---------- */

  /** No message that is cut short is decoded. */
  lemma TruncatedIsRefused(d: Dictionary, n: Node, k: nat)
    requires Consistent(d) && Writable(n) && Readable(n) && k < |EncodeNode(d, n)|
    ensures !Unmarshal(d, EncodeNode(d, n)[..k]).Unmarshaled? && !Unmarshal(d, EncodeNode(d, n)[..k]).Leftover?
  {
    hide ReadNode, EncodeNode, NormalNode, Forget;
    var b := EncodeNode(d, n);
    assert b[..k] + b[k..] == b + [];
    NodeRoundTrip(d, n, []);
    NodeExtends(d, b[..k], b[k..]);
  }

  /** A message with bytes left over is reported, with how many there are. */
  lemma LeftoverIsReported(d: Dictionary, n: Node, rest: Bytes)
    requires Consistent(d) && Writable(n) && Readable(n) && rest != []
    ensures Unmarshal(d, EncodeNode(d, n) + rest) == Leftover(Forget(NormalNode(d, n)), |rest|)
  {
    hide ReadNode, EncodeNode, NormalNode, Forget;
    NodeRoundTrip(d, n, rest);
  }

  /** The flag byte of a frame: only its second bit matters, and then what follows is inflated. */
  lemma FlagByte(inflate: Bytes -> Option<Bytes>, flags: byte, data: Bytes)
    ensures Unpack(inflate, []) == Panic
    ensures flags / 2 % 2 == 0 ==> Unpack(inflate, [flags] + data) == Parsed(data, [])
    ensures flags / 2 % 2 == 1 ==>
              Unpack(inflate, [flags] + data) ==
                if inflate(data).None? then Malformed else Parsed(inflate(data).value, [])
    ensures 2 / 2 % 2 == 1 && 0 / 2 % 2 == 0 && 1 / 2 % 2 == 0 && 3 / 2 % 2 == 1 && 4 / 2 % 2 == 0
  {
    assert ([flags] + data)[1..] == data;
  }

  /* ---------- Malformed values ---------- */

  /** Of the sixteen packed values, nibbles know twelve and the filler; hex knows all. */
  lemma PackedValues(v: byte)
    requires v < 16
    ensures UnpackChar(true, v).Some? && (UnpackChar(false, v).None? <==> v in {12, 13, 14})
  {
  }

  /** Bytes that start nothing: single tokens past the table, and the numbers between the last one and the tags. */
  lemma UnknownTokens(d: Dictionary, tag: byte, rest: Bytes, asString: bool)
    requires Consistent(d) && |d.single| <= tag < 236
    ensures ReadValue(d, [tag] + rest, asString) == Malformed
  {
    hide ReadNodes, ReadListSize, ReadADJid, ReadFBJid, ReadInteropJid, ReadJidPair, ReadPacked, ReadInt, ReadInt20;
  }

  /** Identifiers whose parts do not fit: the wrong server, a missing server, or parts that are not texts. */
  lemma BadIdentifiers(d: Dictionary, b: Bytes)
    ensures var user := ReadValue(d, b, true);
            user.Parsed? && |user.rest| >= 2 && ReadValue(d, user.rest[2..], true).Parsed? ==>
              var server := ReadValue(d, user.rest[2..], true).value;
              && (server != Str(MESSENGER_SERVER) ==> ReadFBJid(d, b) == Malformed)
              && (server == Str(MESSENGER_SERVER) && !user.value.Str? ==> ReadFBJid(d, b) == Panic)
    ensures var user := ReadValue(d, b, true);
            user.Parsed? && |user.rest| >= 4 && ReadValue(d, user.rest[4..], true).Parsed? ==>
              var server := ReadValue(d, user.rest[4..], true).value;
              && (server != Str(INTEROP_SERVER) ==> ReadInteropJid(d, b) == Malformed)
              && (server == Str(INTEROP_SERVER) && !user.value.Str? ==> ReadInteropJid(d, b) == Panic)
    ensures var user := ReadValue(d, b, true);
            user.Parsed? && ReadValue(d, user.rest, true).Parsed? ==>
              var server := ReadValue(d, user.rest, true).value;
              && (server == Nil ==> ReadJidPair(d, b) == Malformed)
              && (server != Nil && !server.Str? ==> ReadJidPair(d, b) == Panic)
              && (server.Str? && user.value != Nil && !user.value.Str? ==> ReadJidPair(d, b) == Panic)
    ensures |b| >= 2 && ReadValue(d, b[2..], true).Parsed? && !ReadValue(d, b[2..], true).value.Str? ==>
        ReadADJid(d, b) == Panic
  {
    hide ReadValue, Uint16;
  }

  /** A key that is not a text is an error, a tag that is not a text a failed type assertion. */
  lemma BadKeysAndTags(d: Dictionary, b: Bytes, n: nat)
    ensures n > 0 && ReadValue(d, b, true).Parsed? && !ReadValue(d, b, true).value.Str? ==>
        ReadAttrs(d, b, n) == Malformed
    ensures b != [] && ReadListSize(b[0], b[1..]).Parsed? ==>
              var tag := ReadValue(d, ReadListSize(b[0], b[1..]).rest, true);
              tag.Parsed? && !tag.value.Str? ==> ReadNode(d, b) == Panic
    ensures b != [] && b[0] !in {LIST_EMPTY, LIST_8, LIST_16} ==> ReadNode(d, b) == Malformed
  {
    hide ReadValue, ReadInt;
  }

  /** Of two attributes with one key, the later one counts. */
  lemma LastKeyCounts(attrs: seq<Attr>, a: Attr)
    ensures var m := ForgetAttrs(attrs + [a]);
            && a.key in m && m[a.key] == ForgetValue(a.value)
            && m - {a.key} == ForgetAttrs(attrs) - {a.key}
  {
    assert (attrs + [a])[..|attrs + [a]| - 1] == attrs;
  }

  /** Every token that is in the tables is read, with whatever follows it left alone; one past its dictionary is not. */
  lemma TokensAreRead(d: Dictionary, t: byte, k: byte, i: byte, rest: Bytes, asString: bool)
    requires Consistent(d) && k < 4
    ensures 1 <= t < |d.single| ==> ReadValue(d, [t] + rest, asString) == Parsed(Str(d.single[t]), rest)
    ensures ReadValue(d, [236 + k, i] + rest, asString) ==
            if i < |d.double[k]| then Parsed(Str(d.double[k][i]), rest) else Malformed
  {
    assert ([t] + rest)[1..] == rest;
    var b := [236 + k, i] + rest;
    assert b[1..] == [i] + rest && b[1..][..1] == [i] && b[1..][1..] == rest;
    assert FromBigEndian([i]) == i by { assert [i][..0] == []; }
    hide ReadNodes, ReadListSize, ReadADJid, ReadFBJid, ReadInteropJid, ReadJidPair, ReadPacked, ReadInt20,
      FromBigEndian;
  }

  /** A packed text of odd length but no bytes makes the code slice out of range. */
  lemma OddNothing(d: Dictionary, rest: Bytes, asString: bool)
    ensures ReadValue(d, [255, 128] + rest, asString) == Panic && ReadValue(d, [251, 128] + rest, asString) == Panic
  {
    var b: Bytes := [255, 128] + rest;
    var c: Bytes := [251, 128] + rest;
    assert b[1..] == [128] + rest && c[1..] == [128] + rest && ([128] + rest)[1..1] == [];
    assert ReadPacked(false, [128] + rest) == Panic && ReadPacked(true, [128] + rest) == Panic;
    hide ReadNodes, ReadListSize, ReadADJid, ReadFBJid, ReadInteropJid, ReadJidPair, ReadPacked, ReadInt, ReadInt20;
  }
}
