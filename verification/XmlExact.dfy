/** Exactly which trees come back unchanged through Marshal and Unmarshal. */
module XmlExact {
  import opened Bytes
  import opened Tokens
  import opened XmlFormat
  import opened XmlRoundTrip
  import opened XmlTree

  /** No attribute is named twice, as in a map, at any level. */
  predicate DistinctKeys(n: Node)
    decreases n, 1
  {
    && (forall i, j :: 0 <= i < j < |n.attrs| ==> n.attrs[i].key != n.attrs[j].key)
    && (forall i :: 0 <= i < |n.attrs| ==> DistinctInValue(n.attrs[i].value))
    && DistinctInValue(n.content)
  }

  predicate DistinctInValue(v: Value)
    decreases v, 0
  {
    v.List? ==> forall i :: 0 <= i < |v.nodes| ==> DistinctKeys(v.nodes[i])
  }

  /** Tags not empty, and sizes that fit in two bytes, all the way down: readable but for reserved tags. */
  predicate Sized(n: Node)
    decreases n, 1
  {
    && n.tag != [] && NodeListSize(n) < 0x1_0000
    && (forall i :: 0 <= i < |n.attrs| ==> SizedValue(n.attrs[i].value))
    && SizedValue(n.content)
  }

  predicate SizedValue(v: Value)
    decreases v, 0
  {
    v.List? ==> |v.nodes| < 0x1_0000 && forall i :: 0 <= i < |v.nodes| ==> Sized(v.nodes[i])
  }

  /* ---------- A reserved tag anywhere stops the decoder ---------- */

  lemma ReservedNeverParsed(d: Dictionary, n: Node, rest: Bytes)
    requires Consistent(d) && Writable(n) && n.tag == ZERO_TAG
    ensures !ReadNode(d, EncodeNode(d, n) + rest).Parsed?
  {
    hide ReadValue, ReadAttrs;
    var b := EncodeNode(d, n) + rest;
    assert b == [LIST_8, 0] + rest && b[1..] == [0] + rest;
    assert ReadListSize(b[0], b[1..]) == Parsed(0, rest) by {
      assert b[1..][..1] == [0] && b[1..][1..] == rest;
      SmallPowers();
      IntRoundTrip(0, 1, rest);
      assert BigEndian(0, 1) == [0];
    }
  }

  /** A node is not read if its attributes are not, or its content is not. */
  lemma NodePartFails(d: Dictionary, n: Node, rest: Bytes, content: Bytes)
    requires Consistent(d) && Writable(n) && n.tag != ZERO_TAG && n.tag != [] && NodeListSize(n) < 0x1_0000
    requires content == (if n.content == Nil then [] else EncodeValue(d, n.content)) + rest
    requires var attrs := ReadAttrs(d, EncodeAttrs(d, n.attrs) + content, CountAttributes(n.attrs));
             || !attrs.Parsed?
             || (n.content != Nil && attrs.rest == content && !ReadValue(d, content, false).Parsed?)
    ensures !ReadNode(d, EncodeNode(d, n) + rest).Parsed?
  {
    hide ReadValue, EncodeValue, EncodeString, ReadAttrs, EncodeAttrs, ReadListSize, EncodeListStart, WrittenRaw;
    var attrs := EncodeAttrs(d, n.attrs) + content;
    var tag := EncodeString(d, n.tag) + attrs;
    var b := EncodeListStart(NodeListSize(n)) + tag;
    assert EncodeNode(d, n) + rest == b;
    ListStartRoundTrip(NodeListSize(n), tag);
    StringRoundTrip(d, n.tag, attrs, true);
  }

  lemma {:induction false} NodeFails(d: Dictionary, n: Node, rest: Bytes)
    requires Consistent(d) && Writable(n) && Sized(n) && !Readable(n)
    ensures !ReadNode(d, EncodeNode(d, n) + rest).Parsed?
    decreases n, 1
  {
    hide ReadNode, EncodeNode, ReadValue, EncodeValue, ReadAttrs, EncodeAttrs, NormalAttrs;
    if n.tag == ZERO_TAG {
      ReservedNeverParsed(d, n, rest);
    } else {
      var content := (if n.content == Nil then [] else EncodeValue(d, n.content)) + rest;
      if i :| 0 <= i < |n.attrs| && !ReadableValue(n.attrs[i].value) {
        AttrsFail(d, n.attrs, content, i);
      } else {
        AttrsRoundTrip(d, n.attrs, content);
        ValueFails(d, n.content, rest, false);
      }
      NodePartFails(d, n, rest, content);
    }
  }

  lemma {:induction false} ValueFails(d: Dictionary, v: Value, rest: Bytes, asString: bool)
    requires Consistent(d) && WritableValue(v) && SizedValue(v) && !ReadableValue(v)
    ensures !ReadValue(d, EncodeValue(d, v) + rest, asString).Parsed?
    decreases v, 0
  {
    hide ReadNodes, EncodeNodes, ReadNode, EncodeNode, ReadValue, Writable, Readable, Sized, ReadListSize;
    var ns := v.nodes;
    var i :| 0 <= i < |ns| && !Readable(ns[i]);
    NodesFail(d, ns, rest, i);
    var body := EncodeNodes(d, ns) + rest;
    var b := EncodeListStart(|ns|) + body;
    assert EncodeValue(d, v) + rest == b;
    ListStartRoundTrip(|ns|, body);
    ListValueFails(d, b, |ns|, body, asString);
  }

  lemma ListValueFails(d: Dictionary, b: Bytes, size: nat, rest: Bytes, asString: bool)
    requires b != [] && b[0] in {LIST_8, LIST_16} && ReadListSize(b[0], b[1..]) == Parsed(size, rest)
    requires !ReadNodes(d, rest, size).Parsed?
    ensures !ReadValue(d, b, asString).Parsed?
  {
    hide ReadNodes, ReadListSize, ReadADJid, ReadFBJid, ReadInteropJid, ReadJidPair, ReadPacked;
  }

  lemma {:induction false} NodesFail(d: Dictionary, ns: seq<Node>, rest: Bytes, i: nat)
    requires Consistent(d) && forall k :: 0 <= k < |ns| ==> Writable(ns[k]) && Sized(ns[k])
    requires i < |ns| && !Readable(ns[i])
    ensures !ReadNodes(d, EncodeNodes(d, ns) + rest, |ns|).Parsed?
    decreases ns, 0
  {
    hide ReadNode, EncodeNode, NormalNode, Writable, Readable, Sized;
    var tail := EncodeNodes(d, ns[1..]) + rest;
    assert EncodeNodes(d, ns) + rest == EncodeNode(d, ns[0]) + tail;
    if !Readable(ns[0]) {
      NodeFails(d, ns[0], tail);
    } else {
      NodeRoundTrip(d, ns[0], tail);
      assert ns[1..][i - 1] == ns[i];
      NodesFail(d, ns[1..], rest, i - 1);
    }
  }

  /** Attributes are not read if the first value is not, or the rest are not. */
  lemma AttrPartFails(d: Dictionary, attrs: seq<Attr>, rest: Bytes)
    requires Consistent(d) && WritableAttrs(attrs) && attrs != []
    requires var tail := EncodeAttrs(d, attrs[1..]) + rest;
             var value := ReadValue(d, EncodeValue(d, attrs[0].value) + tail, true);
             var more := ReadAttrs(d, tail, CountAttributes(attrs[1..]));
             (!Skipped(attrs[0]) && !value.Parsed?)
             || (!more.Parsed? && (Skipped(attrs[0]) || (value.Parsed? && value.rest == tail)))
    ensures !ReadAttrs(d, EncodeAttrs(d, attrs) + rest, CountAttributes(attrs)).Parsed?
  {
    hide ReadValue, EncodeValue, EncodeString, WritableValue, WrittenRaw, CountAttributes;
    CountFirst(attrs);
    if !Skipped(attrs[0]) {
      var value := EncodeValue(d, attrs[0].value) + (EncodeAttrs(d, attrs[1..]) + rest);
      assert EncodeAttrs(d, attrs) + rest == EncodeString(d, attrs[0].key) + value;
      StringRoundTrip(d, attrs[0].key, value, true);
    }
  }

  lemma {:induction false} AttrsFail(d: Dictionary, attrs: seq<Attr>, rest: Bytes, i: nat)
    requires Consistent(d) && WritableAttrs(attrs) && forall k :: 0 <= k < |attrs| ==> SizedValue(attrs[k].value)
    requires i < |attrs| && !ReadableValue(attrs[i].value)
    ensures !ReadAttrs(d, EncodeAttrs(d, attrs) + rest, CountAttributes(attrs)).Parsed?
    decreases attrs, 0
  {
    hide ReadValue, EncodeValue, EncodeAttrs, ReadAttrs, NormalValue, WritableValue, SizedValue;
    var tail := EncodeAttrs(d, attrs[1..]) + rest;
    if !ReadableValue(attrs[0].value) {
      ValueFails(d, attrs[0].value, tail, true);
    } else {
      hide ReadableValue;
      ValueRoundTrip(d, attrs[0].value, tail, true);
      assert attrs[1..][i - 1] == attrs[i];
      AttrsFail(d, attrs[1..], rest, i - 1);
    }
    AttrPartFails(d, attrs, rest);
  }

  /* ---------- What the decoder can produce ---------- */

  /** Tags not empty, and no more entries than two bytes of size announce. */
  predicate Decodable(n: Node)
    decreases n, 1
  {
    && n.tag != [] && 2 * |n.attrs| + (if n.content == Nil then 1 else 2) < 0x1_0000
    && (forall i :: 0 <= i < |n.attrs| ==> DecodableValue(n.attrs[i].value))
    && DecodableValue(n.content)
  }

  predicate DecodableValue(v: Value)
    decreases v, 0
  {
    v.List? ==> |v.nodes| < 0x1_0000 && forall i :: 0 <= i < |v.nodes| ==> Decodable(v.nodes[i])
  }

  lemma SizeInTwoBytes(tag: int, b: Bytes)
    ensures ReadListSize(tag, b).Parsed? ==> ReadListSize(tag, b).value < 0x1_0000
  {
    if |b| >= 1 {
      assert b[..1][..0] == [] && FromBigEndian(b[..1]) == b[0] as int;
    }
    if |b| >= 2 {
      assert b[..2] == [b[0], b[1]];
      FromTwoBytes(b[0], b[1]);
    }
  }

  lemma {:induction false} ValueDecodable(d: Dictionary, b: Bytes, asString: bool)
    ensures var r := ReadValue(d, b, asString); r.Parsed? ==> DecodableValue(r.value)
    decreases |b|, 0
  {
    hide ReadNodes, FromBigEndian, GetDoubleToken, UnpackPairs, Decodable;
    if b != [] && (b[0] == LIST_8 || b[0] == LIST_16) {
      SizeInTwoBytes(b[0], b[1..]);
      match ReadListSize(b[0], b[1..])
      case Parsed(size, b2) => NodesDecodable(d, b2, size);
      case _ =>
    } else {
      ScalarsHoldNoNodes(d, b, asString);
    }
  }

  lemma {:induction false} NodesDecodable(d: Dictionary, b: Bytes, n: nat)
    ensures var r := ReadNodes(d, b, n); r.Parsed? ==> forall i :: 0 <= i < |r.value| ==> Decodable(r.value[i])
    decreases |b|, 1
  {
    hide ReadNode, Decodable;
    if n > 0 {
      NodeDecodable(d, b);
      var r := ReadNode(d, b);
      if r.Parsed? {
        NodesDecodable(d, r.rest, n - 1);
      }
    }
  }

  lemma {:induction false} AttrsDecodable(d: Dictionary, b: Bytes, n: nat)
    ensures var r := ReadAttrs(d, b, n);
            r.Parsed? ==> forall i :: 0 <= i < |r.value| ==> DecodableValue(r.value[i].value)
    decreases |b|, 1
  {
    hide ReadValue, DecodableValue;
    if n > 0 {
      var key := ReadValue(d, b, true);
      if key.Parsed? {
        ValueDecodable(d, key.rest, true);
        var value := ReadValue(d, key.rest, true);
        if value.Parsed? {
          AttrsDecodable(d, value.rest, n - 1);
        }
      }
    }
  }

  lemma {:induction false} NodeDecodable(d: Dictionary, b: Bytes)
    ensures var r := ReadNode(d, b); r.Parsed? ==> Decodable(r.value)
    decreases |b|, 0
  {
    hide ReadValue, ReadAttrs, DecodableValue, ReadListSize;
    if ReadNode(d, b).Parsed? {
      SizeInTwoBytes(b[0], b[1..]);
      var size := ReadListSize(b[0], b[1..]);
      ListSizeShrinks(b);
      var tag := ReadValue(d, size.rest, true);
      AttrsDecodable(d, tag.rest, (size.value - 1) / 2);
      var attrs := ReadAttrs(d, tag.rest, (size.value - 1) / 2);
      NilDecodable();
      if size.value % 2 == 0 {
        ValueDecodable(d, attrs.rest, false);
        assert ReadNode(d, b).value == Node(tag.value.text, attrs.value, ReadValue(d, attrs.rest, false).value);
      } else {
        assert ReadNode(d, b).value == Node(tag.value.text, attrs.value, Nil);
      }
    }
  }

  lemma NilDecodable()
    ensures DecodableValue(Nil)
  {
  }

  lemma ListSizeShrinks(b: Bytes)
    requires b != []
    ensures var r := ReadListSize(b[0], b[1..]); r.Parsed? ==> |r.rest| < |b|
  {
    hide FromBigEndian;
  }

  /* ---------- From the decoded tree back to the one that was encoded ---------- */

  /** An entry of the map comes from an attribute. */
  lemma {:induction false} EntryFrom(attrs: seq<Attr>, k: Bytes) returns (j: nat)
    requires k in ForgetAttrs(attrs)
    ensures j < |attrs| && attrs[j].key == k && ForgetAttrs(attrs)[k] == ForgetValue(attrs[j].value)
  {
    hide ForgetValue;
    var n := |attrs| - 1;
    if attrs[n].key == k {
      j := n;
    } else {
      j := EntryFrom(attrs[..n], k);
    }
  }

  predicate DistinctAttrs(attrs: seq<Attr>)
  {
    forall i, j :: 0 <= i < j < |attrs| ==> attrs[i].key != attrs[j].key
  }

  /** With distinct keys, every attribute is an entry, and there are no others. */
  lemma {:induction false} EntryOf(attrs: seq<Attr>, i: nat)
    requires DistinctAttrs(attrs) && i < |attrs|
    ensures attrs[i].key in ForgetAttrs(attrs) && ForgetAttrs(attrs)[attrs[i].key] == ForgetValue(attrs[i].value)
  {
    hide ForgetValue;
    var n := |attrs| - 1;
    if i < n {
      EntryOf(attrs[..n], i);
    }
  }

  lemma {:induction false} KeysOf(attrs: seq<Attr>)
    ensures ForgetAttrs(attrs).Keys == set i | 0 <= i < |attrs| :: attrs[i].key
  {
    hide ForgetValue;
    if attrs != [] {
      var n := |attrs| - 1;
      KeysOf(attrs[..n]);
      assert forall i :: 0 <= i < n ==> attrs[..n][i] == attrs[i];
      assert (set i | 0 <= i < |attrs| :: attrs[i].key) == (set i | 0 <= i < n :: attrs[..n][i].key) + {attrs[n].key};
    }
  }

  lemma {:induction false} EntryCount(attrs: seq<Attr>)
    ensures |ForgetAttrs(attrs)| <= |attrs|
    ensures DistinctAttrs(attrs) ==> |ForgetAttrs(attrs)| == |attrs|
  {
    hide ForgetValue;
    if attrs != [] {
      var n := |attrs| - 1;
      var front := attrs[..n];
      EntryCount(front);
      KeysOf(front);
      var before, k, v := ForgetAttrs(front), attrs[n].key, ForgetValue(attrs[n].value);
      assert ForgetAttrs(attrs) == before[k := v];
      DistinctFront(attrs);
      hide DistinctAttrs, ForgetAttrs;
      OneEntryMore(before, k, v);
    }
  }

  lemma DistinctFront(attrs: seq<Attr>)
    requires attrs != []
    ensures var n := |attrs| - 1;
            DistinctAttrs(attrs) ==>
              DistinctAttrs(attrs[..n]) && attrs[n].key !in (set i | 0 <= i < n :: attrs[..n][i].key)
  {
  }

  lemma OneEntryMore(m: map<Bytes, TreeValue>, k: Bytes, v: TreeValue)
    ensures |m[k := v]| == if k in m then |m| else |m| + 1
  {
    var more := m[k := v];
    if k in m {
      assert more.Keys == m.Keys;
    } else {
      assert more.Keys == m.Keys + {k};
    }
    assert |more| == |more.Keys| && |m| == |m.Keys|;
  }

  lemma {:induction false} NodesForgotten(ns: seq<Node>, i: nat)
    requires i < |ns|
    ensures ForgetNodes(ns)[i] == Forget(ns[i])
  {
    hide Forget;
    if i > 0 {
      NodesForgotten(ns[1..], i - 1);
    }
  }

  /** If the decoder produced the tree, its sizes fit and no tag is empty. */
  lemma {:induction false} SizedFromDecoded(m: Node, n: Node)
    requires Decodable(m) && Forget(m) == Forget(n) && DistinctKeys(n)
    ensures Sized(n)
    decreases n, 1
  {
    EntryCount(m.attrs);
    EntryCount(n.attrs);
    assert DistinctAttrs(n.attrs);
    assert n.content == Nil <==> m.content == Nil;
    forall i | 0 <= i < |n.attrs| ensures SizedValue(n.attrs[i].value) {
      EntryOf(n.attrs, i);
      var j := EntryFrom(m.attrs, n.attrs[i].key);
      ValueSizedFromDecoded(m.attrs[j].value, n.attrs[i].value);
    }
    ValueSizedFromDecoded(m.content, n.content);
  }

  lemma {:induction false} ValueSizedFromDecoded(m: Value, v: Value)
    requires DecodableValue(m) && ForgetValue(m) == ForgetValue(v) && DistinctInValue(v)
    ensures SizedValue(v)
    decreases v, 0
  {
    if v.List? {
      hide Decodable, Sized, Forget;
      forall i | 0 <= i < |v.nodes| ensures Sized(v.nodes[i]) {
        NodesForgotten(m.nodes, i);
        NodesForgotten(v.nodes, i);
        SizedFromDecoded(m.nodes[i], v.nodes[i]);
      }
    }
  }

  /* ---------- Normal forms, seen through the maps ---------- */

  lemma {:induction false} NormalFrom(d: Dictionary, attrs: seq<Attr>, j: nat) returns (i: nat)
    requires j < |NormalAttrs(d, attrs)|
    ensures i < |attrs| && !Skipped(attrs[i])
    ensures NormalAttrs(d, attrs)[j] == Attr(attrs[i].key, NormalValue(d, attrs[i].value, true))
  {
    hide NormalValue;
    if Skipped(attrs[0]) {
      var k := NormalFrom(d, attrs[1..], j);
      i := k + 1;
    } else if j == 0 {
      i := 0;
    } else {
      var k := NormalFrom(d, attrs[1..], j - 1);
      i := k + 1;
    }
  }

  lemma {:induction false} CanonicalFromMaps(d: Dictionary, n: Node)
    requires DistinctKeys(n) && Forget(NormalNode(d, n)) == Forget(n)
    ensures Canonical(d, n)
    decreases n, 1
  {
    assert DistinctAttrs(n.attrs);
    hide CanonicalValue, NormalValue, NormalAttrs, ForgetValue;
    forall i | 0 <= i < |n.attrs| ensures CanonicalValue(d, n.attrs[i].value, true) {
      EntryOf(n.attrs, i);
      var normal := NormalAttrs(d, n.attrs);
      var j := EntryFrom(normal, n.attrs[i].key);
      var k := NormalFrom(d, n.attrs, j);
      assert k == i;
      ValueCanonicalFromMaps(d, n.attrs[i].value, true);
    }
    ValueCanonicalFromMaps(d, n.content, false);
  }

  lemma {:induction false} ValueCanonicalFromMaps(d: Dictionary, v: Value, asString: bool)
    requires DistinctInValue(v) && ForgetValue(NormalValue(d, v, asString)) == ForgetValue(v)
    requires asString ==> v != Nil && v != Str([])
    ensures CanonicalValue(d, v, asString)
    decreases v, 0
  {
    if v.List? {
      hide NormalNode, Forget, Canonical, DistinctKeys;
      forall i | 0 <= i < |v.nodes| ensures Canonical(d, v.nodes[i]) {
        NormalNodesAt(d, v.nodes, i);
        NodesForgotten(NormalNodes(d, v.nodes), i);
        NodesForgotten(v.nodes, i);
        CanonicalFromMaps(d, v.nodes[i]);
      }
    }
  }

  lemma {:induction false} NormalNodesAt(d: Dictionary, ns: seq<Node>, i: nat)
    requires i < |ns|
    ensures NormalNodes(d, ns)[i] == NormalNode(d, ns[i])
  {
    hide NormalNode;
    if i > 0 {
      NormalNodesAt(d, ns[1..], i - 1);
    }
  }

  /**
   * A tree that the encoder accepts comes back as it was if and only if it is readable (no tag is empty or reserved,
   * all sizes fit in two bytes) and canonical, at every level; for every order in which its attribute maps are walked.
   */
  lemma ComesBackIff(d: Dictionary, n: Node)
    requires Consistent(d) && Writable(n) && DistinctKeys(n)
    ensures Unmarshal(d, Marshal(d, n)[1..]) == Unmarshaled(Forget(n)) <==> Readable(n) && Canonical(d, n)
  {
    var b := Marshal(d, n)[1..];
    assert b == EncodeNode(d, n) + [];
    hide ReadNode, EncodeNode, Readable, Canonical, NormalNode, Forget, Writable, DistinctKeys, Sized;
    if Readable(n) {
      NodeRoundTrip(d, n, []);
      CanonicalIff(d, n);
      if Forget(NormalNode(d, n)) == Forget(n) {
        CanonicalFromMaps(d, n);
      }
    } else if Sized(n) {
      NodeFails(d, n, []);
    } else if Unmarshal(d, b) == Unmarshaled(Forget(n)) {
      NodeDecodable(d, b);
      SizedFromDecoded(ReadNode(d, b).value, n);
    }
  }
}
