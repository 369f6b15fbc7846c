/**
 * Trees with attribute maps, as callers see them: binary/node.go and binary/unpack.go, with the
 * round trip through Marshal, Unpack and Unmarshal.
 */
module XmlTree {
  import opened Bytes
  import opened Jid
  import opened Tokens
  import opened XmlFormat
  import opened XmlRoundTrip

  datatype TreeValue =
    | TNil
    | TList(nodes: seq<Tree>)
    | TStr(text: Bytes)
    | TRaw(bytes: Bytes)
    | TJid(jid: JID)
    | TInt(number: int)
    | TBool(flag: bool)

  datatype Tree = Tree(tag: Bytes, attrs: map<Bytes, TreeValue>, content: TreeValue)

  /* ---------- Forgetting the order of attributes ---------- */

  function ForgetValue(v: Value): TreeValue
    decreases v, 0
  {
    match v
    case Nil => TNil
    case List(ns) => TList(ForgetNodes(ns))
    case Str(s) => TStr(s)
    case Raw(b) => TRaw(b)
    case Jid(j) => TJid(j)
    case Int(n) => TInt(n)
    case Bool(b) => TBool(b)
  }

  function ForgetNodes(ns: seq<Node>): (ts: seq<Tree>)
    ensures |ts| == |ns|
    decreases ns, 0
  {
    if ns == [] then [] else [Forget(ns[0])] + ForgetNodes(ns[1..])
  }

  /** The map built by storing each attribute in turn. */
  function ForgetAttrs(attrs: seq<Attr>): map<Bytes, TreeValue>
    decreases attrs, 0
  {
    if attrs == [] then map[] else
      ForgetAttrs(attrs[..|attrs| - 1])[attrs[|attrs| - 1].key := ForgetValue(attrs[|attrs| - 1].value)]
  }

  function Forget(n: Node): Tree
    decreases n, 1
  {
    Tree(n.tag, ForgetAttrs(n.attrs), ForgetValue(n.content))
  }

  /* ---------- Marshal and Unmarshal ---------- */

  function Marshal(d: Dictionary, n: Node): Bytes
    requires Consistent(d) && Writable(n)
  {
    [0] + EncodeNode(d, n)
  }

  /** The flag byte is dropped; `inflate` stands for zlib and runs only when bit 1 is set. */
  function Unpack(inflate: Bytes -> Option<Bytes>, data: Bytes): Parsed<Bytes>
  {
    if data == [] then Panic
    else if data[0] / 2 % 2 == 1 then
      match inflate(data[1..]) case None => Malformed case Some(out) => Parsed(out, [])
    else Parsed(data[1..], [])
  }

  datatype Unmarshaled = Unmarshaled(tree: Tree) | Leftover(tree: Tree, bytes: nat) | Invalid | Crash

  function Unmarshal(d: Dictionary, data: Bytes): Unmarshaled
  {
    match ReadNode(d, data)
    case Malformed => Invalid
    case Panic => Crash
    case Parsed(n, rest) => if rest == [] then Unmarshaled(Forget(n)) else Leftover(Forget(n), |rest|)
  }

  /**
   * Every readable tree comes back in normal form with nothing left over, whatever order its attributes were walked in.
   */
  lemma MarshalRoundTrip(d: Dictionary, inflate: Bytes -> Option<Bytes>, n: Node)
    requires Consistent(d) && Writable(n) && Readable(n)
    ensures var unpacked := Unpack(inflate, Marshal(d, n));
            unpacked.Parsed? && Unmarshal(d, unpacked.value) == Unmarshaled(Forget(NormalNode(d, n)))
  {
    hide EncodeNode, ReadNode, NormalNode, Forget;
    assert Marshal(d, n)[1..] == EncodeNode(d, n) + [];
    NodeRoundTrip(d, n, []);
  }

  /** The reserved tag is never read back. */
  lemma ReservedTag(d: Dictionary, n: Node)
    requires Consistent(d) && Writable(n) && n.tag == ZERO_TAG
    ensures Unmarshal(d, Marshal(d, n)[1..]) == Invalid
  {
    var b := Marshal(d, n)[1..];
    assert b == [LIST_8, LIST_EMPTY] && b[1..] == [LIST_EMPTY] && b[1..][1..] == [];
    assert ReadListSize(b[0], b[1..]).rest == [];
    assert ReadValue(d, [], true) == Malformed;
  }

  /** Neither is the empty tag. */
  lemma EmptyTag(d: Dictionary, n: Node)
    requires Consistent(d) && Writable(n) && n.tag == []
    ensures Unmarshal(d, Marshal(d, n)[1..]) == Invalid
  {
    hide ReadValue, EncodeString, EncodeValue, EncodeAttrs, ReadListSize, EncodeListStart;
    var attrs := EncodeAttrs(d, n.attrs) + if n.content == Nil then [] else EncodeValue(d, n.content);
    assert Marshal(d, n)[1..] == EncodeListStart(NodeListSize(n)) + (EncodeString(d, n.tag) + attrs);
    AnyListStart(NodeListSize(n), EncodeString(d, n.tag) + attrs);
    StringRoundTrip(d, n.tag, attrs, true);
  }

  /** Whatever the size, the header itself is read and the rest follows. */
  lemma AnyListStart(size: nat, rest: Bytes)
    ensures var b := EncodeListStart(size) + rest;
            b != [] && ReadListSize(b[0], b[1..]).Parsed? && ReadListSize(b[0], b[1..]).rest == rest
  {
    if size < 256 {
      ListStartRoundTrip(size, rest);
    } else {
      var b := EncodeListStart(size) + rest;
      TwoBytes(size);
      assert b[1..] == [size / 256 % 256, size % 256] + rest && b[1..][2..] == rest;
    }
  }

  /* ---------- Which trees are their own normal form ---------- */

  predicate CanonicalJid(j: JID)
  {
    && j.rawAgent == 0
    && (if WrittenAsAD(j) then j.device < 256 && j.integrator == 0
        else if j.server == MESSENGER_SERVER then j.integrator == 0
        else j.server == INTEROP_SERVER || (j.device == 0 && j.integrator == 0))
  }

  predicate CanonicalValue(d: Dictionary, v: Value, asString: bool)
    decreases v, 0
  {
    match v
    case Nil => !asString
    case Str(s) => if asString then s != [] else !WrittenRaw(d, s)
    case Raw(_) => !asString
    case Int(_) => false
    case Bool(_) => false
    case Jid(j) => CanonicalJid(j)
    case List(ns) => ns != [] && forall i :: 0 <= i < |ns| ==> Canonical(d, ns[i])
  }

  /**
   * Attributes: non-empty text, JIDs whose encoding carries all their fields, or lists; content: nothing, bytes or
   * lists.
   */
  predicate Canonical(d: Dictionary, n: Node)
    decreases n, 1
  {
    && (forall i :: 0 <= i < |n.attrs| ==> CanonicalValue(d, n.attrs[i].value, true))
    && CanonicalValue(d, n.content, false)
  }

  lemma {:induction false} CanonicalValueIff(d: Dictionary, v: Value, asString: bool)
    requires asString ==> v != Nil && v != Str([])
    ensures NormalValue(d, v, asString) == v <==> CanonicalValue(d, v, asString)
    decreases v, 0
  {
    if v.List? && v.nodes != [] {
      CanonicalNodesIff(d, v.nodes);
    }
  }

  lemma {:induction false} CanonicalNodesIff(d: Dictionary, ns: seq<Node>)
    ensures NormalNodes(d, ns) == ns <==> forall i :: 0 <= i < |ns| ==> Canonical(d, ns[i])
    decreases ns, 0
  {
    hide Canonical, NormalNode;
    if ns != [] {
      CanonicalIff(d, ns[0]);
      CanonicalNodesIff(d, ns[1..]);
      var r := NormalNodes(d, ns);
      assert r[0] == NormalNode(d, ns[0]) && r[1..] == NormalNodes(d, ns[1..]);
      assert r == ns <==> r[0] == ns[0] && r[1..] == ns[1..] by {
        if r[0] == ns[0] && r[1..] == ns[1..] {
          assert r == [r[0]] + r[1..] && ns == [ns[0]] + ns[1..];
        }
      }
      assert (forall i :: 0 <= i < |ns| ==> Canonical(d, ns[i]))
        <==> Canonical(d, ns[0]) && forall i :: 0 <= i < |ns[1..]| ==> Canonical(d, ns[1..][i]) by {
        if forall i :: 0 <= i < |ns| ==> Canonical(d, ns[i]) {
          assert forall i :: 0 <= i < |ns[1..]| ==> ns[1..][i] == ns[i + 1];
        }
        if Canonical(d, ns[0]) && forall i :: 0 <= i < |ns[1..]| ==> Canonical(d, ns[1..][i]) {
          forall i | 0 <= i < |ns| ensures Canonical(d, ns[i]) {
            assert i > 0 ==> ns[i] == ns[1..][i - 1];
          }
        }
      }
    }
  }

  lemma {:induction false} NormalAttrsShrink(d: Dictionary, attrs: seq<Attr>)
    ensures |NormalAttrs(d, attrs)| <= |attrs|
  {
    if attrs != [] {
      NormalAttrsShrink(d, attrs[1..]);
    }
  }

  lemma {:induction false} CanonicalAttrsIff(d: Dictionary, attrs: seq<Attr>)
    ensures NormalAttrs(d, attrs) == attrs <==> forall i :: 0 <= i < |attrs| ==> CanonicalValue(d, attrs[i].value, true)
    decreases attrs, 0
  {
    hide NormalValue;
    if attrs != [] {
      var a, rest := attrs[0], attrs[1..];
      CanonicalAttrsIff(d, rest);
      NormalAttrsShrink(d, rest);
      assert attrs == [a] + rest;
      if Skipped(a) {
        assert !CanonicalValue(d, attrs[0].value, true);
      } else {
        CanonicalValueIff(d, a.value, true);
        hide CanonicalValue;
        var r := NormalAttrs(d, attrs);
        assert r[0] == Attr(a.key, NormalValue(d, a.value, true)) && r[1..] == NormalAttrs(d, rest);
        assert r == [r[0]] + r[1..];
        assert forall i :: 0 < i < |attrs| ==> attrs[i] == rest[i - 1];
        assert forall i :: 0 <= i < |rest| ==> rest[i] == attrs[i + 1];
      }
    }
  }

  /** The canonical trees are exactly the ones that encoding and decoding leave unchanged. */
  lemma {:induction false} CanonicalIff(d: Dictionary, n: Node)
    ensures NormalNode(d, n) == n <==> Canonical(d, n)
    decreases n, 1
  {
    hide NormalValue, NormalAttrs, CanonicalValue;
    CanonicalAttrsIff(d, n.attrs);
    CanonicalValueIff(d, n.content, false);
  }

  /** A canonical tree comes back as it was, for every order in which its attribute maps are walked. */
  lemma CanonicalRoundTrip(d: Dictionary, inflate: Bytes -> Option<Bytes>, t: Tree, n: Node)
    requires Consistent(d) && Writable(n) && Readable(n) && Canonical(d, n)
    requires Forget(n) == t
    ensures var unpacked := Unpack(inflate, Marshal(d, n));
            unpacked.Parsed? && Unmarshal(d, unpacked.value) == Unmarshaled(t)
  {
    hide EncodeNode, ReadNode, NormalNode, Forget, Canonical;
    MarshalRoundTrip(d, inflate, n);
    CanonicalIff(d, n);
  }

  /* ---------- Decoder progress ---------- */

  function CountInValue(v: Value): nat
    decreases v, 0
  {
    match v
    case List(ns) => CountInNodes(ns)
    case _ => 0
  }

  function CountInNodes(ns: seq<Node>): nat
    decreases ns, 0
  {
    if ns == [] then 0 else CountNodes(ns[0]) + CountInNodes(ns[1..])
  }

  function CountInAttrs(attrs: seq<Attr>): nat
    decreases attrs, 0
  {
    if attrs == [] then 0 else CountInValue(attrs[0].value) + CountInAttrs(attrs[1..])
  }

  /** All elements of a tree, the ones inside attribute values included. */
  function CountNodes(n: Node): nat
    decreases n, 1
  {
    1 + CountInAttrs(n.attrs) + CountInValue(n.content)
  }

  /** Every node counts once, with those in its content and in its attributes. */
  lemma EveryNodeCounts(n: Node, ns: seq<Node>, a: Attr, attrs: seq<Attr>)
    ensures CountInNodes([n] + ns) == CountNodes(n) + CountInNodes(ns) && CountInNodes([]) == 0
    ensures CountInAttrs([a] + attrs) == CountInValue(a.value) + CountInAttrs(attrs) && CountInAttrs([]) == 0
    ensures CountNodes(n) == 1 + CountInAttrs(n.attrs) + CountInValue(n.content)
    ensures CountInValue(List(ns)) == CountInNodes(ns)
  {
    assert ([n] + ns)[1..] == ns && ([a] + attrs)[1..] == attrs;
  }

  lemma {:induction false} ValueProgress(d: Dictionary, b: Bytes, asString: bool)
    ensures var r := ReadValue(d, b, asString);
            r.Parsed? ==> |r.rest| < |b| && 3 * CountInValue(r.value) <= |b| - |r.rest|
    decreases |b|, 0
  {
    hide ReadNodes, ReadADJid, ReadFBJid, ReadInteropJid, ReadJidPair, ReadPacked, FromBigEndian, GetDoubleToken;
    if b != [] && (b[0] == LIST_8 || b[0] == LIST_16) {
      match ReadListSize(b[0], b[1..])
      case Parsed(size, b2) => NodesProgress(d, b2, size);
      case _ =>
    } else {
      ScalarsHoldNoNodes(d, b, asString);
    }
  }

  lemma ScalarsHoldNoNodes(d: Dictionary, b: Bytes, asString: bool)
    requires b != [] ==> b[0] != LIST_8 && b[0] != LIST_16
    ensures var r := ReadValue(d, b, asString); r.Parsed? ==> !r.value.List?
  {
    hide ReadNodes, FromBigEndian, GetDoubleToken, UnpackPairs;
  }

  lemma {:induction false} NodesProgress(d: Dictionary, b: Bytes, n: nat)
    ensures var r := ReadNodes(d, b, n);
            r.Parsed? ==> |r.rest| <= |b| && 3 * CountInNodes(r.value) <= |b| - |r.rest|
    decreases |b|, 1
  {
    hide ReadNode;
    if n > 0 {
      NodeProgress(d, b);
      var r := ReadNode(d, b);
      if r.Parsed? {
        NodesProgress(d, r.rest, n - 1);
        var rs := ReadNodes(d, r.rest, n - 1);
        assert rs.Parsed? ==> ([r.value] + rs.value)[1..] == rs.value;
      }
    }
  }

  lemma {:induction false} AttrsProgress(d: Dictionary, b: Bytes, n: nat)
    ensures var r := ReadAttrs(d, b, n);
            r.Parsed? ==> |r.rest| <= |b| && 3 * CountInAttrs(r.value) <= |b| - |r.rest|
    decreases |b|, 1
  {
    hide ReadValue;
    if n > 0 {
      ValueProgress(d, b, true);
      var key := ReadValue(d, b, true);
      if key.Parsed? {
        ValueProgress(d, key.rest, true);
        var value := ReadValue(d, key.rest, true);
        if value.Parsed? {
          AttrsProgress(d, value.rest, n - 1);
          var rest := ReadAttrs(d, value.rest, n - 1);
          assert key.value.Str? && rest.Parsed? ==>
            ([Attr(key.value.text, value.value)] + rest.value)[1..] == rest.value;
        }
      }
    }
  }

  /** On every byte string: a decoded element has at most a third as many elements as bytes consumed. */
  lemma {:induction false} NodeProgress(d: Dictionary, b: Bytes)
    ensures var r := ReadNode(d, b);
            r.Parsed? ==> |r.rest| + 3 <= |b| && 3 * CountNodes(r.value) <= |b| - |r.rest|
    decreases |b|, 0
  {
    hide ReadValue, ReadAttrs, CountInAttrs, CountInValue;
    if b != [] {
      match ReadListSize(b[0], b[1..])
      case Parsed(size, b1) =>
        ValueProgress(d, b1, true);
        var tag := ReadValue(d, b1, true);
        if tag.Parsed? && size > 0 {
          AttrsProgress(d, tag.rest, (size - 1) / 2);
          var attrs := ReadAttrs(d, tag.rest, (size - 1) / 2);
          NilHoldsNothing();
          if attrs.Parsed? {
            ValueProgress(d, attrs.rest, false);
          }
        }
      case _ =>
    }
  }

  lemma NilHoldsNothing()
    ensures CountInValue(Nil) == 0
  {
  }
}
