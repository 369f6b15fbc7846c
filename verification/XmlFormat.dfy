/**
 * The binary XML format as two functions: `EncodeNode` (binary/encoder.go) from trees to bytes and
 * `ReadNode` (binary/decoder.go) from bytes to trees. XmlWriter and XmlReader hold the code that
 * appends to a buffer and moves a cursor.
 */
module XmlFormat {
  import opened Bytes
  import opened Decimal
  import opened Jid
  import opened Tokens

  datatype Value =
    | Nil
    | List(nodes: seq<Node>)
    | Str(text: Bytes)
    | Raw(bytes: Bytes)
    | Jid(jid: JID)
    | Int(number: int)
    | Bool(flag: bool)

  datatype Attr = Attr(key: Bytes, value: Value)

  /** An element whose attributes stand in the order in which the attribute map is walked. */
  datatype Node = Node(tag: Bytes, attrs: seq<Attr>, content: Value)

  const TRUE_TEXT: Bytes := [116, 114, 117, 101]
  const FALSE_TEXT: Bytes := [102, 97, 108, 115, 101]
  const ZERO_TAG: Bytes := [48]
  const MAX_LENGTH := 0x7FFF_FFFF

  /* ---------- Packed strings ---------- */

  predicate NibbleChar(c: byte)
  {
    48 <= c <= 57 || c == 45 || c == 46
  }

  predicate HexChar(c: byte)
  {
    48 <= c <= 57 || 65 <= c <= 70
  }

  predicate PackableChar(hex: bool, c: byte)
  {
    if hex then HexChar(c) else NibbleChar(c)
  }

  predicate Packable(hex: bool, s: Bytes)
  {
    |s| <= PACKED_MAX && forall i :: 0 <= i < |s| ==> PackableChar(hex, s[i])
  }

  function PackChar(hex: bool, c: byte): (v: byte)
    requires PackableChar(hex, c)
    ensures v < 16
  {
    if 48 <= c <= 57 then c - 48
    else if hex then c - 55
    else if c == 45 then 10 else 11
  }

  /** The inverse of packing; `None` where the code reports an error. */
  function UnpackChar(hex: bool, v: byte): Option<byte>
    requires v < 16
  {
    if v < 10 then Some(48 + v)
    else if hex then Some(55 + v)
    else if v == 10 then Some(45)
    else if v == 11 then Some(46)
    else if v == 15 then Some(0)
    else None
  }

  /** Two characters to a byte; a last odd one is paired with the filler 15. */
  function PackPairs(hex: bool, s: Bytes): (b: Bytes)
    requires forall i :: 0 <= i < |s| ==> PackableChar(hex, s[i])
    ensures |b| == (|s| + 1) / 2
  {
    if s == [] then []
    else if |s| == 1 then [PackChar(hex, s[0]) * 16 + 15]
    else [PackChar(hex, s[0]) * 16 + PackChar(hex, s[1])] + PackPairs(hex, s[2..])
  }

  function UnpackPairs(hex: bool, b: Bytes): Option<Bytes>
  {
    if b == [] then Some([]) else
      var first, second := UnpackChar(hex, b[0] / 16), UnpackChar(hex, b[0] % 16);
      var rest := UnpackPairs(hex, b[1..]);
      if first.None? || second.None? || rest.None? then None
      else Some([first.value, second.value] + rest.value)
  }

  function PackedSize(n: nat): byte
    requires n <= PACKED_MAX
  {
    (n + 1) / 2 + if n % 2 == 1 then 128 else 0
  }

  function EncodePacked(hex: bool, s: Bytes): Bytes
    requires Packable(hex, s)
  {
    [if hex then HEX_8 else NIBBLE_8, PackedSize(|s|)] + PackPairs(hex, s)
  }

  /* ---------- Encoding ---------- */

  function Int20(n: nat): Bytes
  {
    [n / 0x1_0000 % 16] + BigEndian(n, 2)
  }

  function EncodeLength(n: nat): Bytes
    requires n < MAX_LENGTH
  {
    if n < 256 then [BINARY_8, n]
    else if n < 0x10_0000 then [BINARY_20] + Int20(n)
    else [BINARY_32] + BigEndian(n, 4)
  }

  /** The string encodings, first match first; only the last one keeps the bytes as they are. */
  predicate WrittenRaw(d: Dictionary, s: Bytes)
  {
    s !in d.singleIndex && s !in d.doubleIndex && !Packable(false, s) && !Packable(true, s)
  }

  function EncodeString(d: Dictionary, s: Bytes): Bytes
    requires Consistent(d) && |s| < MAX_LENGTH
  {
    if s in d.singleIndex then [d.singleIndex[s]]
    else if s in d.doubleIndex then [DICTIONARY_0 + d.doubleIndex[s].dictionary, d.doubleIndex[s].index]
    else if Packable(false, s) then EncodePacked(false, s)
    else if Packable(true, s) then EncodePacked(true, s)
    else EncodeLength(|s|) + s
  }

  predicate WrittenAsAD(j: JID)
  {
    || ((j.server == DEFAULT_USER_SERVER || j.server == HIDDEN_USER_SERVER) && j.device > 0)
    || j.server == HOSTED_SERVER || j.server == HOSTED_LID_SERVER
  }

  predicate ShortJid(j: JID)
  {
    |j.user| < MAX_LENGTH && |j.server| < MAX_LENGTH
  }

  function EncodeJid(d: Dictionary, j: JID): Bytes
    requires Consistent(d) && ShortJid(j)
  {
    if WrittenAsAD(j) then
      [AD_JID, j.ActualAgent(), j.device % 256] + EncodeString(d, j.user)
    else if j.server == MESSENGER_SERVER then
      [FB_JID] + EncodeString(d, j.user) + BigEndian(j.device, 2) + EncodeString(d, j.server)
    else if j.server == INTEROP_SERVER then
      [INTEROP_JID] + EncodeString(d, j.user) + BigEndian(j.device, 2) + BigEndian(j.integrator, 2) +
        EncodeString(d, j.server)
    else
      [JID_PAIR] + (if j.user == [] then [LIST_EMPTY] else EncodeString(d, j.user)) + EncodeString(d, j.server)
  }

  /** Attributes that the encoder leaves out. */
  predicate Skipped(a: Attr)
  {
    a.value == Nil || a.value == Str([])
  }

  function CountAttributes(attrs: seq<Attr>): (n: nat)
    ensures n <= |attrs|
  {
    if attrs == [] then 0 else CountAttributes(attrs[..|attrs| - 1]) + if Skipped(attrs[|attrs| - 1]) then 0 else 1
  }

  /** Everything short enough for the encoder not to panic. */
  predicate WritableValue(v: Value)
    decreases v, 0
  {
    match v
    case Nil => true
    case Bool(_) => true
    case Str(s) => |s| < MAX_LENGTH
    case Raw(b) => |b| < MAX_LENGTH
    case Int(n) => |Itoa(n)| < MAX_LENGTH
    case Jid(j) => ShortJid(j)
    case List(ns) => forall i :: 0 <= i < |ns| ==> Writable(ns[i])
  }

  predicate Writable(n: Node)
    decreases n, 1
  {
    && |n.tag| < MAX_LENGTH
    && (forall i :: 0 <= i < |n.attrs| ==> |n.attrs[i].key| < MAX_LENGTH && WritableValue(n.attrs[i].value))
    && WritableValue(n.content)
  }

  function EncodeListStart(size: nat): Bytes
  {
    if size == 0 then [LIST_EMPTY]
    else if size < 256 then [LIST_8, size]
    else [LIST_16] + BigEndian(size, 2)
  }

  function EncodeValue(d: Dictionary, v: Value): Bytes
    requires Consistent(d) && WritableValue(v)
    decreases v, 0
  {
    match v
    case Nil => [LIST_EMPTY]
    case Jid(j) => EncodeJid(d, j)
    case Str(s) => EncodeString(d, s)
    case Int(n) => EncodeString(d, Itoa(n))
    case Bool(b) => EncodeString(d, if b then TRUE_TEXT else FALSE_TEXT)
    case Raw(b) => EncodeLength(|b|) + b
    case List(ns) => EncodeListStart(|ns|) + EncodeNodes(d, ns)
  }

  function EncodeNodes(d: Dictionary, ns: seq<Node>): Bytes
    requires Consistent(d) && forall i :: 0 <= i < |ns| ==> Writable(ns[i])
    decreases ns, 0
  {
    if ns == [] then [] else EncodeNode(d, ns[0]) + EncodeNodes(d, ns[1..])
  }

  predicate WritableAttrs(attrs: seq<Attr>)
  {
    forall i :: 0 <= i < |attrs| ==> |attrs[i].key| < MAX_LENGTH && WritableValue(attrs[i].value)
  }

  function EncodeAttrs(d: Dictionary, attrs: seq<Attr>): Bytes
    requires Consistent(d) && WritableAttrs(attrs)
    decreases attrs, 0
  {
    if attrs == [] then []
    else if Skipped(attrs[0]) then EncodeAttrs(d, attrs[1..])
    else EncodeString(d, attrs[0].key) + EncodeValue(d, attrs[0].value) + EncodeAttrs(d, attrs[1..])
  }

  function NodeListSize(n: Node): nat
  {
    2 * CountAttributes(n.attrs) + 1 + if n.content == Nil then 0 else 1
  }

  function EncodeNode(d: Dictionary, n: Node): Bytes
    requires Consistent(d) && Writable(n)
    decreases n, 1
  {
    if n.tag == ZERO_TAG then [LIST_8, LIST_EMPTY] else
      EncodeListStart(NodeListSize(n)) + EncodeString(d, n.tag) + EncodeAttrs(d, n.attrs)
        + if n.content == Nil then [] else EncodeValue(d, n.content)
  }

  /* ---------- Decoding ---------- */

  /** A value and the bytes after it; an error; or a run-time panic on a failed type assertion or slice. */
  datatype Parsed<+T> = Parsed(value: T, rest: Bytes) | Malformed | Panic

  function ReadInt(b: Bytes, n: nat): Parsed<nat>
  {
    if |b| < n then Malformed else Parsed(FromBigEndian(b[..n]), b[n..])
  }

  function ReadInt20(b: Bytes): Parsed<nat>
  {
    if |b| < 3 then Malformed
    else Parsed(b[0] % 16 * 0x1_0000 + FromBigEndian(b[1..3]), b[3..])
  }

  function BytesOrString(size: Parsed<nat>, asString: bool): Parsed<Value>
  {
    match size
    case Malformed => Malformed
    case Panic => Panic
    case Parsed(n, b) =>
      if |b| < n then Malformed
      else Parsed(if asString then Str(b[..n]) else Raw(b[..n]), b[n..])
  }

  function ReadPacked(hex: bool, b: Bytes): Parsed<Value>
  {
    if b == [] then Malformed else
      var n := b[0] % 128;
      var text := UnpackPairs(hex, b[1..if |b| < 1 + n then |b| else 1 + n]);
      if |b| < 1 + n || text.None? then Malformed
      else if b[0] < 128 then Parsed(Str(text.value), b[1 + n..])
      else if text.value == [] then Panic
      else Parsed(Str(text.value[..|text.value| - 1]), b[1 + n..])
  }

  function ReadListSize(tag: int, b: Bytes): Parsed<nat>
  {
    if tag == LIST_EMPTY as int then Parsed(0, b)
    else if tag == LIST_8 as int then ReadInt(b, 1)
    else if tag == LIST_16 as int then ReadInt(b, 2)
    else Malformed
  }

  function ReadToken(d: Dictionary, tag: byte, b: Bytes): Parsed<Value>
  {
    if 1 <= tag < |d.single| then Parsed(Str(d.single[tag]), b) else Malformed
  }

  function ReadDouble(d: Dictionary, tag: byte, b: Bytes): Parsed<Value>
  {
    match ReadInt(b, 1)
    case Parsed(i, rest) =>
      var token := GetDoubleToken(d, tag as int - DICTIONARY_0 as int, i);
      if token.None? then Malformed else Parsed(Str(token.value), rest)
    case _ => Malformed
  }

  function ReadValue(d: Dictionary, b: Bytes, asString: bool): (r: Parsed<Value>)
    ensures r.Parsed? ==> |r.rest| < |b|
    decreases |b|, 0
  {
    if b == [] then Malformed else
      var tag, b1 := b[0], b[1..];
      if tag == LIST_EMPTY then Parsed(Nil, b1)
      else if tag == LIST_8 || tag == LIST_16 then
        match ReadListSize(tag, b1)
        case Parsed(size, b2) =>
          (match ReadNodes(d, b2, size)
           case Parsed(ns, b3) => Parsed(List(ns), b3)
           case Malformed => Malformed
           case Panic => Panic)
        case _ => Malformed
      else if tag == BINARY_8 then BytesOrString(ReadInt(b1, 1), asString)
      else if tag == BINARY_20 then BytesOrString(ReadInt20(b1), asString)
      else if tag == BINARY_32 then BytesOrString(ReadInt(b1, 4), asString)
      else if DICTIONARY_0 <= tag < DICTIONARY_0 + 4 then ReadDouble(d, tag, b1)
      else if tag == FB_JID then ReadFBJid(d, b1)
      else if tag == INTEROP_JID then ReadInteropJid(d, b1)
      else if tag == JID_PAIR then ReadJidPair(d, b1)
      else if tag == AD_JID then ReadADJid(d, b1)
      else if tag == NIBBLE_8 then ReadPacked(false, b1)
      else if tag == HEX_8 then ReadPacked(true, b1)
      else ReadToken(d, tag, b1)
  }

  function ReadJidPair(d: Dictionary, b: Bytes): (r: Parsed<Value>)
    ensures r.Parsed? ==> |r.rest| < |b|
    decreases |b|, 1
  {
    match ReadValue(d, b, true)
    case Malformed => Malformed
    case Panic => Panic
    case Parsed(user, b1) =>
      match ReadValue(d, b1, true)
      case Malformed => Malformed
      case Panic => Panic
      case Parsed(server, b2) =>
        if server == Nil then Malformed
        else if !server.Str? || !(user == Nil || user.Str?) then Panic
        else Parsed(Jid(NewJID(if user == Nil then [] else user.text, server.text)), b2)
  }

  function ReadInteropJid(d: Dictionary, b: Bytes): (r: Parsed<Value>)
    ensures r.Parsed? ==> |r.rest| < |b|
    decreases |b|, 1
  {
    match ReadValue(d, b, true)
    case Malformed => Malformed
    case Panic => Panic
    case Parsed(user, b1) =>
      if |b1| < 4 then Malformed else
        match ReadValue(d, b1[4..], true)
        case Malformed => Malformed
        case Panic => Panic
        case Parsed(server, b2) =>
          if server != Str(INTEROP_SERVER) then Malformed
          else if !user.Str? then Panic
          else Parsed(Jid(JID(user.text, 0, Uint16(b1[..2]), Uint16(b1[2..4]), INTEROP_SERVER)), b2)
  }

  function Uint16(b: Bytes): uint16
    requires |b| == 2
  {
    b[0] as int * 256 + b[1] as int
  }

  function ReadFBJid(d: Dictionary, b: Bytes): (r: Parsed<Value>)
    ensures r.Parsed? ==> |r.rest| < |b|
    decreases |b|, 1
  {
    match ReadValue(d, b, true)
    case Malformed => Malformed
    case Panic => Panic
    case Parsed(user, b1) =>
      if |b1| < 2 then Malformed else
        match ReadValue(d, b1[2..], true)
        case Malformed => Malformed
        case Panic => Panic
        case Parsed(server, b2) =>
          if server != Str(MESSENGER_SERVER) then Malformed
          else if !user.Str? then Panic
          else Parsed(Jid(JID(user.text, 0, Uint16(b1[..2]), 0, MESSENGER_SERVER)), b2)
  }

  function ReadADJid(d: Dictionary, b: Bytes): (r: Parsed<Value>)
    ensures r.Parsed? ==> |r.rest| < |b|
    decreases |b|, 1
  {
    if |b| < 2 then Malformed else
      match ReadValue(d, b[2..], true)
      case Malformed => Malformed
      case Panic => Panic
      case Parsed(user, b1) => if !user.Str? then Panic else Parsed(Jid(NewADJID(user.text, b[0], b[1])), b1)
  }

  /** `n` attributes in the order read. */
  function ReadAttrs(d: Dictionary, b: Bytes, n: nat): (r: Parsed<seq<Attr>>)
    ensures r.Parsed? ==> |r.rest| <= |b| && |r.value| == n
    decreases |b|, 1
  {
    if n == 0 then Parsed([], b) else
      match ReadValue(d, b, true)
      case Malformed => Malformed
      case Panic => Panic
      case Parsed(key, b1) =>
        if !key.Str? then Malformed else
          match ReadValue(d, b1, true)
          case Malformed => Malformed
          case Panic => Panic
          case Parsed(value, b2) =>
            match ReadAttrs(d, b2, n - 1)
            case Malformed => Malformed
            case Panic => Panic
            case Parsed(attrs, b3) => Parsed([Attr(key.text, value)] + attrs, b3)
  }

  function ReadNodes(d: Dictionary, b: Bytes, n: nat): (r: Parsed<seq<Node>>)
    ensures r.Parsed? ==> |r.rest| + 3 * n <= |b| && |r.value| == n
    decreases |b|, 1
  {
    if n == 0 then Parsed([], b) else
      match ReadNode(d, b)
      case Malformed => Malformed
      case Panic => Panic
      case Parsed(node, b1) =>
        match ReadNodes(d, b1, n - 1)
        case Malformed => Malformed
        case Panic => Panic
        case Parsed(nodes, b2) => Parsed([node] + nodes, b2)
  }

  function ReadNode(d: Dictionary, b: Bytes): (r: Parsed<Node>)
    ensures r.Parsed? ==> |r.rest| + 3 <= |b|
    decreases |b|, 0
  {
    if b == [] then Malformed else
      match ReadListSize(b[0], b[1..])
      case Malformed => Malformed
      case Panic => Panic
      case Parsed(size, b1) =>
        match ReadValue(d, b1, true)
        case Malformed => Malformed
        case Panic => Panic
        case Parsed(tag, b2) =>
          if !tag.Str? then Panic
          else if size == 0 || tag.text == [] then Malformed else
            match ReadAttrs(d, b2, (size - 1) / 2)
            case Malformed => Malformed
            case Panic => Panic
            case Parsed(attrs, b3) =>
              if size % 2 == 1 then Parsed(Node(tag.text, attrs, Nil), b3) else
                match ReadValue(d, b3, false)
                case Malformed => Malformed
                case Panic => Panic
                case Parsed(content, b4) => Parsed(Node(tag.text, attrs, content), b4)
  }
}
