/**
 * The bytes of the format themselves, apart from the round trip: what each encoding puts on the wire, and what a
 * peer reads of numbers and truth values.
 */
module XmlWire {
  import opened Bytes
  import opened Decimal
  import opened Jid
  import opened Tokens
  import opened XmlFormat
  import opened XmlRoundTrip

  /* ---------- Numbers and truth values ---------- */

  /** An integer attribute is read as a text that parses to the same integer, signed or unsigned. */
  lemma IntegersArrive(d: Dictionary, n: int, rest: Bytes)
    requires Consistent(d) && WritableValue(Int(n))
    ensures var r := ReadValue(d, EncodeValue(d, Int(n)) + rest, true);
            && r.Parsed? && r.rest == rest && r.value.Str?
            && (n >= 0 ==> ParseDigits(r.value.text) == Some(n))
            && (-0x8000_0000_0000_0000 <= n < 0x8000_0000_0000_0000 ==> Atoi(r.value.text) == Some(n))
  {
    hide ReadValue, EncodeValue, Itoa, Atoi, ParseDigits;
    ValueRoundTrip(d, Int(n), rest, true);
    ItoaIsDecimal(n);
  }

  /** A flag is read as the text "true" if it is set and "false" if it is not. */
  lemma FlagsArrive(d: Dictionary, b: bool, rest: Bytes)
    requires Consistent(d)
    ensures ReadValue(d, EncodeValue(d, Bool(b)) + rest, true)
         == Parsed(Str(if b then [116, 114, 117, 101] else [102, 97, 108, 115, 101]), rest)
  {
    hide ReadValue, EncodeValue;
    ValueRoundTrip(d, Bool(b), rest, true);
  }

  /* ---------- Texts ---------- */

  /** A token is its index, a token of a dictionary two bytes; tags are 236 to 239 for the dictionaries. */
  lemma TokenBytes(d: Dictionary, s: Bytes)
    requires Consistent(d) && |s| < MAX_LENGTH
    ensures s in d.singleIndex ==> |EncodeString(d, s)| == 1 && d.single[EncodeString(d, s)[0]] == s
    ensures s !in d.singleIndex && s in d.doubleIndex ==>
              var b := EncodeString(d, s);
              && |b| == 2 && 236 <= b[0] < 240 && b[1] < |d.double[b[0] - 236]| && d.double[b[0] - 236][b[1]] == s
  {
  }

  /**
   * "12-.5" and "1A" packed: a tag, the number of bytes with the top bit for an odd length, two characters to a byte.
   */
  lemma PackedBytes()
    ensures Packable(false, [49, 50, 45, 46, 53]) &&
        EncodePacked(false, [49, 50, 45, 46, 53]) == [255, 131, 0x12, 0xAB, 0x5F]
    ensures Packable(true, [49, 65]) && !Packable(false, [49, 65]) && EncodePacked(true, [49, 65]) == [251, 1, 0x1A]
  {
    var s: Bytes := [49, 50, 45, 46, 53];
    assert s[2..] == [45, 46, 53] && s[2..][2..] == [53];
    assert PackPairs(false, [53]) == [0x5F];
    assert PackPairs(false, [45, 46, 53]) == [0xAB] + [0x5F];
    assert PackPairs(false, s) == [0x12] + [0xAB, 0x5F];
    var h: Bytes := [49, 65];
    assert h[2..] == [] && PackPairs(true, []) == [];
    assert PackPairs(true, h) == [0x1A] + [];
    assert !PackableChar(false, h[1]);
  }

  /** Digits, '-' and '.' are packed as nibbles before digits and capital letters to F are as hex; both up to 127. */
  lemma PackedWhen(d: Dictionary, s: Bytes)
    requires Consistent(d) && |s| < MAX_LENGTH && s !in d.singleIndex && s !in d.doubleIndex
    ensures EncodeString(d, s)[0] == 255 <==>
              |s| <= 127 && forall i :: 0 <= i < |s| ==> 48 <= s[i] <= 57 || s[i] == 45 || s[i] == 46
    ensures EncodeString(d, s)[0] == 251 <==>
              && EncodeString(d, s)[0] != 255
              && |s| <= 127 && forall i :: 0 <= i < |s| ==> 48 <= s[i] <= 57 || 65 <= s[i] <= 70
  {
  }

  /** Other texts and bytes: 252 and one byte of length, 253 and twenty bits, 254 and four bytes. */
  lemma LengthBytes(n: nat)
    requires n < MAX_LENGTH
    ensures n < 256 ==> EncodeLength(n) == [252, n]
    ensures 256 <= n < 0x10_0000 ==> EncodeLength(n) == [253, n / 0x1_0000, n / 256 % 256, n % 256]
    ensures 0x10_0000 <= n ==> EncodeLength(n) == [254, n / 0x100_0000, n / 0x1_0000 % 256, n / 256 % 256, n % 256]
  {
    TwoBytes(n);
    TwoBytes(n / 0x1_0000);
    assert n / 256 / 256 == n / 0x1_0000 && n / 0x1_0000 / 256 == n / 0x100_0000;
    assert BigEndian(n, 4) == BigEndian(n / 256, 3) + [n % 256];
    assert BigEndian(n / 256, 3) == BigEndian(n / 256 / 256, 2) + [n / 256 % 256];
    hide BigEndian;
  }

  lemma ListBytes(size: nat)
    ensures size == 0 ==> EncodeListStart(size) == [0]
    ensures 0 < size < 256 ==> EncodeListStart(size) == [248, size]
    ensures 256 <= size < 0x1_0000 ==> EncodeListStart(size) == [249, size / 256, size % 256]
  {
    TwoBytes(size);
  }

  /* ---------- Identifiers ---------- */

  /** A device identifier: 247, the domain (0, 1, 128 or 129 by server), the device, the user. */
  lemma DeviceBytes(d: Dictionary, user: Bytes, device: byte)
    requires Consistent(d) && |user| < MAX_LENGTH
    ensures device > 0 ==>
              && EncodeJid(d, JID(user, 0, device, 0, DEFAULT_USER_SERVER)) == [247, 0, device] + EncodeString(d, user)
              && EncodeJid(d, JID(user, 0, device, 0, HIDDEN_USER_SERVER)) == [247, 1, device] + EncodeString(d, user)
    ensures EncodeJid(d, JID(user, 0, device, 0, HOSTED_SERVER)) == [247, 128, device] + EncodeString(d, user)
    ensures EncodeJid(d, JID(user, 0, device, 0, HOSTED_LID_SERVER)) == [247, 129, device] + EncodeString(d, user)
  {
    hide EncodeString;
    assert |DEFAULT_USER_SERVER| == 14 && |HIDDEN_USER_SERVER| == 3 && |HOSTED_SERVER| == 6 &&
        |HOSTED_LID_SERVER| == 10;
  }

  /**
   * 246 for Messenger and 245 for interop identifiers, with their numbers as two bytes each, and 250 for the others.
   */
  lemma OtherIdentifierBytes(d: Dictionary, user: Bytes, device: uint16, integrator: uint16, server: Bytes)
    requires Consistent(d) && |user| < MAX_LENGTH && |server| < MAX_LENGTH
    ensures EncodeJid(d, JID(user, 0, device, 0, MESSENGER_SERVER))
         == [246] + EncodeString(d, user) + [device / 256, device % 256] + EncodeString(d, MESSENGER_SERVER)
    ensures EncodeJid(d, JID(user, 0, device, integrator, INTEROP_SERVER))
         == [245] + EncodeString(d, user) + [device / 256, device % 256] + [integrator / 256, integrator % 256]
            + EncodeString(d, INTEROP_SERVER)
    ensures server !in {DEFAULT_USER_SERVER, HIDDEN_USER_SERVER, HOSTED_SERVER, HOSTED_LID_SERVER, MESSENGER_SERVER,
                        INTEROP_SERVER} ==>
              EncodeJid(d, JID(user, 0, 0, 0, server))
                == [250] + (if user == [] then [0] else EncodeString(d, user)) + EncodeString(d, server)
  {
    hide EncodeString;
    TwoBytes(device);
    TwoBytes(integrator);
    assert |DEFAULT_USER_SERVER| == 14 && |HIDDEN_USER_SERVER| == 3 && |HOSTED_SERVER| == 6 &&
        |HOSTED_LID_SERVER| == 10;
    assert |MESSENGER_SERVER| == 4 && |INTEROP_SERVER| == 7;
  }

  /** A node: the size of the list, the tag, the attributes that are not empty, and the content if there is any. */
  lemma NodeBytes(d: Dictionary, tag: Bytes, key: Bytes, text: Bytes, content: Bytes)
    requires Consistent(d) && |tag| < MAX_LENGTH && |key| < MAX_LENGTH && |text| < MAX_LENGTH && |content| < 256
    requires tag != ZERO_TAG && text != []
    ensures EncodeNode(d, Node(tag, [Attr(key, Str(text)), Attr(key, Str([])), Attr(key, Nil)], Raw(content)))
         == [248, 4] + EncodeString(d, tag) + EncodeString(d, key) + EncodeString(d, text) + [252, |content|] + content
    ensures EncodeNode(d, Node(tag, [], Nil)) == [248, 1] + EncodeString(d, tag)
    ensures EncodeNode(d, Node(ZERO_TAG, [], Nil)) == [248, 0]
  {
    hide EncodeString;
    var attrs := [Attr(key, Str(text)), Attr(key, Str([])), Attr(key, Nil)];
    assert attrs[1..] == [Attr(key, Str([])), Attr(key, Nil)] && attrs[1..][1..] == [Attr(key, Nil)];
    assert attrs[1..][1..][1..] == [];
    CountFirst(attrs);
    CountFirst(attrs[1..]);
    CountFirst(attrs[1..][1..]);
    var n := Node(tag, attrs, Raw(content));
    assert EncodeAttrs(d, attrs[1..][1..]) == [];
    assert EncodeAttrs(d, attrs) == EncodeString(d, key) + EncodeString(d, text) + [];
    assert EncodeValue(d, n.content) == [252, |content|] + content;
    assert EncodeAttrs(d, []) == [];
  }
}
