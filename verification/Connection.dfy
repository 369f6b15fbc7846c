/**
 * Whole connections: both ends of a handshake, the client's own handshake with its transport, and the way of a node.
 */
module Connection {
  import opened Bytes
  import opened Noise
  import opened Frames
  import opened Reassembly
  import Tokens
  import XmlFormat
  import XmlRoundTrip
  import XmlTree

  /* ---------- Both ends of a handshake ---------- */

  /**
   * One step of a handshake that both ends take: a public value, a shared secret, or a text one end seals for the
   * other.
   */
  datatype Exchange = Public(data: Bytes) | Shared(secret: Bytes) | Sealed(plaintext: Bytes)

  /** The two ends after the exchanges, and what the other end opened for each sealed text. */
  function Together(suite: Suite, a: Handshake, b: Handshake, script: seq<Exchange>)
    : (Handshake, Handshake, seq<Option<Bytes>>)
    decreases |script|
  {
    if script == [] then (a, b, []) else
      match script[0]
      case Public(data) => Together(suite, Absorb(suite, a, data), Absorb(suite, b, data), script[1..])
      case Shared(secret) => Together(suite, MixStep(suite, a, secret), MixStep(suite, b, secret), script[1..])
      case Sealed(p) =>
        var sent := EncryptStep(suite, a, p);
        var got := DecryptStep(suite, b, sent.1);
        var (x, y, texts) := Together(suite, sent.0, got.0, script[1..]);
        (x, y, [got.1] + texts)
  }

  function Texts(script: seq<Exchange>): seq<Option<Bytes>>
  {
    if script == [] then [] else (if script[0].Sealed? then [Some(script[0].plaintext)] else []) + Texts(script[1..])
  }

  /** Ends that start alike stay alike, and every sealed text is opened. */
  lemma {:induction false} HandshakeAgrees(suite: Suite, h: Handshake, script: seq<Exchange>)
    requires Lawful(suite)
    ensures var (a, b, texts) := Together(suite, h, h, script); a == b && texts == Texts(script)
    decreases |script|
  {
    hide GenerateIV;
    if script != [] {
      match script[0]
      case Public(data) => HandshakeAgrees(suite, Absorb(suite, h, data), script[1..]);
      case Shared(secret) => HandshakeAgrees(suite, MixStep(suite, h, secret), script[1..]);
      case Sealed(p) =>
        var sent := EncryptStep(suite, h, p);
        assert DecryptStep(suite, h, sent.1) == (sent.0, Some(p));
        HandshakeAgrees(suite, sent.0, script[1..]);
    }
  }

  /* ---------- The client's whole connection ---------- */

  function Sends(events: seq<Event>): nat
  {
    if events == [] then 0 else (if events[0].Send? then 1 else 0) + Sends(events[1..])
  }

  function Receives(events: seq<Event>): nat
  {
    if events == [] then 0 else (if events[0].Receive? then 1 else 0) + Receives(events[1..])
  }

  lemma {:induction false} RunTwice(suite: Suite, t: Trace, a: seq<Event>, b: seq<Event>)
    ensures Run(suite, t, a + b) == Run(suite, Run(suite, t, a), b)
    decreases |a|
  {
    hide Step;
    if a == [] {
      assert a + b == b;
    } else {
      assert (a + b)[1..] == a[1..] + b && (a + b)[0] == a[0];
      RunTwice(suite, Step(suite, t, a[0]), a[1..], b);
    }
  }

  lemma {:induction false} LogBounded(suite: Suite, t: Trace, events: seq<Event>)
    ensures |Run(suite, t, events).log| <= |t.log| + |events|
    decreases |events|
  {
    if events != [] {
      LogBounded(suite, Step(suite, t, events[0]), events[1..]);
    }
  }

  lemma {:induction false} UsesBounded(log: seq<Use>, key: Bytes)
    ensures Uses(log, key) <= |log|
  {
    if log != [] {
      UsesBounded(log[..|log| - 1], key);
    }
  }

  /** In the transport, the write key is used once a frame sent and the read key once a frame received. */
  lemma {:induction false} TransportUses(suite: Suite, t: Trace, events: seq<Event>, key: Bytes)
    requires t.phase.Running? && t.phase.t.writeKey != t.phase.t.readKey
    ensures Uses(Run(suite, t, events).log, key) == Uses(t.log, key)
              + (if key == t.phase.t.writeKey then Sends(events) else 0)
              + (if key == t.phase.t.readKey then Receives(events) else 0)
    decreases |events|
  {
    hide Uses, GenerateIV;
    if events != [] {
      var next := Step(suite, t, events[0]);
      var r := t.phase.t;
      UseAdds(t.log, Use(r.writeKey, GenerateIV(r.writeCount)));
      UseAdds(t.log, Use(r.readKey, GenerateIV(r.readCount)));
      TransportUses(suite, next, events[1..], key);
    }
  }

  lemma {:induction false} StillShaking(suite: Suite, t: Trace, events: seq<Event>)
    requires t.phase.Shaking? && forall i :: 0 <= i < |events| ==> !events[i].Finish?
    ensures Run(suite, t, events).phase.Shaking?
    decreases |events|
  {
    hide EncryptStep, DecryptStep, MixStep, Absorb;
    if events != [] {
      StillShaking(suite, Step(suite, t, events[0]), events[1..]);
    }
  }

  /** Right after the handshake, the transport keys have not been used and no other key often. */
  lemma AfterHandshake(suite: Suite, pattern: Bytes, header: Bytes, handshake: seq<Event>)
    requires |handshake| <= 0x1_0000_0000 && forall i :: 0 <= i < |handshake| ==> !handshake[i].Finish?
    requires Distinct(Run(suite, Begin(suite, pattern, header), handshake + [Finish]).keys)
    ensures var t := Run(suite, Begin(suite, pattern, header), handshake + [Finish]);
            && t.phase.Running? && t.phase.t.writeKey != t.phase.t.readKey
            && Uses(t.log, t.phase.t.writeKey) == 0 && Uses(t.log, t.phase.t.readKey) == 0
            && forall key :: Uses(t.log, key) <= 0x1_0000_0000
  {
    hide Run, Uses;
    var start := Begin(suite, pattern, header);
    var pre := Run(suite, start, handshake);
    var t := Run(suite, start, handshake + [Finish]);
    RunTwice(suite, start, handshake, [Finish]);
    OneStep(suite, pre, Finish);
    StillShaking(suite, start, handshake);
    LogBounded(suite, start, handshake);
    forall key ensures Uses(t.log, key) <= 0x1_0000_0000 {
      UsesBounded(t.log, key);
    }
    var r := t.phase.t;
    assert t.keys == pre.keys + [r.writeKey, r.readKey];
    assert t.keys[|pre.keys|] == r.writeKey && t.keys[|pre.keys| + 1] == r.readKey;
    FirstInv(suite, pattern, header);
    assert Distinct(pre.keys) by {
      assert forall i :: 0 <= i < |pre.keys| ==> pre.keys[i] == t.keys[i];
    }
    RunKeepsInv(suite, start, handshake);
    NewKeys(pre, [r.writeKey, r.readKey], 0);
    NewKeys(pre, [r.writeKey, r.readKey], 1);
  }

  lemma OneStep(suite: Suite, t: Trace, e: Event)
    ensures Run(suite, t, [e]) == Step(suite, t, e)
  {
    hide Step;
    assert [e][1..] == [];
    assert Run(suite, Step(suite, t, e), []) == Step(suite, t, e);
  }

  /**
   * A handshake of any shape followed by any frames: if the derived keys differ, no key meets an IV twice if and
   * only if at most 2^32 frames go each way.
   */
  lemma WholeConnection(suite: Suite, pattern: Bytes, header: Bytes, handshake: seq<Event>, events: seq<Event>)
    requires |handshake| <= 0x1_0000_0000 && forall i :: 0 <= i < |handshake| ==> !handshake[i].Finish?
    requires Distinct(Run(suite, Begin(suite, pattern, header), handshake + [Finish] + events).keys)
    ensures NoReuse(Run(suite, Begin(suite, pattern, header), handshake + [Finish] + events).log)
       <==> Sends(events) <= 0x1_0000_0000 && Receives(events) <= 0x1_0000_0000
  {
    hide Run, Uses, Step, Distinct, NoReuse;
    var start := Begin(suite, pattern, header);
    var t := Run(suite, start, handshake + [Finish]);
    NonceDiscipline(suite, pattern, header, handshake + [Finish] + events);
    RunTwice(suite, start, handshake + [Finish], events);
    KeysOfRunGrow(suite, t, events);
    DistinctPrefix(t.keys, Run(suite, t, events).keys);
    AfterHandshake(suite, pattern, header, handshake);
    var log := Run(suite, t, events).log;
    forall key ensures Uses(log, key) == Uses(t.log, key)
                         + (if key == t.phase.t.writeKey then Sends(events) else 0)
                         + (if key == t.phase.t.readKey then Receives(events) else 0) {
      TransportUses(suite, t, events, key);
    }
    assert Uses(log, t.phase.t.writeKey) == Sends(events) && Uses(log, t.phase.t.readKey) == Receives(events);
  }

  lemma DistinctPrefix(a: seq<Bytes>, b: seq<Bytes>)
    requires a <= b && Distinct(b)
    ensures Distinct(a)
  {
  }

  /* ---------- Frames are opened under the IV they were sealed with ---------- */

  /** The ciphertexts of frames sent one after the other. */
  function SealAll(suite: Suite, key: Bytes, n: counter, texts: seq<Bytes>): (frames: seq<Bytes>)
    ensures |frames| == |texts|
    decreases |texts|
  {
    if texts == [] then []
    else [suite.seal(key, GenerateIV(n), texts[0], [])] + SealAll(suite, key, Next(n), texts[1..])
  }

  /** What is opened of frames received one after the other. */
  function OpenAll(suite: Suite, key: Bytes, n: counter, frames: seq<Bytes>): (texts: seq<Option<Bytes>>)
    ensures |texts| == |frames|
    decreases |frames|
  {
    if frames == [] then []
    else [suite.open(key, GenerateIV(n), frames[0], [])] + OpenAll(suite, key, Next(n), frames[1..])
  }

  /** A frame that arrives in its place as it was sent is opened, whatever was done to the frames before it. */
  lemma {:induction false} OpenedInPlace(suite: Suite, key: Bytes, n: counter, texts: seq<Bytes>, frames: seq<Bytes>,
                                         i: nat)
    requires Lawful(suite) && |frames| == |texts| && i < |frames|
    requires frames[i] == SealAll(suite, key, n, texts)[i]
    ensures OpenAll(suite, key, n, frames)[i] == Some(texts[i])
    decreases |texts|
  {
    hide GenerateIV;
    if i > 0 {
      OpenedInPlace(suite, key, Next(n), texts[1..], frames[1..], i - 1);
    }
  }

  /* ---------- The way of a node ---------- */

  /** Nodes as one end writes them: marshalled, sealed, framed. */
  function Frame(suite: Suite, key: Bytes, n: counter, d: Tokens.Dictionary, nodes: seq<XmlFormat.Node>): seq<Bytes>
    requires Tokens.Consistent(d) && forall i :: 0 <= i < |nodes| ==> XmlFormat.Writable(nodes[i])
  {
    SealAll(suite, key, n, seq(|nodes|, i requires 0 <= i < |nodes| => XmlTree.Marshal(d, nodes[i])))
  }

  /** What the other end makes of one opened frame. */
  function Understand(d: Tokens.Dictionary, inflate: Bytes -> Option<Bytes>, text: Option<Bytes>): Option<XmlTree.Tree>
  {
    if text.None? then None else
      var unpacked := XmlTree.Unpack(inflate, text.value);
      if !unpacked.Parsed? then None else
        var read := XmlTree.Unmarshal(d, unpacked.value);
        if read.Unmarshaled? then Some(read.tree) else None
  }

  /**
   * Canonical nodes that are marshalled, sealed, framed, cut into chunks between frames or inside length prefixes,
   * reassembled, opened, unpacked and unmarshalled are the nodes that were sent, in their order.
   */
  lemma NodesArrive(suite: Suite, key: Bytes, n: counter, d: Tokens.Dictionary, inflate: Bytes -> Option<Bytes>,
                    nodes: seq<XmlFormat.Node>, chunks: seq<Bytes>, i: nat)
    requires Lawful(suite) && Tokens.Consistent(d) && i < |nodes|
    requires forall k :: 0 <= k < |nodes| ==>
               XmlFormat.Writable(nodes[k]) && XmlRoundTrip.Readable(nodes[k]) && XmlTree.Canonical(d, nodes[k])
    requires AllSendable(Frame(suite, key, n, d, nodes)) && Flatten(chunks) == Wire(Frame(suite, key, n, d, nodes))
    requires CutsAllowed(Frame(suite, key, n, d, nodes), 0, chunks)
    ensures var out := Frames.Receive(SOURCE_SKEW, Waiting([]), chunks);
            && out.Reception? && |out.frames| == |nodes|
            && Understand(d, inflate, OpenAll(suite, key, n, out.frames)[i]) == Some(XmlTree.Forget(nodes[i]))
  {
    hide Frames.Receive, XmlFormat.Writable, XmlRoundTrip.Readable, XmlTree.Canonical, SealAll, OpenAll, CutsAllowed,
      XmlTree.Forget;
    hide XmlTree.Marshal, XmlTree.Unmarshal, XmlTree.Unpack, AllSendable;
    var frames := Frame(suite, key, n, d, nodes);
    SourceReassemblyIff(frames, chunks);
    OpenedInPlace(suite, key, n, seq(|nodes|, k requires 0 <= k < |nodes| => XmlTree.Marshal(d, nodes[k])), frames, i);
    XmlTree.CanonicalRoundTrip(d, inflate, XmlTree.Forget(nodes[i]), nodes[i]);
  }

  /* ---------- The steps of the Noise Protocol Framework ---------- */

  /** MixHash, MixKey, EncryptAndHash and DecryptAndHash, as section 5.2 of the framework defines them. */
  lemma StepsFollowNoise(suite: Suite, h: Handshake, data: Bytes)
    ensures Absorb(suite, h, data) == Handshake(suite.digest(h.hash + data), h.salt, h.key, h.count)
    ensures MixStep(suite, h, data)
         == Handshake(h.hash, suite.expand(h.salt, data).0, suite.expand(h.salt, data).1, 0)
    ensures var c := suite.seal(h.key, Zeros(4) + BigEndian(h.count, 8), data, h.hash);
            EncryptStep(suite, h, data)
              == (Handshake(suite.digest(h.hash + c), h.salt, h.key, (h.count + 1) % 0x1_0000_0000), c)
    ensures var p := suite.open(h.key, Zeros(4) + BigEndian(h.count, 8), data, h.hash);
            DecryptStep(suite, h, data)
              == (Handshake(if p.Some? then suite.digest(h.hash + data) else h.hash, h.salt, h.key,
                            (h.count + 1) % 0x1_0000_0000), p)
  {
    hide GenerateIV, BigEndian;
    IVFollowsNoise(h.count);
  }

  /** The start: the name is the first hash, chaining key and key if it has 32 bytes; the header is hashed in. */
  lemma StartFollowsNoise(suite: Suite, pattern: Bytes, header: Bytes)
    ensures var first := if |pattern| == 32 then pattern else suite.digest(pattern);
            Started(suite, pattern, header) == Handshake(suite.digest(first + header), first, first, 0)
  {
  }

  /** Split at the other end: the responder reads with the first derived key and writes with the second. */
  function ResponderFinish(suite: Suite, h: Handshake): Transport
  {
    var keys := suite.expand(h.salt, []);
    Transport(keys.1, keys.0, 0, 0)
  }

  /** After the same handshake, what the client seals the responder opens, in order, and the other way round. */
  lemma EndsMeet(suite: Suite, h: Handshake, texts: seq<Bytes>, i: nat)
    requires Lawful(suite) && i < |texts|
    ensures var client, responder := FinishStep(suite, h), ResponderFinish(suite, h);
            && OpenAll(suite, responder.readKey, responder.readCount,
                       SealAll(suite, client.writeKey, client.writeCount, texts))[i] == Some(texts[i])
            && OpenAll(suite, client.readKey, client.readCount,
                       SealAll(suite, responder.writeKey, responder.writeCount, texts))[i] == Some(texts[i])
  {
    hide SealAll, OpenAll;
    var keys := suite.expand(h.salt, []);
    OpenedInPlace(suite, keys.0, 0, texts, SealAll(suite, keys.0, 0, texts), i);
    OpenedInPlace(suite, keys.1, 0, texts, SealAll(suite, keys.1, 0, texts), i);
  }
}
