/**
 * The Noise layer (socket/noisehandshake.go, socket/noisesocket.go): every key is used with one counter that starts
 * at zero, so a key and an IV meet at most once below 2^32 uses.
 */
module Noise {
  import opened Bytes

  /** SHA-256, HKDF over a salt and data, and AES-GCM with a key, an IV, a text and associated data. */
  datatype Suite = Suite(
    digest: Bytes -> Bytes,
    expand: (Bytes, Bytes) -> (Bytes, Bytes),
    seal: (Bytes, Bytes, Bytes, Bytes) -> Bytes,
    open: (Bytes, Bytes, Bytes, Bytes) -> Option<Bytes>)

  ghost predicate Lawful(suite: Suite)
  {
    forall key, iv, text, data :: suite.open(key, iv, suite.seal(key, iv, text, data), data) == Some(text)
  }

  type counter = n: nat | n < 0x1_0000_0000

  /** A uint32 that wraps around. */
  function Next(n: counter): counter
  {
    if n == 0xFFFF_FFFF then 0 else n + 1
  }

  function GenerateIV(count: counter): Bytes
  {
    Zeros(8) + BigEndian(count, 4)
  }

  lemma IVInjective(a: counter, b: counter)
    requires GenerateIV(a) == GenerateIV(b)
    ensures a == b
  {
    assert GenerateIV(a)[8..] == BigEndian(a, 4) && GenerateIV(b)[8..] == BigEndian(b, 4);
    assert Pow256(4) == 0x1_0000_0000;
    BigEndianInverse(a, 4);
    BigEndianInverse(b, 4);
  }

  /** Section 12.4 of the Noise Protocol Framework: 32 bits of zeros and the counter as 64 bits, big-endian. */
  lemma IVFollowsNoise(count: counter)
    ensures GenerateIV(count) == Zeros(4) + BigEndian(count, 8)
  {
    var c1, c2, c3 := count / 256, count / 256 / 256, count / 256 / 256 / 256;
    NoHighBytes(4);
    hide BigEndian;
    NextByte(c3, 1);
    NextByte(c2, 2);
    NextByte(c1, 3);
    NextByte(count, 4);
    NextByte(c3, 5);
    NextByte(c2, 6);
    NextByte(c1, 7);
    NextByte(count, 8);
    assert c3 / 256 == 0;
    assert Zeros(8) == Zeros(4) + Zeros(4);
    assert Zeros(4) + (Zeros(4) + BigEndian(count, 4)) == Zeros(8) + BigEndian(count, 4);
  }

  lemma NextByte(v: nat, n: nat)
    requires n > 0
    ensures BigEndian(v, n) == BigEndian(v / 256, n - 1) + [v % 256]
  {
  }

  lemma {:induction false} NoHighBytes(n: nat)
    ensures BigEndian(0, n) == Zeros(n)
  {
    if n > 0 {
      NoHighBytes(n - 1);
    }
  }

  /* ---------- One end of a connection ---------- */

  datatype Handshake = Handshake(hash: Bytes, salt: Bytes, key: Bytes, count: counter)

  datatype Transport = Transport(writeKey: Bytes, readKey: Bytes, writeCount: counter, readCount: counter)

  datatype Phase = Shaking(h: Handshake) | Running(t: Transport)

  datatype Event = Authenticate(data: Bytes)
                 | Encrypt(plaintext: Bytes)
                 | Decrypt(ciphertext: Bytes)
                 | Mix(secret: Bytes)
                 | Finish
                 | Send(plaintext: Bytes)
                 | Receive(ciphertext: Bytes)

  /** A key and an IV that were used together, to seal or to open. */
  datatype Use = Use(key: Bytes, iv: Bytes)

  /** The connection so far: all uses, and all keys in the order they were installed. */
  datatype Trace = Trace(phase: Phase, log: seq<Use>, keys: seq<Bytes>)

  /** The name of the protocol is the first hash if it has 32 bytes, as it has here, or is hashed to it. */
  function StartHash(suite: Suite, pattern: Bytes): Bytes
  {
    if |pattern| == 32 then pattern else suite.digest(pattern)
  }

  function Started(suite: Suite, pattern: Bytes, header: Bytes): Handshake
  {
    var first := StartHash(suite, pattern);
    Handshake(suite.digest(first + header), first, first, 0)
  }

  function Begin(suite: Suite, pattern: Bytes, header: Bytes): Trace
  {
    Trace(Shaking(Started(suite, pattern, header)), [], [StartHash(suite, pattern)])
  }

  function Absorb(suite: Suite, h: Handshake, data: Bytes): Handshake
  {
    h.(hash := suite.digest(h.hash + data))
  }

  /** Seals, counts, and authenticates the ciphertext. */
  function EncryptStep(suite: Suite, h: Handshake, plaintext: Bytes): (Handshake, Bytes)
  {
    var c := suite.seal(h.key, GenerateIV(h.count), plaintext, h.hash);
    (Absorb(suite, h, c).(count := Next(h.count)), c)
  }

  /** Counts even if the ciphertext cannot be opened, and authenticates it only if it can. */
  function DecryptStep(suite: Suite, h: Handshake, ciphertext: Bytes): (Handshake, Option<Bytes>)
  {
    var p := suite.open(h.key, GenerateIV(h.count), ciphertext, h.hash);
    ((if p.Some? then Absorb(suite, h, ciphertext) else h).(count := Next(h.count)), p)
  }

  function MixStep(suite: Suite, h: Handshake, secret: Bytes): Handshake
  {
    var keys := suite.expand(h.salt, secret);
    Handshake(h.hash, keys.0, keys.1, 0)
  }

  function FinishStep(suite: Suite, h: Handshake): Transport
  {
    var keys := suite.expand(h.salt, []);
    Transport(keys.0, keys.1, 0, 0)
  }

  /** An event of the other phase does nothing. */
  function Step(suite: Suite, t: Trace, e: Event): Trace
  {
    match t.phase
    case Shaking(h) =>
      (match e
       case Authenticate(data) => t.(phase := Shaking(Absorb(suite, h, data)))
       case Encrypt(p) => Trace(Shaking(EncryptStep(suite, h, p).0), t.log + [Use(h.key, GenerateIV(h.count))], t.keys)
       case Decrypt(c) => Trace(Shaking(DecryptStep(suite, h, c).0), t.log + [Use(h.key, GenerateIV(h.count))], t.keys)
       case Mix(secret) => var next := MixStep(suite, h, secret); Trace(Shaking(next), t.log, t.keys + [next.key])
       case Finish =>
         var next := FinishStep(suite, h);
         Trace(Running(next), t.log, t.keys + [next.writeKey, next.readKey])
       case _ => t)
    case Running(r) =>
      (match e
       case Send(_) =>
         Trace(Running(r.(writeCount := Next(r.writeCount))), t.log + [Use(r.writeKey, GenerateIV(r.writeCount))],
               t.keys)
       case Receive(_) =>
         Trace(Running(r.(readCount := Next(r.readCount))), t.log + [Use(r.readKey, GenerateIV(r.readCount))], t.keys)
       case _ => t)
  }

  function Run(suite: Suite, t: Trace, events: seq<Event>): Trace
    decreases |events|
  {
    if events == [] then t else Run(suite, Step(suite, t, events[0]), events[1..])
  }

  /* ---------- Keys and counters stay in step ---------- */

  function Uses(log: seq<Use>, key: Bytes): nat
  {
    if log == [] then 0 else Uses(log[..|log| - 1], key) + if log[|log| - 1].key == key then 1 else 0
  }

  predicate Distinct(keys: seq<Bytes>)
  {
    forall i, j :: 0 <= i < j < |keys| ==> keys[i] != keys[j]
  }

  /** The count a key has reached after so many uses. */
  function Reached(uses: nat): counter
  {
    uses % 0x1_0000_0000
  }

  /** Each use of a key takes the IV of the number of its earlier uses. */
  ghost predicate InStep(log: seq<Use>)
  {
    forall i :: 0 <= i < |log| ==> log[i].iv == GenerateIV(Reached(Uses(log[..i], log[i].key)))
  }

  ghost predicate Inv(t: Trace)
  {
    && InStep(t.log) && (forall i :: 0 <= i < |t.log| ==> t.log[i].key in t.keys)
    && match t.phase
       case Shaking(h) => h.key in t.keys && h.count == Reached(Uses(t.log, h.key))
       case Running(r) =>
         && r.writeKey in t.keys && r.readKey in t.keys && r.writeKey != r.readKey
         && r.writeCount == Reached(Uses(t.log, r.writeKey)) && r.readCount == Reached(Uses(t.log, r.readKey))
  }

  lemma UseAdds(log: seq<Use>, u: Use)
    ensures forall key :: Uses(log + [u], key) == Uses(log, key) + if u.key == key then 1 else 0
  {
    assert (log + [u])[..|log + [u]| - 1] == log;
  }

  lemma OneMore(uses: nat)
    ensures Reached(uses + 1) == Next(Reached(uses))
  {
  }

  lemma {:induction false} UnknownIsUnused(log: seq<Use>, key: Bytes)
    requires forall i :: 0 <= i < |log| ==> log[i].key != key
    ensures Uses(log, key) == 0
  {
    if log != [] {
      UnknownIsUnused(log[..|log| - 1], key);
    }
  }

  lemma StaysInStep(log: seq<Use>, key: Bytes)
    requires InStep(log)
    ensures InStep(log + [Use(key, GenerateIV(Reached(Uses(log, key))))])
  {
    hide Uses, GenerateIV;
    var next := log + [Use(key, GenerateIV(Reached(Uses(log, key))))];
    forall i | 0 <= i < |next| ensures next[i].iv == GenerateIV(Reached(Uses(next[..i], next[i].key))) {
      assert next[..i] == log[..i];
      if i == |log| {
        assert log[..i] == log;
      }
    }
  }

  lemma UseKeepsInv(t: Trace, key: Bytes, phase: Phase)
    requires Inv(t) && key in t.keys
    requires match t.phase
             case Shaking(h) =>
               phase.Shaking? && key == h.key == phase.h.key && phase.h.count == Next(h.count)
             case Running(r) =>
               phase == Running(if key == r.writeKey then r.(writeCount := Next(r.writeCount))
                                else r.(readCount := Next(r.readCount)))
               && (key == r.writeKey || key == r.readKey)
    ensures Inv(Trace(phase, t.log + [Use(key, GenerateIV(Reached(Uses(t.log, key))))], t.keys))
  {
    hide InStep, Uses, Reached, GenerateIV;
    StaysInStep(t.log, key);
    UseAdds(t.log, Use(key, GenerateIV(Reached(Uses(t.log, key)))));
    OneMore(Uses(t.log, key));
  }

  lemma NewKeys(t: Trace, more: seq<Bytes>, i: nat)
    requires Inv(t) && Distinct(t.keys + more) && i < |more|
    ensures Uses(t.log, more[i]) == 0 && Reached(0) == 0 && more[i] in t.keys + more
  {
    hide InStep, Uses;
    var keys := t.keys + more;
    assert keys[|t.keys| + i] == more[i];
    forall j | 0 <= j < |t.log| ensures t.log[j].key != more[i] {
      var k :| 0 <= k < |t.keys| && t.keys[k] == t.log[j].key;
      assert keys[k] == t.keys[k];
    }
    UnknownIsUnused(t.log, more[i]);
  }

  lemma StepKeepsInv(suite: Suite, t: Trace, e: Event)
    requires Inv(t) && Distinct(Step(suite, t, e).keys)
    ensures Inv(Step(suite, t, e))
  {
    hide InStep, Uses, Reached, GenerateIV;
    var next := Step(suite, t, e);
    match t.phase
    case Shaking(h) =>
      if e.Encrypt? || e.Decrypt? {
        UseKeepsInv(t, h.key, next.phase);
      } else if e.Mix? {
        NewKeys(t, [MixStep(suite, h, e.secret).key], 0);
      } else if e.Finish? {
        var r := FinishStep(suite, h);
        NewKeys(t, [r.writeKey, r.readKey], 0);
        NewKeys(t, [r.writeKey, r.readKey], 1);
        assert next.keys[|t.keys|] == r.writeKey && next.keys[|t.keys| + 1] == r.readKey;
      }
    case Running(r) =>
      if e.Send? {
        UseKeepsInv(t, r.writeKey, next.phase);
      } else if e.Receive? {
        UseKeepsInv(t, r.readKey, next.phase);
      }
  }

  lemma KeysGrow(suite: Suite, t: Trace, e: Event)
    ensures t.keys <= Step(suite, t, e).keys
  {
  }

  lemma {:induction false} KeysOfRunGrow(suite: Suite, t: Trace, events: seq<Event>)
    ensures t.keys <= Run(suite, t, events).keys
    decreases |events|
  {
    hide Step;
    if events != [] {
      KeysGrow(suite, t, events[0]);
      KeysOfRunGrow(suite, Step(suite, t, events[0]), events[1..]);
    }
  }

  lemma {:induction false} RunKeepsInv(suite: Suite, t: Trace, events: seq<Event>)
    requires Inv(t) && Distinct(Run(suite, t, events).keys)
    ensures Inv(Run(suite, t, events))
    decreases |events|
  {
    hide Step, Inv;
    if events != [] {
      var next := Step(suite, t, events[0]);
      KeysOfRunGrow(suite, next, events[1..]);
      assert Distinct(next.keys);
      StepKeepsInv(suite, t, events[0]);
      RunKeepsInv(suite, next, events[1..]);
    }
  }

  /* ---------- No pair is used twice ---------- */

  predicate NoReuse(log: seq<Use>)
  {
    forall i, j :: 0 <= i < j < |log| ==> log[i] != log[j]
  }

  lemma {:induction false} UsesGrow(log: seq<Use>, i: nat, key: Bytes)
    requires i <= |log|
    ensures Uses(log[..i], key) <= Uses(log, key)
    ensures i < |log| && log[i].key == key ==> Uses(log[..i], key) < Uses(log, key)
    decreases |log|
  {
    if i == |log| {
      assert log[..i] == log;
    } else {
      var front := log[..|log| - 1];
      assert front[..i] == log[..i];
      UsesGrow(front, i, key);
    }
  }

  lemma {:induction false} NthUse(log: seq<Use>, key: Bytes, n: nat) returns (i: nat)
    requires n < Uses(log, key)
    ensures i < |log| && log[i].key == key && Uses(log[..i], key) == n
    decreases |log|
  {
    var front := log[..|log| - 1];
    if n < Uses(front, key) {
      i := NthUse(front, key, n);
      assert front[..i] == log[..i];
    } else {
      i := |log| - 1;
    }
  }

  lemma ReuseNeedsMany(log: seq<Use>, i: nat, j: nat)
    requires InStep(log) && i < j < |log| && log[i] == log[j]
    ensures Uses(log, log[i].key) > 0x1_0000_0000
  {
    hide Uses, GenerateIV, Reached;
    var key := log[i].key;
    assert log[..j][..i] == log[..i] && log[..j][i] == log[i];
    UsesGrow(log[..j], i, key);
    UsesGrow(log, j, key);
    IVInjective(Reached(Uses(log[..i], key)), Reached(Uses(log[..j], key)));
    SameCount(Uses(log[..i], key), Uses(log[..j], key));
  }

  lemma SameCount(a: nat, b: nat)
    requires a < b && Reached(a) == Reached(b)
    ensures b >= 0x1_0000_0000
  {
  }

  lemma ManyMeansReuse(log: seq<Use>, key: Bytes)
    requires InStep(log) && Uses(log, key) > 0x1_0000_0000
    ensures !NoReuse(log)
  {
    hide Uses, GenerateIV;
    var i := NthUse(log, key, 0);
    var j := NthUse(log, key, 0x1_0000_0000);
    assert log[i].iv == GenerateIV(0) == log[j].iv;
    assert log[i] == log[j] && i != j;
    if i < j {
      assert !NoReuse(log);
    } else {
      assert !NoReuse(log);
    }
  }

  /**
   * Through handshake and transport, whatever is sent, received or tampered with: if the keys that are derived differ
   * from each other, then no key meets the same IV twice if and only if no key is used more than 2^32 times.
   */
  lemma NonceDiscipline(suite: Suite, pattern: Bytes, header: Bytes, events: seq<Event>)
    requires Distinct(Run(suite, Begin(suite, pattern, header), events).keys)
    ensures var log := Run(suite, Begin(suite, pattern, header), events).log;
            NoReuse(log) <==> forall key :: Uses(log, key) <= 0x1_0000_0000
  {
    hide Run, Uses;
    var start := Begin(suite, pattern, header);
    FirstInv(suite, pattern, header);
    RunKeepsInv(suite, start, events);
    var log := Run(suite, start, events).log;
    if !NoReuse(log) {
      var i, j :| 0 <= i < j < |log| && log[i] == log[j];
      ReuseNeedsMany(log, i, j);
    } else if key :| Uses(log, key) > 0x1_0000_0000 {
      ManyMeansReuse(log, key);
    }
  }

  lemma FirstInv(suite: Suite, pattern: Bytes, header: Bytes)
    ensures Inv(Begin(suite, pattern, header))
  {
  }
}
