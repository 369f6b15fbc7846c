/** The handshake and the socket as the source runs them: fields updated by every operation. */
module NoiseSockets {
  import opened Bytes
  import opened Frames
  import N = Noise

  class NoiseHandshake {
    const suite: N.Suite
    var hash: Bytes
    var salt: Bytes
    var key: Bytes
    var count: N.counter

    ghost function Now(): N.Handshake
      reads this
    {
      N.Handshake(hash, salt, key, count)
    }

    constructor (suite: N.Suite)
      ensures this.suite == suite && Now() == N.Handshake([], [], [], 0)
    {
      this.suite, hash, salt, key, count := suite, [], [], [], 0;
    }

    method Start(pattern: Bytes, header: Bytes)
      modifies this
      ensures Now() == N.Started(suite, pattern, header).(count := old(count))
    {
      hash := if |pattern| == 32 then pattern else suite.digest(pattern);
      salt := hash;
      key := hash;
      Authenticate(header);
    }

    method Authenticate(data: Bytes)
      modifies this
      ensures Now() == N.Absorb(suite, old(Now()), data)
    {
      hash := suite.digest(hash + data);
    }

    method PostIncrementCounter() returns (n: N.counter)
      modifies this
      ensures n == old(count) && Now() == old(Now()).(count := N.Next(old(count)))
    {
      n := count;
      count := N.Next(count);
    }

    method Encrypt(plaintext: Bytes) returns (ciphertext: Bytes)
      modifies this
      ensures (Now(), ciphertext) == N.EncryptStep(suite, old(Now()), plaintext)
    {
      var n := PostIncrementCounter();
      ciphertext := suite.seal(key, N.GenerateIV(n), plaintext, hash);
      Authenticate(ciphertext);
    }

    method Decrypt(ciphertext: Bytes) returns (plaintext: Option<Bytes>)
      modifies this
      ensures (Now(), plaintext) == N.DecryptStep(suite, old(Now()), ciphertext)
    {
      var n := PostIncrementCounter();
      plaintext := suite.open(key, N.GenerateIV(n), ciphertext, hash);
      if plaintext.Some? {
        Authenticate(ciphertext);
      }
    }

    method MixIntoKey(data: Bytes)
      modifies this
      ensures Now() == N.MixStep(suite, old(Now()), data)
    {
      count := 0;
      var keys := suite.expand(salt, data);
      salt := keys.0;
      key := keys.1;
    }

    method Finish(fs: FrameSocket) returns (ns: NoiseSocket)
      ensures fresh(ns) && ns.suite == suite && ns.fs == fs && ns.received == []
      ensures ns.Now() == N.FinishStep(suite, Now())
    {
      var keys := suite.expand(salt, []);
      ns := new NoiseSocket(suite, fs, keys.0, keys.1);
    }
  }

  class NoiseSocket {
    const suite: N.Suite
    const fs: FrameSocket
    const writeKey: Bytes
    const readKey: Bytes
    var writeCounter: N.counter
    var readCounter: N.counter
    var received: seq<Bytes>

    ghost function Now(): N.Transport
      reads this
    {
      N.Transport(writeKey, readKey, writeCounter, readCounter)
    }

    constructor (suite: N.Suite, fs: FrameSocket, writeKey: Bytes, readKey: Bytes)
      ensures this.suite == suite && this.fs == fs && received == []
      ensures Now() == N.Transport(writeKey, readKey, 0, 0)
    {
      this.suite, this.fs, this.writeKey, this.readKey := suite, fs, writeKey, readKey;
      writeCounter, readCounter, received := 0, 0, [];
    }

    /**
     * A context that is already cancelled stops it before anything is sealed; after that the counter moves on even
     * if the frame cannot be sent.
     */
    method SendFrame(plaintext: Bytes, cancelled: bool) returns (ok: bool)
      modifies this, fs
      ensures received == old(received)
      ensures cancelled ==> !ok && Now() == old(Now())
      ensures !cancelled ==> Now() == old(Now()).(writeCount := N.Next(old(writeCounter)))
      ensures var c := suite.seal(writeKey, N.GenerateIV(old(writeCounter)), plaintext, []);
              && ok == (!cancelled && old(fs.connected) && Sendable(c))
              && (ok ==>
                    && fs.header.None?
                    && fs.wire ==
                         old(fs.wire) + (if old(fs.header).Some? then old(fs.header).value else []) + Prefixed(c))
              && (!ok ==> fs.wire == old(fs.wire) && fs.header == old(fs.header))
    {
      if cancelled {
        return false;
      }
      var ciphertext := suite.seal(writeKey, N.GenerateIV(writeCounter), plaintext, []);
      writeCounter := N.Next(writeCounter);
      ok := fs.SendFrame(ciphertext);
    }

    /** The counter moves on even if the frame cannot be opened. */
    method ReceiveEncryptedFrame(ciphertext: Bytes)
      modifies this
      ensures Now() == old(Now()).(readCount := N.Next(old(readCounter)))
      ensures var p := suite.open(readKey, N.GenerateIV(old(readCounter)), ciphertext, []);
              received == old(received) + if p.Some? then [p.value] else []
    {
      var plaintext := suite.open(readKey, N.GenerateIV(readCounter), ciphertext, []);
      readCounter := N.Next(readCounter);
      if plaintext.None? {
        return;
      }
      received := received + [plaintext.value];
    }
  }
}
