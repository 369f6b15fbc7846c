/**
 * Frame transport (socket/framesocket.go): length-prefixed frames out, and reassembly of frames from
 * the chunks in which they come in.
 *
 * The receiver counts how much of a frame it has. The source takes that count before it drops the three
 * length bytes, so a frame whose body does not arrive whole starts with a count that is three too large.
 * The receiver is therefore described for any such error `skew`: 3 is the source, 0 would be exact.
 */
module Frames {
  import opened Bytes

  const FRAME_MAX_SIZE := 0x100_0000
  const FRAME_LENGTH_SIZE := 3
  const CONNECTION_HEADER: Bytes := [87, 65, 6, 3]
  const SOURCE_SKEW := 3

  /* ---------- The wire ---------- */

  predicate Sendable(f: Bytes)
  {
    |f| < FRAME_MAX_SIZE
  }

  predicate AllSendable(fs: seq<Bytes>)
  {
    forall i :: 0 <= i < |fs| ==> Sendable(fs[i])
  }

  function Prefixed(f: Bytes): Bytes
  {
    BigEndian(|f|, 3) + f
  }

  function Wire(fs: seq<Bytes>): Bytes
  {
    if fs == [] then [] else Prefixed(fs[0]) + Wire(fs[1..])
  }

  lemma ReadPrefix(f: Bytes)
    requires Sendable(f)
    ensures FromBigEndian(BigEndian(|f|, 3)) == |f|
  {
    assert Pow256(3) == 256 * Pow256(2) && Pow256(2) == 256 * Pow256(1);
    BigEndianInverse(|f|, 3);
  }

  /* ---------- The receiver ---------- */

  /** Waiting with at most two bytes of a length prefix, or filling the buffer of a frame. */
  datatype Receiver = Waiting(partial: Bytes) | Filling(buffer: Bytes, received: nat)

  datatype Reception = Reception(receiver: Receiver, frames: seq<Bytes>) | Crash

  predicate Sound(r: Receiver)
  {
    match r
    case Waiting(partial) => |partial| < FRAME_LENGTH_SIZE
    case Filling(_, _) => true
  }

  function Deliver(f: Bytes, r: Reception): Reception
  {
    match r case Crash => Crash case Reception(s, fs) => Reception(s, [f] + fs)
  }

  /** One chunk, frame after frame. */
  function Process(skew: nat, r: Receiver, msg: Bytes): (out: Reception)
    requires Sound(r)
    ensures out.Reception? ==> Sound(out.receiver)
    decreases |msg|, if r.Filling? then 1 else 0
  {
    if msg == [] then Reception(r, []) else
      match r
      case Waiting(partial) =>
        var m := partial + msg;
        if |m| < FRAME_LENGTH_SIZE then Reception(Waiting(m), []) else
          var length, body := FromBigEndian(m[..3]), m[3..];
          if |body| >= length then Deliver(body[..length], Process(skew, Waiting([]), body[length..]))
          else Reception(Filling(body + Zeros(length - |body|), |body| + skew), [])
      case Filling(buffer, received) =>
        if received + |msg| < |buffer| then
          Reception(Filling(buffer[..received] + msg + buffer[received + |msg|..], received + |msg|), [])
        else if received > |buffer| then Crash  // a slice with its ends crossed
        else
          var need := |buffer| - received;
          Deliver(buffer[..received] + msg[..need], Process(skew, Waiting([]), msg[need..]))
  }

  /** What a further chunk adds. */
  function Continue(skew: nat, a: Reception, chunk: Bytes): (out: Reception)
    requires a.Reception? ==> Sound(a.receiver)
    ensures out.Reception? ==> Sound(out.receiver)
  {
    if a.Crash? then Crash else
      match Process(skew, a.receiver, chunk)
      case Crash => Crash
      case Reception(r, fs) => Reception(r, a.frames + fs)
  }

  function Append(fs: seq<Bytes>, r: Reception): Reception
  {
    match r case Crash => Crash case Reception(s, gs) => Reception(s, fs + gs)
  }

  /** All chunks in order. */
  function Receive(skew: nat, r: Receiver, chunks: seq<Bytes>): (out: Reception)
    requires Sound(r)
    ensures out.Reception? ==> Sound(out.receiver)
    decreases chunks
  {
    if chunks == [] then Reception(r, []) else
      match Process(skew, r, chunks[0])
      case Crash => Crash
      case Reception(r1, fs) => Append(fs, Receive(skew, r1, chunks[1..]))
  }

  /* ---------- The class ---------- */

  /** A socket: what it has put on the wire and the frames it has handed on are recorded in full. */
  class FrameSocket {
    var connected: bool
    var header: Option<Bytes>
    var wire: Bytes
    var incoming: Option<Bytes>
    var incomingLength: nat
    var receivedLength: nat
    var partialHeader: Option<Bytes>
    var frames: seq<Bytes>

    constructor ()
      ensures connected && header == Some(CONNECTION_HEADER) && wire == [] && frames == []
      ensures Valid() && Abstract() == Waiting([])
    {
      connected, header, wire, frames := true, Some(CONNECTION_HEADER), [], [];
      incoming, incomingLength, receivedLength, partialHeader := None, 0, 0, None;
    }

    ghost predicate Valid()
      reads this
    {
      && (incoming.Some? ==> partialHeader.None? && incomingLength == |incoming.value|)
      && (partialHeader.Some? ==> 0 < |partialHeader.value| < FRAME_LENGTH_SIZE)
    }

    /** The receiving half of the fields. */
    ghost function Abstract(): (r: Receiver)
      requires Valid()
      reads this
      ensures Sound(r)
    {
      if incoming.Some? then Filling(incoming.value, receivedLength)
      else Waiting(if partialHeader.Some? then partialHeader.value else [])
    }

    method SendFrame(data: Bytes) returns (ok: bool)
      modifies this`header, this`wire
      ensures ok == (connected && Sendable(data))
      ensures !ok ==> header == old(header) && wire == old(wire)
      ensures ok ==> header.None?
      ensures ok ==> wire == old(wire) + (if old(header).Some? then old(header).value else []) + Prefixed(data)
    {
      if !connected || |data| >= FRAME_MAX_SIZE {
        return false;
      }
      var wholeFrame: Bytes := [];
      if header.Some? {
        wholeFrame := header.value;
        header := None;
      }
      var length: Bytes := [|data| / 0x1_0000 % 256, |data| / 0x100 % 256, |data| % 256];
      assert length == BigEndian(|data|, 3) by {
        assert BigEndian(|data| / 256 / 256, 1) == BigEndian(|data| / 256 / 256 / 256, 0) + [|data| / 256 / 256 % 256];
        assert BigEndian(|data| / 256, 2) == BigEndian(|data| / 256 / 256, 1) + [|data| / 256 % 256];
      }
      wire := wire + (wholeFrame + length + data);
      return true;
    }

    method FrameComplete(data: Bytes)
      modifies this`incoming, this`partialHeader, this`incomingLength, this`receivedLength, this`frames
      ensures Valid() && Abstract() == Waiting([]) && frames == old(frames) + [data]
    {
      incoming, partialHeader, incomingLength, receivedLength := None, None, 0, 0;
      frames := frames + [data];
    }

    /** The bytes of a frame header or body that are still held back. */
    ghost function Held(): nat
      reads this
    {
      if partialHeader.Some? then |partialHeader.value| else 0
    }

    /** One turn of processData's loop. */
    method Turn(chunk: Bytes) returns (msg: Bytes, crashed: bool, ghost handed: seq<Bytes>)
      requires Valid() && chunk != []
      modifies this`incoming, this`partialHeader, this`incomingLength, this`receivedLength, this`frames
      ensures Valid()
      ensures crashed ==> Process(SOURCE_SKEW, old(Abstract()), chunk).Crash?
      ensures !crashed ==>
                Process(SOURCE_SKEW, old(Abstract()), chunk) == Append(handed, Process(SOURCE_SKEW, Abstract(), msg))
      ensures !crashed ==> frames == old(frames) + handed
      ensures !crashed ==> |msg| + Held() <= |chunk| + old(Held())
      ensures !crashed ==> msg == [] || |msg| + Held() < |chunk| + old(Held())
                           || (|msg| + Held() == |chunk| + old(Held()) && old(incoming).Some? && incoming.None?)
    {
      hide Process, FromBigEndian;
      if incoming.None? {
        crashed := false;
        msg, handed := StartFrame(chunk);
      } else {
        msg, crashed, handed := ContinueFrame(chunk);
      }
    }

    /** A length prefix, of which a part may have been held back, and as much of the body as there is. */
    method StartFrame(chunk: Bytes) returns (msg: Bytes, ghost handed: seq<Bytes>)
      requires Valid() && chunk != [] && incoming.None?
      modifies this`incoming, this`partialHeader, this`incomingLength, this`receivedLength, this`frames
      ensures Valid()
      ensures Process(SOURCE_SKEW, old(Abstract()), chunk) == Append(handed, Process(SOURCE_SKEW, Abstract(), msg))
      ensures frames == old(frames) + handed
      ensures |msg| + Held() <= |chunk| + old(Held())
      ensures msg == [] || |msg| + Held() < |chunk| + old(Held())
    {
      hide Process, FromBigEndian;
      ProcessStep(SOURCE_SKEW, Abstract(), chunk);
      msg, handed := chunk, [];
      assert [] + msg == msg;
      if partialHeader.Some? {
        msg := partialHeader.value + msg;
        partialHeader := None;
      }
      if |msg| >= FRAME_LENGTH_SIZE {
        var length := FromBigEndian(msg[..3]);
        incomingLength := length;
        receivedLength := |msg|;
        msg := msg[FRAME_LENGTH_SIZE..];
        if |msg| >= length {
          handed := [msg[..length]];
          DeliverOne([], msg[..length], Process(SOURCE_SKEW, Waiting([]), msg[length..]));
          FrameComplete(msg[..length]);
          msg := msg[length..];
        } else {
          incoming := Some(msg + Zeros(length - |msg|));
          msg := [];
          ProcessNothing(SOURCE_SKEW, Abstract());
        }
      } else {
        partialHeader := Some(msg);
        msg := [];
        ProcessNothing(SOURCE_SKEW, Abstract());
      }
    }

    /** More of a body that has begun. */
    method ContinueFrame(chunk: Bytes) returns (msg: Bytes, crashed: bool, ghost handed: seq<Bytes>)
      requires Valid() && chunk != [] && incoming.Some?
      modifies this`incoming, this`partialHeader, this`incomingLength, this`receivedLength, this`frames
      ensures Valid()
      ensures crashed ==> Process(SOURCE_SKEW, old(Abstract()), chunk).Crash?
      ensures !crashed ==>
                Process(SOURCE_SKEW, old(Abstract()), chunk) == Append(handed, Process(SOURCE_SKEW, Abstract(), msg))
      ensures !crashed ==> frames == old(frames) + handed
      ensures !crashed ==> |msg| + Held() <= |chunk| + old(Held())
      ensures !crashed ==> msg == [] || |msg| + Held() < |chunk| + old(Held())
                           || (|msg| + Held() == |chunk| + old(Held()) && old(incoming).Some? && incoming.None?)
    {
      hide Process, FromBigEndian;
      ProcessStep(SOURCE_SKEW, Abstract(), chunk);
      msg, crashed, handed := chunk, false, [];
      if receivedLength + |msg| >= incomingLength {
        if receivedLength > incomingLength {
          crashed := true;
          return;
        }
        var need := incomingLength - receivedLength;
        var frame := incoming.value[..receivedLength] + msg[..need];
        handed := [frame];
        DeliverOne([], frame, Process(SOURCE_SKEW, Waiting([]), msg[need..]));
        FrameComplete(frame);
        msg := msg[need..];
      } else {
        incoming := Some(incoming.value[..receivedLength] + msg + incoming.value[receivedLength + |msg|..]);
        receivedLength := receivedLength + |msg|;
        msg := [];
        ProcessNothing(SOURCE_SKEW, Abstract());
      }
    }

    /** Handles one chunk; `crashed` is a slice out of range. */
    method ProcessData(chunk: Bytes) returns (crashed: bool)
      requires Valid()
      modifies this`incoming, this`partialHeader, this`incomingLength, this`receivedLength, this`frames
      ensures Valid()
      ensures var out := Process(SOURCE_SKEW, old(Abstract()), chunk);
              && crashed == out.Crash?
              && (out.Reception? ==> Abstract() == out.receiver && frames == old(frames) + out.frames)
    {
      hide Process;
      ghost var goal := Process(SOURCE_SKEW, Abstract(), chunk);
      ghost var handed: seq<Bytes> := [];
      var msg := chunk;
      crashed := false;
      AppendTwice([], [], goal);
      while |msg| > 0
        invariant Valid() && !crashed
        invariant frames == old(frames) + handed
        invariant goal == Append(handed, Process(SOURCE_SKEW, Abstract(), msg))
        decreases |msg| + Held(), |msg| > 0, incoming.Some?
      {
        ghost var more;
        msg, crashed, more := Turn(msg);
        if crashed {
          return;
        }
        AppendTwice(handed, more, Process(SOURCE_SKEW, Abstract(), msg));
        handed := handed + more;
      }
      ProcessNothing(SOURCE_SKEW, Abstract());
    }
  }

  lemma AppendTwice(a: seq<Bytes>, b: seq<Bytes>, r: Reception)
    ensures Append(a, Append(b, r)) == Append(a + b, r)
    ensures Append([], r) == r
  {
    if r.Reception? {
      assert a + (b + r.frames) == a + b + r.frames && [] + r.frames == r.frames;
    }
  }

  lemma ProcessNothing(skew: nat, r: Receiver)
    requires Sound(r)
    ensures Process(skew, r, []) == Reception(r, [])
  {
  }

  /** One turn of the loop. */
  lemma ProcessStep(skew: nat, r: Receiver, msg: Bytes)
    requires Sound(r) && msg != []
    ensures r.Waiting? ==>
      var m := r.partial + msg;
      Process(skew, r, msg) ==
        if |m| < 3 then Reception(Waiting(m), [])
        else if |m| - 3 >= FromBigEndian(m[..3])
        then Deliver(m[3..][..FromBigEndian(m[..3])], Process(skew, Waiting([]), m[3..][FromBigEndian(m[..3])..]))
        else Reception(Filling(m[3..] + Zeros(FromBigEndian(m[..3]) - |m[3..]|), |m| - 3 + skew), [])
    ensures r.Filling? ==>
      Process(skew, r, msg) ==
        if r.received + |msg| < |r.buffer|
        then Reception(Filling(r.buffer[..r.received] + msg + r.buffer[r.received + |msg|..], r.received + |msg|), [])
        else if r.received > |r.buffer| then Crash
        else Deliver(r.buffer[..r.received] + msg[..|r.buffer| - r.received],
                     Process(skew, Waiting([]), msg[|r.buffer| - r.received..]))
  {
  }

  lemma DeliverOne(before: seq<Bytes>, f: Bytes, r: Reception)
    ensures Append(before, Deliver(f, r)) == Append(before + [f], r)
  {
    if r.Reception? {
      assert before + ([f] + r.frames) == before + [f] + r.frames;
    }
  }

  /* ---------- What a sequence of sends puts on the wire ---------- */

  /** The frames that a sequence of SendFrame calls accepts. */
  function Accepted(datas: seq<Bytes>): seq<Bytes>
  {
    if datas == [] then []
    else if Sendable(datas[0]) then [datas[0]] + Accepted(datas[1..]) else Accepted(datas[1..])
  }

  lemma {:induction false} WireAppend(fs: seq<Bytes>, f: Bytes)
    ensures Wire(fs + [f]) == Wire(fs) + Prefixed(f)
  {
    if fs == [] {
      assert fs + [f] == [f] && [f][1..] == [];
    } else {
      WireAppend(fs[1..], f);
      assert (fs + [f])[1..] == fs[1..] + [f];
    }
  }

  /** The connection header once, then every accepted frame with its length. */
  method SendAll(datas: seq<Bytes>) returns (socket: FrameSocket)
    ensures socket.wire == (if Accepted(datas) == [] then [] else CONNECTION_HEADER) + Wire(Accepted(datas))
  {
    socket := new FrameSocket();
    ghost var sent: seq<Bytes> := [];
    assert datas[0..] == datas && [] + Accepted(datas) == Accepted(datas);
    for i := 0 to |datas|
      invariant socket.connected
      invariant sent + Accepted(datas[i..]) == Accepted(datas)
      invariant if sent == [] then socket.header == Some(CONNECTION_HEADER) && socket.wire == []
                else socket.header == None && socket.wire == CONNECTION_HEADER + Wire(sent)
    {
      var ok := socket.SendFrame(datas[i]);
      assert datas[i..][1..] == datas[i + 1..];
      if ok {
        WireAppend(sent, datas[i]);
        assert sent == [] ==> Wire(sent) == [];
        assert sent + ([datas[i]] + Accepted(datas[i + 1..])) == sent + [datas[i]] + Accepted(datas[i + 1..]);
        sent := sent + [datas[i]];
      }
    }
    assert sent + [] == sent;
  }

  lemma ThreeBytes(v: nat)
    requires v < 0x100_0000
    ensures BigEndian(v, 3) == [v / 0x1_0000, v / 0x100 % 0x100, v % 0x100]
  {
    var w, x := v / 256, v / 256 / 256;
    assert BigEndian(x, 1) == BigEndian(x / 256, 0) + [x % 256] == [x];
    assert BigEndian(w, 2) == BigEndian(x, 1) + [w % 256] == [x, w % 256];
    assert BigEndian(v, 3) == BigEndian(w, 2) + [v % 256] == [x, w % 256, v % 256];
  }

  /** The first frame on the wire: "WA", two version bytes, three bytes of length, most significant first, the body. */
  lemma FirstFrameBytes(f: Bytes)
    requires Sendable(f)
    ensures CONNECTION_HEADER + Prefixed(f) ==
            [87, 65, 6, 3] + [|f| / 0x1_0000, |f| / 0x100 % 0x100, |f| % 0x100] + f
  {
    ThreeBytes(|f|);
    assert CONNECTION_HEADER + (BigEndian(|f|, 3) + f) == CONNECTION_HEADER + BigEndian(|f|, 3) + f;
  }

  /** Frames of up to 2^24 - 1 bytes can be sent. */
  lemma LongestFrame(f: Bytes)
    ensures Sendable(f) <==> |f| < 0x100_0000
  {
  }

  /** The frames that are accepted are all that can be sent, in their order. */
  lemma {:induction false} AcceptedInOrder(a: seq<Bytes>, f: Bytes)
    ensures Accepted(a + [f]) == Accepted(a) + if |f| < 0x100_0000 then [f] else []
    ensures AllSendable(a) ==> Accepted(a) == a
  {
    if a == [] {
      assert a + [f] == [f] && [f][1..] == [];
      assert Accepted([f][1..]) == [];
    } else {
      AcceptedInOrder(a[1..], f);
      assert (a + [f])[0] == a[0] && (a + [f])[1..] == a[1..] + [f];
      assert a == [a[0]] + a[1..];
    }
  }
}
