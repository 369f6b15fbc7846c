/**
 * When the receiver of module Frames hands on exactly the frames that were sent: for every chunking if its
 * count were exact, and, as the source counts, exactly for the chunkings that never cut inside a frame body.
 */
module Reassembly {
  import opened Bytes
  import opened Frames

  /* ---------- An exact count ---------- */

  predicate Exact(r: Receiver)
  {
    match r
    case Waiting(partial) => |partial| < FRAME_LENGTH_SIZE
    case Filling(buffer, received) => received < |buffer|
  }

  lemma {:induction false} ExactStays(r: Receiver, msg: Bytes)
    requires Exact(r)
    ensures var out := Process(0, r, msg); out.Reception? && Exact(out.receiver)
    decreases |msg|, if r.Filling? then 1 else 0
  {
    hide FromBigEndian, Process;
    if msg == [] {
      ProcessNothing(0, r);
    } else {
      ProcessStep(0, r, msg);
      match r
      case Waiting(partial) =>
        var m := partial + msg;
        if |m| >= 3 && |m| - 3 >= FromBigEndian(m[..3]) {
          ExactStays(Waiting([]), m[3..][FromBigEndian(m[..3])..]);
        }
      case Filling(buffer, received) =>
        if received + |msg| >= |buffer| {
          ExactStays(Waiting([]), msg[|buffer| - received..]);
        }
    }
  }

  /** With an exact count, a chunk may be cut anywhere. */
  lemma {:induction false} CutAnywhere(r: Receiver, a: Bytes, b: Bytes)
    requires Exact(r)
    ensures Continue(0, Process(0, r, a), b) == Process(0, r, a + b)
    decreases |a|, if r.Filling? then 1 else 0
  {
    hide FromBigEndian, Process;
    if a == [] {
      ProcessNothing(0, r);
      assert a + b == b;
      AppendTwice([], [], Process(0, r, b));
    } else if b == [] {
      assert a + b == a;
      ExactStays(r, a);
      var out := Process(0, r, a);
      ProcessNothing(0, out.receiver);
      assert out.frames + [] == out.frames;
    } else {
      ProcessStep(0, r, a);
      ProcessStep(0, r, a + b);
      match r
      case Waiting(_) => CutWaiting(r, a, b);
      case Filling(_, _) => CutFilling(r, a, b);
    }
  }

  lemma DeliverThenContinue(f: Bytes, r: Reception, b: Bytes)
    requires r.Reception? ==> Sound(r.receiver)
    ensures Continue(0, Deliver(f, r), b) == Deliver(f, Continue(0, r, b))
  {
    hide Process;
    if r.Reception? {
      var more := Process(0, r.receiver, b);
      if more.Reception? {
        assert [f] + r.frames + more.frames == [f] + (r.frames + more.frames);
      }
    }
  }

  lemma {:induction false} CutWaiting(r: Receiver, a: Bytes, b: Bytes)
    requires r.Waiting? && Exact(r) && a != [] && b != []
    ensures Continue(0, Process(0, r, a), b) == Process(0, r, a + b)
    decreases |a|, 0, 0
  {
    hide FromBigEndian, Process;
    ProcessStep(0, r, a);
    ProcessStep(0, r, a + b);
    var m := r.partial + a;
    assert r.partial + (a + b) == m + b;
    if |m| < 3 {
      ProcessStep(0, Waiting(m), b);
      AppendTwice([], [], Process(0, Waiting(m), b));
    } else {
      var length, body := FromBigEndian(m[..3]), m[3..];
      assert (m + b)[..3] == m[..3] && (m + b)[3..] == body + b;
      if |body| >= length {
        assert (body + b)[..length] == body[..length] && (body + b)[length..] == body[length..] + b;
        ExactStays(Waiting([]), body[length..]);
        CutAnywhere(Waiting([]), body[length..], b);
        DeliverThenContinue(body[..length], Process(0, Waiting([]), body[length..]), b);
      } else {
        CutBody(body, length, b);
      }
    }
  }

  lemma CutBody(body: Bytes, length: nat, b: Bytes)
    requires |body| < length && b != []
    ensures Continue(0, Reception(Filling(body + Zeros(length - |body|), |body|), []), b)
         == if |body + b| >= length then Deliver((body + b)[..length], Process(0, Waiting([]), (body + b)[length..]))
            else Reception(Filling(body + b + Zeros(length - |body + b|), |body + b|), [])
  {
    hide Process;
    var filling := Filling(body + Zeros(length - |body|), |body|);
    ProcessStep(0, filling, b);
    AppendTwice([], [], Process(0, filling, b));
    assert filling.buffer[..|body|] == body;
    if |body| + |b| < length {
      assert filling.buffer[..|body|] + b + filling.buffer[|body| + |b|..] == body + b + Zeros(length - |body + b|);
    } else {
      assert body + b[..length - |body|] == (body + b)[..length] && b[length - |body|..] == (body + b)[length..];
    }
  }

  lemma {:induction false} CutFilling(r: Receiver, a: Bytes, b: Bytes)
    requires r.Filling? && Exact(r) && a != [] && b != []
    ensures Continue(0, Process(0, r, a), b) == Process(0, r, a + b)
    decreases |a|, 0, 1
  {
    hide FromBigEndian, Process;
    ProcessStep(0, r, a);
    ProcessStep(0, r, a + b);
    var need := |r.buffer| - r.received;
    if |a| >= need {
      assert (a + b)[..need] == a[..need] && (a + b)[need..] == a[need..] + b;
      ExactStays(Waiting([]), a[need..]);
      CutAnywhere(Waiting([]), a[need..], b);
      DeliverThenContinue(r.buffer[..r.received] + a[..need], Process(0, Waiting([]), a[need..]), b);
    } else {
      var filling := Filling(r.buffer[..r.received] + a + r.buffer[r.received + |a|..], r.received + |a|);
      ProcessStep(0, filling, b);
      AppendTwice([], [], Process(0, filling, b));
      assert filling.buffer[..filling.received] == r.buffer[..r.received] + a;
      if |a| + |b| < need {
        assert filling.buffer[..filling.received] + b + filling.buffer[filling.received + |b|..]
            == r.buffer[..r.received] + (a + b) + r.buffer[r.received + |a + b|..];
      } else {
        assert r.buffer[..r.received] + a + b[..need - |a|] == r.buffer[..r.received] + (a + b)[..need];
        assert b[need - |a|..] == (a + b)[need..];
      }
    }
  }

  /** With an exact count, only the bytes matter, not how they were chunked. */
  lemma {:induction false} ChunkingIsIrrelevant(r: Receiver, chunks: seq<Bytes>)
    requires Exact(r)
    ensures Receive(0, r, chunks) == Process(0, r, Flatten(chunks))
    decreases chunks
  {
    hide Process;
    if chunks == [] {
      ProcessNothing(0, r);
    } else {
      ExactStays(r, chunks[0]);
      ChunkingIsIrrelevant(Process(0, r, chunks[0]).receiver, chunks[1..]);
      CutAnywhere(r, chunks[0], Flatten(chunks[1..]));
    }
  }

  lemma {:induction false} WholeWire(skew: nat, fs: seq<Bytes>)
    requires AllSendable(fs)
    ensures Process(skew, Waiting([]), Wire(fs)) == Reception(Waiting([]), fs)
  {
    hide Process, FromBigEndian, BigEndian;
    if fs == [] {
      ProcessNothing(skew, Waiting([]));
    } else {
      var f, rest := fs[0], Wire(fs[1..]);
      WholeWire(skew, fs[1..]);
      FirstOnWire(f, rest);
      ProcessStep(skew, Waiting([]), Prefixed(f) + rest);
      assert fs == [f] + fs[1..];
    }
  }

  lemma FirstOnWire(f: Bytes, rest: Bytes)
    requires Sendable(f)
    ensures var m := [] + (Prefixed(f) + rest);
            && |m| >= 3 && FromBigEndian(m[..3]) == |f| && |m[3..]| >= |f|
            && m[3..][..|f|] == f && m[3..][|f|..] == rest
  {
    ReadPrefix(f);
    hide FromBigEndian, BigEndian;
    var m := Prefixed(f) + rest;
    assert [] + m == m && m[..3] == BigEndian(|f|, 3) && m[3..] == f + rest;
  }

  /** With an exact count, every chunking of the wire delivers the frames that were sent. */
  lemma ExactReassembly(fs: seq<Bytes>, chunks: seq<Bytes>)
    requires AllSendable(fs) && Flatten(chunks) == Wire(fs)
    ensures Receive(0, Waiting([]), chunks) == Reception(Waiting([]), fs)
  {
    ChunkingIsIrrelevant(Waiting([]), chunks);
    WholeWire(0, fs);
  }

  /* ---------- The source's count ---------- */

  /**
   * Whether position `p` of the wire lies between frames or inside a length prefix, not at or within a body to come.
   */
  predicate CutAllowed(fs: seq<Bytes>, p: nat)
  {
    if fs == [] || p < 3 then true
    else if p < 3 + |fs[0]| then false
    else CutAllowed(fs[1..], p - 3 - |fs[0]|)
  }

  /** Whether every chunk, counted from `offset`, ends at an allowed position. */
  predicate CutsAllowed(fs: seq<Bytes>, offset: nat, chunks: seq<Bytes>)
    decreases chunks
  {
    chunks == [] || (CutAllowed(fs, offset + |chunks[0]|) && CutsAllowed(fs, offset + |chunks[0]|, chunks[1..]))
  }

  ghost predicate Delivers(r: Reception, fs: seq<Bytes>)
  {
    r.Reception? && r.frames == fs
  }

  function Half(f: Bytes, b: nat): Receiver
    requires b < |f|
  {
    Filling(f[..b] + Zeros(|f| - b), b + SOURCE_SKEW)
  }

  /** What one chunk does: an allowed cut leaves part of a prefix, any other cut a body with a count that is off. */
  lemma {:induction false} OneChunk(partial: Bytes, fs: seq<Bytes>, c: Bytes, rest: Bytes)
    returns (k: nat, q: Bytes, b: nat)
    requires |partial| < 3 && AllSendable(fs) && partial + c + rest == Wire(fs)
    ensures k <= |fs|
    ensures CutAllowed(fs, |partial| + |c|) ==>
      && Process(SOURCE_SKEW, Waiting(partial), c) == Reception(Waiting(q), fs[..k])
      && |q| < 3 && q + rest == Wire(fs[k..]) && |partial| + |c| == |Wire(fs[..k])| + |q|
    ensures !CutAllowed(fs, |partial| + |c|) ==>
      && k < |fs| && b < |fs[k]| && rest == fs[k][b..] + Wire(fs[k + 1..])
      && Process(SOURCE_SKEW, Waiting(partial), c) == Reception(Half(fs[k], b), fs[..k])
    decreases fs
  {
    hide Process, FromBigEndian, BigEndian, Prefixed;
    var m := partial + c;
    if |m| < 3 {
      k, q, b := 0, m, 0;
      assert fs[0..] == fs && fs[..0] == [] && Wire([]) == [];
      ShortOfPrefix(partial, c);
    } else {
      assert fs != [] by {
        assert |partial + c + rest| >= 3;
      }
      var f, wire := fs[0], Wire(fs[1..]);
      ChunkHead(partial, c, rest, f, wire);
      var body := m[3..];
      if |body| >= |f| {
        WholeFrame(body, rest, f, wire);
        var k1;
        k1, q, b := OneChunk([], fs[1..], body[|f|..], rest);
        k := k1 + 1;
        ConsSlices(fs, k1);
      } else {
        k, q, b := 0, [], |body|;
        PartOfFrame(body, rest, f, wire);
        assert fs[..0] == [];
      }
    }
  }

  lemma ShortOfPrefix(partial: Bytes, c: Bytes)
    requires |partial + c| < 3
    ensures Process(SOURCE_SKEW, Waiting(partial), c) == Reception(Waiting(partial + c), [])
  {
    if c == [] {
      assert partial + c == partial;
    }
  }

  /** A chunk that completes a length prefix. */
  lemma ChunkHead(partial: Bytes, c: Bytes, rest: Bytes, f: Bytes, wire: Bytes)
    requires |partial| < 3 <= |partial + c| && Sendable(f) && partial + c + rest == Prefixed(f) + wire
    ensures var body := (partial + c)[3..];
            && body + rest == f + wire
            && Process(SOURCE_SKEW, Waiting(partial), c)
                 == if |body| >= |f| then Deliver(body[..|f|], Process(SOURCE_SKEW, Waiting([]), body[|f|..]))
                    else Reception(Filling(body + Zeros(|f| - |body|), |body| + SOURCE_SKEW), [])
    ensures |Prefixed(f)| == 3 + |f|
  {
    hide Process, FromBigEndian, BigEndian;
    var m := partial + c;
    assert m + rest == BigEndian(|f|, 3) + (f + wire);
    assert m[..3] == (m + rest)[..3] == BigEndian(|f|, 3);
    assert m[3..] + rest == (m + rest)[3..] == f + wire;
    ReadPrefix(f);
    ProcessStep(SOURCE_SKEW, Waiting(partial), c);
  }

  lemma ConsSlices(fs: seq<Bytes>, k: nat)
    requires fs != [] && k <= |fs[1..]|
    ensures fs[..k + 1] == [fs[0]] + fs[1..][..k]
    ensures Wire(fs[..k + 1]) == Prefixed(fs[0]) + Wire(fs[1..][..k])
    ensures fs[1..][k..] == fs[k + 1..]
    ensures k < |fs[1..]| ==> fs[1..][k] == fs[k + 1] && fs[1..][k + 1..] == fs[k + 2..]
  {
    assert fs[..k + 1][1..] == fs[1..][..k];
  }

  lemma WholeFrame(body: Bytes, rest: Bytes, f: Bytes, wire: Bytes)
    requires body + rest == f + wire && |body| >= |f|
    ensures body[..|f|] == f && [] + body[|f|..] + rest == wire
  {
    assert body[..|f|] == (body + rest)[..|f|] == f;
    assert body[|f|..] + rest == (body + rest)[|f|..] == wire;
  }

  lemma PartOfFrame(body: Bytes, rest: Bytes, f: Bytes, wire: Bytes)
    requires body + rest == f + wire && |body| < |f|
    ensures body == f[..|body|] && rest == f[|body|..] + wire
  {
    assert body == (body + rest)[..|body|] == f[..|body|];
    assert rest == (body + rest)[|body|..] == f[|body|..] + wire;
  }

  lemma DeliverAppend(f: Bytes, fs: seq<Bytes>, r: Reception)
    ensures Deliver(f, Append(fs, r)) == Append([f] + fs, r)
  {
    if r.Reception? {
      assert [f] + (fs + r.frames) == [f] + fs + r.frames;
    }
  }

  /** A delivered frame, then the rest of its chunk, then the other chunks. */
  lemma ReceiveAfterDelivery(r: Receiver, f: Bytes, left: Bytes, chunks: seq<Bytes>)
    requires Sound(r) && chunks != []
    requires Process(SOURCE_SKEW, r, chunks[0]) == Deliver(f, Process(SOURCE_SKEW, Waiting([]), left))
    ensures Receive(SOURCE_SKEW, r, chunks) == Deliver(f, Receive(SOURCE_SKEW, Waiting([]), [left] + chunks[1..]))
  {
    hide Process;
    var p := Process(SOURCE_SKEW, Waiting([]), left);
    assert ([left] + chunks[1..])[0] == left && ([left] + chunks[1..])[1..] == chunks[1..];
    if p.Reception? {
      DeliverAppend(f, p.frames, Receive(SOURCE_SKEW, p.receiver, chunks[1..]));
    }
  }

  /** Where a buffer fills up: the next frame is what the buffer and the stream make, or there is a crash. */
  lemma {:induction false} FillUp(buffer: Bytes, received: nat, chunks: seq<Bytes>) returns (later: seq<Bytes>)
    requires Flatten(chunks) != [] && received + |Flatten(chunks)| >= |buffer|
    ensures received > |buffer| ==> Receive(SOURCE_SKEW, Filling(buffer, received), chunks).Crash?
    ensures received <= |buffer| ==>
      && Flatten(later) == Flatten(chunks)[|buffer| - received..]
      && Receive(SOURCE_SKEW, Filling(buffer, received), chunks)
           == Deliver(buffer[..received] + Flatten(chunks)[..|buffer| - received],
                      Receive(SOURCE_SKEW, Waiting([]), later))
    decreases chunks
  {
    hide Process;
    var r := Filling(buffer, received);
    var c, rest := chunks[0], chunks[1..];
    var stream := Flatten(chunks);
    assert stream == c + Flatten(rest);
    if c == [] {
      ProcessNothing(SOURCE_SKEW, r);
      later := FillUp(buffer, received, rest);
      AppendTwice([], [], Receive(SOURCE_SKEW, r, rest));
      assert stream == Flatten(rest);
    } else {
      ProcessStep(SOURCE_SKEW, r, c);
      if received + |c| < |buffer| {
        var buffer' := buffer[..received] + c + buffer[received + |c|..];
        later := FillUp(buffer', received + |c|, rest);
        AppendTwice([], [], Receive(SOURCE_SKEW, Filling(buffer', received + |c|), rest));
        var need := |buffer| - received;
        assert buffer'[..received + |c|] + Flatten(rest)[..need - |c|] == buffer[..received] + stream[..need];
        assert Flatten(rest)[need - |c|..] == stream[need..];
      } else if received > |buffer| {
        later := [];
      } else {
        var need := |buffer| - received;
        later := [c[need..]] + rest;
        ReceiveAfterDelivery(r, buffer[..received] + c[..need], c[need..], chunks);
        assert later[0] == c[need..] && later[1..] == rest;
        assert stream[..need] == c[..need] && stream[need..] == c[need..] + Flatten(rest);
      }
    }
  }

  /** Three zero bytes are read as an empty frame, however they are chunked. */
  lemma {:induction false} ZeroPrefix(partial: Bytes, chunks: seq<Bytes>, rest: Bytes) returns (later: seq<Bytes>)
    requires |partial| < 3 && partial + Flatten(chunks) == Zeros(3) + rest
    ensures Flatten(later) == rest
    ensures Receive(SOURCE_SKEW, Waiting(partial), chunks) == Deliver([], Receive(SOURCE_SKEW, Waiting([]), later))
    decreases chunks
  {
    hide Process, FromBigEndian;
    assert chunks != [];
    var c := chunks[0];
    var m := partial + c;
    assert m + Flatten(chunks[1..]) == Zeros(3) + rest;
    if |m| < 3 {
      if c == [] {
        assert m == partial;
        ProcessNothing(SOURCE_SKEW, Waiting(partial));
      } else {
        ProcessStep(SOURCE_SKEW, Waiting(partial), c);
      }
      later := ZeroPrefix(m, chunks[1..], rest);
      AppendTwice([], [], Receive(SOURCE_SKEW, Waiting(m), chunks[1..]));
    } else {
      assert m[..3] == (Zeros(3) + rest)[..3] == Zeros(3);
      ZeroLength();
      assert m[3..][..0] == [] && m[3..][0..] == m[3..];
      ProcessStep(SOURCE_SKEW, Waiting(partial), c);
      later := [m[3..]] + chunks[1..];
      ReceiveAfterDelivery(Waiting(partial), [], m[3..], chunks);
      assert later[0] == m[3..] && later[1..] == chunks[1..];
      assert m[3..] + Flatten(chunks[1..]) == (Zeros(3) + rest)[3..] == rest;
    }
  }

  lemma ZeroLength()
    ensures FromBigEndian(Zeros(3)) == 0
  {
    assert Zeros(3) == [0, 0, 0] && [0, 0, 0][..2] == [0, 0] && [0, 0][..1] == [0] && [0][..0] == [];
    assert FromBigEndian([0]) == 0;
    assert FromBigEndian([0, 0]) == 0;
  }

  /** Three zero bytes too many are never made up for: there is always one empty frame more than was sent. */
  lemma {:induction false} ZerosNeverEnd(gs: seq<Bytes>, chunks: seq<Bytes>)
    requires AllSendable(gs) && Flatten(chunks) == Zeros(3) + Wire(gs)
    ensures !Delivers(Receive(SOURCE_SKEW, Waiting([]), chunks), gs)
    decreases gs
  {
    hide Process, BigEndian, Receive;
    assert [] + Flatten(chunks) == Flatten(chunks);
    var later := ZeroPrefix([], chunks, Wire(gs));
    if gs != [] && gs[0] == [] {
      EmptyFrameWire(gs);
      ZerosNeverEnd(gs[1..], later);
      FirstFrameTells([], Receive(SOURCE_SKEW, Waiting([]), later), [], gs[1..]);
      assert [gs[0]] + gs[1..] == gs;
    }
  }

  lemma EmptyFrameWire(gs: seq<Bytes>)
    requires gs != [] && gs[0] == []
    ensures Wire(gs) == Zeros(3) + Wire(gs[1..])
  {
    assert BigEndian(0, 1) == [0] && BigEndian(0, 2) == [0, 0] && BigEndian(0, 3) == [0, 0, 0];
  }

  /**
   * The frame that a late count makes of `f`: three zero bytes are pushed in and the last three bytes are left over.
   */
  function Shifted(f: Bytes, b: nat): Bytes
    requires b + 3 <= |f|
  {
    f[..b] + Zeros(3) + f[b..|f| - 3]
  }

  lemma {:induction false} UnchangedMeansZero(f: Bytes, b: nat, i: nat)
    requires b + 3 <= |f| && Shifted(f, b) == f && b <= i < |f|
    ensures f[i] == 0
    decreases i
  {
    if i < b + 3 {
      assert Shifted(f, b)[i] == 0;
    } else {
      assert Shifted(f, b)[i] == f[i - 3];
      UnchangedMeansZero(f, b, i - 3);
    }
  }

  /** After a cut inside a body, the frames handed on are never the frames sent. */
  lemma NeverRecovers(f: Bytes, b: nat, gs: seq<Bytes>, chunks: seq<Bytes>)
    requires b < |f| && AllSendable(gs) && Flatten(chunks) == f[b..] + Wire(gs)
    ensures !Delivers(Receive(SOURCE_SKEW, Half(f, b), chunks), [f] + gs)
  {
    hide Process, Receive, BigEndian;
    var stream := Flatten(chunks);
    var buffer := f[..b] + Zeros(|f| - b);
    var later := FillUp(buffer, b + 3, chunks);
    if b + 3 <= |f| {
      var need := |f| - b - 3;
      assert buffer[..b + 3] + stream[..need] == Shifted(f, b) by {
        assert stream[..need] == f[b..|f| - 3];
        assert buffer[..b + 3] == f[..b] + Zeros(3);
      }
      var r := Receive(SOURCE_SKEW, Waiting([]), later);
      if Shifted(f, b) == f {
        forall i | |f| - 3 <= i < |f| ensures f[i] == 0 { UnchangedMeansZero(f, b, i); }
        assert f[|f| - 3..] == Zeros(3);
        assert stream[need..] == f[|f| - 3..] + Wire(gs);
        ZerosNeverEnd(gs, later);
      }
      FirstFrameTells(Shifted(f, b), r, f, gs);
    }
  }

  lemma FirstFrameTells(x: Bytes, r: Reception, f: Bytes, gs: seq<Bytes>)
    ensures Delivers(Deliver(x, r), [f] + gs) <==> x == f && Delivers(r, gs)
  {
    if r.Reception? && [x] + r.frames == [f] + gs {
      assert ([x] + r.frames)[0] == x && ([f] + gs)[0] == f;
      assert ([x] + r.frames)[1..] == r.frames && ([f] + gs)[1..] == gs;
    }
  }

  lemma {:induction false} AllowedAfter(fs: seq<Bytes>, k: nat, p: nat)
    requires k <= |fs| && p >= |Wire(fs[..k])|
    ensures CutAllowed(fs, p) == CutAllowed(fs[k..], p - |Wire(fs[..k])|)
    decreases k
  {
    if k == 0 {
      assert fs[0..] == fs && fs[..0] == [];
    } else {
      assert fs[..k][0] == fs[0] && fs[..k][1..] == fs[1..][..k - 1] && fs[1..][k - 1..] == fs[k..];
      AllowedAfter(fs[1..], k - 1, p - 3 - |fs[0]|);
    }
  }

  lemma {:induction false} CutsAfter(fs: seq<Bytes>, k: nat, p: nat, chunks: seq<Bytes>)
    requires k <= |fs| && p >= |Wire(fs[..k])|
    ensures CutsAllowed(fs, p, chunks) == CutsAllowed(fs[k..], p - |Wire(fs[..k])|, chunks)
    decreases chunks
  {
    if chunks != [] {
      AllowedAfter(fs, k, p + |chunks[0]|);
      CutsAfter(fs, k, p + |chunks[0]|, chunks[1..]);
    }
  }

  lemma SplitFrames(fs: seq<Bytes>, k: nat, r: Reception)
    requires k <= |fs|
    ensures Delivers(Append(fs[..k], r), fs) <==> Delivers(r, fs[k..])
  {
    assert fs == fs[..k] + fs[k..];
    if r.Reception? && fs[..k] + r.frames == fs {
      assert (fs[..k] + r.frames)[k..] == r.frames;
    }
  }

  lemma {:induction false} ReassemblyFrom(partial: Bytes, fs: seq<Bytes>, chunks: seq<Bytes>)
    requires |partial| < 3 && AllSendable(fs) && partial + Flatten(chunks) == Wire(fs)
    ensures Delivers(Receive(SOURCE_SKEW, Waiting(partial), chunks), fs) <==> CutsAllowed(fs, |partial|, chunks)
    decreases chunks
  {
    hide Process, BigEndian, CutAllowed;
    if chunks == [] {
      assert fs != [] ==> |Wire(fs)| >= 3;
    } else {
      var c, rest := chunks[0], Flatten(chunks[1..]);
      assert partial + c + rest == partial + Flatten(chunks);
      var k, q, b := OneChunk(partial, fs, c, rest);
      var p := |partial| + |c|;
      if CutAllowed(fs, p) {
        ReassemblyFrom(q, fs[k..], chunks[1..]);
        CutsAfter(fs, k, p, chunks[1..]);
        SplitFrames(fs, k, Receive(SOURCE_SKEW, Waiting(q), chunks[1..]));
      } else {
        NeverRecovers(fs[k], b, fs[k + 1..], chunks[1..]);
        assert [fs[k]] + fs[k + 1..] == fs[k..];
        SplitFrames(fs, k, Receive(SOURCE_SKEW, Half(fs[k], b), chunks[1..]));
      }
    }
  }

  /**
   * Exactly the frames that were sent are handed on if and only if no chunk ends between a frame's length prefix
   * and the last byte of its body.
   */
  lemma SourceReassemblyIff(fs: seq<Bytes>, chunks: seq<Bytes>)
    requires AllSendable(fs) && Flatten(chunks) == Wire(fs)
    ensures Delivers(Receive(SOURCE_SKEW, Waiting([]), chunks), fs) <==> CutsAllowed(fs, 0, chunks)
  {
    assert [] + Flatten(chunks) == Flatten(chunks);
    ReassemblyFrom([], fs, chunks);
  }

  const ONE_BYTE_FRAME: seq<Bytes> := [[7]]
  const ONE_BYTE_CHUNKS: seq<Bytes> := [[0, 0, 1], [7]]

  lemma OneByteWire()
    ensures Wire(ONE_BYTE_FRAME) == [0, 0, 1, 7] == Flatten(ONE_BYTE_CHUNKS)
  {
    assert BigEndian(0, 1) == [0] && BigEndian(0, 2) == [0, 0] && BigEndian(1, 3) == [0, 0, 1];
    assert ONE_BYTE_FRAME[1..] == [] && Wire([]) == [];
    assert ONE_BYTE_CHUNKS[1..] == [[7]] && Flatten([[7]]) == [7] + Flatten([]);
  }

  /** The smallest failure: a frame of one byte, cut after its length prefix. */
  lemma OneByteFrameCut()
    ensures !Delivers(Receive(SOURCE_SKEW, Waiting([]), ONE_BYTE_CHUNKS), ONE_BYTE_FRAME)
    ensures Delivers(Receive(0, Waiting([]), ONE_BYTE_CHUNKS), ONE_BYTE_FRAME)
  {
    hide Receive, Wire, Flatten, BigEndian;
    OneByteWire();
    assert !CutAllowed(ONE_BYTE_FRAME, 3);
    ExactReassembly(ONE_BYTE_FRAME, ONE_BYTE_CHUNKS);
    SourceReassemblyIff(ONE_BYTE_FRAME, ONE_BYTE_CHUNKS);
  }
}
