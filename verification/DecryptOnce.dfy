/**
 * The decrypted-event buffer (message.go): a ciphertext may be delivered again after a crash or a failed handler, by
 * several workers at once, and yet its ratchet step is committed once and its plaintext is not lost.
 */
module DecryptOnce {
  import opened Bytes

  /** SHA-256 of a ciphertext, and the ratchet: decryption gives the plaintext and the next ratchet state, or fails. */
  datatype Cipher<!R> = Cipher(hash: Bytes -> Bytes, decrypt: (R, Bytes) -> Option<(Bytes, R)>)

  /**
   * Where the processing of one delivery stands: the buffer had no row for it; its plaintext is known; it is dealt
   * with and its row can be cleared.
   */
  datatype Worker =
    | Fetched(ciphertext: Bytes)
    | Decrypted(ciphertext: Bytes, plaintext: Bytes)
    | Dealt(ciphertext: Bytes)

  /**
   * What becomes of a plaintext: it is malformed and left in the buffer; the handler fails; the handler takes it; it
   * is passed over without asking the handler (an unknown version, say).
   */
  datatype Outcome = Malformed | Refused | Accepted | PassedOver

  datatype Commit = Commit(ciphertext: Bytes, plaintext: Bytes)

  datatype Call = Call(hash: Bytes, plaintext: Bytes, accepted: bool)

  /**
   * `ratchet` and `rows` are in the database and survive a crash; a row without plaintext has been cleared. Workers
   * are lost in a crash. The rest is history: committed decryptions, rows deleted for their age, handler calls.
   */
  datatype State<R> = State(
    ratchet: R,
    rows: map<Bytes, Option<Bytes>>,
    workers: map<nat, Worker>,
    commits: seq<Commit>,
    forgotten: multiset<Bytes>,
    calls: seq<Call>,
    passedOver: set<Bytes>)

  datatype Event = Start(w: nat, ciphertext: Bytes)
                 | Decrypt(w: nat)
                 | Rollback(w: nat)
                 | Handle(w: nat, outcome: Outcome)
                 | Clear(w: nat)
                 | ClearFails(w: nat)
                 | Crash
                 | Forget(hashes: set<Bytes>)

  function Initial<R>(ratchet: R): State<R>
  {
    State(ratchet, map[], map[], [], multiset{}, [], {})
  }

  function Without<R>(s: State<R>, w: nat): State<R>
  {
    s.(workers := s.workers - {w})
  }

  /** The buffer is asked for the ciphertext's row. */
  function StartStep<R>(cipher: Cipher<R>, s: State<R>, w: nat, c: Bytes): State<R>
  {
    var h := cipher.hash(c);
    if w in s.workers then s
    else if h !in s.rows then s.(workers := s.workers[w := Fetched(c)])
    else if s.rows[h].Some? then s.(workers := s.workers[w := Decrypted(c, s.rows[h].value)])
    else s
  }

  /** The transaction: decrypt and insert the row. A failure, also an insert conflict, undoes all of it. */
  function DecryptStep<R>(cipher: Cipher<R>, s: State<R>, w: nat, c: Bytes): State<R>
  {
    var h := cipher.hash(c);
    match cipher.decrypt(s.ratchet, c)
    case None => Without(s, w)
    case Some(result) =>
      if h in s.rows then Without(s, w)
      else s.(ratchet := result.1,
              rows := s.rows[h := Some(result.0)],
              commits := s.commits + [Commit(c, result.0)],
              workers := s.workers[w := Decrypted(c, result.0)])
  }

  function HandleStep<R>(cipher: Cipher<R>, s: State<R>, w: nat, c: Bytes, p: Bytes, outcome: Outcome): State<R>
  {
    var h := cipher.hash(c);
    match outcome
    case Malformed => Without(s, w)
    case Refused => Without(s, w).(calls := s.calls + [Call(h, p, false)])
    case Accepted => s.(workers := s.workers[w := Dealt(c)], calls := s.calls + [Call(h, p, true)])
    case PassedOver => s.(workers := s.workers[w := Dealt(c)], passedOver := s.passedOver + {h})
  }

  function ClearStep<R>(cipher: Cipher<R>, s: State<R>, w: nat, c: Bytes): State<R>
  {
    var h := cipher.hash(c);
    Without(s, w).(rows := if h in s.rows then s.rows[h := None] else s.rows)
  }

  function ForgetStep<R>(s: State<R>, hashes: set<Bytes>): State<R>
  {
    s.(rows := s.rows - hashes, forgotten := s.forgotten + multiset(s.rows.Keys * hashes))
  }

  /** An event that is not possible in a state leaves it as it is. */
  function Step<R>(cipher: Cipher<R>, s: State<R>, e: Event): State<R>
  {
    match e
    case Start(w, c) => StartStep(cipher, s, w, c)
    case Decrypt(w) =>
      if w in s.workers && s.workers[w].Fetched? then DecryptStep(cipher, s, w, s.workers[w].ciphertext) else s
    case Rollback(w) => if w in s.workers && s.workers[w].Fetched? then Without(s, w) else s
    case Handle(w, outcome) =>
      if w in s.workers && s.workers[w].Decrypted?
      then HandleStep(cipher, s, w, s.workers[w].ciphertext, s.workers[w].plaintext, outcome) else s
    case Clear(w) =>
      if w in s.workers && s.workers[w].Dealt? then ClearStep(cipher, s, w, s.workers[w].ciphertext) else s
    case ClearFails(w) => if w in s.workers && s.workers[w].Dealt? then Without(s, w) else s
    case Crash => s.(workers := map[])
    case Forget(hashes) => ForgetStep(s, hashes)
  }

  function Run<R>(cipher: Cipher<R>, s: State<R>, events: seq<Event>): State<R>
    decreases |events|
  {
    if events == [] then s else Run(cipher, Step(cipher, s, events[0]), events[1..])
  }

  /* ---------- What is kept in every run ---------- */

  /** The ratchet after decrypting the committed ciphertexts one after the other, if each gives its plaintext. */
  function Replay<R>(cipher: Cipher<R>, ratchet: R, commits: seq<Commit>): Option<R>
    decreases |commits|
  {
    if commits == [] then Some(ratchet) else
      var last := commits[|commits| - 1];
      match Replay(cipher, ratchet, commits[..|commits| - 1])
      case None => None
      case Some(r) =>
        match cipher.decrypt(r, last.ciphertext)
        case None => None
        case Some(result) => if result.0 == last.plaintext then Some(result.1) else None
  }

  function Times<R>(cipher: Cipher<R>, commits: seq<Commit>, h: Bytes): nat
    decreases |commits|
  {
    if commits == [] then 0 else
      Times(cipher, commits[..|commits| - 1], h) + if cipher.hash(commits[|commits| - 1].ciphertext) == h then 1 else 0
  }

  /** The plaintext of the last committed decryption of a hash. */
  function LastPlaintext<R>(cipher: Cipher<R>, commits: seq<Commit>, h: Bytes): Option<Bytes>
    decreases |commits|
  {
    if commits == [] then None
    else if cipher.hash(commits[|commits| - 1].ciphertext) == h then Some(commits[|commits| - 1].plaintext)
    else LastPlaintext(cipher, commits[..|commits| - 1], h)
  }

  predicate Finished<R>(s: State<R>, h: Bytes)
  {
    h in s.passedOver || exists i :: 0 <= i < |s.calls| && s.calls[i].hash == h && s.calls[i].accepted
  }

  ghost predicate Conserved<R(!new)>(cipher: Cipher<R>, s: State<R>)
  {
    forall h :: Times(cipher, s.commits, h) == s.forgotten[h] + if h in s.rows then 1 else 0
  }

  /** Every plaintext that is still around is that of the committed decryption. */
  ghost predicate OnePlaintext<R(!new)>(cipher: Cipher<R>, s: State<R>)
  {
    && (forall h :: h in s.rows && s.rows[h].Some? ==> LastPlaintext(cipher, s.commits, h) == s.rows[h])
    && (forall w :: w in s.workers && s.workers[w].Decrypted? ==>
          Known(cipher, s, cipher.hash(s.workers[w].ciphertext), s.workers[w].plaintext))
    && (forall i :: 0 <= i < |s.calls| ==> Known(cipher, s, s.calls[i].hash, s.calls[i].plaintext))
  }

  ghost predicate Known<R(!new)>(cipher: Cipher<R>, s: State<R>, h: Bytes, p: Bytes)
  {
    s.forgotten[h] == 0 ==> h in s.rows && LastPlaintext(cipher, s.commits, h) == Some(p)
  }

  /** A row is cleared only once its event is finished. */
  ghost predicate NothingLost<R(!new)>(cipher: Cipher<R>, s: State<R>)
  {
    && (forall h :: h in s.rows && s.rows[h].None? ==> Finished(s, h))
    && (forall w :: w in s.workers && s.workers[w].Dealt? ==> Finished(s, cipher.hash(s.workers[w].ciphertext)))
  }

  ghost predicate Inv<R(!new)>(cipher: Cipher<R>, start: R, s: State<R>)
  {
    && Replay(cipher, start, s.commits) == Some(s.ratchet)
    && Conserved(cipher, s) && OnePlaintext(cipher, s) && NothingLost(cipher, s)
  }

  lemma CommitAdds<R(!new)>(cipher: Cipher<R>, start: R, commits: seq<Commit>, c: Commit)
    ensures forall h :: Times(cipher, commits + [c], h)
              == Times(cipher, commits, h) + if cipher.hash(c.ciphertext) == h then 1 else 0
    ensures forall h :: LastPlaintext(cipher, commits + [c], h)
              == if cipher.hash(c.ciphertext) == h then Some(c.plaintext) else LastPlaintext(cipher, commits, h)
    ensures var r := Replay(cipher, start, commits);
            r.Some? ==>
              var next := cipher.decrypt(r.value, c.ciphertext);
              next.Some? && next.value.0 == c.plaintext ==> Replay(cipher, start, commits + [c]) == Some(next.value.1)
  {
    assert (commits + [c])[..|commits + [c]| - 1] == commits;
  }

  lemma StartKeepsInv<R(!new)>(cipher: Cipher<R>, start: R, s: State<R>, w: nat, c: Bytes)
    requires Inv(cipher, start, s)
    ensures Inv(cipher, start, StartStep(cipher, s, w, c))
  {
    hide Replay, Times, LastPlaintext;
  }

  lemma DecryptConserves<R(!new)>(cipher: Cipher<R>, start: R, s: State<R>, w: nat, c: Bytes)
    requires Replay(cipher, start, s.commits) == Some(s.ratchet) && Conserved(cipher, s)
    ensures var next := DecryptStep(cipher, s, w, c);
            Replay(cipher, start, next.commits) == Some(next.ratchet) && Conserved(cipher, next)
  {
    hide Replay, Times, LastPlaintext;
    var result := cipher.decrypt(s.ratchet, c);
    if result.Some? {
      CommitAdds(cipher, start, s.commits, Commit(c, result.value.0));
    }
  }

  lemma DecryptKeepsInv<R(!new)>(cipher: Cipher<R>, start: R, s: State<R>, w: nat, c: Bytes)
    requires Inv(cipher, start, s) && w in s.workers && s.workers[w] == Fetched(c)
    ensures Inv(cipher, start, DecryptStep(cipher, s, w, c))
  {
    hide Replay, Times, LastPlaintext, Conserved;
    DecryptConserves(cipher, start, s, w, c);
    var next := DecryptStep(cipher, s, w, c);
    var result := cipher.decrypt(s.ratchet, c);
    if result.Some? {
      CommitAdds(cipher, start, s.commits, Commit(c, result.value.0));
    }
    assert next.forgotten == s.forgotten && next.calls == s.calls && next.passedOver == s.passedOver;
  }

  lemma FinishedGrows<R>(s: State<R>, next: State<R>, h: Bytes)
    requires Finished(s, h) && s.calls <= next.calls && s.passedOver <= next.passedOver
    ensures Finished(next, h)
  {
    if h !in s.passedOver {
      var i :| 0 <= i < |s.calls| && s.calls[i].hash == h && s.calls[i].accepted;
      assert next.calls[i] == s.calls[i];
    }
  }

  lemma HandleKeepsInv<R(!new)>(cipher: Cipher<R>, start: R, s: State<R>, w: nat, outcome: Outcome)
    requires Inv(cipher, start, s) && w in s.workers && s.workers[w].Decrypted?
    ensures Inv(cipher, start, HandleStep(cipher, s, w, s.workers[w].ciphertext, s.workers[w].plaintext, outcome))
  {
    hide Replay, Times, LastPlaintext, Finished;
    var next := HandleStep(cipher, s, w, s.workers[w].ciphertext, s.workers[w].plaintext, outcome);
    forall h | Finished(s, h) ensures Finished(next, h) {
      FinishedGrows(s, next, h);
    }
    if outcome.Accepted? || outcome.PassedOver? {
      NowFinished(cipher, s, w, outcome);
    }
  }

  lemma NowFinished<R>(cipher: Cipher<R>, s: State<R>, w: nat, outcome: Outcome)
    requires w in s.workers && s.workers[w].Decrypted? && (outcome.Accepted? || outcome.PassedOver?)
    ensures Finished(HandleStep(cipher, s, w, s.workers[w].ciphertext, s.workers[w].plaintext, outcome),
                     cipher.hash(s.workers[w].ciphertext))
  {
    var next := HandleStep(cipher, s, w, s.workers[w].ciphertext, s.workers[w].plaintext, outcome);
    if outcome.Accepted? {
      assert next.calls[|s.calls|].accepted;
    }
  }

  lemma ClearKeepsInv<R(!new)>(cipher: Cipher<R>, start: R, s: State<R>, w: nat)
    requires Inv(cipher, start, s) && w in s.workers && s.workers[w].Dealt?
    ensures Inv(cipher, start, ClearStep(cipher, s, w, s.workers[w].ciphertext))
  {
    hide Replay, Times, LastPlaintext;
  }

  lemma ForgetKeepsInv<R(!new)>(cipher: Cipher<R>, start: R, s: State<R>, hashes: set<Bytes>)
    requires Inv(cipher, start, s)
    ensures Inv(cipher, start, ForgetStep(s, hashes))
  {
    hide Replay, Times, LastPlaintext, Conserved, OnePlaintext;
    ForgetConserves(cipher, s, hashes);
    ForgetKeepsPlaintexts(cipher, s, hashes);
  }

  lemma ForgetKeepsPlaintexts<R(!new)>(cipher: Cipher<R>, s: State<R>, hashes: set<Bytes>)
    requires OnePlaintext(cipher, s)
    ensures OnePlaintext(cipher, ForgetStep(s, hashes))
  {
    hide LastPlaintext;
  }

  lemma ForgetConserves<R(!new)>(cipher: Cipher<R>, s: State<R>, hashes: set<Bytes>)
    requires Conserved(cipher, s)
    ensures Conserved(cipher, ForgetStep(s, hashes))
  {
    hide Times;
  }

  lemma EndKeepsInv<R(!new)>(cipher: Cipher<R>, start: R, s: State<R>, w: nat)
    requires Inv(cipher, start, s)
    ensures Inv(cipher, start, Without(s, w)) && Inv(cipher, start, s.(workers := map[]))
  {
    hide Replay, Times, LastPlaintext;
  }

  lemma StepKeepsInv<R(!new)>(cipher: Cipher<R>, start: R, s: State<R>, e: Event)
    requires Inv(cipher, start, s)
    ensures Inv(cipher, start, Step(cipher, s, e))
  {
    hide Inv, StartStep, DecryptStep, HandleStep, ClearStep, ForgetStep;
    match e
    case Start(w, c) => StartKeepsInv(cipher, start, s, w, c);
    case Decrypt(w) =>
      if w in s.workers && s.workers[w].Fetched? {
        DecryptKeepsInv(cipher, start, s, w, s.workers[w].ciphertext);
      }
    case Rollback(w) => EndKeepsInv(cipher, start, s, w);
    case Handle(w, outcome) =>
      if w in s.workers && s.workers[w].Decrypted? {
        HandleKeepsInv(cipher, start, s, w, outcome);
      }
    case Clear(w) =>
      if w in s.workers && s.workers[w].Dealt? {
        ClearKeepsInv(cipher, start, s, w);
      }
    case ClearFails(w) => EndKeepsInv(cipher, start, s, w);
    case Crash => EndKeepsInv(cipher, start, s, 0);
    case Forget(hashes) => ForgetKeepsInv(cipher, start, s, hashes);
  }

  lemma {:induction false} RunKeepsInv<R(!new)>(cipher: Cipher<R>, start: R, s: State<R>, events: seq<Event>)
    requires Inv(cipher, start, s)
    ensures Inv(cipher, start, Run(cipher, s, events))
    decreases |events|
  {
    hide Inv, Step;
    if events != [] {
      StepKeepsInv(cipher, start, s, events[0]);
      RunKeepsInv(cipher, start, Step(cipher, s, events[0]), events[1..]);
    }
  }

  lemma EveryRun<R(!new)>(cipher: Cipher<R>, start: R, events: seq<Event>)
    ensures Inv(cipher, start, Run(cipher, Initial(start), events))
  {
    assert Inv(cipher, start, Initial(start));
    RunKeepsInv(cipher, start, Initial(start), events);
  }

  /**
   * In every run, with any crashes, redeliveries and workers: the ratchet is where the committed ciphertexts take it
   * one after the other, and each hash was committed once, plus once for every time its row was deleted for its age.
   */
  lemma CommittedOnce<R(!new)>(cipher: Cipher<R>, start: R, events: seq<Event>, h: Bytes)
    ensures var s := Run(cipher, Initial(start), events);
            && Replay(cipher, start, s.commits) == Some(s.ratchet)
            && Times(cipher, s.commits, h) == s.forgotten[h] + if h in s.rows then 1 else 0
  {
    hide Run, Replay, Times;
    EveryRun(cipher, start, events);
  }

  /** While its row is kept, every handler call for a hash, and the row itself, has the committed plaintext. */
  lemma SamePlaintext<R(!new)>(cipher: Cipher<R>, start: R, events: seq<Event>, i: nat)
    ensures var s := Run(cipher, Initial(start), events);
            i < |s.calls| && s.forgotten[s.calls[i].hash] == 0 ==>
              var h := s.calls[i].hash;
              && LastPlaintext(cipher, s.commits, h) == Some(s.calls[i].plaintext)
              && Times(cipher, s.commits, h) == 1 && h in s.rows
              && (s.rows[h].Some? ==> s.rows[h] == Some(s.calls[i].plaintext))
  {
    hide Run, Replay, Times, LastPlaintext;
    EveryRun(cipher, start, events);
  }

  /**
   * A redelivery before the clearing, finished or not, gets that plaintext, whatever happened to the earlier workers.
   */
  lemma RedeliveryDecrypts<R(!new)>(cipher: Cipher<R>, start: R, events: seq<Event>, w: nat, c: Bytes)
    ensures var s := Run(cipher, Initial(start), events);
            var h := cipher.hash(c);
            w !in s.workers && h in s.rows && (s.rows[h].Some? || !Finished(s, h)) ==>
              var next := Step(cipher, s, Start(w, c));
              && LastPlaintext(cipher, s.commits, h).Some?
              && w in next.workers && next.workers[w] == Decrypted(c, LastPlaintext(cipher, s.commits, h).value)
              && next.ratchet == s.ratchet && next.rows == s.rows
  {
    hide Run, Replay, Times, LastPlaintext, Finished;
    EveryRun(cipher, start, events);
  }

  /* ---------- After the clearing ---------- */

  function CallsFor(calls: seq<Call>, h: Bytes): nat
  {
    if calls == [] then 0 else CallsFor(calls[..|calls| - 1], h) + if calls[|calls| - 1].hash == h then 1 else 0
  }

  /** The row is cleared and nobody holds the plaintext any more. */
  ghost predicate Closed<R(!new)>(cipher: Cipher<R>, s: State<R>, h: Bytes)
  {
    && h in s.rows && s.rows[h].None?
    && forall w :: w in s.workers && s.workers[w].Decrypted? ==> cipher.hash(s.workers[w].ciphertext) != h
  }

  lemma ClosedStep<R(!new)>(cipher: Cipher<R>, s: State<R>, e: Event, h: Bytes)
    requires Closed(cipher, s, h) && (e.Forget? ==> h !in e.hashes)
    ensures var next := Step(cipher, s, e);
            && Closed(cipher, next, h)
            && CallsFor(next.calls, h) == CallsFor(s.calls, h)
            && Times(cipher, next.commits, h) == Times(cipher, s.commits, h)
  {
    hide Times, CallsFor;
    match e
    case Decrypt(w) =>
      if w in s.workers && s.workers[w].Fetched? && cipher.decrypt(s.ratchet, s.workers[w].ciphertext).Some? {
        var c := s.workers[w].ciphertext;
        CommitAdds(cipher, s.ratchet, s.commits, Commit(c, cipher.decrypt(s.ratchet, c).value.0));
      }
    case Handle(w, outcome) =>
      if w in s.workers && s.workers[w].Decrypted? {
        CallAdds(s.calls, Call(cipher.hash(s.workers[w].ciphertext), s.workers[w].plaintext, outcome.Accepted?), h);
      }
    case _ =>
  }

  lemma CallAdds(calls: seq<Call>, call: Call, h: Bytes)
    ensures CallsFor(calls + [call], h) == CallsFor(calls, h) + if call.hash == h then 1 else 0
  {
    assert (calls + [call])[..|calls + [call]| - 1] == calls;
  }

  /** Once closed, no redelivery reaches the handler or the ratchet, as long as the row is not deleted for its age. */
  lemma {:induction false} ClosedForGood<R(!new)>(cipher: Cipher<R>, s: State<R>, events: seq<Event>, h: Bytes)
    requires Closed(cipher, s, h)
    requires forall i :: 0 <= i < |events| && events[i].Forget? ==> h !in events[i].hashes
    ensures var last := Run(cipher, s, events);
            && Closed(cipher, last, h)
            && CallsFor(last.calls, h) == CallsFor(s.calls, h)
            && Times(cipher, last.commits, h) == Times(cipher, s.commits, h)
    decreases |events|
  {
    hide Closed, Step, CallsFor, Times;
    if events != [] {
      ClosedStep(cipher, s, events[0], h);
      ClosedForGood(cipher, Step(cipher, s, events[0]), events[1..], h);
    }
  }

  /** Clearing closes a hash unless another worker still holds its plaintext. */
  lemma ClearCloses<R(!new)>(cipher: Cipher<R>, s: State<R>, w: nat)
    requires w in s.workers && s.workers[w].Dealt? && cipher.hash(s.workers[w].ciphertext) in s.rows
    ensures var h := cipher.hash(s.workers[w].ciphertext);
            Closed(cipher, Step(cipher, s, Clear(w)), h) <==>
              forall v :: v in s.workers && s.workers[v].Decrypted? ==> cipher.hash(s.workers[v].ciphertext) != h
  {
    var h := cipher.hash(s.workers[w].ciphertext);
    var next := Step(cipher, s, Clear(w));
    assert forall v :: v in s.workers && v != w ==> v in next.workers && next.workers[v] == s.workers[v];
  }

  /* ---------- One delivery that nothing interrupts ---------- */

  datatype Buffered = Plaintext(plaintext: Bytes) | AlreadyProcessed | Failed

  function Resting<R>(ratchet: R, rows: map<Bytes, Option<Bytes>>, calls: seq<Call>): State<R>
  {
    Initial(ratchet).(rows := rows, calls := calls)
  }

  lemma Steps<R>(cipher: Cipher<R>, s: State<R>, a: Event, b: Event, c: Event, d: Event)
    ensures Run(cipher, s, [a, b]) == Step(cipher, Step(cipher, s, a), b)
    ensures Run(cipher, s, [a, b, c, d]) == Step(cipher, Step(cipher, Run(cipher, s, [a, b]), c), d)
  {
    hide Step;
    var s1 := Step(cipher, s, a);
    var s2 := Step(cipher, s1, b);
    assert [b][1..] == [] && [b, c, d][1..] == [c, d] && [d][1..] == [];
    assert Run(cipher, s1, [b]) == Run(cipher, s2, []);
    assert [a, b][1..] == [b] && [a, b, c, d][1..] == [b, c, d];
    var s3 := Step(cipher, s2, c);
    assert [c, d][1..] == [d];
    assert Run(cipher, s3, [d]) == Run(cipher, Step(cipher, s3, d), []);
    assert Run(cipher, s2, [c, d]) == Run(cipher, s3, [d]);
  }

  class Client<R> {
    const cipher: Cipher<R>
    var ratchet: R
    var rows: map<Bytes, Option<Bytes>>
    var calls: seq<Call>

    constructor (cipher: Cipher<R>, ratchet: R)
      ensures this.cipher == cipher && Resting(this.ratchet, rows, calls) == Initial(ratchet)
    {
      this.cipher, this.ratchet, rows, calls := cipher, ratchet, map[], [];
    }

    /** Looks in the buffer first; otherwise decrypts and saves the plaintext in one transaction. */
    method BufferedDecrypt(ciphertext: Bytes) returns (r: Buffered)
      modifies this
      ensures calls == old(calls)
      ensures var s := Run(cipher, Resting(old(ratchet), old(rows), calls), [Start(0, ciphertext), Decrypt(0)]);
              && ratchet == s.ratchet && rows == s.rows && s.calls == calls && s.passedOver == {}
              && s.workers == if r.Plaintext? then map[0 := Decrypted(ciphertext, r.plaintext)] else map[]
      ensures r.AlreadyProcessed? <==> cipher.hash(ciphertext) in old(rows) && old(rows)[cipher.hash(ciphertext)].None?
      // a plaintext in the buffer is returned as it is
      ensures var h := cipher.hash(ciphertext);
              h in old(rows) ==> ratchet == old(ratchet) && rows == old(rows)
                                 && (old(rows)[h].Some? ==> r == Plaintext(old(rows)[h].value))
      // otherwise it is decrypted, and kept
      ensures var h, result := cipher.hash(ciphertext), cipher.decrypt(old(ratchet), ciphertext);
              h !in old(rows) && result.Some? ==>
                && r == Plaintext(result.value.0) && ratchet == result.value.1
                && rows == old(rows)[h := Some(result.value.0)]
      ensures cipher.hash(ciphertext) !in old(rows) && cipher.decrypt(old(ratchet), ciphertext).None? ==>
                r == Failed && ratchet == old(ratchet) && rows == old(rows)
    {
      ghost var s := Resting(ratchet, rows, calls);
      Steps(cipher, s, Start(0, ciphertext), Decrypt(0), Crash, Crash);
      hide Run;
      var h := cipher.hash(ciphertext);
      if h in rows {
        return if rows[h].None? then AlreadyProcessed else Plaintext(rows[h].value);
      }
      var result := cipher.decrypt(ratchet, ciphertext);
      if result.None? {
        return Failed;
      }
      ratchet, rows := result.value.1, rows[h := Some(result.value.0)];
      r := Plaintext(result.value.0);
    }

    /** One encrypted child of a message: decrypt it, hand it on and, when that went well, clear the buffer's row. */
    method DecryptChild(ciphertext: Bytes, outcome: Outcome) returns (r: Buffered)
      modifies this
      ensures var s := Run(cipher, Resting(old(ratchet), old(rows), old(calls)),
                           [Start(0, ciphertext), Decrypt(0), Handle(0, outcome), Clear(0)]);
              ratchet == s.ratchet && rows == s.rows && calls == s.calls && s.workers == map[]
      ensures var h := cipher.hash(ciphertext);
              && (r.Plaintext? && (outcome.Accepted? || outcome.Refused?) ==>
                    calls == old(calls) + [Call(h, r.plaintext, outcome.Accepted?)])
              && (!r.Plaintext? || outcome.Malformed? || outcome.PassedOver? ==> calls == old(calls))
              && (r.Plaintext? ==> h in rows && (rows[h].None? <==> outcome.Accepted? || outcome.PassedOver?))
    {
      Steps(cipher, Resting(ratchet, rows, calls), Start(0, ciphertext), Decrypt(0), Handle(0, outcome), Clear(0));
      hide Run;
      r := BufferedDecrypt(ciphertext);
      if !r.Plaintext? || outcome.Malformed? {
        return;
      }
      var h := cipher.hash(ciphertext);
      if outcome.Accepted? || outcome.Refused? {
        calls := calls + [Call(h, r.plaintext, outcome.Accepted?)];
      }
      if outcome.Refused? {
        return;
      }
      if h in rows {
        rows := rows[h := None];
      }
    }
  }
}
