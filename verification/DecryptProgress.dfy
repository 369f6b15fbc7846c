/** The other half of decrypting once: what is delivered is decrypted, kept, handed on and cleared. */
module DecryptProgress {
  import opened Bytes
  import opened DecryptOnce

  lemma TwoSteps<R>(cipher: Cipher<R>, s: State<R>, a: Event, b: Event)
    ensures Run(cipher, s, [a, b]) == Step(cipher, Step(cipher, s, a), b)
  {
    Steps(cipher, s, a, b, Crash, Crash);
  }

  /**
   * The first delivery of a ciphertext that decrypts: the ratchet moves on, the plaintext is in the buffer, one
   * decryption more is committed, and the worker holds the plaintext. Nothing else changes.
   */
  lemma FirstDelivery<R>(cipher: Cipher<R>, s: State<R>, w: nat, c: Bytes, plaintext: Bytes, next: R)
    requires w !in s.workers && cipher.hash(c) !in s.rows && cipher.decrypt(s.ratchet, c) == Some((plaintext, next))
    ensures Run(cipher, s, [Start(w, c), Decrypt(w)]) ==
            State(next, s.rows[cipher.hash(c) := Some(plaintext)], s.workers[w := Decrypted(c, plaintext)],
                  s.commits + [Commit(c, plaintext)], s.forgotten, s.calls, s.passedOver)
  {
    hide Run;
    TwoSteps(cipher, s, Start(w, c), Decrypt(w));
    assert s.workers[w := Fetched(c)][w := Decrypted(c, plaintext)] == s.workers[w := Decrypted(c, plaintext)];
  }

  /** If it does not decrypt, or the transaction is rolled back, nothing has happened. */
  lemma FailedDelivery<R>(cipher: Cipher<R>, s: State<R>, w: nat, c: Bytes)
    requires w !in s.workers && cipher.hash(c) !in s.rows
    ensures cipher.decrypt(s.ratchet, c).None? ==> Run(cipher, s, [Start(w, c), Decrypt(w)]) == s
    ensures Run(cipher, s, [Start(w, c), Rollback(w)]) == s
  {
    hide Run;
    TwoSteps(cipher, s, Start(w, c), Decrypt(w));
    TwoSteps(cipher, s, Start(w, c), Rollback(w));
    assert s.workers[w := Fetched(c)] - {w} == s.workers;
  }

  /** Another worker may have committed in between: then the insert conflicts and nothing of this one is kept. */
  lemma SecondWorkerConflicts<R>(cipher: Cipher<R>, s: State<R>, w: nat, c: Bytes)
    requires w in s.workers && s.workers[w] == Fetched(c) && cipher.hash(c) in s.rows
    ensures Step(cipher, s, Decrypt(w)) == s.(workers := s.workers - {w})
  {
  }

  /** A delivery whose row has been cleared is passed over. */
  lemma ClearedIsSkipped<R>(cipher: Cipher<R>, s: State<R>, w: nat, c: Bytes)
    requires cipher.hash(c) in s.rows && s.rows[cipher.hash(c)].None?
    ensures Step(cipher, s, Start(w, c)) == s
  {
  }

  /** What becomes of a plaintext, for every outcome: who is called with what, and whether the row will be cleared. */
  lemma Handled<R>(cipher: Cipher<R>, s: State<R>, w: nat, c: Bytes, p: Bytes, outcome: Outcome)
    requires w in s.workers && s.workers[w] == Decrypted(c, p)
    ensures var next := Step(cipher, s, Handle(w, outcome));
            && next.ratchet == s.ratchet && next.rows == s.rows && next.commits == s.commits &&
              next.forgotten == s.forgotten
            && next.workers - {w} == s.workers - {w}
            && (outcome.Accepted? ==> next.calls == s.calls + [Call(cipher.hash(c), p, true)])
            && (outcome.Refused? ==> next.calls == s.calls + [Call(cipher.hash(c), p, false)])
            && (outcome.Malformed? || outcome.PassedOver? ==> next.calls == s.calls)
            && (outcome.Accepted? || outcome.PassedOver? ==> w in next.workers && next.workers[w] == Dealt(c))
            && (outcome.Refused? || outcome.Malformed? ==> w !in next.workers)
            && next.passedOver == if outcome.PassedOver? then s.passedOver + {cipher.hash(c)} else s.passedOver
  {
  }

  /** Clearing empties the row and ends the worker; a clearing that fails only ends the worker. */
  lemma Cleared<R>(cipher: Cipher<R>, s: State<R>, w: nat, c: Bytes)
    requires w in s.workers && s.workers[w] == Dealt(c) && cipher.hash(c) in s.rows
    ensures Step(cipher, s, Clear(w)) == s.(rows := s.rows[cipher.hash(c) := None], workers := s.workers - {w})
    ensures Step(cipher, s, ClearFails(w)) == s.(workers := s.workers - {w})
  {
  }

  /** A crash loses the workers and nothing else; deleting old rows loses those rows, and counts them. */
  lemma CrashAndForget<R>(cipher: Cipher<R>, s: State<R>, hashes: set<Bytes>)
    ensures Step(cipher, s, Crash) == s.(workers := map[])
    ensures var next := Step(cipher, s, Forget(hashes));
            && next == s.(rows := next.rows, forgotten := next.forgotten)
            && (forall h :: h in next.rows <==> h in s.rows && h !in hashes)
            && (forall h :: h in next.rows ==> next.rows[h] == s.rows[h])
            && forall h :: next.forgotten[h] == s.forgotten[h] + if h in s.rows && h in hashes then 1 else 0
  {
  }

  /** The plaintext that a delivery gets: from the buffer, or by decrypting. */
  function Obtained<R>(cipher: Cipher<R>, s: State<R>, c: Bytes): Option<Bytes>
  {
    var h := cipher.hash(c);
    if h in s.rows then s.rows[h] else
      var result := cipher.decrypt(s.ratchet, c);
      if result.None? then None else Some(result.value.0)
  }

  /**
   * From any state, even right after a crash: an event that is not cleared and is delivered again reaches the handler,
   * once, with its plaintext, and when the handler has taken it the row is cleared.
   */
  lemma DeliveredAgain<R>(cipher: Cipher<R>, s: State<R>, w: nat, c: Bytes)
    requires Obtained(cipher, s, c).Some?
    ensures var p := Obtained(cipher, s, c).value;
            var crashed := Step(cipher, s, Crash);
            var last := Run(cipher, crashed, [Start(w, c), Decrypt(w), Handle(w, Accepted), Clear(w)]);
            && last.calls == s.calls + [Call(cipher.hash(c), p, true)]
            && cipher.hash(c) in last.rows && last.rows[cipher.hash(c)].None? && last.workers == map[]
            && last.rows - {cipher.hash(c)} == s.rows - {cipher.hash(c)}
  {
    hide Run;
    var crashed := Step(cipher, s, Crash);
    var p := Obtained(cipher, s, c).value;
    Steps(cipher, crashed, Start(w, c), Decrypt(w), Handle(w, Accepted), Clear(w));
    if cipher.hash(c) !in s.rows {
      FirstDelivery(cipher, crashed, w, c, p, cipher.decrypt(s.ratchet, c).value.1);
    }
    var held := Run(cipher, crashed, [Start(w, c), Decrypt(w)]);
    assert held.workers == map[w := Decrypted(c, p)] && held.calls == s.calls;
    Handled(cipher, held, w, c, p, Accepted);
    Cleared(cipher, Step(cipher, held, Handle(w, Accepted)), w, c);
  }
}
