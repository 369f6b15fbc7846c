/**
 * sort.Slice promises nothing about fields with the same number. When do the extracted bytes nevertheless not depend
 * on what it does with them?
 */
module ReportingTies {
  import opened Bytes
  import opened Reporting

  predicate Commute(x: Entry, y: Entry)
  {
    x.bytes + y.bytes == y.bytes + x.bytes
  }

  predicate TiesCommute(es: seq<Entry>)
  {
    forall i, j :: 0 <= i < |es| && 0 <= j < |es| && es[i].number == es[j].number ==> Commute(es[i], es[j])
  }

  ghost predicate SortOf(a: seq<Entry>, es: seq<Entry>)
  {
    SortedByNumber(a) && multiset(a) == multiset(es)
  }

  /** Every way to sort the entries gives the same bytes. */
  ghost predicate Determined(es: seq<Entry>)
  {
    forall a, b :: SortOf(a, es) && SortOf(b, es) ==> Concat(a) == Concat(b)
  }

  lemma ConcatStep(a: seq<Entry>)
    ensures Concat(a) == if a == [] then [] else a[0].bytes + Concat(a[1..])
  {
  }

  lemma {:induction false} ConcatAppend(a: seq<Entry>, b: seq<Entry>)
    ensures Concat(a + b) == Concat(a) + Concat(b)
  {
    hide Concat;
    ConcatStep(a);
    if a == [] {
      assert a + b == b;
    } else {
      ConcatAppend(a[1..], b);
      assert (a + b)[0] == a[0] && (a + b)[1..] == a[1..] + b;
      ConcatStep(a + b);
    }
  }

  /* ---------- Ties that commute ---------- */

  lemma {:induction false} ToTheFront(a: seq<Entry>, i: nat)
    requires i < |a| && forall k :: 0 <= k < i ==> Commute(a[k], a[i])
    ensures Concat(a) == a[i].bytes + Concat(a[..i] + a[i + 1..])
  {
    if i == 0 {
      assert a[..0] + a[1..] == a[1..];
    } else {
      var tail, rest := a[1..], a[..i] + a[i + 1..];
      ToTheFront(tail, i - 1);
      assert tail[..i - 1] + tail[i..] == rest[1..] && rest[0] == a[0];
      var x, y, z := a[0].bytes, a[i].bytes, Concat(rest[1..]);
      assert Commute(a[0], a[i]);
      assert x + (y + z) == x + y + z && y + x + z == y + (x + z);
    }
  }

  lemma WithoutOne(a: seq<Entry>, i: nat, b: seq<Entry>)
    requires i < |a| && b == a[..i] + a[i + 1..]
    ensures multiset(b) == multiset(a) - multiset{a[i]} && |b| < |a|
    ensures SortedByNumber(a) ==> SortedByNumber(b)
    ensures TiesCommute(a) ==> TiesCommute(b)
  {
    hide Commute, SortedByNumber, TiesCommute;
    assert a == a[..i] + ([a[i]] + a[i + 1..]);
    MiddleMultiset(a[..i], a[i], a[i + 1..]);
    WithoutKeeps(a, i, b);
  }

  lemma WithoutKeeps(a: seq<Entry>, i: nat, b: seq<Entry>)
    requires i < |a| && b == a[..i] + a[i + 1..]
    ensures SortedByNumber(a) ==> SortedByNumber(b)
    ensures TiesCommute(a) ==> TiesCommute(b)
  {
    hide Commute;
    assert forall k :: 0 <= k < |b| ==> b[k] == a[if k < i then k else k + 1];
  }

  lemma TiedBefore(a: seq<Entry>, b: seq<Entry>, i: nat, k: nat)
    requires SortedByNumber(a) && SortedByNumber(b) && multiset(a) == multiset(b)
    requires k < i < |a| && b != [] && a[i] == b[0]
    ensures a[k].number == a[i].number
  {
    assert a[k] in multiset(b);
    var j :| 0 <= j < |b| && b[j] == a[k];
  }

  lemma {:induction false} SameBytes(a: seq<Entry>, b: seq<Entry>)
    requires SortedByNumber(a) && SortedByNumber(b) && multiset(a) == multiset(b) && TiesCommute(a)
    ensures Concat(a) == Concat(b)
    decreases |a|
  {
    hide SortedByNumber, TiesCommute, Concat;
    SameLength(a, b);
    if a != [] {
      var c := Peel(a, b);
      SameBytes(c, b[1..]);
      ConcatStep(b);
    }
  }

  lemma SameLength(a: seq<Entry>, b: seq<Entry>)
    requires multiset(a) == multiset(b)
    ensures |a| == |b|
  {
    assert |multiset(a)| == |a| && |multiset(b)| == |b|;
  }

  /** What is left of one sorted order when the first entry of the other is taken out of both. */
  lemma Peel(a: seq<Entry>, b: seq<Entry>) returns (c: seq<Entry>)
    requires SortedByNumber(a) && SortedByNumber(b) && multiset(a) == multiset(b) && TiesCommute(a) && b != []
    ensures SortedByNumber(c) && SortedByNumber(b[1..]) && multiset(c) == multiset(b[1..]) && TiesCommute(c)
    ensures |c| < |a| && Concat(a) == b[0].bytes + Concat(c)
  {
    hide SortedByNumber, TiesCommute, Concat;
    TailOf(b);
    var i := FirstOf(a, b);
    c := a[..i] + a[i + 1..];
    WithoutOne(a, i, c);
  }

  lemma TailOf(b: seq<Entry>)
    requires b != []
    ensures SortedByNumber(b) ==> SortedByNumber(b[1..])
    ensures multiset(b[1..]) == multiset(b) - multiset{b[0]}
  {
    TailMultiset(b);
  }

  /** The first entry of one sorted order can be moved to the front of the other. */
  lemma FirstOf(a: seq<Entry>, b: seq<Entry>) returns (i: nat)
    requires SortedByNumber(a) && SortedByNumber(b) && multiset(a) == multiset(b) && TiesCommute(a) && b != []
    ensures i < |a| && a[i] == b[0] && Concat(a) == a[i].bytes + Concat(a[..i] + a[i + 1..])
  {
    hide SortedByNumber, Concat, Commute;
    assert b[0] in multiset(a);
    i :| 0 <= i < |a| && a[i] == b[0];
    forall k | 0 <= k < i ensures Commute(a[k], a[i]) {
      TiedBefore(a, b, i, k);
    }
    ToTheFront(a, i);
  }

  /* ---------- Ties that do not ---------- */

  lemma SameNumbers(a: seq<Entry>, b: seq<Entry>)
    requires SortedByNumber(a) && |a| == |b| && forall k :: 0 <= k < |a| ==> a[k].number == b[k].number
    ensures SortedByNumber(b)
  {
  }

  /** Two tied entries can be made neighbours, in either order, without leaving sorted order. */
  lemma Neighbours(s: seq<Entry>, p: nat, q: nat)
    requires SortedByNumber(s) && p < q < |s| && s[p].number == s[q].number
    ensures var pre, post := s[..p], s[p + 1..q] + s[q + 1..];
            SortOf(pre + [s[p], s[q]] + post, s) && SortOf(pre + [s[q], s[p]] + post, s)
  {
    var pre, mid, post := s[..p], s[p + 1..q], s[q + 1..];
    var a, b := pre + [s[p], s[q]] + (mid + post), pre + [s[q], s[p]] + (mid + post);
    assert s == pre + [s[p]] + mid + [s[q]] + post;
    forall k | 0 <= k < |s| ensures s[k].number == a[k].number == b[k].number {
      if p <= k <= q {
        assert s[k].number == s[p].number;
        assert a[k].number == s[p].number && b[k].number == s[p].number by { Between(s, p, q, k); }
      }
    }
    SameNumbers(s, a);
    SameNumbers(s, b);
    hide SortedByNumber;
    SamePieces(pre, s[p], mid, s[q], post);
  }

  lemma SamePieces(pre: seq<Entry>, x: Entry, mid: seq<Entry>, y: Entry, post: seq<Entry>)
    ensures var s := pre + [x] + mid + [y] + post;
            multiset(pre + [x, y] + (mid + post)) == multiset(s) == multiset(pre + [y, x] + (mid + post))
  {
  }

  lemma Between(s: seq<Entry>, p: nat, q: nat, k: nat)
    requires SortedByNumber(s) && p < q < |s| && s[p].number == s[q].number && p <= k <= q
    ensures (k >= p + 2 ==> s[p + 1..q][k - p - 2].number == s[p].number)
  {
  }

  lemma SwapChanges(pre: seq<Entry>, x: Entry, y: Entry, post: seq<Entry>)
    requires Concat(pre + [x, y] + post) == Concat(pre + [y, x] + post)
    ensures Commute(x, y)
  {
    ConcatAppend(pre + [x, y], post);
    ConcatAppend(pre + [y, x], post);
    ConcatAppend(pre, [x, y]);
    ConcatAppend(pre, [y, x]);
    PairBytes(x, y);
    PairBytes(y, x);
    var n, m := |Concat(pre)|, |x.bytes| + |y.bytes|;
    var a, b := Concat(pre) + (x.bytes + y.bytes) + Concat(post), Concat(pre) + (y.bytes + x.bytes) + Concat(post);
    assert a[n..n + m] == x.bytes + y.bytes && b[n..n + m] == y.bytes + x.bytes;
  }

  lemma PairBytes(x: Entry, y: Entry)
    ensures Concat([x, y]) == x.bytes + y.bytes
  {
    assert [x, y][1..] == [y] && [y][1..] == [];
    assert Concat([y]) == y.bytes;
  }

  lemma Placed(s: seq<Entry>, x: Entry, y: Entry) returns (p: nat, q: nat)
    requires x in multiset(s) && y in multiset(s) && x != y
    ensures p < |s| && q < |s| && p != q && s[p] == x && s[q] == y
  {
    p :| 0 <= p < |s| && s[p] == x;
    q :| 0 <= q < |s| && s[q] == y;
  }

  /**
   * The extracted bytes do not depend on how ties are broken if and only if the bytes of any two tied entries give
   * the same string in either order. (Entries with different numbers, or equal entries, always qualify.)
   */
  lemma DeterminedIff(sort: Sorter, es: seq<Entry>)
    requires SortsByNumber(sort)
    ensures Determined(es) <==> TiesCommute(es)
  {
    if TiesCommute(es) {
      forall a, b | SortOf(a, es) && SortOf(b, es) ensures Concat(a) == Concat(b) {
        CommuteElsewhere(es, a);
        SameBytes(a, b);
      }
    } else {
      var i, j :| 0 <= i < |es| && 0 <= j < |es| && es[i].number == es[j].number && !Commute(es[i], es[j]);
      Disagreement(sort(es), es, es[i], es[j]);
    }
  }

  lemma CommuteElsewhere(es: seq<Entry>, a: seq<Entry>)
    requires TiesCommute(es) && multiset(a) == multiset(es)
    ensures TiesCommute(a)
  {
    hide Commute;
    forall i, j | 0 <= i < |a| && 0 <= j < |a| && a[i].number == a[j].number ensures Commute(a[i], a[j]) {
      assert a[i] in multiset(es) && a[j] in multiset(es);
      var k :| 0 <= k < |es| && es[k] == a[i];
      var l :| 0 <= l < |es| && es[l] == a[j];
    }
  }

  lemma Disagreement(s: seq<Entry>, es: seq<Entry>, x: Entry, y: Entry)
    requires SortOf(s, es) && x in es && y in es && x.number == y.number && !Commute(x, y)
    ensures !Determined(es)
  {
    assert x in multiset(s) && y in multiset(s);
    assert x != y && !Commute(y, x);
    hide SortedByNumber, Concat, Commute, Determined;
    var p, q := Placed(s, x, y);
    if p < q {
      NeighboursDisagree(s, es, p, q);
    } else {
      NeighboursDisagree(s, es, q, p);
    }
  }

  lemma NeighboursDisagree(s: seq<Entry>, es: seq<Entry>, p: nat, q: nat)
    requires SortOf(s, es) && p < q < |s| && s[p].number == s[q].number && !Commute(s[p], s[q])
    ensures !Determined(es)
  {
    hide SortedByNumber, Concat, Commute;
    Neighbours(s, p, q);
    var pre, post := s[..p], s[p + 1..q] + s[q + 1..];
    var a, b := pre + [s[p], s[q]] + post, pre + [s[q], s[p]] + post;
    assert SortOf(a, es) && SortOf(b, es);
    if Concat(a) == Concat(b) {
      SwapChanges(pre, s[p], s[q], post);
      assert false;
    }
  }
}
