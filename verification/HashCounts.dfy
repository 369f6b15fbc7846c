/**
 * What agreement of hashes means when it has to hold under every expansion, as it practically does under HKDF: the
 * same values the same number of times, up to multiples of 2^16.
 */
module HashCounts {
  import opened Bytes
  import opened LTHash
  import opened AppState

  /** An expansion that counts one item and ignores all others. */
  function Counter(x: Bytes): Expander
  {
    (v: Bytes) => if v == x then [1] + Zeros(HASH_SIZE - 1) else Zeros(HASH_SIZE)
  }

  lemma CounterWeight(x: Bytes, v: Bytes)
    ensures Weight(Counter(x), 0)(v) == if v == x then 1 else 0
  {
    var h := Counter(x)(v);
    assert h[0] == (if v == x then 1 else 0) && h[1] == 0;
  }

  lemma {:induction false} CounterCounts(x: Bytes, items: seq<Bytes>)
    ensures Sum(Weight(Counter(x), 0), items) == multiset(items)[x]
  {
    if items != [] {
      var n := |items| - 1;
      CounterCounts(x, items[..n]);
      CounterWeight(x, items[n]);
      assert items == items[..n] + [items[n]];
    }
  }

  /* ---------- Lists ---------- */

  /** Each item occurs equally often in both lists, up to multiples of 2^16. */
  ghost predicate Congruent(a: seq<Bytes>, b: seq<Bytes>)
  {
    forall x :: multiset(a)[x] % 0x1_0000 == multiset(b)[x] % 0x1_0000
  }

  function Purge(a: seq<Bytes>, x: Bytes): (r: seq<Bytes>)
    ensures |r| <= |a|
  {
    if a == [] then [] else Purge(a[..|a| - 1], x) + if a[|a| - 1] == x then [] else [a[|a| - 1]]
  }

  lemma CountStep(a: seq<Bytes>, x: Bytes)
    requires a != []
    ensures var n := |a| - 1; multiset(a)[x] == multiset(a[..n])[x] + if a[n] == x then 1 else 0
  {
    assert a == a[..|a| - 1] + [a[|a| - 1]];
  }

  lemma CountSnoc(a: seq<Bytes>, y: Bytes, x: Bytes)
    ensures multiset(a + [y])[x] == multiset(a)[x] + if y == x then 1 else 0
  {
  }

  lemma OneMoreTime(c: nat, w: int)
    ensures (c + 1) * w == c * w + w
  {
  }

  lemma SumSnoc(w: Bytes -> int, a: seq<Bytes>, y: Bytes)
    ensures Sum(w, a + [y]) == Sum(w, a) + w(y)
  {
    assert (a + [y])[..|a + [y]| - 1] == a;
  }

  lemma {:induction false} PurgeSum(w: Bytes -> int, a: seq<Bytes>, x: Bytes)
    ensures Sum(w, a) == multiset(a)[x] * w(x) + Sum(w, Purge(a, x))
  {
    if a != [] {
      var n := |a| - 1;
      PurgeSum(w, a[..n], x);
      CountStep(a, x);
      var c := multiset(a[..n])[x];
      if a[n] == x {
        OneMoreTime(c, w(x));
        assert Purge(a, x) == Purge(a[..n], x);
      } else {
        SumSnoc(w, Purge(a[..n], x), a[n]);
      }
    }
  }

  lemma {:induction false} PurgeShrinks(a: seq<Bytes>, x: Bytes)
    requires x in a
    ensures |Purge(a, x)| < |a|
  {
    var n := |a| - 1;
    if a[n] != x {
      PurgeShrinks(a[..n], x);
    }
  }

  lemma {:induction false} PurgeCounts(a: seq<Bytes>, x: Bytes, y: Bytes)
    ensures multiset(Purge(a, x))[y] == if y == x then 0 else multiset(a)[y]
  {
    if a != [] {
      var n := |a| - 1;
      PurgeCounts(a[..n], x, y);
      CountStep(a, y);
      if a[n] == x {
        assert Purge(a, x) == Purge(a[..n], x);
      } else {
        CountSnoc(Purge(a[..n], x), a[n], y);
      }
    }
  }

  lemma WholeTurns(count: nat, weight: int, rest: int)
    requires count % 0x1_0000 == 0
    ensures (count * weight + rest) % 0x1_0000 == rest % 0x1_0000
  {
    var k := count / 0x1_0000;
    assert count * weight == 0x1_0000 * (k * weight);
  }

  /** Taking out an item that occurs a multiple of 2^16 times changes no sum. */
  lemma PurgeKeeps(w: Bytes -> int, a: seq<Bytes>, b: seq<Bytes>, x: Bytes)
    requires Congruent(a, b) && x in a && x !in b
    ensures Congruent(Purge(a, x), b) && |Purge(a, x)| < |a|
    ensures Sum(w, Purge(a, x)) % 0x1_0000 == Sum(w, a) % 0x1_0000
  {
    hide Sum, Purge;
    PurgeShrinks(a, x);
    AbsentCount(b, x);
    assert multiset(a)[x] % 0x1_0000 == multiset(b)[x] % 0x1_0000;
    hide Congruent;
    PurgeTurns(w, a, x);
    PurgeCongruent(a, b, x);
  }

  lemma PurgeTurns(w: Bytes -> int, a: seq<Bytes>, x: Bytes)
    requires multiset(a)[x] % 0x1_0000 == 0
    ensures Sum(w, Purge(a, x)) % 0x1_0000 == Sum(w, a) % 0x1_0000
  {
    hide Sum, Purge;
    PurgeSum(w, a, x);
    WholeTurns(multiset(a)[x], w(x), Sum(w, Purge(a, x)));
  }

  lemma AbsentCount(b: seq<Bytes>, x: Bytes)
    requires x !in b
    ensures multiset(b)[x] == 0
  {
  }

  lemma PurgeCongruent(a: seq<Bytes>, b: seq<Bytes>, x: Bytes)
    requires Congruent(a, b) && multiset(b)[x] == 0
    ensures Congruent(Purge(a, x), b)
  {
    hide Purge;
    forall y ensures multiset(Purge(a, x))[y] % 0x1_0000 == multiset(b)[y] % 0x1_0000 {
      PurgeCounts(a, x, y);
    }
  }

  lemma {:induction false} CongruentSums(w: Bytes -> int, a: seq<Bytes>, b: seq<Bytes>)
    requires Congruent(a, b)
    ensures Sum(w, a) % 0x1_0000 == Sum(w, b) % 0x1_0000
    decreases |a| + |b|
  {
    hide Sum, Congruent, Purge;
    if a == [] && b != [] {
      CongruentTurned(a, b);
      PurgeKeeps(w, b, a, b[0]);
      CongruentTurned(Purge(b, b[0]), a);
      CongruentSums(w, a, Purge(b, b[0]));
    } else if a != [] && a[0] !in b {
      PurgeKeeps(w, a, b, a[0]);
      CongruentSums(w, Purge(a, a[0]), b);
    } else if a != [] {
      var i :| 0 <= i < |b| && b[i] == a[0];
      SumWithout(w, a, 0);
      SumWithout(w, b, i);
      OneLess(a, b, i);
      CongruentSums(w, a[..0] + a[1..], b[..i] + b[i + 1..]);
      ModShift(Sum(w, a[..0] + a[1..]), w(a[0]));
      ModShift(Sum(w, b[..i] + b[i + 1..]), w(a[0]));
    }
  }

  lemma CongruentTurned(a: seq<Bytes>, b: seq<Bytes>)
    requires Congruent(a, b)
    ensures Congruent(b, a)
  {
  }

  lemma OneLess(a: seq<Bytes>, b: seq<Bytes>, i: nat)
    requires Congruent(a, b) && a != [] && i < |b| && b[i] == a[0]
    ensures Congruent(a[..0] + a[1..], b[..i] + b[i + 1..])
  {
    var c, d := a[..0] + a[1..], b[..i] + b[i + 1..];
    forall y ensures multiset(c)[y] % 0x1_0000 == multiset(d)[y] % 0x1_0000 {
      WithoutCount(a, 0, y);
      WithoutCount(b, i, y);
      OneLessCount(multiset(c)[y], multiset(d)[y], if y == a[0] then 1 else 0);
    }
  }

  lemma WithoutCount(a: seq<Bytes>, i: nat, y: Bytes)
    requires i < |a|
    ensures multiset(a)[y] == multiset(a[..i] + a[i + 1..])[y] + if y == a[i] then 1 else 0
  {
    assert a == a[..i] + ([a[i]] + a[i + 1..]);
    MiddleMultiset(a[..i], a[i], a[i + 1..]);
  }

  lemma OneLessCount(c: nat, d: nat, k: nat)
    requires (c + k) % 0x1_0000 == (d + k) % 0x1_0000
    ensures c % 0x1_0000 == d % 0x1_0000
  {
    var m: int := k;
    ModShift(c + k, 0 - m);
    ModShift(d + k, 0 - m);
  }

  ghost predicate SameSums(expand: Expander, a: seq<Bytes>, b: seq<Bytes>)
  {
    forall j: nat :: j < WORDS ==> Sum(Weight(expand, j), a) % 0x1_0000 == Sum(Weight(expand, j), b) % 0x1_0000
  }

  /** Two lists have the same word sums under every expansion if and only if they are congruent. */
  lemma SumsAgreeIff(a: seq<Bytes>, b: seq<Bytes>)
    ensures (forall expand: Expander :: SameSums(expand, a, b)) <==> Congruent(a, b)
  {
    if Congruent(a, b) {
      forall expand: Expander ensures SameSums(expand, a, b) {
        forall j: nat | j < WORDS ensures Sum(Weight(expand, j), a) % 0x1_0000 == Sum(Weight(expand, j), b) % 0x1_0000 {
          CongruentSums(Weight(expand, j), a, b);
        }
      }
    }
    if forall expand: Expander :: SameSums(expand, a, b) {
      forall x ensures multiset(a)[x] % 0x1_0000 == multiset(b)[x] % 0x1_0000 {
        CounterCounts(x, a);
        CounterCounts(x, b);
        assert SameSums(Counter(x), a, b);
      }
    }
  }

  /* ---------- Tables ---------- */

  /** The values of a table as a list. */
  ghost function Listed(t: Table): seq<Bytes>
    decreases |t|
  {
    if t == map[] then [] else
      var k :| k in t;
      Listed(t - {k}) + [t[k]]
  }

  lemma {:induction false} ListedSum(w: Bytes -> int, t: Table)
    ensures Sum(w, Listed(t)) == MapSum(w, t)
    decreases |t|
  {
    if t != map[] {
      var k :| k in t && Listed(t) == Listed(t - {k}) + [t[k]];
      MapSumRemove(w, t, k);
      ListedSum(w, t - {k});
      assert Listed(t)[..|Listed(t)| - 1] == Listed(t - {k});
    }
  }

  /** In how many rows a value stands. */
  function Copies(t: Table, x: Bytes): nat
  {
    |set k | k in t && t[k] == x|
  }

  lemma CopiesBounded(t: Table, x: Bytes)
    ensures Copies(t, x) <= |t|
  {
    var rows := set k | k in t && t[k] == x;
    assert rows <= t.Keys;
    SubsetSize(rows, t.Keys);
  }

  lemma SubsetSize<T>(a: set<T>, b: set<T>)
    requires a <= b
    ensures |a| <= |b|
  {
    assert b == a + (b - a);
  }

  lemma {:induction false} ListedCopies(t: Table, x: Bytes)
    ensures multiset(Listed(t))[x] == Copies(t, x)
    decreases |t|
  {
    CopiesBounded(t, x);
    if t != map[] {
      var k :| k in t && Listed(t) == Listed(t - {k}) + [t[k]];
      ListedCopies(t - {k}, x);
      CountSnoc(Listed(t - {k}), t[k], x);
      CopiesWithout(t, k, x);
    }
  }

  lemma CopiesWithout(t: Table, k: Bytes, x: Bytes)
    requires k in t
    ensures Copies(t, x) == Copies(t - {k}, x) + if t[k] == x then 1 else 0
  {
    var rest := t - {k};
    var a, b := set i | i in t && t[i] == x, set i | i in rest && rest[i] == x;
    if t[k] == x {
      assert a == b + {k};
    } else {
      assert a == b;
    }
  }

  ghost predicate SameCopies(t: Table, u: Table)
  {
    forall x :: Copies(t, x) % 0x1_0000 == Copies(u, x) % 0x1_0000
  }

  /**
   * A hash that agrees with one table agrees with another under every expansion if and only if their values are
   * congruent.
   */
  lemma TablesAgreeIff(t: Table, u: Table)
    ensures (forall expand: Expander, h: Hash :: Agrees(expand, h, t) ==> Agrees(expand, h, u)) <==> SameCopies(t, u)
  {
    CopiesAreCounts(t, u);
    SumsAgreeIff(Listed(t), Listed(u));
    hide Congruent, Copies;
    if SameCopies(t, u) {
      forall expand: Expander, h: Hash | Agrees(expand, h, t) ensures Agrees(expand, h, u) {
        TableSums(expand, t, u);
        assert SameSums(expand, Listed(t), Listed(u));
      }
    }
    if forall expand: Expander, h: Hash :: Agrees(expand, h, t) ==> Agrees(expand, h, u) {
      forall expand: Expander ensures SameSums(expand, Listed(t), Listed(u)) {
        var h := SumHash(expand, t);
        SumHashAgrees(expand, t);
        TableSums(expand, t, u);
        assert Agrees(expand, h, t) && Agrees(expand, h, u);
      }
    }
  }

  lemma CopiesAreCounts(t: Table, u: Table)
    ensures SameCopies(t, u) <==> Congruent(Listed(t), Listed(u))
  {
    forall x ensures multiset(Listed(t))[x] == Copies(t, x) && multiset(Listed(u))[x] == Copies(u, x) {
      ListedCopies(t, x);
      ListedCopies(u, x);
    }
    hide Copies;
  }

  lemma TableSums(expand: Expander, t: Table, u: Table)
    ensures forall j: nat :: j < WORDS ==>
              && MapSum(Weight(expand, j), t) == Sum(Weight(expand, j), Listed(t))
              && MapSum(Weight(expand, j), u) == Sum(Weight(expand, j), Listed(u))
  {
    forall j: nat | j < WORDS
      ensures MapSum(Weight(expand, j), t) == Sum(Weight(expand, j), Listed(t))
      ensures MapSum(Weight(expand, j), u) == Sum(Weight(expand, j), Listed(u))
    {
      ListedSum(Weight(expand, j), t);
      ListedSum(Weight(expand, j), u);
    }
  }

  /** The hash that agrees with a table. */
  ghost function SumHash(expand: Expander, t: Table): (h: Hash)
  {
    seq(HASH_SIZE, i requires 0 <= i < HASH_SIZE => SumByte(MapSum(Weight(expand, i / 2), t), i % 2))
  }

  function SumByte(total: int, place: int): byte
  {
    if place == 0 then total % 0x1_0000 % 256 else total % 0x1_0000 / 256
  }

  lemma SumHashAgrees(expand: Expander, t: Table)
    ensures Agrees(expand, SumHash(expand, t), t)
  {
    hide MapSum;
    var h := SumHash(expand, t);
    forall j: nat | j < WORDS ensures Word(h, j) == MapSum(Weight(expand, j), t) % 0x1_0000 {
      assert 2 * j / 2 == j && 2 * j % 2 == 0 && (2 * j + 1) / 2 == j && (2 * j + 1) % 2 == 1;
      assert h[2 * j] == SumByte(MapSum(Weight(expand, j), t), 0);
      assert h[2 * j + 1] == SumByte(MapSum(Weight(expand, j), t), 1);
    }
  }

  /* ---------- Snapshots ---------- */

  /**
   * A snapshot adds its values and subtracts nothing. It keeps hash and table in agreement under every expansion if
   * and only if each value it displaces is displaced a multiple of 2^16 times; whatever was stored before.
   */
  lemma SnapshotAlwaysAgreesIff(t: Table, ms: seq<SyncdMutation>)
    requires WellSized(ms)
    ensures (forall expand: Expander, h: Hash :: Agrees(expand, h, t) ==>
               Agrees(expand, SubtractThenAdd(expand, h, [], Added(ms)), ApplyMutations(t, ms)))
       <==> forall x :: multiset(Displaced(t, ms))[x] % 0x1_0000 == 0
  {
    var gone := Displaced(t, ms);
    hide Congruent, SubtractThenAdd, ApplyMutations, Displaced, Added, Agrees, SameSums, SumHash;
    SumsAgreeIff(gone, []);
    NothingCongruent(gone);
    if forall expand: Expander :: SameSums(expand, gone, []) {
      forall expand: Expander, h: Hash | Agrees(expand, h, t)
        ensures Agrees(expand, SubtractThenAdd(expand, h, [], Added(ms)), ApplyMutations(t, ms))
      {
        AdditionKeepsIff(expand, h, t, ms);
        assert SameSums(expand, gone, []);
      }
    } else {
      var expand: Expander :| !SameSums(expand, gone, []);
      var h := SumHash(expand, t);
      SumHashAgrees(expand, t);
      AdditionKeepsIff(expand, h, t, ms);
      assert Agrees(expand, h, t) && !Agrees(expand, SubtractThenAdd(expand, h, [], Added(ms)), ApplyMutations(t, ms));
    }
  }

  lemma AdditionKeepsIff(expand: Expander, h: Hash, t: Table, ms: seq<SyncdMutation>)
    requires WellSized(ms) && Agrees(expand, h, t)
    ensures Agrees(expand, SubtractThenAdd(expand, h, [], Added(ms)), ApplyMutations(t, ms)) <==>
        SameSums(expand, Displaced(t, ms), [])
  {
    hide SubtractThenAdd, ApplyMutations, Displaced, Added, Agrees, Sum, Weight;
    AdditionAgreesIff(expand, h, t, ms);
    NothingSums(expand);
  }

  lemma NothingCongruent(a: seq<Bytes>)
    ensures Congruent(a, []) <==> forall x :: multiset(a)[x] % 0x1_0000 == 0
  {
  }

  /** A snapshot that names one index twice, over an empty collection: under some expansion it breaks the agreement. */
  lemma TwiceInSnapshot(k: Bytes, v: Bytes, v': Bytes, keyID: Bytes) returns (expand: Expander, h: Hash)
    requires |v| >= 32 && |v'| >= 32
    ensures var ms := AsSets([SyncdRecord(k, v, keyID), SyncdRecord(k, v', keyID)]);
            WellSized(ms) && Agrees(expand, h, map[])
            && !Agrees(expand, SubtractThenAdd(expand, h, [], Added(ms)), ApplyMutations(map[], ms))
  {
    var ms := AsSets([SyncdRecord(k, v, keyID), SyncdRecord(k, v', keyID)]);
    var x := ValueMAC(v);
    assert ms[..1] == [ms[0]] && ms[..1][..0] == [];
    assert ApplyMutations(map[], ms[..1]) == map[k := x];
    assert Displaced(map[], ms[..1]) == [];
    assert Displaced(map[], ms) == [] + [x];
    hide SubtractThenAdd, ApplyMutations, Displaced, Added, Agrees;
    assert multiset([] + [x])[x] == 1;
    SnapshotAlwaysAgreesIff(map[], ms);
    expand, h :| Agrees(expand, h, map[]) &&
      !Agrees(expand, SubtractThenAdd(expand, h, [], Added(ms)), ApplyMutations(map[], ms));
  }
}
