/**
 * The summation hash of appstate/lthash: a 128-byte value read as 64 little-endian
 * 16-bit words that are added and subtracted with wrap-around.
 */
module LTHash {
  import opened Bytes

  const HASH_SIZE := 128
  const WORDS := 64

  type Hash = h: Bytes | |h| == HASH_SIZE witness Zeros(HASH_SIZE)

  /** HKDF-SHA256 with the fixed info string: any function to 128-byte strings. */
  type Expander = Bytes -> Hash

  /** The `j`-th little-endian 16-bit word of a hash. */
  function Word(h: Bytes, j: nat): (w: int)
    requires 2 * j + 1 < |h|
    ensures 0 <= w < 0x1_0000
  {
    h[2 * j] as int + 256 * (h[2 * j + 1] as int)
  }

  lemma WordsDetermineHash(a: Hash, b: Hash)
    requires forall j: nat :: j < WORDS ==> Word(a, j) == Word(b, j)
    ensures a == b
  {
    forall i | 0 <= i < HASH_SIZE
      ensures a[i] == b[i]
    {
      assert Word(a, i / 2) == Word(b, i / 2);
      assert i == 2 * (i / 2) || i == 2 * (i / 2) + 1;
    }
  }

  /** What the word `j` of one expanded item contributes. */
  function Weight(expand: Expander, j: nat): Bytes -> int
    requires j < WORDS
  {
    (v: Bytes) => Word(expand(v), j)
  }

  /** The sum of a weight over a list. */
  function Sum(w: Bytes -> int, items: seq<Bytes>): int
  {
    if items == [] then 0 else Sum(w, items[..|items| - 1]) + w(items[|items| - 1])
  }

  lemma NothingSums(expand: Expander)
    ensures forall j: nat :: j < WORDS ==> Sum(Weight(expand, j), []) == 0
  {
  }

  lemma {:induction false} SumAppend(w: Bytes -> int, a: seq<Bytes>, b: seq<Bytes>)
    ensures Sum(w, a + b) == Sum(w, a) + Sum(w, b)
  {
    if b == [] {
      assert a + b == a;
    } else {
      var n := |b| - 1;
      SumAppend(w, a, b[..n]);
      assert (a + b)[..|a + b| - 1] == a + b[..n];
    }
  }

  lemma SumWithout(w: Bytes -> int, items: seq<Bytes>, i: nat)
    requires i < |items|
    ensures var rest := items[..i] + items[i + 1..];
            Sum(w, items) == Sum(w, rest) + w(items[i]) && multiset(rest) == multiset(items) - multiset{items[i]}
  {
    var front, back := items[..i], items[i + 1..];
    assert items == front + ([items[i]] + back);
    SumAppend(w, front, back);
    SumAppend(w, front, [items[i]] + back);
    SumAppend(w, [items[i]], back);
    assert Sum(w, [items[i]]) == w(items[i]);
    assert multiset(items) == multiset(front) + multiset{items[i]} + multiset(back);
    assert multiset(front + back) == multiset(front) + multiset(back);
  }

  lemma {:induction false} SumOfMultiset(w: Bytes -> int, a: seq<Bytes>, b: seq<Bytes>)
    requires multiset(a) == multiset(b)
    ensures Sum(w, a) == Sum(w, b)
  {
    if a == [] {
      assert |multiset(b)| == 0;
    } else {
      assert a[0] in multiset(b);
      var i :| 0 <= i < |b| && b[i] == a[0];
      SumWithout(w, a, 0);
      SumWithout(w, b, i);
      SumOfMultiset(w, a[..0] + a[1..], b[..i] + b[i + 1..]);
    }
  }

  /** Addition or subtraction of one word, with uint16 wrap-around. */
  function WordOp(x: int, y: int, subtract: bool): (r: int)
    ensures 0 <= r < 0x1_0000
  {
    if subtract then (x - y) % 0x1_0000 else (x + y) % 0x1_0000
  }

  lemma ModShift(x: int, d: int)
    ensures (x % 0x1_0000 + d) % 0x1_0000 == (x + d) % 0x1_0000
  {
  }

  /** The pointwise operation, two bytes at a time; `PointwiseWord` describes it word by word. */
  function Pointwise(base: Bytes, input: Bytes, subtract: bool): (r: Bytes)
    requires |base| == |input| && |base| % 2 == 0
    ensures |r| == |base|
  {
    if base == [] then [] else
      var w := WordOp(Word(base, 0), Word(input, 0), subtract);
      [w % 256, w / 256] + Pointwise(base[2..], input[2..], subtract)
  }

  lemma {:induction false} PointwiseBytes(base: Bytes, input: Bytes, subtract: bool, j: nat)
    requires |base| == |input| && |base| % 2 == 0 && 2 * j + 1 < |base|
    ensures var w := WordOp(Word(base, j), Word(input, j), subtract);
            var r := Pointwise(base, input, subtract);
            r[2 * j] == w % 256 && r[2 * j + 1] == w / 256
  {
    if j > 0 {
      PointwiseBytes(base[2..], input[2..], subtract, j - 1);
    }
  }

  lemma PointwiseWord(base: Bytes, input: Bytes, subtract: bool, j: nat)
    requires |base| == |input| && |base| % 2 == 0 && 2 * j + 1 < |base|
    ensures Word(Pointwise(base, input, subtract), j) == WordOp(Word(base, j), Word(input, j), subtract)
  {
    PointwiseBytes(base, input, subtract, j);
  }

  /** The in-place loop over a byte array, two bytes at a time. */
  method PerformPointwiseWithOverflow(base: array<byte>, input: Hash, subtract: bool)
    requires base.Length == HASH_SIZE
    modifies base
    ensures base[..] == Pointwise(old(base[..]), input, subtract)
  {
    hide Pointwise;
    ghost var want := Pointwise(base[..], input, subtract);
    var i := 0;
    while i < base.Length
      invariant 0 <= i <= base.Length && i % 2 == 0
      invariant forall k :: 0 <= k < i ==> base[k] == want[k]
      invariant forall k :: i <= k < base.Length ==> base[k] == old(base[k])
    {
      var x := base[i] as int + 256 * (base[i + 1] as int);
      var y := input[i] as int + 256 * (input[i + 1] as int);
      var result;
      if subtract {
        result := (x - y) % 0x1_0000;
      } else {
        result := (x + y) % 0x1_0000;
      }
      PointwiseBytes(old(base[..]), input, subtract, i / 2);
      base[i] := result % 256;
      base[i + 1] := result / 256;
      i := i + 2;
    }
  }

  /** Applying one operation for every item of a list. */
  function MultipleOpSpec(expand: Expander, base: Hash, items: seq<Bytes>, subtract: bool): Hash
  {
    if items == [] then base
    else Pointwise(MultipleOpSpec(expand, base, items[..|items| - 1], subtract),
                   expand(items[|items| - 1]), subtract)
  }

  method MultipleOp(expand: Expander, base: array<byte>, items: seq<Bytes>, subtract: bool)
    requires base.Length == HASH_SIZE
    modifies base
    ensures base[..] == MultipleOpSpec(expand, old(base[..]), items, subtract)
  {
    for n := 0 to |items|
      invariant base[..] == MultipleOpSpec(expand, old(base[..]), items[..n], subtract)
    {
      PerformPointwiseWithOverflow(base, expand(items[n]), subtract);
      assert items[..n + 1][..n] == items[..n];
    }
    assert items[..|items|] == items;
  }

  lemma {:induction false} MultipleOpWord(expand: Expander, base: Hash, items: seq<Bytes>, subtract: bool, j: nat)
    requires j < WORDS
    ensures Word(MultipleOpSpec(expand, base, items, subtract), j)
         == if subtract then (Word(base, j) - Sum(Weight(expand, j), items)) % 0x1_0000
            else (Word(base, j) + Sum(Weight(expand, j), items)) % 0x1_0000
  {
    if items != [] {
      var rest := items[..|items| - 1];
      MultipleOpWord(expand, base, rest, subtract, j);
      var last := items[|items| - 1];
      PointwiseWord(MultipleOpSpec(expand, base, rest, subtract), expand(last), subtract, j);
      assert Sum(Weight(expand, j), items) == Sum(Weight(expand, j), rest) + Word(expand(last), j);
      ModShift(Word(base, j) - Sum(Weight(expand, j), rest), -Word(expand(last), j));
      ModShift(Word(base, j) + Sum(Weight(expand, j), rest), Word(expand(last), j));
    }
  }

  /** The hash after first subtracting and then adding whole lists of items. */
  function SubtractThenAdd(expand: Expander, base: Hash, subtract: seq<Bytes>, add: seq<Bytes>): Hash
  {
    MultipleOpSpec(expand, MultipleOpSpec(expand, base, subtract, true), add, false)
  }

  method SubtractThenAddInPlace(expand: Expander, base: array<byte>, subtract: seq<Bytes>, add: seq<Bytes>)
    requires base.Length == HASH_SIZE
    modifies base
    ensures base[..] == SubtractThenAdd(expand, old(base[..]), subtract, add)
  {
    MultipleOp(expand, base, subtract, true);
    MultipleOp(expand, base, add, false);
  }

  /** The copying entry point: the caller's bytes are left alone. */
  method SubtractThenAddCopy(expand: Expander, base: Hash, subtract: seq<Bytes>, add: seq<Bytes>) returns (r: Hash)
    ensures forall j: nat :: j < WORDS ==>
      Word(r, j) == (Word(base, j) - Sum(Weight(expand, j), subtract) + Sum(Weight(expand, j), add)) % 0x1_0000
    ensures r == SubtractThenAdd(expand, base, subtract, add)
  {
    var output := new byte[HASH_SIZE](i requires 0 <= i < HASH_SIZE => base[i]);
    assert output[..] == base;
    SubtractThenAddInPlace(expand, output, subtract, add);
    r := output[..];
    forall j: nat | j < WORDS
      ensures Word(r, j) == (Word(base, j) - Sum(Weight(expand, j), subtract) + Sum(Weight(expand, j), add)) % 0x1_0000
    {
      SubtractThenAddWord(expand, base, subtract, add, j);
    }
  }

  /** Each word of the result is an integer sum, reduced once at the end. */
  lemma SubtractThenAddWord(expand: Expander, base: Hash, subtract: seq<Bytes>, add: seq<Bytes>, j: nat)
    requires j < WORDS
    ensures Word(SubtractThenAdd(expand, base, subtract, add), j)
         == (Word(base, j) - Sum(Weight(expand, j), subtract) + Sum(Weight(expand, j), add)) % 0x1_0000
  {
    hide MultipleOpSpec, Sum, Weight, Word;
    MultipleOpWord(expand, base, subtract, true, j);
    MultipleOpWord(expand, MultipleOpSpec(expand, base, subtract, true), add, false, j);
    ModShift(Word(base, j) - Sum(Weight(expand, j), subtract), Sum(Weight(expand, j), add));
  }

  /** Equal multisets of inputs give equal hashes: order never matters. */
  lemma OnlyMultisetsMatter(expand: Expander, base: Hash, sub: seq<Bytes>, sub': seq<Bytes>,
                            add: seq<Bytes>, add': seq<Bytes>)
    requires multiset(sub) == multiset(sub') && multiset(add) == multiset(add')
    ensures SubtractThenAdd(expand, base, sub, add) == SubtractThenAdd(expand, base, sub', add')
  {
    forall j: nat | j < WORDS
      ensures Word(SubtractThenAdd(expand, base, sub, add), j) == Word(SubtractThenAdd(expand, base, sub', add'), j)
    {
      SubtractThenAddWord(expand, base, sub, add, j);
      SubtractThenAddWord(expand, base, sub', add', j);
      SumOfMultiset(Weight(expand, j), sub, sub');
      SumOfMultiset(Weight(expand, j), add, add');
    }
    WordsDetermineHash(SubtractThenAdd(expand, base, sub, add), SubtractThenAdd(expand, base, sub', add'));
  }

  /** Two updates in a row are one update with the lists joined. */
  lemma Composes(expand: Expander, base: Hash, sub1: seq<Bytes>, add1: seq<Bytes>, sub2: seq<Bytes>, add2: seq<Bytes>)
    ensures SubtractThenAdd(expand, SubtractThenAdd(expand, base, sub1, add1), sub2, add2)
         == SubtractThenAdd(expand, base, sub1 + sub2, add1 + add2)
  {
    var lhs := SubtractThenAdd(expand, SubtractThenAdd(expand, base, sub1, add1), sub2, add2);
    var rhs := SubtractThenAdd(expand, base, sub1 + sub2, add1 + add2);
    forall j: nat | j < WORDS
      ensures Word(lhs, j) == Word(rhs, j)
    {
      ComposesWord(expand, base, sub1, add1, sub2, add2, j);
    }
    WordsDetermineHash(lhs, rhs);
  }

  lemma ComposesWord(expand: Expander, base: Hash, sub1: seq<Bytes>, add1: seq<Bytes>,
                     sub2: seq<Bytes>, add2: seq<Bytes>, j: nat)
    requires j < WORDS
    ensures Word(SubtractThenAdd(expand, SubtractThenAdd(expand, base, sub1, add1), sub2, add2), j)
         == Word(SubtractThenAdd(expand, base, sub1 + sub2, add1 + add2), j)
  {
    var w := Weight(expand, j);
    SubtractThenAddWord(expand, base, sub1, add1, j);
    SubtractThenAddWord(expand, SubtractThenAdd(expand, base, sub1, add1), sub2, add2, j);
    SubtractThenAddWord(expand, base, sub1 + sub2, add1 + add2, j);
    SumAppend(w, sub1, sub2);
    SumAppend(w, add1, add2);
    ModShift(Word(base, j) - Sum(w, sub1) + Sum(w, add1), Sum(w, add2) - Sum(w, sub2));
  }

  /** Swapping the two lists undoes an update. */
  lemma Undoes(expand: Expander, base: Hash, sub: seq<Bytes>, add: seq<Bytes>)
    ensures SubtractThenAdd(expand, SubtractThenAdd(expand, base, sub, add), add, sub) == base
  {
    Composes(expand, base, sub, add, add, sub);
    var r := SubtractThenAdd(expand, base, sub + add, add + sub);
    forall j: nat | j < WORDS
      ensures Word(r, j) == Word(base, j)
    {
      SubtractThenAddWord(expand, base, sub + add, add + sub, j);
      SumAppend(Weight(expand, j), sub, add);
      SumAppend(Weight(expand, j), add, sub);
    }
    WordsDetermineHash(r, base);
  }

  /** With the same base and additions, two subtractions agree exactly when their word sums agree modulo 2^16. */
  lemma SubtractionsAgreeIff(expand: Expander, base: Hash, sub: seq<Bytes>, sub': seq<Bytes>, add: seq<Bytes>)
    ensures SubtractThenAdd(expand, base, sub, add) == SubtractThenAdd(expand, base, sub', add)
       <==> forall j: nat :: j < WORDS ==>
              Sum(Weight(expand, j), sub) % 0x1_0000 == Sum(Weight(expand, j), sub') % 0x1_0000
  {
    var a := SubtractThenAdd(expand, base, sub, add);
    var b := SubtractThenAdd(expand, base, sub', add);
    forall j: nat | j < WORDS
      ensures Word(a, j) == Word(b, j)
         <==> Sum(Weight(expand, j), sub) % 0x1_0000 == Sum(Weight(expand, j), sub') % 0x1_0000
    {
      var w := Weight(expand, j);
      SubtractThenAddWord(expand, base, sub, add, j);
      SubtractThenAddWord(expand, base, sub', add, j);
      ModDifference(Word(base, j) + Sum(w, add), Sum(w, sub), Sum(w, sub'));
    }
    if forall j: nat :: j < WORDS ==> Word(a, j) == Word(b, j) {
      WordsDetermineHash(a, b);
    }
  }

  lemma ModDifference(x: int, a: int, b: int)
    ensures (x - a) % 0x1_0000 == (x - b) % 0x1_0000 <==> a % 0x1_0000 == b % 0x1_0000
  {
  }

  /**
   * A carry goes from the first byte of a word to the second and not into the next word: the words are little-endian.
   */
  lemma CarryGoesUp()
    ensures Pointwise([255, 0, 255, 255], [1, 0, 1, 0], false) == [0, 1, 0, 0]
    ensures Pointwise([0, 1, 0, 0], [1, 0, 1, 0], true) == [255, 0, 255, 255]
  {
    PointwiseBytes([255, 0, 255, 255], [1, 0, 1, 0], false, 0);
    PointwiseBytes([255, 0, 255, 255], [1, 0, 1, 0], false, 1);
    PointwiseBytes([0, 1, 0, 0], [1, 0, 1, 0], true, 0);
    PointwiseBytes([0, 1, 0, 0], [1, 0, 1, 0], true, 1);
    hide Pointwise;
  }
}
