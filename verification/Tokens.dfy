/** The token dictionaries of the binary XML format: binary/token/token.go. */
module Tokens {
  import opened Bytes

  const LIST_EMPTY: byte := 0
  const DICTIONARY_0: byte := 236
  const INTEROP_JID: byte := 245
  const FB_JID: byte := 246
  const AD_JID: byte := 247
  const LIST_8: byte := 248
  const LIST_16: byte := 249
  const JID_PAIR: byte := 250
  const HEX_8: byte := 251
  const BINARY_8: byte := 252
  const BINARY_20: byte := 253
  const BINARY_32: byte := 254
  const NIBBLE_8: byte := 255

  const PACKED_MAX := 127

  datatype DoubleIndex = DoubleIndex(dictionary: byte, index: byte)

  datatype Dictionary = Dictionary(single: seq<Bytes>, double: seq<seq<Bytes>>,
                                   singleIndex: map<Bytes, byte>, doubleIndex: map<Bytes, DoubleIndex>)

  /** Single tokens stay below the first tag, with index 0 unused; there are four dictionaries of one-byte indexes. */
  predicate TablesFit(single: seq<Bytes>, double: seq<seq<Bytes>>)
  {
    && 0 < |single| <= DICTIONARY_0 as int && single[0] == []
    && |double| == 4 && forall i :: 0 <= i < |double| ==> |double[i]| <= 256
  }

  /** Both index maps lead back to the token they were asked for. */
  predicate Consistent(d: Dictionary)
  {
    && TablesFit(d.single, d.double)
    && (forall s :: s in d.singleIndex ==> 1 <= d.singleIndex[s] < |d.single| && d.single[d.singleIndex[s]] == s)
    && (forall s :: s in d.doubleIndex ==>
          && d.doubleIndex[s].dictionary < |d.double|
          && d.doubleIndex[s].index < |d.double[d.doubleIndex[s].dictionary]|
          && d.double[d.doubleIndex[s].dictionary][d.doubleIndex[s].index] == s)
  }

  /** The package's init: fills both maps by loops over the tables. */
  method BuildIndex(single: seq<Bytes>, double: seq<seq<Bytes>>) returns (d: Dictionary)
    requires TablesFit(single, double)
    ensures d.single == single && d.double == double && Consistent(d)
    ensures forall i :: 0 <= i < |single| && single[i] != [] ==> single[i] in d.singleIndex
    ensures forall i, j :: 0 <= i < |double| && 0 <= j < |double[i]| ==> double[i][j] in d.doubleIndex
  {
    var singleIndex := IndexSingle(single);
    var doubleIndex := IndexDouble(double);
    d := Dictionary(single, double, singleIndex, doubleIndex);
  }

  method IndexSingle(single: seq<Bytes>) returns (index: map<Bytes, byte>)
    requires 0 < |single| <= DICTIONARY_0 as int && single[0] == []
    ensures forall s :: s in index ==> 1 <= index[s] < |single| && single[index[s]] == s
    ensures forall k :: 0 <= k < |single| && single[k] != [] ==> single[k] in index
  {
    index := map[];
    for i := 0 to |single|
      invariant forall s :: s in index ==> 1 <= index[s] < |single| && single[index[s]] == s
      invariant forall k :: 0 <= k < i && single[k] != [] ==> single[k] in index
    {
      if single[i] != [] {
        index := index[single[i] := i];
      }
    }
  }

  /** The entry leads back to its token. */
  predicate LeadsTo(double: seq<seq<Bytes>>, i: DoubleIndex, s: Bytes)
  {
    i.dictionary < |double| && i.index < |double[i.dictionary]| && double[i.dictionary][i.index] == s
  }

  method IndexDouble(double: seq<seq<Bytes>>) returns (index: map<Bytes, DoubleIndex>)
    requires |double| == 4 && forall i :: 0 <= i < |double| ==> |double[i]| <= 256
    ensures forall s :: s in index ==> LeadsTo(double, index[s], s)
    ensures forall k, j :: 0 <= k < |double| && 0 <= j < |double[k]| ==> double[k][j] in index
  {
    index := map[];
    for i := 0 to |double|
      invariant forall s :: s in index ==> LeadsTo(double, index[s], s)
      invariant forall k, j :: 0 <= k < i && 0 <= j < |double[k]| ==> double[k][j] in index
    {
      index := IndexOne(double, i, index);
    }
  }

  method IndexOne(double: seq<seq<Bytes>>, i: nat, before: map<Bytes, DoubleIndex>)
    returns (index: map<Bytes, DoubleIndex>)
    requires i < |double| == 4 && |double[i]| <= 256 && forall s :: s in before ==> LeadsTo(double, before[s], s)
    ensures forall s :: s in index ==> LeadsTo(double, index[s], s)
    ensures before.Keys <= index.Keys && forall j :: 0 <= j < |double[i]| ==> double[i][j] in index
  {
    index := before;
    for j := 0 to |double[i]|
      invariant forall s :: s in index ==> LeadsTo(double, index[s], s)
      invariant before.Keys <= index.Keys && forall k :: 0 <= k < j ==> double[i][k] in index
    {
      index := index[double[i][j] := DoubleIndex(i, j)];
    }
  }

  function GetDoubleToken(d: Dictionary, index1: int, index2: int): Option<Bytes>
  {
    if index1 < 0 || index1 >= |d.double| then None
    else if index2 < 0 || index2 >= |d.double[index1]| then None
    else Some(d.double[index1][index2])
  }
}
