/** Decimal numerals, as Go's strconv and fmt write and read them. */
module Decimal {
  import opened Bytes

  function Digits(n: nat): (s: Bytes)
    ensures s != []
  {
    if n < 10 then [48 + n] else Digits(n / 10) + [48 + n % 10]
  }

  function Itoa(n: int): Bytes
  {
    if n < 0 then [45] + Digits(-n) else Digits(n)
  }

  function ParseDigits(s: Bytes): Option<nat>
  {
    if s == [] then Some(0) else
      var last := s[|s| - 1];
      match ParseDigits(s[..|s| - 1])
      case None => None
      case Some(n) => if 48 <= last <= 57 then Some(10 * n + (last - 48)) else None
  }

  /** strconv.Atoi on a 64-bit machine: an optional sign, at least one digit, within the range of int64. */
  function Atoi(s: Bytes): Option<int>
  {
    var signed := s != [] && (s[0] == 43 || s[0] == 45);
    var digits := if signed then s[1..] else s;
    if digits == [] then None else
      match ParseDigits(digits)
      case None => None
      case Some(n) =>
        var v := if signed && s[0] == 45 then 0 - (n as int) else n as int;
        if -0x8000_0000_0000_0000 <= v < 0x8000_0000_0000_0000 then Some(v) else None
  }

  lemma {:induction false} DigitsAreDigits(n: nat, i: nat)
    requires i < |Digits(n)|
    ensures 48 <= Digits(n)[i] <= 57
  {
    if n >= 10 && i < |Digits(n / 10)| {
      DigitsAreDigits(n / 10, i);
    }
  }

  lemma {:induction false} DigitsParse(n: nat)
    ensures ParseDigits(Digits(n)) == Some(n)
  {
    if n >= 10 {
      DigitsParse(n / 10);
      var s := Digits(n);
      assert s[..|s| - 1] == Digits(n / 10);
    } else {
      assert Digits(n)[..0] == [];
    }
  }

  lemma {:induction false} NoLeadingZero(n: nat)
    requires n > 0
    ensures Digits(n)[0] != 48
  {
    if n >= 10 {
      NoLeadingZero(n / 10);
    }
  }

  /**
   * Every integer is written so that its digits are read back, a signed 64-bit one by Atoi, with a minus sign exactly
   * if it is negative, and without leading zeros.
   */
  lemma ItoaIsDecimal(n: int)
    ensures n >= 0 ==> ParseDigits(Itoa(n)) == Some(n)
    ensures n < 0 ==> ParseDigits(Itoa(n)[1..]) == Some(-n)
    ensures -0x8000_0000_0000_0000 <= n < 0x8000_0000_0000_0000 ==> Atoi(Itoa(n)) == Some(n)
    ensures Itoa(n)[0] == 45 <==> n < 0
    ensures n == 0 ==> Itoa(n) == [48]
    ensures n > 0 ==> Itoa(n)[0] != 48
    ensures n < 0 ==> Itoa(n)[1] != 48
  {
    var m := if n < 0 then -n else n;
    DigitsParse(m);
    DigitsAreDigits(m, 0);
    if m > 0 {
      NoLeadingZero(m);
    }
    assert Itoa(n) == if n < 0 then [45] + Digits(m) else Digits(m);
    if n < 0 {
      assert ([45] + Digits(m))[1..] == Digits(m);
    }
    hide Digits, ParseDigits;
  }

  /** Only digits are read, and any other character is refused. */
  lemma {:induction false} OnlyDigits(s: Bytes)
    ensures ParseDigits(s).Some? <==> forall i :: 0 <= i < |s| ==> 48 <= s[i] <= 57
  {
    if s != [] {
      var n := |s| - 1;
      OnlyDigits(s[..n]);
      assert forall i :: 0 <= i < n ==> s[..n][i] == s[i];
    }
  }

  /** A number has at least one digit, with at most one sign in front; too large a one is refused. */
  lemma AtoiRefuses(s: Bytes)
    ensures s == [] || s == [43] || s == [45] ==> Atoi(s) == None
    ensures (exists i :: 0 < i < |s| && !(48 <= s[i] <= 57)) ==> Atoi(s) == None
    ensures s != [] && !(48 <= s[0] <= 57) && s[0] != 43 && s[0] != 45 ==> Atoi(s) == None
    ensures Atoi(s).Some? ==> -0x8000_0000_0000_0000 <= Atoi(s).value < 0x8000_0000_0000_0000
  {
    OnlyDigits(s);
    if s != [] {
      OnlyDigits(s[1..]);
      assert forall i :: 0 < i < |s| ==> s[1..][i - 1] == s[i];
    }
    hide ParseDigits;
  }
}
