/** Powers of ten and decimal digit strings. */
module Decimal {
  import opened Words

  function Pow10Rec(n: nat): (r: nat)
    ensures r > 0
  {
    if n == 0 then 1 else 10 * Pow10Rec(n - 1)
  }

  function Pow10(n: nat): (r: nat)
    ensures r > 0
  {
    Pow10Rec(n)
  }

  lemma {:induction false} Pow10Add(m: nat, n: nat)
    ensures Pow10(m + n) == Pow10(m) * Pow10(n)
  {
    if m > 0 {
      Pow10Add(m - 1, n);
      assert Pow10(m + n) == 10 * Pow10(m - 1 + n);
    }
  }

  lemma {:induction false} Pow10Mono(m: nat, n: nat)
    requires m <= n
    ensures Pow10(m) <= Pow10(n)
    ensures m < n ==> 10 * Pow10(m) <= Pow10(n)
  {
    if m < n { Pow10Mono(m, n - 1); }
  }

  lemma Pow10Less(m: nat, n: nat)
    requires Pow10(m) < Pow10(n)
    ensures m < n
  {
    if m >= n { Pow10Mono(n, m); }
  }

  const POINT: byte := 46
  const MINUS: byte := 45

  predicate IsDigit(c: byte) { 48 <= c <= 57 }

  ghost predicate AllDigits(s: seq<byte>) { forall i :: 0 <= i < |s| ==> IsDigit(s[i]) }

  /** The number a string of decimal digits denotes. */
  function Value(s: seq<byte>): (v: int) {
    if |s| == 0 then 0 else 10 * Value(s[..|s| - 1]) + DigitOf(s[|s| - 1])
  }

  function DigitOf(c: int): int { c - 48 }

  lemma ValueSnoc(s: seq<byte>, c: byte)
    ensures Value(s + [c]) == 10 * Value(s) + DigitOf(c)
  {
    assert (s + [c])[..|s|] == s;
  }

  /** A digit string without a leading zero is at least 10^(length-1). */
  lemma {:induction false} ValueAtLeast(s: seq<byte>)
    requires AllDigits(s) && |s| > 0 && s[0] != 48
    ensures Value(s) >= Pow10(|s| - 1)
  {
    if |s| > 1 {
      ValueAtLeast(s[..|s| - 1]);
      assert Pow10(|s| - 1) == 10 * Pow10(|s| - 2);
    } else {
      assert s[..0] == [];
    }
  }

  lemma {:induction false} ValueBelow(s: seq<byte>)
    requires AllDigits(s)
    ensures 0 <= Value(s) < Pow10(|s|)
  {
    if |s| > 0 {
      ValueBelow(s[..|s| - 1]);
      assert Pow10(|s|) == 10 * Pow10(|s| - 1);
    }
  }
}
