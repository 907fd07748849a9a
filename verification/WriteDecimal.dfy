/** Printing fixed-point numbers: `write_decimal` (libraries/eosiolib/eosiolib.cpp) and the
    table of powers of ten it searches (libraries/eosiolib/core/eosio/powers.hpp). */
module WriteDecimal {
  import opened Words
  import opened Decimal

  // ----- the table of powers of ten

  lemma PowerLimits()
    ensures Pow10(19) == 10_000_000_000_000_000_000 < B64 < Pow10(20) == 100_000_000_000_000_000_000
  {
    assert Pow10(5) == 100_000;
    Pow10Add(5, 5); Pow10Add(10, 5); Pow10Add(15, 4); Pow10Add(19, 1);
    assert Pow10(4) == 10_000 && Pow10(1) == 10;
  }

  lemma PowerFits(e: nat)
    requires e <= 19
    ensures Pow10(e) < B64
  {
    PowerLimits();
    Pow10Mono(e, 19);
  }

  /** The exponent of the largest power of ten in 64 bits: multiply until the product,
      taken modulo 2^64, gets smaller. */
  method LargestPower() returns (exponent: nat, value: u64)
    ensures exponent == 19 && value == Pow10(19)
  {
    PowerLimits();
    exponent, value := 0, 1;
    while !(value * 10 % B64 < value)
      invariant exponent <= 19 && value == Pow10(exponent)
      decreases 19 - exponent
    {
      NextPower(exponent);
      value, exponent := value * 10 % B64, exponent + 1;
    }
    NextPower(exponent);
  }

  /** Up to the nineteenth the next power fits; after it the product wraps to less. */
  lemma NextPower(e: nat)
    requires e <= 19
    ensures e < 19 ==> Pow10(e) * 10 % B64 == Pow10(e + 1) > Pow10(e)
    ensures e == 19 ==> Pow10(e) * 10 % B64 < Pow10(e)
  {
    PowerLimits();
    assert Pow10(e + 1) == 10 * Pow10(e);
    if e < 19 {
      PowerFits(e + 1);
      ModSmall(Pow10(e) * 10, B64);
    } else {
      DivUnique(Pow10(20), B64, 5, 7_766_279_631_452_241_920);
    }
  }

  /** `pow(10, exponent)`; false when the overflow check fails. */
  method Pow(exponent: nat) returns (ok: bool, result: u64)
    ensures ok <==> exponent <= 19
    ensures ok ==> result == Pow10(exponent)
  {
    var prior: u64 := 1;
    result := prior;
    for i := 0 to exponent
      invariant i <= 19 && prior == result == Pow10(i)
    {
      NextPower(i);
      result := prior * 10 % B64;
      if result <= prior {
        return false, result;
      }
      prior := result;
    }
    ok := true;
  }

  method PowersOfTen() returns (powers: seq<u64>)
    ensures |powers| == 20 && forall i :: 0 <= i < 20 ==> powers[i] == Pow10(i)
  {
    var largest, value := LargestPower();
    powers := [];
    for i := 0 to largest + 1
      invariant |powers| == i && forall j :: 0 <= j < i ==> powers[j] == Pow10(j)
    {
      var ok, p := Pow(i);
      powers := powers + [p];
    }
  }

  // ----- what a text denotes

  /** How many digits a number has; zero has none. */
  function Digits(n: nat): nat { DigitsRec(n) }
  function DigitsRec(n: nat): nat { if n == 0 then 0 else 1 + DigitsRec(n / 10) }

  lemma {:induction false} DigitsBounds(n: nat)
    ensures n > 0 ==> Digits(n) > 0 && Pow10(Digits(n) - 1) <= n
    ensures n < Pow10(Digits(n))
  {
    if n > 0 {
      DigitsBounds(n / 10);
      var d := Digits(n / 10);
      assert Pow10(d + 1) == 10 * Pow10(d);
      if n / 10 > 0 { assert Pow10(d) == 10 * Pow10(d - 1); }
    }
  }

  lemma DigitsUnique(n: nat, d: nat)
    requires n < Pow10(d) && (d == 0 || Pow10(d - 1) <= n)
    ensures d == Digits(n)
  {
    DigitsBounds(n);
    if d < Digits(n) { Pow10Mono(d, Digits(n) - 1); }
    if d > Digits(n) { Pow10Mono(Digits(n), d - 1); }
  }

  /** Characters in the text: a sign, at least one digit before the point, the point. */
  function Needed(number: nat, places: nat, negative: bool): nat {
    var digits := Digits(number);
    (if negative then 1 else 0) + (if digits > places then digits - places else 1) +
      (if places > 0 then places + 1 else 0)
  }

  function Sign(negative: bool): seq<byte> { if negative then [MINUS] else [] }
  function AfterPoint(fraction: seq<byte>): seq<byte> { if fraction == [] then [] else [POINT] + fraction }

  /** `text` is number * 10^-places: a sign, the whole part without superfluous zeros, and
      exactly so many digits after the point. */
  ghost predicate Denotes(text: seq<byte>, number: nat, places: nat, negative: bool, whole: seq<byte>,
      fraction: seq<byte>) {
    && text == Sign(negative) + (whole + AfterPoint(fraction))
    && |fraction| == places && |whole| > 0 && AllDigits(whole) && AllDigits(fraction)
    && (|whole| > 1 ==> whole[0] != 48)
    && Value(whole + fraction) == number
  }

  lemma {:induction false} ValueConcat(a: seq<byte>, b: seq<byte>)
    ensures Value(a + b) == Value(a) * Pow10(|b|) + Value(b)
  {
    if |b| == 0 {
      assert a + b == a;
    } else {
      var n := |b| - 1;
      ValueConcat(a, b[..n]);
      assert (a + b)[..|a + b| - 1] == a + b[..n];
      assert Pow10(|b|) == 10 * Pow10(n);
      Tenfold(Value(a), Pow10(n));
    }
  }

  lemma Tenfold(a: int, p: int)
    ensures a * (10 * p) == 10 * (a * p)
  {
  }

  /** Two digit strings of one length with one value are the same. */
  lemma {:induction false} ValueInjective(a: seq<byte>, b: seq<byte>)
    requires |a| == |b| && AllDigits(a) && AllDigits(b) && Value(a) == Value(b)
    ensures a == b
  {
    if |a| > 0 {
      var n := |a| - 1;
      assert DigitOf(a[n]) == DigitOf(b[n]) && Value(a[..n]) == Value(b[..n]);
      ValueInjective(a[..n], b[..n]);
      assert a == a[..n] + [a[n]] && b == b[..n] + [b[n]];
    }
  }

  lemma AllDigitsConcat(a: seq<byte>, b: seq<byte>)
    requires AllDigits(a) && AllDigits(b)
    ensures AllDigits(a + b)
  {
  }

  /** The number decides how long the whole part is. */
  lemma WholeLength(text: seq<byte>, number: nat, places: nat, negative: bool, whole: seq<byte>, fraction: seq<byte>)
    requires Denotes(text, number, places, negative, whole, fraction)
    ensures |text| == Needed(number, places, negative)
    ensures |whole| == if Digits(number) > places then Digits(number) - places else 1
  {
    var all := whole + fraction;
    AllDigitsConcat(whole, fraction);
    ValueBelow(all);
    DigitsBounds(number);
    if |whole| > 1 {
      ValueAtLeast(all);
      DigitsUnique(number, |all|);
    } else {
      Pow10Less2(number, |all|);
    }
  }

  lemma Pow10Less2(number: nat, n: nat)
    requires number < Pow10(n)
    ensures Digits(number) <= n
  {
    DigitsBounds(number);
    if Digits(number) > n { Pow10Mono(n, Digits(number) - 1); }
  }

  /** There is only one such text. */
  lemma DenotesUnique(text1: seq<byte>, text2: seq<byte>, number: nat, places: nat, negative: bool,
                      whole1: seq<byte>, fraction1: seq<byte>, whole2: seq<byte>, fraction2: seq<byte>)
    requires Denotes(text1, number, places, negative, whole1, fraction1)
    requires Denotes(text2, number, places, negative, whole2, fraction2)
    ensures text1 == text2
  {
    WholeLength(text1, number, places, negative, whole1, fraction1);
    WholeLength(text2, number, places, negative, whole2, fraction2);
    AllDigitsConcat(whole1, fraction1);
    AllDigitsConcat(whole2, fraction2);
    var all1, all2 := whole1 + fraction1, whole2 + fraction2;
    ValueInjective(all1, all2);
    assert whole1 == all1[..|whole1|] == all2[..|whole2|] == whole2;
    assert fraction1 == all1[|whole1|..] == all2[|whole2|..] == fraction2;
  }

  // ----- writing from the back

  /** From position i to hi the memory holds `s`, elsewhere what it held. */
  ghost predicate Holds(m: seq<byte>, before: seq<byte>, i: nat, hi: nat, s: seq<byte>) {
    i + |s| == hi <= |m| == |before| && m == before[..i] + s + before[hi..]
  }

  method Put(mem: array<byte>, i: nat, c: byte, ghost before: seq<byte>, ghost hi: nat, ghost s: seq<byte>)
    requires Holds(mem[..], before, i + 1, hi, s)
    modifies mem
    ensures Holds(mem[..], before, i, hi, [c] + s)
  {
    assert before[..i + 1] == before[..i] + [before[i]];
    mem[i] := c;
  }

  /** The number a, k decimal places up. */
  function Raised(a: nat, k: nat): nat { if k == 0 then a else 10 * Raised(a, k - 1) }

  lemma {:induction false} RaisedIsProduct(a: nat, k: nat)
    ensures Raised(a, k) == a * Pow10(k)
  {
    if k == 0 {
      assert Pow10(0) == 1;
    } else {
      RaisedIsProduct(a, k - 1);
      assert Pow10(k) == 10 * Pow10(k - 1);
      Tenfold(a, Pow10(k - 1));
    }
  }

  /** The digits written and the rest of the number make up the number. */
  ghost predicate Written(number0: nat, number: nat, digits: seq<byte>) {
    AllDigits(digits) && number0 == Raised(number, |digits|) + Value(digits)
  }

  lemma OneMore(number0: nat, number: nat, digits: seq<byte>)
    requires Written(number0, number, digits)
    ensures Written(number0, number / 10, [number % 10 + 48] + digits)
  {
    var c: byte := number % 10 + 48;
    var p := Pow10(|digits|);
    ValueConcat([c], digits);
    assert Value([c]) == number % 10 by { assert [c][..0] == []; }
    assert Pow10(|[c] + digits|) == 10 * p;
    RaisedIsProduct(number, |digits|);
    RaisedIsProduct(number / 10, |[c] + digits|);
    SplitLast(number, p);
  }

  lemma NoMore(number0: nat, digits: seq<byte>)
    requires Written(number0, 0, digits)
    ensures Written(number0, 0, [48] + digits)
  {
    OneMore(number0, 0, digits);
  }

  lemma SplitLast(number: nat, p: nat)
    ensures number * p == number / 10 * (10 * p) + number % 10 * p
  {
    assert number == 10 * (number / 10) + number % 10;
    assert number * p == (10 * (number / 10) + number % 10) * p;
  }

  /** The last digit of the number goes in front of those written. */
  method PutDigit(mem: array<byte>, i: nat, number: u64, ghost before: seq<byte>, ghost hi: nat,
                  ghost number0: nat, ghost digits: seq<byte>, ghost tail: seq<byte>)
    returns (number': u64, ghost digits': seq<byte>)
    requires Holds(mem[..], before, i + 1, hi, digits) && AllDigits(digits) && Written(number0, number, digits + tail)
    modifies mem
    ensures Holds(mem[..], before, i, hi, digits') && AllDigits(digits') && |digits'| == |digits| + 1
    ensures Written(number0, number', digits' + tail) && number' == number / 10
  {
    var c: byte := number % 10 + 48;
    OneMore(number0, number, digits + tail);
    assert [c] + (digits + tail) == ([c] + digits) + tail;
    Put(mem, i, c, before, hi, digits);
    digits' := [c] + digits;
    number' := number / 10;
  }

  /** State of the loops before the point. */
  ghost predicate InFraction(m: seq<byte>, before: seq<byte>, begin: nat, n: nat, dp: nat, i: int, number0: nat,
      number: nat, fraction: seq<byte>) {
    && -1 <= i <= n - 1 && (i >= dp || i == n - 1) && AllDigits(fraction)
    && Holds(m, before, begin + i + 1, begin + n, fraction) && Written(number0, number, fraction + [])
  }

  /** The loops before the point: digits while there are any, then zeros. */
  method WriteFraction(mem: array<byte>, begin: nat, n: nat, dp: nat, number0: u64)
    returns (number: u64, i: int, ghost fraction: seq<byte>)
    requires begin + n <= mem.Length && n > 0
    modifies mem
    ensures i == if n - 1 > dp then dp else n - 1
    ensures Holds(mem[..], old(mem[..]), begin + i + 1, begin + n, fraction) && Written(number0, number, fraction)
  {
    ghost var before := mem[..];
    number, i, fraction := number0, n - 1, [];
    assert Written(number0, number, fraction + []);
    while number > 0 && i > dp
      invariant InFraction(mem[..], before, begin, n, dp, i, number0, number, fraction)
      decreases i
    {
      number, fraction := PutDigit(mem, begin + i, number, before, begin + n, number0, fraction, []);
      i := i - 1;
    }
    while i > dp
      invariant InFraction(mem[..], before, begin, n, dp, i, number0, number, fraction) && (i > dp ==> number == 0)
      decreases i
    {
      fraction := PutZero(mem, begin + i, before, begin + n, number0, fraction);
      i := i - 1;
    }
    assert fraction + [] == fraction;
  }

  /** A zero goes in front, when nothing is left of the number. */
  method PutZero(mem: array<byte>, i: nat, ghost before: seq<byte>, ghost hi: nat, ghost number0: nat,
      ghost digits: seq<byte>)
    returns (ghost digits': seq<byte>)
    requires Holds(mem[..], before, i + 1, hi, digits) && AllDigits(digits) && Written(number0, 0, digits + [])
    modifies mem
    ensures Holds(mem[..], before, i, hi, digits') && AllDigits(digits') && Written(number0, 0, digits' + [])
  {
    assert digits + [] == digits;
    NoMore(number0, digits);
    Put(mem, i, 48, before, hi, digits);
    digits' := [48] + digits;
    assert digits' + [] == digits';
  }

  /** The loop for the whole part, below position top and down to the sign; `tail` is what
      is written behind it. */
  method WriteWhole(mem: array<byte>, begin: nat, top: nat, bottom: nat, number0: nat, number1: u64,
      ghost fraction: seq<byte>,
                    ghost m0: seq<byte>, ghost hi: nat, ghost tail: seq<byte>)
    returns (i: int, ghost whole: seq<byte>, ghost rest: nat)
    requires bottom <= top && begin + top <= mem.Length && Written(number0, number1, fraction)
    requires Holds(mem[..], m0, begin + top, hi, tail)
    modifies mem
    ensures i == bottom - 1 && |whole| == top - bottom && AllDigits(whole) && Written(number0, rest, whole + fraction)
    ensures Holds(mem[..], m0, begin + bottom, hi, whole + tail)
  {
    ghost var before := mem[..];
    var number := number1;
    i, whole := top - 1, [];
    assert [] + fraction == fraction;
    while i >= bottom
      invariant bottom - 1 <= i < top && |whole| == top - 1 - i
      invariant Holds(mem[..], before, begin + i + 1, begin + top, whole) && AllDigits(whole)
      invariant Written(number0, number, whole + fraction)
    {
      number, whole := PutDigit(mem, begin + i, number, before, begin + top, number0, whole, fraction);
      i := i - 1;
    }
    rest := number;
    Joined(m0, before, mem[..], begin + bottom, begin + top, hi, whole, tail);
  }

  lemma Joined(m0: seq<byte>, m1: seq<byte>, m2: seq<byte>, lo: nat, mid: nat, hi: nat, a: seq<byte>, b: seq<byte>)
    requires Holds(m1, m0, mid, hi, b) && Holds(m2, m1, lo, mid, a)
    ensures Holds(m2, m0, lo, hi, a + b)
  {
    assert m1[..lo] == m0[..lo];
    assert m1[mid..] == b + m0[hi..];
  }

  /** All digits are written: nothing is left of the number. */
  lemma AllValue(number: nat, rest: nat, all: seq<byte>)
    requires Written(number, rest, all) && Digits(number) <= |all|
    ensures Value(all) == number
  {
    DigitsBounds(number);
    ValueBelow(all);
    Pow10Mono(Digits(number), |all|);
    RaisedIsProduct(rest, |all|);
    NothingLeft(rest, Pow10(|all|), Value(all), number);
  }

  lemma NoLeadingZero(number: nat, s: seq<byte>)
    requires |s| > 0 && AllDigits(s) && Value(s) == number && |s| == Digits(number)
    ensures s[0] != 48
  {
    DigitsBounds(number);
    if s[0] == 48 {
      ValueConcat([s[0]], s[1..]);
      assert s == [s[0]] + s[1..];
      assert Value([s[0]]) == 0 by { assert [s[0]][..0] == []; }
      ValueBelow(s[1..]);
    }
  }

  /** The text put together denotes the number. */
  lemma AllWritten(number: nat, rest: nat, places: nat, negative: bool, whole: seq<byte>, fraction: seq<byte>)
    requires Written(number, rest, whole + fraction) && AllDigits(whole) && AllDigits(fraction) && |fraction| == places
    requires |whole| == if Digits(number) > places then Digits(number) - places else 1
    ensures Denotes(Sign(negative) + (whole + AfterPoint(fraction)), number, places, negative, whole, fraction)
  {
    AllValue(number, rest, whole + fraction);
    AllDigitsConcat(whole, fraction);
    if |whole| > 1 { NoLeadingZero(number, whole + fraction); }
  }

  lemma NothingLeft(rest: nat, p: nat, v: nat, number: nat)
    requires number == rest * p + v && number < p
    ensures rest == 0 && v == number
  {
    if rest > 0 { MulMono(1, rest, p); }
  }

  /** How far the text reaches, and where its point is. */
  method Layout(number: u64, places: nat, negative: bool) returns (needed: nat, dp: nat, afterMinus: nat)
    requires places < 256
    ensures needed == Needed(number, places, negative) <= 258 && afterMinus == (if negative then 1 else 0)
    ensures dp == afterMinus + if Digits(number) > places then Digits(number) - places else 1
  {
    var powers := PowersOfTen();
    var digits := UpperBound(powers, number);
    needed, dp := if digits > places then digits else places, digits;
    if places >= digits {
      needed, dp := needed + 1, 1;
    } else {
      dp := dp - places;
    }
    if places > 0 {
      needed := needed + 1;
    }
    afterMinus := 0;
    if negative {
      needed, afterMinus, dp := needed + 1, afterMinus + 1, dp + 1;
    }
  }

  /** The number of powers not above the number. */
  method UpperBound(powers: seq<u64>, number: u64) returns (k: nat)
    requires |powers| == 20 && forall i :: 0 <= i < 20 ==> powers[i] == Pow10(i)
    ensures k == Digits(number) <= 20
  {
    k := 0;
    while k < |powers| && powers[k] <= number
      invariant k <= 20 && (k > 0 ==> Pow10(k - 1) <= number)
    {
      k := k + 1;
    }
    PowerLimits();
    assert Pow10(0) == 1;
    DigitsUnique(number, k);
  }

  /** The characters, from the last to the first. */
  method WriteText(mem: array<byte>, begin: nat, needed: nat, dp: nat, afterMinus: nat, number: u64, places: nat,
      negative: bool)
    returns (ghost text: seq<byte>, ghost whole: seq<byte>, ghost fraction: seq<byte>)
    requires begin + needed <= mem.Length && afterMinus == (if negative then 1 else 0)
    requires dp == afterMinus + (if Digits(number) > places then Digits(number) - places else 1)
    requires needed == dp + if places > 0 then places + 1 else 0
    modifies mem
    ensures Holds(mem[..], old(mem[..]), begin, begin + needed, text) &&
      Denotes(text, number, places, negative, whole, fraction)
  {
    ghost var m0, left := mem[..], 0;
    var i;
    i, whole, fraction, left := WriteUnsigned(mem, begin, needed, dp, afterMinus, number, places);
    text := whole + AfterPoint(fraction);
    PutSign(mem, begin, i, m0, begin + needed, text, negative);
    AllWritten(number, left, places, negative, whole, fraction);
    text := Sign(negative) + text;
  }

  method PutSign(mem: array<byte>, begin: nat, i: int, ghost before: seq<byte>, ghost hi: nat, ghost text: seq<byte>,
      negative: bool)
    requires i == (if negative then 0 else -1) && Holds(mem[..], before, begin + i + 1, hi, text)
    modifies mem
    ensures Holds(mem[..], before, begin, hi, Sign(negative) + text)
  {
    if i == 0 {
      Put(mem, begin, MINUS, before, hi, text);
    } else {
      assert Sign(negative) + text == text;
    }
  }

  method WriteUnsigned(mem: array<byte>, begin: nat, needed: nat, dp: nat, bottom: nat, number: u64, places: nat)
    returns (i: int, ghost whole: seq<byte>, ghost fraction: seq<byte>, ghost left: nat)
    requires begin + needed <= mem.Length && bottom < dp && needed == dp + if places > 0 then places + 1 else 0
    modifies mem
    ensures i == bottom - 1 && |whole| == dp - bottom && |fraction| == places && AllDigits(whole) && AllDigits(fraction)
    ensures Holds(mem[..], old(mem[..]), begin + bottom, begin + needed, whole + AfterPoint(fraction))
    ensures Written(number, left, whole + fraction)
  {
    ghost var m0 := mem[..];
    var rest;
    rest, i, fraction := WriteTail(mem, begin, needed, dp, number, places);
    i, whole, left := WriteWhole(mem, begin, i + 1, bottom, number, rest, fraction, m0, begin + needed,
      AfterPoint(fraction));
  }

  /** The digits after the point, and the point. */
  method WriteTail(mem: array<byte>, begin: nat, needed: nat, dp: nat, number: u64, places: nat)
    returns (rest: u64, i: int, ghost fraction: seq<byte>)
    requires begin + needed <= mem.Length && dp > 0 && needed == dp + if places > 0 then places + 1 else 0
    modifies mem
    ensures i == dp - 1 && |fraction| == places && Written(number, rest, fraction)
    ensures Holds(mem[..], old(mem[..]), begin + dp, begin + needed, AfterPoint(fraction))
  {
    ghost var m0 := mem[..];
    rest, i, fraction := WriteFraction(mem, begin, needed, dp, number);
    if i == dp {
      Put(mem, begin + i, POINT, m0, begin + needed, fraction);
      i := i - 1;
    }
  }

  /** Write number * 10^-places, if it fits and is not just tried; in any case return where
      the text would end, in 32-bit addresses. */
  method WriteDecimal(mem: array<byte>, begin: nat, end: nat, dryRun: bool, number: u64, places: nat, negative: bool)
    returns (actualEnd: nat, ghost whole: seq<byte>, ghost fraction: seq<byte>)
    requires begin <= end <= mem.Length <= B32 && places < 256
    modifies mem
    ensures actualEnd == (begin + Needed(number, places, negative)) % B32
    ensures dryRun || actualEnd > end || actualEnd < begin ==> mem[..] == old(mem[..])
    ensures !dryRun && begin <= actualEnd <= end ==>
      && mem[..begin] == old(mem[..begin]) && mem[actualEnd..] == old(mem[actualEnd..])
      && Denotes(mem[begin..actualEnd], number, places, negative, whole, fraction)
  {
    var needed, dp, afterMinus := Layout(number, places, negative);
    actualEnd := (begin + needed) % B32;
    whole, fraction := [], [];
    EndWraps(begin, needed);
    if dryRun || actualEnd < begin || actualEnd > end {
      return;
    }
    ghost var text;
    text, whole, fraction := WriteText(mem, begin, needed, dp, afterMinus, number, places, negative);
    assert mem[begin..actualEnd] == text;
  }

  lemma EndWraps(begin: nat, needed: nat)
    requires begin <= B32 && needed <= 258
    ensures var e := (begin + needed) % B32; e == begin + needed || e < begin
  {
    if begin + needed < B32 { ModSmall(begin + needed, B32); }
    else { DivUnique(begin + needed, B32, 1, begin + needed - B32); }
  }
}