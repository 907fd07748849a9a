/** Grisu2 digit generation (libraries/eosiolib/tester/fpconv.c).

    All quantities are 64-bit words; the numbers they stand for are scaled by
    2^e, where -e is the common exponent of the interval bounds. */
module Grisu {
  import opened Words
  import opened UDivMod
  import opened Decimal

  /** Powers of ten, largest first. */
  const TENS: seq<u64> := [
    10000000000000000000, 1000000000000000000, 100000000000000000, 10000000000000000,
    1000000000000000, 100000000000000, 10000000000000, 1000000000000, 100000000000,
    10000000000, 1000000000, 100000000, 10000000, 1000000, 100000, 10000, 1000, 100, 10, 1]

  lemma {:induction false} Tens(k: nat)
    requires k < 20
    ensures TENS[19 - k] == Pow10(k)
  {
    if k > 0 {
      Tens(k - 1);
      assert TENS[19 - k] == 10 * TENS[20 - k];
    }
  }

  // ----- round_digit

  /** `rem` below the upper bound, after taking j units off the last digit. */
  function Rem(rem: nat, kappa: nat, j: nat): nat { rem + j * kappa }

  lemma RemMono(rem: nat, kappa: nat, i: nat, j: nat)
    requires i < j
    ensures Rem(rem, kappa, i) + kappa <= Rem(rem, kappa, j)
  {
    MulMono(i + 1, j, kappa);
    assert (i + 1) * kappa == i * kappa + kappa;
  }

  /** The last digit is lowered j times, to the candidate nearest to `frac` among
      those that stay within `delta` of the upper bound; nothing wraps. */
  method RoundDigit(digits: array<byte>, ndigits: nat, delta: u64, rem0: u64, kappa: u64, frac: u64)
    returns (ghost j: nat)
    requires 0 < ndigits <= digits.Length && IsDigit(digits[ndigits - 1])
    requires kappa > 0 && rem0 <= delta
    requires DigitOf(digits[ndigits - 1]) * kappa + rem0 >= delta
    modifies digits
    ensures j <= old(digits[ndigits - 1]) - 48
    ensures digits[..] == old(digits[..])[ndigits - 1 := old(digits[ndigits - 1]) - j]
    ensures Rem(rem0, kappa, j) <= delta
    ensures forall i: nat :: Rem(rem0, kappa, i) <= delta ==>
      Abs(frac - Rem(rem0, kappa, j)) <= Abs(frac - Rem(rem0, kappa, i))
  {
    var rem := rem0;
    j := 0;
    ghost var d := DigitOf(digits[ndigits - 1]);
    while rem < frac && delta - rem >= kappa && (rem + kappa < frac || frac - rem > rem + kappa - frac)
      invariant rem == Rem(rem0, kappa, j) <= delta && j <= d
      invariant digits[..] == old(digits[..])[ndigits - 1 := old(digits[ndigits - 1]) - j]
      invariant j > 0 ==> rem < frac || rem - frac < frac - (rem - kappa)
      decreases delta - rem
    {
      StillPositive(d, kappa, rem0, delta, j);
      ModSmall(rem + kappa, B64);
      digits[ndigits - 1] := digits[ndigits - 1] - 1;
      rem := Add64(rem, kappa);
      j := j + 1;
    }
    NearestCandidate(rem0, kappa, delta, frac, j);
  }

  /** rem approaches frac and stops when the next step would not bring it nearer. */
  lemma NearestCandidate(rem0: nat, kappa: nat, delta: nat, frac: nat, j: nat)
    requires var rem := Rem(rem0, kappa, j);
      && (rem >= frac || delta - rem < kappa || (rem + kappa >= frac && frac - rem <= rem + kappa - frac))
      && (j > 0 ==> rem < frac || rem - frac < frac - (rem - kappa))
    ensures forall i: nat :: Rem(rem0, kappa, i) <= delta ==>
      Abs(frac - Rem(rem0, kappa, j)) <= Abs(frac - Rem(rem0, kappa, i))
  {
    forall i: nat | Rem(rem0, kappa, i) <= delta
      ensures Abs(frac - Rem(rem0, kappa, j)) <= Abs(frac - Rem(rem0, kappa, i))
    {
      if i < j { RemMono(rem0, kappa, i, j); }
      if i > j { RemMono(rem0, kappa, j, i); }
    }
  }

  /** As long as one more unit fits, the last digit is not yet zero. */
  lemma StillPositive(d: nat, kappa: nat, rem0: nat, delta: nat, j: nat)
    requires kappa > 0 && j <= d && d * kappa + rem0 >= delta
    requires Rem(rem0, kappa, j) + kappa <= delta
    ensures j < d && Rem(rem0, kappa, j + 1) == Rem(rem0, kappa, j) + kappa
  {
    assert (j + 1) * kappa == j * kappa + kappa;
  }

  // ----- digits generated so far

  /** s is the integer part of total / unit, in decimal without a leading zero
      (empty for zero), and rem is what is left. */
  ghost predicate Progress(s: seq<byte>, total: nat, unit: nat, rem: nat) {
    && AllDigits(s) && (|s| > 0 ==> s[0] != 48)
    && Value(s) * unit + rem == total && rem < unit
  }

  /** A leading zero is not written. */
  function Extend(s: seq<byte>, digit: nat): seq<byte>
    requires digit < 10
  {
    if digit != 0 || s != [] then s + [48 + digit] else s
  }

  lemma NextDigit(s: seq<byte>, total: nat, unit: nat, rem: nat, digit: nat, rem': nat)
    requires Progress(s, total, 10 * unit, rem)
    requires rem == digit * unit + rem' && rem' < unit
    ensures digit < 10 && Progress(Extend(s, digit), total, unit, rem')
    ensures Value(Extend(s, digit)) == 10 * Value(s) + digit
  {
    DigitBelowTen(rem, digit, unit, rem');
    ValueSnoc(s, 48 + digit);
    assert Value([]) == 0;
    DigitArith(Value(s), unit, digit);
  }

  lemma DigitBelowTen(rem: nat, digit: nat, unit: nat, rem': nat)
    requires rem == digit * unit + rem' && rem < 10 * unit
    ensures digit < 10
  {
    if digit >= 10 { MulMono(10, digit, unit); }
  }

  lemma DigitArith(v: int, unit: int, digit: int)
    ensures (10 * v + digit) * unit == v * (10 * unit) + digit * unit
  {
  }

  /** As long as the remainder is at least delta the digits leave room for one more,
      in a buffer of length cap that suits the width of the interval. */
  lemma RoomLeft(s: seq<byte>, total: nat, unit: nat, rem: nat, delta: nat, cap: nat)
    requires Progress(s, total, unit, rem) && 0 < delta <= rem && cap > 0
    requires total <= delta * Pow10(cap - 1)
    ensures |s| < cap
  {
    if |s| > 0 {
      ValueAtLeast(s);
      var p := Pow10(|s| - 1);
      assert p * delta < total by {
        MulMono(delta, rem, p);
        MulMono(rem + 1, unit, p);
        MulMono(p, Value(s), unit);
        assert (rem + 1) * p == rem * p + p;
      }
      if |s| >= cap {
        Pow10Mono(cap - 1, |s| - 1);
        MulMono(Pow10(cap - 1), p, delta);
      }
    }
  }

  /** No multiple of the unit lies above total - delta and at most at total. */
  ghost predicate NoneBetween(total: nat, delta: nat, unit: nat) {
    forall x: nat :: !(total - delta < x * unit <= total)
  }

  lemma CoarserMisses(v: nat, total: nat, delta: nat, unit: nat, rem: nat)
    requires v * unit + rem == total && delta <= rem < unit
    ensures NoneBetween(total, delta, unit)
  {
    forall x: nat
      ensures !(total - delta < x * unit <= total)
    {
      if x > v { MulMono(v + 1, x, unit); assert (v + 1) * unit == v * unit + unit; }
      if x <= v { MulMono(x, v, unit); }
    }
  }

  /** The generator stops: the digits so far leave at most delta, and before the
      last digit they left at least delta. */
  ghost predicate Stopped(s: seq<byte>, total: nat, delta: nat, unit: nat, rem: nat) {
    && Progress(s, total, unit, rem) && rem <= delta
    && |s| > 0 && DigitOf(s[|s| - 1]) * unit + rem >= delta
    && NoneBetween(total, delta, 10 * unit)
  }

  lemma Stop(s: seq<byte>, total: nat, delta: nat, unit: nat, rem: nat, digit: nat, rem': nat)
    requires Progress(s, total, 10 * unit, rem) && delta <= rem && (s == [] ==> delta < rem || rem' < delta)
    requires rem == digit * unit + rem' && rem' < unit && rem' <= delta
    ensures digit < 10 && Stopped(Extend(s, digit), total, delta, unit, rem')
  {
    NextDigit(s, total, unit, rem, digit, rem');
    ValueBelow(s);
    CoarserMisses(Value(s), total, delta, 10 * unit, rem);
  }

  // ----- first loop: integer part

  /** One division by a power of ten, in words. */
  lemma IntegerStep(part1: u64, part2: nat, div: u64, e: nat)
    requires div > 0 && part2 < Pow2(e) && part1 * Pow2(e) + part2 < B64
    ensures var digit := Div64(part1, div); var part1' := Sub64(part1, Mul64(digit, div));
      var rem := Add64(Shl64(part1', e), part2);
      && part1' == part1 - digit * div < div
      && rem == part1' * Pow2(e) + part2 < div * Pow2(e)
      && part1 * Pow2(e) + part2 == digit * (div * Pow2(e)) + rem
  {
    var digit, one := Div64(part1, div), Pow2(e);
    DivMod(part1, div);
    ModSmall(digit * div, B64);
    var part1': nat := part1 - digit * div;
    ModSmall(part1', B64);
    IntegerProducts(part1, digit, part1', div, one, part2);
    ModSmall(part1' * one, B64);
    ModSmall(part1' * one + part2, B64);
  }

  lemma IntegerProducts(part1: nat, digit: nat, rest: nat, div: nat, one: nat, part2: nat)
    requires part1 == digit * div + rest && rest < div && part2 < one
    ensures rest * one + part2 < div * one && rest * one <= part1 * one
    ensures part1 * one + part2 == digit * (div * one) + (rest * one + part2)
  {
    MulMono(rest, part1, one);
    MulMono(rest + 1, div, one);
    assert (rest + 1) * one == rest * one + one;
    assert (digit * div + rest) * one == (digit * div) * one + rest * one;
    assert (digit * div) * one == digit * (div * one);
  }

  lemma InitialParts(upper: u64, e: nat)
    requires 32 <= e <= 60
    ensures Shl64(1, e) == Pow2(e) <= B64 / 16
    ensures var part1 := Shr(upper, e); var part2 := BitAnd(upper, Pow2(e) - 1);
      && part2 < Pow2(e) && part1 * Pow2(e) + part2 == upper
      && Progress([], upper, Pow10(10) * Pow2(e), upper)
  {
    var one := Pow2(e);
    Pow2Mono(32, e); Pow2Mono(e, 60);
    assert Pow2(60) == B64 / 16 by { Pow2Word64(); assert Pow2(64) == 16 * Pow2(60); }
    assert Pow2(32) == B32 by { Pow2Word32(); }
    ModSmall(one, B64);
    AndMask(upper, e);
    DivMod(upper, one);
    assert Pow10(10) == 10000000000;
    MulMono(B32, one, 10000000000);
  }

  lemma UnitStep(kappa: nat, div: nat, e: nat)
    requires kappa > 0 && div == Pow10(kappa - 1)
    ensures Pow10(kappa) * Pow2(e) == 10 * (div * Pow2(e)) && div * Pow2(e) == Pow10(kappa - 1) * Pow2(e)
  {
    assert Pow10(kappa) == 10 * div;
  }

  method IntegerDigit(part1: u64, part2: nat, div: u64, e: nat) returns (digit: u64, rest: u64, tmp: u64)
    requires div > 0 && part2 < Pow2(e) && part1 * Pow2(e) + part2 < B64
    ensures rest < div && tmp == rest * Pow2(e) + part2 < div * Pow2(e)
    ensures part1 * Pow2(e) + part2 == digit * (div * Pow2(e)) + tmp
  {
    IntegerStep(part1, part2, div, e);
    digit := Div64(part1, div);
    rest := Sub64(part1, Mul64(digit, div));
    tmp := Add64(Shl64(rest, e), part2);
  }

  method IntegerPart(upper: u64, delta: u64, e: nat, digits: array<byte>, ghost cap: nat)
    returns (done: bool, idx: nat, kappa: nat, rem: u64)
    requires 32 <= e <= 60 && 0 < delta < upper
    requires 0 < cap <= digits.Length && upper <= delta * Pow10(cap - 1)
    modifies digits
    ensures idx <= cap && kappa < 10
    ensures done ==> Stopped(digits[..idx], upper, delta, Pow10(kappa) * Pow2(e), rem)
    ensures !done ==> kappa == 0 && delta < rem && Progress(digits[..idx], upper, Pow2(e), rem)
  {
    assert Pow10(0) == 1;
    InitialParts(upper, e);
    var part1: u64, part2: nat := Shr(upper, e), BitAnd(upper, Shl64(1, e) - 1);
    idx, kappa, rem := 0, 10, upper;
    while kappa > 0
      invariant kappa <= 10 && idx <= cap
      invariant Halves(part1, Pow2(e), part2, rem)
      invariant delta < rem && Progress(digits[..idx], upper, Unit(kappa, e), rem)
    {
      idx, part1, rem := IntegerRound(upper, delta, e, digits, cap, idx, kappa, part1, part2, rem);
      kappa := kappa - 1;
      if rem <= delta { return true, idx, kappa, rem; }
    }
    done := false;
  }

  /** What is left, in front of the point and behind it. */
  ghost predicate Halves(part1: nat, one: nat, part2: nat, rem: nat) { part1 * one + part2 == rem }

  /** One digit before the point. */
  method IntegerRound(upper: u64, delta: u64, e: nat, digits: array<byte>, ghost cap: nat, idx: nat, kappa: nat,
      part1: u64, part2: nat, ghost rem: u64)
    returns (idx': nat, part1': u64, rem': u64)
    requires 32 <= e <= 60 && 0 < delta < upper && 0 < kappa <= 10 && idx <= cap <= digits.Length && part2 < Pow2(e)
    requires 0 < cap && upper <= delta * Pow10(cap - 1)
    requires Halves(part1, Pow2(e), part2, rem) && delta < rem && Progress(digits[..idx], upper, Unit(kappa, e), rem)
    modifies digits
    ensures idx' <= cap && (rem' <= delta ==> Stopped(digits[..idx'], upper, delta, Unit(kappa - 1, e), rem'))
    ensures rem' > delta ==>
      Halves(part1', Pow2(e), part2, rem') && Progress(digits[..idx'], upper, Unit(kappa - 1, e), rem')
  {
    Tens(kappa - 1);
    var div: u64 := TENS[20 - kappa];
    ghost var s, unit := digits[..idx], div * Pow2(e);
    UnitStep(kappa, div, e);
    RoomLeft(s, upper, 10 * unit, rem, delta, cap);
    var digit;
    digit, part1', rem' := IntegerDigit(part1, part2, div, e);
    NextDigit(s, upper, unit, rem, digit, rem');
    if rem' <= delta { Stop(s, upper, delta, unit, rem, digit, rem'); }
    idx' := PutDigit(digits, idx, digit);
  }

  /** `if (digit || idx) digits[idx++] = digit + '0'`. */
  method PutDigit(digits: array<byte>, idx: nat, digit: nat) returns (idx': nat)
    requires idx < digits.Length && digit < 10
    modifies digits
    ensures idx <= idx' <= idx + 1 && digits[..idx'] == Extend(old(digits[..idx]), digit)
  {
    idx' := idx;
    if digit != 0 || idx != 0 {
      digits[idx] := digit + 48;
      idx' := idx + 1;
    }
  }

  // ----- second loop: fraction part

  lemma FractionStep(part2: u64, delta: u64, e: nat)
    requires 32 <= e <= 60 && delta <= part2 < Pow2(e)
    ensures Mul64(part2, 10) == 10 * part2 && Mul64(delta, 10) == 10 * delta
    ensures Shl64(1, e) == Pow2(e)
    ensures var digit := Shr(10 * part2, e); var rest := BitAnd(10 * part2, Shl64(1, e) - 1);
      10 * part2 == digit * Pow2(e) + rest && rest < Pow2(e) && digit < 10
  {
    InitialParts(0, e);
    ModSmall(10 * part2, B64); ModSmall(10 * delta, B64);
    AndMask(10 * part2, e);
    DivMod(10 * part2, Pow2(e));
    if 10 * part2 / Pow2(e) >= 10 { MulMono(10, 10 * part2 / Pow2(e), Pow2(e)); }
  }

  /** The tolerance grows tenfold each round while the remainder stays below 2^e. */
  lemma RoundsLeft(delta0: nat, k: nat, part2: nat, e: nat)
    requires 0 < delta0 && delta0 * Pow10(k) <= part2 < Pow2(e) && e <= 60
    ensures k < 19
  {
    Pow2Mono(e, 60);
    assert Pow2(60) == B64 / 16 by { Pow2Word64(); assert Pow2(64) == 16 * Pow2(60); }
    MulMono(1, delta0, Pow10(k));
    Tens(19);
    assert TENS[0] == 10000000000000000000;
    Pow10Less(k, 19);
  }

  lemma TimesTen(s: seq<byte>, total: nat, unit: nat, rem: nat)
    requires Progress(s, total, unit, rem)
    ensures Progress(s, 10 * total, 10 * unit, 10 * rem)
  {
    assert Value(s) * (10 * unit) == 10 * (Value(s) * unit);
  }

  lemma ScaledRoom(upper: nat, delta: nat, k: nat, cap: nat)
    requires cap > 0 && upper <= delta * Pow10(cap - 1)
    ensures upper * Pow10(k) <= delta * Pow10(k) * Pow10(cap - 1)
  {
    MulMono(upper, delta * Pow10(cap - 1), Pow10(k));
    Swap(delta, Pow10(cap - 1), Pow10(k));
  }

  lemma Swap(a: int, b: int, c: int)
    ensures a * b * c == a * c * b
  {
  }

  /** The invariant of the second loop: k rounds scaled everything by 10^k. */
  ghost predicate Fractional(s: seq<byte>, upper: nat, delta0: nat, k: nat, delta: nat, rem: nat, e: nat) {
    && delta == delta0 * Pow10(k) <= rem
    && Progress(s, upper * Pow10(k), Pow2(e), rem)
  }

  lemma FractionRound(s: seq<byte>, upper: nat, delta0: nat, k: nat, delta: u64, rem: u64, e: nat, cap: nat)
    requires 32 <= e <= 60 && 0 < delta0 && Fractional(s, upper, delta0, k, delta, rem, e)
    requires cap > 0 && upper <= delta0 * Pow10(cap - 1)
    ensures |s| < cap && Shl64(1, e) == Pow2(e)
    ensures Mul64(rem, 10) == 10 * rem && Mul64(delta, 10) == 10 * delta
    ensures var digit := Shr(10 * rem, e); var rest := BitAnd(10 * rem, Shl64(1, e) - 1);
      && digit < 10 && rest < Pow2(e)
      && (rest >= 10 * delta ==> Fractional(Extend(s, digit), upper, delta0, k + 1, 10 * delta, rest, e))
      && (rest < 10 * delta ==>
            10 * delta == delta0 * Pow10(k + 1) &&
              Stopped(Extend(s, digit), upper * Pow10(k + 1), 10 * delta, Pow2(e), rest))
  {
    var total := upper * Pow10(k);
    MulMono(1, delta0, Pow10(k));
    ScaledRoom(upper, delta0, k, cap);
    RoomLeft(s, total, Pow2(e), rem, delta, cap);
    FractionStep(rem, delta, e);
    TimesTen(s, total, Pow2(e), rem);
    NextPower(upper, delta0, k);
    var digit, rest := Shr(10 * rem, e), BitAnd(10 * rem, Shl64(1, e) - 1);
    NextDigit(s, 10 * total, Pow2(e), 10 * rem, digit, rest);
    if rest < 10 * delta { Stop(s, 10 * total, 10 * delta, Pow2(e), 10 * rem, digit, rest); }
  }

  method FractionPart(upper: u64, delta0: u64, e: nat, digits: array<byte>, idx0: nat, rem0: u64, ghost cap: nat)
    returns (idx: nat, rounds: nat, delta: u64, rem: u64)
    requires 32 <= e <= 60 && 0 < delta0 < rem0
    requires idx0 <= cap <= digits.Length && Progress(digits[..idx0], upper, Pow2(e), rem0)
    requires 0 < cap && upper <= delta0 * Pow10(cap - 1)
    modifies digits
    ensures idx <= cap && 0 < rounds <= 19
    ensures delta == delta0 * Pow10(rounds)
    ensures Stopped(digits[..idx], upper * Pow10(rounds), delta, Pow2(e), rem)
  {
    idx, rounds, delta, rem := idx0, 0, delta0, rem0;
    while true
      invariant idx <= cap && rounds <= 18
      invariant Fractional(digits[..idx], upper, delta0, rounds, delta, rem, e)
      decreases 19 - rounds
    {
      FractionRound(digits[..idx], upper, delta0, rounds, delta, rem, e, cap);
      rem := Mul64(rem, 10);
      delta := Mul64(delta, 10);
      var digit := Shr(rem, e);
      rem := BitAnd(rem, Shl64(1, e) - 1);
      idx := PutDigit(digits, idx, digit);
      rounds := rounds + 1;
      if rem < delta { return; }
      RoundsLeft(delta0, rounds, rem, e);
    }
  }

  lemma NextPower(upper: nat, delta0: nat, k: nat)
    ensures 10 * (upper * Pow10(k)) == upper * Pow10(k + 1)
    ensures 10 * (delta0 * Pow10(k)) == delta0 * Pow10(k + 1)
  {
    assert Pow10(k + 1) == 10 * Pow10(k);
  }

  // ----- the whole generator

  /** With exponent kappa >= 0 a decimal counts units of 10^kappa; below zero the
      interval is scaled up instead. */
  function Unit(kappa: int, e: nat): nat { if kappa >= 0 then Pow10(kappa) * Pow2(e) else Pow2(e) }
  function Scale(x: nat, kappa: int): nat { if kappa >= 0 then x else x * Pow10(-kappa) }

  /** v * 10^kappa lies in [lower, upper], is nearest to w among the decimals with
      that exponent in the interval, and no decimal with a larger exponent lies in
      (lower, upper]. */
  ghost predicate Best(v: int, kappa: int, e: nat, lower: nat, w: nat, upper: nat) {
    BestOf(v, Unit(kappa, e), Scale(lower, kappa), Scale(w, kappa), Scale(upper, kappa))
  }

  ghost predicate BestOf(v: int, unit: nat, lo: nat, w: nat, hi: nat) {
    && lo <= v * unit <= hi
    && (forall x: nat :: lo <= x * unit <= hi ==> Abs(v * unit - w) <= Abs(x * unit - w))
    && (forall x: nat :: !(lo < x * (10 * unit) <= hi))
  }

  lemma LastDigitLowered(s: seq<byte>, j: nat)
    requires AllDigits(s) && |s| > 0 && j <= DigitOf(s[|s| - 1])
    ensures var s' := s[|s| - 1 := s[|s| - 1] - j]; Value(s') == Value(s) - j && AllDigits(s')
  {
    var s' := s[|s| - 1 := s[|s| - 1] - j];
    assert s'[..|s| - 1] == s[..|s| - 1];
  }

  /** What the last correction achieves, in terms of the interval. */
  lemma CorrectedIsBest(v0: nat, j: nat, hi: nat, delta: nat, unit: nat, rem: nat, w: nat)
    requires j <= v0 && v0 * unit + rem == hi && rem < unit && w <= hi && delta <= hi
    requires Rem(rem, unit, j) <= delta
    requires forall i: nat :: Rem(rem, unit, i) <= delta ==>
      Abs(hi - w - Rem(rem, unit, j)) <= Abs(hi - w - Rem(rem, unit, i))
    requires NoneBetween(hi, delta, 10 * unit)
    ensures BestOf(v0 - j, unit, hi - delta, w, hi)
  {
    Lowered(v0, j, hi, unit, rem);
    forall x: nat | hi - delta <= x * unit <= hi
      ensures Abs((v0 - j) * unit - w) <= Abs(x * unit - w)
    {
      AtMostQuotient(x, v0, unit, rem, hi);
      Lowered(v0, v0 - x, hi, unit, rem);
    }
    forall x: nat
      ensures !(hi - delta < x * (10 * unit) <= hi)
    {
    }
  }

  lemma AtMostQuotient(x: nat, v0: nat, unit: nat, rem: nat, hi: nat)
    requires x * unit <= hi && v0 * unit + rem == hi && rem < unit
    ensures x <= v0
  {
    if x > v0 { MulMono(v0 + 1, x, unit); }
  }

  lemma Lowered(v0: nat, j: nat, hi: nat, unit: nat, rem: nat)
    requires j <= v0 && v0 * unit + rem == hi
    ensures (v0 - j) * unit == hi - Rem(rem, unit, j)
  {
    assert (v0 - j) * unit == v0 * unit - j * unit;
  }

  lemma OneDigit(s: seq<byte>)
    requires |s| == 1
    ensures Value(s) == DigitOf(s[0])
  {
    assert s[..0] == [];
  }

  /** Run the correction on a stopped generator. */
  method Correct(digits: array<byte>, n: nat, hi: nat, delta: u64, rem: u64, unit: u64, frac: u64)
    requires n <= digits.Length && Stopped(digits[..n], hi, delta, unit, rem)
    requires delta < hi && frac <= hi
    modifies digits
    ensures AllDigits(digits[..n]) && n > 0 && digits[0] != 48
    ensures BestOf(Value(digits[..n]), unit, hi - delta, hi - frac, hi)
  {
    ghost var s := digits[..n];
    assert digits[n - 1] == s[n - 1];
    var j := RoundDigit(digits, n, delta, rem, unit, frac);
    assert digits[..n] == s[n - 1 := s[n - 1] - j];
    LastDigitLowered(s, j);
    ValueBelow(digits[..n]);
    CorrectedIsBest(Value(s), j, hi, delta, unit, rem, hi - frac);
    if n == 1 { OneDigit(digits[..n]); }
  }

  /** `cap` bounds the number of digits, from the width of the interval. */
  method GenerateDigits(w: u64, upper: u64, lower: u64, e: nat, digits: array<byte>, K0: int, ghost cap: nat)
    returns (n: nat, K: int)
    requires 32 <= e <= 60
    requires 0 < lower <= w <= upper && lower < upper
    requires 0 < cap <= digits.Length && upper <= (upper - lower) * Pow10(cap - 1)
    modifies digits
    ensures 0 < n <= cap && AllDigits(digits[..n]) && digits[0] != 48
    ensures Best(Value(digits[..n]), K - K0, e, lower, w, upper) && -19 <= K - K0 <= 9
  {
    var wfrac: u64, delta: u64 := upper - w, upper - lower;
    var done, idx, kappa, rem := IntegerPart(upper, delta, e, digits, cap);
    if done {
      K := K0 + kappa;
      Tens(kappa);
      UnitFits(digits[..idx], upper, delta, kappa, e, rem);
      Correct(digits, idx, upper, delta, rem, Shl64(TENS[19 - kappa], e), wfrac);
      n := idx;
      InteriorBest(Value(digits[..n]), kappa, e, lower, w, upper);
    } else {
      var rounds;
      n, rounds := AfterPoint(upper, w, delta, e, digits, idx, rem, cap, lower);
      K := K0 - rounds;
      FractionBest(Value(digits[..n]), rounds, e, lower, w, upper);
    }
  }

  /** The second loop and its correction. */
  method AfterPoint(upper: u64, w: u64, delta: u64, e: nat, digits: array<byte>, idx: nat, rem: u64,
                    ghost cap: nat, ghost lower: nat)
    returns (n: nat, rounds: nat)
    requires 32 <= e <= 60 && 0 < delta < rem && delta == upper - lower && 0 < lower <= w <= upper
    requires idx <= cap <= digits.Length && Progress(digits[..idx], upper, Pow2(e), rem)
    requires 0 < cap && upper <= delta * Pow10(cap - 1)
    modifies digits
    ensures 0 < n <= cap && AllDigits(digits[..n]) && digits[0] != 48 && 0 < rounds <= 19
    ensures BestOf(Value(digits[..n]), Pow2(e), lower * Pow10(rounds), w * Pow10(rounds), upper * Pow10(rounds))
  {
    var wfrac: u64 := upper - w;
    var delta', rem';
    n, rounds, delta', rem' := FractionPart(upper, delta, e, digits, idx, rem, cap);
    Tens(rounds);
    ScaledFraction(wfrac, delta, upper, lower, rounds, delta');
    assert Shl64(1, e) == Pow2(e) by { InitialParts(0, e); }
    Correct(digits, n, upper * Pow10(rounds), delta', rem', Shl64(1, e), Mul64(wfrac, TENS[19 - rounds]));
  }

  lemma InteriorBest(v: int, kappa: nat, e: nat, lower: nat, w: nat, upper: nat)
    requires BestOf(v, Pow10(kappa) * Pow2(e), lower, w, upper)
    ensures Best(v, kappa, e, lower, w, upper)
  {
  }

  lemma FractionBest(v: int, k: nat, e: nat, lower: nat, w: nat, upper: nat)
    requires k > 0 && BestOf(v, Pow2(e), lower * Pow10(k), w * Pow10(k), upper * Pow10(k))
    ensures Best(v, -(k as int), e, lower, w, upper)
  {
  }

  lemma UnitFits(s: seq<byte>, upper: u64, delta: nat, kappa: nat, e: nat, rem: nat)
    requires Stopped(s, upper, delta, Pow10(kappa) * Pow2(e), rem) && Pow10(kappa) < B64
    ensures Shl64(Pow10(kappa), e) == Pow10(kappa) * Pow2(e)
  {
    ValueAtLeast(s);
    var unit := Pow10(kappa) * Pow2(e);
    MulMono(1, Value(s), unit);
    MulMono(0, Pow10(kappa), Pow2(e));
    ModSmall(unit, B64);
  }

  /** Scaled by the same power of ten, the distance of w from the upper bound stays
      within the tolerance, so the product does not wrap. */
  lemma ScaledFraction(wfrac: u64, delta: u64, upper: nat, lower: nat, k: nat, delta': u64)
    requires delta == upper - lower && wfrac <= delta && delta' == delta * Pow10(k) && Pow10(k) < B64 && lower > 0
    ensures Mul64(wfrac, Pow10(k)) == wfrac * Pow10(k) <= delta' < upper * Pow10(k)
    ensures upper * Pow10(k) - delta' == lower * Pow10(k)
    ensures upper * Pow10(k) - wfrac * Pow10(k) == (upper - wfrac) * Pow10(k)
  {
    var p := Pow10(k);
    MulMono(wfrac, delta, p);
    MulMono(0, wfrac, p);
    ModSmall(wfrac * p, B64);
    MulMono(1, lower, p);
    assert (upper - lower) * p == upper * p - lower * p;
    assert (upper - wfrac) * p == upper * p - wfrac * p;
  }
}
