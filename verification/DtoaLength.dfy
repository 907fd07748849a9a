/** When the text of a double does not fit the 24 characters of dest
    (libraries/eosiolib/tester/fpconv.h). */
module DtoaLength {
  import opened Words
  import opened Decimal
  import opened FloatConv
  import opened RealPowers
  import opened Dtoa

  /** No decimal of at most 16 digits reads back as d. */
  ghost predicate NeedsSeventeen(d: u64) {
    forall v: nat, k: int {:trigger BetweenMidpoints(v, k, Significand(d), LastPlace(d))} ::
      v < Pow10(16) ==> !BetweenMidpoints(v, k, Significand(d), LastPlace(d))
  }

  /** d and the midpoints around it have 24 digits before the point. */
  ghost predicate TwentyFourWhole(d: u64) {
    P10(23) <= LowMid(Significand(d), LastPlace(d)) && HighMid(Significand(d), LastPlace(d)) <= P10(24)
  }

  lemma SixteenSeven(v: nat)
    ensures v < Pow10(16) ==> DecimalValue(v, 7) < P10(23)
    ensures v >= Pow10(16) ==> DecimalValue(v, 7) >= P10(23)
    ensures v < Pow10(17) ==> DecimalValue(v, 7) < P10(24)
  {
    SevenAbove(v, 16);
    SevenAbove(v, 17);
  }

  lemma SevenAbove(v: nat, n: nat)
    ensures v < Pow10(n) <==> DecimalValue(v, 7) < P10(n + 7)
  {
    Pow10Add(n, 7);
    P10OfNat(7);
    P10OfNat(n + 7);
    Ordered(v, Pow10(n), Pow10(7));
    WholeProduct(v, Pow10(7));
  }

  lemma WholeProduct(v: nat, c: nat)
    ensures v as real * c as real == (v * c) as real
  {
  }

  lemma Ordered(v: nat, a: nat, c: nat)
    requires c > 0
    ensures v < a <==> v * c < a * c
  {
    if v < a { MulMono(v + 1, a, c); } else { MulMono(a, v, c); }
  }

  lemma TwentyFour()
    ensures P10(24) == 10.0 * P10(23)
  {
    P10Next(23);
  }

  lemma {:induction false} P10Monotone(a: int, b: int)
    requires a <= b
    ensures P10(a) <= P10(b) && (a < b ==> 10.0 * P10(a) <= P10(b))
    decreases b - a
  {
    if a < b {
      P10Monotone(a, b - 1);
      P10Next(b - 1);
    }
  }

  /** 25 characters are written only for numbers of 24 digits before the point, as far as
      the neighbouring midpoints can tell. */
  lemma LongOnlyThere(digits: seq<byte>, d: u64)
    requires Positive(d) && IsDecimalOf(digits, 7, d) && |digits| == 17
    ensures P10(23) < HighMid(Significand(d), LastPlace(d)) && LowMid(Significand(d), LastPlace(d)) < P10(24)
  {
    ValueAtLeast(digits);
    ValueBelow(digits);
    SixteenSeven(Value(digits));
  }

  /** Of those, every one that no shorter decimal denotes takes 17 digits and 7 zeros. */
  lemma LongThere(digits: seq<byte>, K: int, d: u64)
    requires Positive(d) && IsDecimalOf(digits, K, d) && NeedsSeventeen(d) && TwentyFourWhole(d)
    ensures |digits| == 17 && K == 7
  {
    var v := Value(digits);
    ValueAtLeast(digits);
    ValueBelow(digits);
    assert v >= Pow10(16);
    Pow10Less(16, |digits|);
    SixteenSeven(v);
    TwentyFour();
    OnlyOne(v, K, 7, P10(23));
  }

  /** One power of ten is right at most. */
  lemma OnlyOne(v: nat, K: int, L: int, low: real)
    requires low <= DecimalValue(v, L) < 10.0 * low && low < DecimalValue(v, K) < 10.0 * low
    ensures K == L
  {
    if K < L { Tenfold(v, K, L); }
    if L < K { Tenfold(v, L, K); }
  }

  lemma Tenfold(v: nat, K: int, L: int)
    requires K < L
    ensures 10.0 * DecimalValue(v, K) <= DecimalValue(v, L)
  {
    P10Monotone(K, L);
    TenfoldArith(v as real, P10(K), P10(L));
  }

  lemma TenfoldArith(v: real, s: real, t: real)
    requires 10.0 * s <= t && v >= 0.0
    ensures 10.0 * (v * s) <= v * t
  {
    if v > 0.0 { RMono(10.0 * s, t, v); }
    assert 10.0 * (v * s) == v * (10.0 * s);
  }

  /** A decimal of at most 16 digits is a multiple of 10^8 or too small. */
  lemma Coarse(v: nat, k: int) returns (m: nat)
    requires v < Pow10(16)
    ensures DecimalValue(v, k) < P10(23) || DecimalValue(v, k) == DecimalValue(m, 8)
  {
    if k < 8 {
      m := 0;
      SixteenSeven(v);
      NotAbove(v, k, 7);
    } else {
      m := WholeShift(v, k, 8);
    }
  }

  lemma NotAbove(v: nat, K: int, L: int)
    requires K <= L
    ensures DecimalValue(v, K) <= DecimalValue(v, L)
  {
    P10Monotone(K, L);
    if v > 0 { RMono(P10(K), P10(L), v as real); }
  }

  lemma WholeShift(v: nat, k: nat, l: nat) returns (m: nat)
    requires l <= k
    ensures DecimalValue(v, k) == DecimalValue(m, l)
  {
    m := v * Pow10(k - l);
    Pow10Add(l, k - l);
    P10OfNat(l); P10OfNat(k);
    Shifted(v, Pow10(k - l), Pow10(l), P10(l), P10(k));
  }

  lemma Shifted(v: nat, a: nat, b: nat, s: real, t: real)
    requires s == b as real && t == (b * a) as real
    ensures v as real * t == (v * a) as real * s
  {
    assert v * (b * a) == v * a * b;
    assert v as real * t == (v * (b * a)) as real;
    assert (v * a) as real * s == (v * a * b) as real;
  }

  // ----- a number for which dest is too small

  /** -2.2092781970116107e23 */
  const LONG: u64 := 0xC4C76442B38A39B2

  lemma LongParts()
    ensures Positive(LONG) && Negative(LONG) && Significand(LONG) == 6584162107144626 && LastPlace(LONG) == 25
    ensures LowMid(6584162107144626, 25) == 220927819701161050505216.0
    ensures HighMid(6584162107144626, 25) == 220927819701161084059648.0
  {
    P2OfNat(24);
    Pow2Add(12, 12);
    assert Pow2(12) == 4096;
  }

  lemma LongNeedsSeventeen()
    ensures NeedsSeventeen(LONG) && TwentyFourWhole(LONG)
  {
    LongParts();
    forall v: nat, k: int | v < Pow10(16)
      ensures !BetweenMidpoints(v, k, Significand(LONG), LastPlace(LONG))
    {
      var m := Coarse(v, k);
      BesideLong(DecimalValue(v, k), m);
    }
    PowersHere();
  }

  lemma PowersHere()
    ensures P10(8) == 100000000.0 && P10(23) == 100000000000000000000000.0 && P10(24) == 1000000000000000000000000.0
  {
    assert Pow10(8) == 100000000;
    Pow10Add(8, 8); Pow10Add(16, 8);
    P10OfNat(8); P10OfNat(24); P10Next(23);
  }

  /** No multiple of 10^8 lies between the midpoints. */
  lemma BesideLong(x: real, m: nat)
    requires x < P10(23) || x == DecimalValue(m, 8)
    ensures !Open(220927819701161050505216.0, x, 220927819701161084059648.0)
  {
    PowersHere();
    assert DecimalValue(m, 8) == (m * 100000000) as real;
  }

  /** 25 characters. */
  method WritesPastDest() returns (text: seq<byte>)
    ensures |text| == 25
  {
    ghost var digits, K;
    text, digits, K := FpconvDtoa(LONG);
    LongParts();
    LongNeedsSeventeen();
    LongThere(digits, K, LONG);
  }
}
