/** Grisu2 from the bits of a double to decimal text
    (libraries/eosiolib/tester/fpconv.c): boundaries, scaling by a cached power of
    ten, digit generation and layout. */
module Dtoa {
  import opened Words
  import opened UDivMod
  import opened MulTi3
  import opened Decimal
  import opened RealPowers
  import opened FloatConv
  import Grisu
  import GrisuPowers
  import Nearness

  /** frac * 2^exp. */
  datatype Fp = Fp(frac: u64, exp: int)

  predicate Positive(d: u64) { Finite(d) && Significand(d) > 0 }

  /** The binary exponent of the last place of a double. */
  function LastPlace(d: u64): int { (if Biased(d) == 0 then 0 else Biased(d) - 1) - 1074 }

  function BuildFp(d: u64): (fp: Fp)
    requires Finite(d)
    ensures fp == Fp(Significand(d), LastPlace(d)) && fp.frac < P53
  {
    var frac, exp := Fraction(d), Biased(d);
    if exp != 0 then Fp(frac + P52, exp - 1075) else Fp(frac, -1075 + 1)
  }

  // ----- normalisation

  lemma HiddenBit(x: nat, k: nat)
    requires x < 2 * Pow2(k)
    ensures BitAnd(x, Pow2(k)) == 0 <==> x < Pow2(k)
  {
    AndBit(x, k);
    if x < Pow2(k) { ModSmall(x, Pow2(k)); } else { DivMul(1, Pow2(k), x - Pow2(k)); }
  }

  /** `while ((frac & bit) == 0) { frac <<= 1; exp--; }` brings the leading bit to k. */
  method ShiftUp(fp0: Fp, k: nat) returns (fp: Fp)
    requires 0 < fp0.frac < 2 * Pow2(k) && k < 63
    ensures var s := k + 1 - BitLen(fp0.frac);
      s >= 0 && fp.frac == fp0.frac * Pow2(s) && Pow2(k) <= fp.frac < 2 * Pow2(k) && fp.exp == fp0.exp - s
  {
    fp := fp0;
    ghost var s := 0;
    assert Pow2(k) < B63 by { Pow2Mono(k + 1, 63); Pow2Word64(); }
    while BitAnd(fp.frac, Pow2(k)) == 0
      invariant 0 < fp.frac == fp0.frac * Pow2(s) < 2 * Pow2(k) && fp.exp == fp0.exp - s
      decreases 2 * Pow2(k) - fp.frac
    {
      HiddenBit(fp.frac, k);
      ShiftOnce(fp0.frac, s, fp.frac);
      fp := Fp((2 * fp.frac) % B64, fp.exp - 1);
      s := s + 1;
    }
    HiddenBit(fp.frac, k);
    LengthShifted(fp0.frac, s, k);
  }

  lemma ShiftOnce(x0: nat, s: nat, x: nat)
    requires x == x0 * Pow2(s) && x < B63
    ensures (2 * x) % B64 == 2 * x == x0 * Pow2(s + 1)
  {
    ModSmall(2 * x, B64);
    assert Pow2(s + 1) == 2 * Pow2(s);
    assert x0 * (2 * Pow2(s)) == 2 * (x0 * Pow2(s));
  }

  lemma LengthShifted(x: nat, s: nat, k: nat)
    requires x > 0 && Pow2(k) <= x * Pow2(s) < 2 * Pow2(k)
    ensures s == k + 1 - BitLen(x)
  {
    BitLenBounds(x);
    LengthOnly(x, BitLen(x), s, k);
  }

  lemma LengthOnly(x: nat, n: nat, s: nat, k: nat)
    requires n > 0 && Pow2(n - 1) <= x < Pow2(n) && Pow2(k) <= x * Pow2(s) < 2 * Pow2(k)
    ensures s == k + 1 - n
  {
    ShiftedBetween(x, n, s);
    if n - 1 + s < k { Pow2Mono(n + s, k); }
    if n - 1 + s > k { Pow2Mono(k + 1, n - 1 + s); }
  }

  lemma ShiftedBetween(x: nat, n: nat, s: nat)
    requires n > 0 && Pow2(n - 1) <= x < Pow2(n)
    ensures Pow2(n - 1 + s) <= x * Pow2(s) < Pow2(n + s)
  {
    Pow2Add(n - 1, s);
    Pow2Add(n, s);
    AlignedArith(x, Pow2(n - 1), Pow2(n), Pow2(s));
  }

  method Normalize(fp0: Fp) returns (fp: Fp)
    requires 0 < fp0.frac < P53
    ensures fp.frac == fp0.frac * Pow2(Shift(fp0.frac)) && fp.exp == fp0.exp - Shift(fp0.frac)
  {
    assert Pow2(52) == P52 by { Pow2Word64(); }
    fp := ShiftUp(fp0, 52);
    ShiftBy(fp0.frac, 53 - BitLen(fp0.frac), 11, fp.frac, P53);
    fp := Fp((fp.frac * 0x800) % B64, fp.exp - 11);
  }

  /** A final shift by a constant keeps the value below 2^64. */
  lemma ShiftBy(x: nat, s: nat, t: nat, y: nat, bound: nat)
    requires y == x * Pow2(s) && y < bound && bound * Pow2(t) <= B64 && (t == 10 || t == 11)
    ensures Pow2(t) == (if t == 10 then 0x400 else 0x800)
    ensures (y * Pow2(t)) % B64 == x * Pow2(s + t) < B64
  {
    assert Pow2(10) == 0x400;
    assert Pow2(11) == 2 * Pow2(10);
    Pow2Add(s, t);
    assert x * (Pow2(s) * Pow2(t)) == x * Pow2(s) * Pow2(t);
    MulMono(y + 1, bound, Pow2(t));
    assert (y + 1) * Pow2(t) == y * Pow2(t) + Pow2(t);
    ModSmall(y * Pow2(t), B64);
  }

  // ----- boundaries

  /** Digits of the lower boundary: a power of two has a closer neighbour below. */
  function LowerShift(frac: nat): nat { if frac == P52 then 2 else 1 }

  lemma NextLength(frac: nat)
    requires frac > 0
    ensures BitLen(2 * frac + 1) == BitLen(frac) + 1
  {
  }

  /** The midpoints to the neighbouring doubles, on the scale of the normalised value. */
  method NormalizedBoundaries(fp: Fp) returns (lower: Fp, upper: Fp)
    requires 0 < fp.frac < P53
    ensures upper.exp == lower.exp == fp.exp - Shift(fp.frac)
    ensures upper.frac == UpperFrac(fp.frac) && lower.frac == LowerFrac(fp.frac)
  {
    upper := UpperBoundary(fp);
    lower := LowerBoundary(fp, upper.exp);
  }

  /** Places by which a significand is shifted to fill 64 bits. */
  function Shift(frac: nat): (s: nat)
    requires 0 < frac < P53
    ensures s == 64 - BitLen(frac) && s >= 11
  {
    BitLenAtMost(frac, 53);
    assert Pow2(53) == P53 by { Pow2Word64(); }
    64 - BitLen(frac)
  }

  function UpperFrac(frac: nat): nat
    requires 0 < frac < P53
  {
    (2 * frac + 1) * Pow2(Shift(frac) - 1)
  }

  function LowerFrac(frac: nat): int
    requires 0 < frac < P53
  {
    (frac * Pow2(LowerShift(frac)) - 1) * Pow2(Shift(frac) - LowerShift(frac))
  }

  method UpperBoundary(fp: Fp) returns (upper: Fp)
    requires 0 < fp.frac < P53
    ensures upper.exp == fp.exp - Shift(fp.frac) && upper.frac == UpperFrac(fp.frac)
  {
    var frac, len := fp.frac, BitLen(fp.frac);
    assert Pow2(53) == P53 by { Pow2Word64(); }
    NextLength(frac);
    upper := ShiftUp(Fp(2 * frac + 1, fp.exp - 1), 53);
    UpperShifted(frac, upper.frac);
    upper := Fp((upper.frac * 0x400) % B64, upper.exp - 10);
  }

  lemma UpperShifted(frac: nat, u: nat)
    requires 0 < frac < P53 && u == (2 * frac + 1) * Pow2(Shift(frac) - 11) && u < 2 * P53
    ensures (u * 0x400) % B64 == UpperFrac(frac)
  {
    ShiftBy(2 * frac + 1, Shift(frac) - 11, 10, u, 2 * P53);
  }

  method LowerBoundary(fp: Fp, exp: int) returns (lower: Fp)
    requires 0 < fp.frac < P53 && exp == fp.exp - Shift(fp.frac)
    ensures lower.exp == exp && lower.frac == LowerFrac(fp.frac)
  {
    var l := LowerShift(fp.frac);
    LowerFits(fp.frac, l, Shift(fp.frac) - l);
    lower := Fp((fp.frac * Pow2(l) - 1) % B64, fp.exp - l);
    lower := Fp((lower.frac * Pow2(lower.exp - exp)) % B64, exp);
  }

  lemma LowerFits(frac: nat, l: nat, s: nat)
    requires 0 < frac < P53 && 0 < l && s + l == 64 - BitLen(frac)
    ensures 0 <= frac * Pow2(l) - 1 < B64
    ensures (frac * Pow2(l) - 1) % B64 == frac * Pow2(l) - 1
    ensures ((frac * Pow2(l) - 1) * Pow2(s)) % B64 == (frac * Pow2(l) - 1) * Pow2(s)
  {
    BitLenBounds(frac);
    WordSplit(BitLen(frac), l, s);
    LowerArith(frac, Pow2(BitLen(frac)), Pow2(l), Pow2(s));
    ModSmall(frac * Pow2(l) - 1, B64);
    ModSmall((frac * Pow2(l) - 1) * Pow2(s), B64);
  }

  lemma WordSplit(n: nat, l: nat, s: nat)
    requires n + l + s == 64
    ensures Pow2(n) * (Pow2(l) * Pow2(s)) == B64
  {
    Pow2Add(l, s);
    Pow2Add(n, l + s);
    Pow2Word64();
  }

  lemma LowerArith(frac: nat, h: nat, p: nat, q: nat)
    requires 0 < frac < h && p > 0 && q > 0 && h * (p * q) == B64
    ensures 0 <= frac * p - 1 < B64 && 0 <= (frac * p - 1) * q < B64
  {
    var x := frac * p - 1;
    MulMono(1, frac, p);
    MulMono(frac, h, p * q);
    assert frac * (p * q) == (x + 1) * q;
    assert (x + 1) * q == x * q + q;
    MulMono(0, x, q);
    MulMono(1, q, x);
    assert x * q == q * x;
  }

  /** The three normalised significands: at most 2^64, in order, and far enough apart
      for the rounding errors of the scaling and for 17 digits. */
  lemma Spread(frac: nat)
    requires 0 < frac < P53
    ensures var lo := LowerFrac(frac); var w := frac * Pow2(Shift(frac)); var hi := UpperFrac(frac);
      && B63 <= w && 0 < lo && lo + 512 <= w && w + 1024 <= hi < B64
      && hi + 60000000000000001 <= (hi - lo) * 10000000000000000
  {
    var s: nat := Shift(frac) - 2;
    BitLenBounds(frac);
    var n := BitLen(frac);
    Quarters(n - 1, s);
    SmallestSpacing(s);
    if frac == P52 {
      assert n == 53 by { BitLenAtMost(frac, 52); assert Pow2(52) == P52 by { Pow2Word64(); } }
    }
    SpreadArith(frac, Pow2(n - 1), Pow2(s));
  }

  lemma Quarters(m: nat, s: nat)
    requires m + s + 2 == 63
    ensures Pow2(s + 1) == 2 * Pow2(s) && Pow2(s + 2) == 4 * Pow2(s) && Pow2(1) == 2 && Pow2(2) == 4
    ensures Pow2(m) * (4 * Pow2(s)) == B63 && Pow2(m + 1) == 2 * Pow2(m)
  {
    Pow2Add(m, s + 2);
    Pow2Word64();
    assert Pow2(1) == 2;
  }

  lemma SmallestSpacing(s: nat)
    requires s >= 9
    ensures Pow2(s) >= 512 && (s == 9 ==> Pow2(s) == 512)
  {
    assert Pow2(9) == 512;
    Pow2Mono(9, s);
  }

  lemma SpreadArith(frac: nat, h: nat, q: nat)
    requires h <= frac < 2 * h && h * (4 * q) == B63 && q >= 512 && (frac == P52 ==> q == 512)
    ensures var l := LowerShift(frac);
      var lo := if l == 2 then (frac * 4 - 1) * q else (frac * 2 - 1) * (2 * q);
      var w := frac * (4 * q); var hi := (2 * frac + 1) * (2 * q);
      && B63 <= w && 0 < lo && lo + 512 <= w && w + 1024 <= hi < B64
      && hi + 60000000000000001 <= (hi - lo) * 10000000000000000
  {
    var x := frac * q;
    SpreadProducts(frac, q);
    SpreadProducts(h, q);
    MulMono(h, frac, q);
    MulMono(frac + 1, 2 * h, q);
    assert (frac + 1) * q == x + q;
    assert (2 * h) * q == 2 * (h * q);
    assert frac == P52 ==> 4 * x == B63;
  }

  lemma SpreadProducts(f: nat, q: nat)
    ensures f * (4 * q) == 4 * (f * q) && (2 * f + 1) * (2 * q) == 4 * (f * q) + 2 * q
    ensures (f * 4 - 1) * q == 4 * (f * q) - q && (f * 2 - 1) * (2 * q) == 4 * (f * q) - 2 * q
  {
  }

  // ----- scaling by a cached power

  /** `multiply`. */
  method Multiply(a: Fp, f: u64, q: int) returns (p: Fp)
    ensures p == Fp(Scaled64(a.frac, f), a.exp + q + 64)
  {
    var frac := MultiplyFrac(a.frac, f);
    p := Fp(frac, a.exp + q + 64);
  }

  function Scaled64(x: u64, f: u64): (r: u64)
  {
    ScaledFits(x, f);
    (x * f + B63) / B64
  }

  lemma ScaledFits(x: u64, f: u64)
    ensures 0 <= (x * f + B63) / B64 < B64
  {
    MulMono(x, 0xFFFF_FFFF_FFFF_FFFF, f);
    MulMono(0, x, f);
    assert x * f <= 0xFFFF_FFFF_FFFF_FFFF * f;
  }

  lemma ScaledBounds(x: nat, f: nat, r: int)
    requires r == (x * f + B63) / B64
    ensures r * B64 <= x * f + B63 < r * B64 + B64
  {
  }

  /** r is x * f / 2^64, rounded to the nearest. */
  ghost predicate ScaledTo(x: nat, f: nat, r: int) { r * B64 <= x * f + B63 < r * B64 + B64 }

  /** After scaling and tightening by one on each side, the bounds still enclose the
      value, and 17 digits are enough. */
  lemma StillSpread(lo: u64, w: u64, hi: u64, f: u64)
    requires B63 <= f && lo + 512 <= w && w + 1024 <= hi
    requires hi + 60000000000000001 <= (hi - lo) * 10000000000000000
    ensures var lo', w', hi' := Scaled64(lo, f) + 1, Scaled64(w, f), Scaled64(hi, f) - 1;
      && 0 < lo' <= w' <= hi' && lo' < hi' < B64 && hi' <= (hi' - lo') * 10000000000000000
  {
    ScaledBounds(lo, f, Scaled64(lo, f)); ScaledBounds(w, f, Scaled64(w, f)); ScaledBounds(hi, f, Scaled64(hi, f));
    GapGrows(lo, w, 512, f);
    GapGrows(w, hi, 1024, f);
    Widths(lo, hi, f);
  }

  lemma GapGrows(x: nat, y: nat, gap: nat, f: nat)
    requires x + gap <= y && f >= B63
    ensures y * f - x * f >= gap * B63
  {
    MulMono(gap, y - x, f);
    assert (y - x) * f == y * f - x * f;
  }

  lemma Widths(lo: nat, hi: nat, f: nat)
    requires B63 <= f && lo <= hi && hi + 60000000000000001 <= (hi - lo) * 10000000000000000
    ensures hi * f + 60000000000000001 * B63 <= (hi * f - lo * f) * 10000000000000000
  {
    MulMono(hi + 60000000000000001, (hi - lo) * 10000000000000000, f);
    assert (hi - lo) * 10000000000000000 * f == (hi * f - lo * f) * 10000000000000000;
    assert (hi + 60000000000000001) * f == hi * f + 60000000000000001 * f;
  }

  /** The scaled and tightened interval that digit generation works on, with the
      cached power f * 2^q ~ 10^k it was scaled by. */
  ghost predicate Prepared(frac: nat, exp: int, lower: Fp, w: Fp, upper: Fp, k: int, f: u64, q: int)
    requires 0 < frac < P53
  {
    var lo, hi := LowerFrac(frac), UpperFrac(frac);
    && 0 < lo < B64 && hi < B64 && -348 <= k <= 340 && GrisuPowers.HalfUlp(f, q, k) && B63 <= f
    && 0 <= frac * Pow2(Shift(frac)) < B64 && ScaledTo(frac * Pow2(Shift(frac)), f, w.frac)
    && lower.frac == Scaled64(lo, f) + 1 && upper.frac == Scaled64(hi, f) - 1
    && upper.exp == exp - Shift(frac) + q + 64 && -60 <= upper.exp <= -32
    && lower.frac <= w.frac <= upper.frac && lower.frac < upper.frac
    && upper.frac <= (upper.frac - lower.frac) * 10000000000000000
  }

  method Prepare(fp: Fp) returns (lower: Fp, w: Fp, upper: Fp, k: int, ghost f: u64, ghost q: int)
    requires 0 < fp.frac < P53 && -1074 <= fp.exp <= 971
    ensures Prepared(fp.frac, fp.exp, lower, w, upper, k, f, q)
  {
    Spread(fp.frac);
    lower, upper := NormalizedBoundaries(fp);
    w := Normalize(fp);
    BitLenBounds(fp.frac);
    var idx := GrisuPowers.StartIndex(upper.exp);
    idx, k := GrisuPowers.FindCachedPow10(upper.exp, idx);
    GrisuPowers.FracNormalised(idx);
    GrisuPowers.Accurate(idx);
    var cp := Fp(GrisuPowers.Frac(idx), GrisuPowers.Exponent(idx));
    StillSpread(lower.frac, w.frac, upper.frac, cp.frac);
    ScaledBounds(w.frac, cp.frac, Scaled64(w.frac, cp.frac));
    w := Multiply(w, cp.frac, cp.exp);
    upper := Multiply(upper, cp.frac, cp.exp);
    lower := Multiply(lower, cp.frac, cp.exp);
    lower := Fp(lower.frac + 1, lower.exp);
    upper := Fp(upper.frac - 1, upper.exp);
    f, q := cp.frac, cp.exp;
  }

  /** `grisu2` for a positive finite double. */
  method Grisu2(d: u64, digits: array<byte>) returns (n: nat, K: int)
    requires Positive(d) && digits.Length == 18
    modifies digits
    ensures 0 < n <= 17 && AllDigits(digits[..n]) && digits[0] != 48 && -359 <= K <= 357
    ensures BetweenMidpoints(Value(digits[..n]), K, Significand(d), LastPlace(d))
    ensures NearestOf(Value(digits[..n]), K, Significand(d), LastPlace(d))
    ensures ShortestAt(K, Significand(d), LastPlace(d))
  {
    var fp := BuildFp(d);
    var lower, w, upper, k, f, q := Prepare(fp);
    TenSixteen();
    n, K := Grisu.GenerateDigits(w.frac, upper.frac, lower.frac, -upper.exp, digits, -k, 17);
    ghost var v := Value(digits[..n]);
    ValueBelow(digits[..n]);
    ReadsBack(v, K, fp.frac, fp.exp, lower, w, upper, k, f, q);
    AreNearest(v, K, fp.frac, fp.exp, lower, w, upper, k, f, q);
  }

  lemma TenSixteen()
    ensures Pow10(16) == 10000000000000000
  {
    assert Pow10(8) == 100000000;
    Pow10Add(8, 8);
  }

  // ----- what the digits denote

  function DecimalValue(v: int, k: int): real { v as real * P10(k) }

  /** The midpoints of the double frac * 2^exp and its neighbours. */
  function LowMid(frac: nat, exp: int): real {
    (frac * Pow2(LowerShift(frac)) - 1) as real * P2(exp - LowerShift(frac))
  }
  function HighMid(frac: nat, exp: int): real { (2 * frac + 1) as real * P2(exp - 1) }

  /** v * 10^k lies strictly between them. */
  ghost predicate BetweenMidpoints(v: int, k: int, frac: nat, exp: int) {
    Open(LowMid(frac, exp), DecimalValue(v, k), HighMid(frac, exp))
  }

  // Bounds by name, as products are.
  ghost predicate Open(a: real, x: real, b: real) { a < x < b }
  ghost predicate Within(a: real, x: real, b: real) { a <= x <= b }
  ghost predicate Inside(lo: real, s: real, x: real, hi: real) { lo * s < x < hi * s }
  ghost predicate InsideTimes(lo: real, hi: real, t: real, s: real, x: real) { lo * t * s < x < hi * t * s }
  ghost predicate Scaled(lo: int, hi: int, c: real, x: real) { lo as real * c <= x <= hi as real * c }

  lemma ReadsBack(v: nat, K: int, frac: nat, exp: int, lower: Fp, w: Fp, upper: Fp, k: int, f: u64, q: int)
    requires 0 < frac < P53 && Prepared(frac, exp, lower, w, upper, k, f, q)
    requires Grisu.Best(v, K + k, -upper.exp, lower.frac, w.frac, upper.frac)
    ensures BetweenMidpoints(v, K, frac, exp)
  {
    var ue, lo: u64, hi: u64 := exp - Shift(frac), LowerFrac(frac), UpperFrac(frac);
    InBounds(v, K + k, -upper.exp, lower.frac, w.frac, upper.frac);
    var x, y := InReals(v, K + k, -upper.exp, lower.frac, upper.frac);
    Unscaled(x, y, -upper.exp, lower.frac, upper.frac, lo, hi, f, ue, q);
    DecimalInterval(v, x, K, k, lo, hi, f, ue, q);
    AtMidpoints(DecimalValue(v, K), frac, exp);
  }

  /** Five units of the last place of the significand with 64 bits: at most 5/2048 of a
      unit of the double's own last place. */
  function Slack(frac: nat, exp: int): real
    requires 0 < frac < P53
  {
    5.0 * P2(exp - Shift(frac))
  }

  /** Between the midpoints, and not close to them. */
  ghost predicate WellInside(x: real, frac: nat, exp: int)
    requires 0 < frac < P53
  {
    LowMid(frac, exp) + Slack(frac, exp) <= x <= HighMid(frac, exp) - Slack(frac, exp)
  }

  /** No decimal of the same exponent well inside is nearer to the double, up to the slack. */
  ghost predicate NearestOf(v: int, k: int, frac: nat, exp: int)
    requires 0 < frac < P53
  {
    forall x: nat :: WellInside(DecimalValue(x, k), frac, exp) ==>
      Nearness.NoFarther(DecimalValue(v, k), DecimalValue(x, k), frac as real * P2(exp), Slack(frac, exp))
  }

  /** No decimal with a digit less is well inside. */
  ghost predicate ShortestAt(k: int, frac: nat, exp: int)
    requires 0 < frac < P53
  {
    forall x: nat :: !WellInside(DecimalValue(10 * x, k), frac, exp)
  }

  lemma AreNearest(v: nat, K: int, frac: nat, exp: int, lower: Fp, w: Fp, upper: Fp, k: int, f: u64, q: int)
    requires 0 < frac < P53 && Prepared(frac, exp, lower, w, upper, k, f, q)
    requires Grisu.Best(v, K + k, -upper.exp, lower.frac, w.frac, upper.frac)
    ensures NearestOf(v, K, frac, exp) && ShortestAt(K, frac, exp)
  {
    var g := TargetOf(frac, exp, lower, w, upper, k, f, q);
    forall x: nat
      ensures WellInside(DecimalValue(x, K), frac, exp) ==>
        Nearness.NoFarther(DecimalValue(v, K), DecimalValue(x, K), frac as real * P2(exp), Slack(frac, exp))
    {
      OneNearest(v, x, K, k, -upper.exp, lower.frac, w.frac, upper.frac, g, DecimalValue(v, K), DecimalValue(x, K));
    }
    forall x: nat
      ensures !WellInside(DecimalValue(10 * x, K), frac, exp)
    {
      OneLonger(v, x, K, k, -upper.exp, lower.frac, w.frac, upper.frac, g, DecimalValue(10 * x, K));
    }
  }

  /** The numbers that the scaled significands stand for. */
  lemma TargetOf(frac: nat, exp: int, lower: Fp, w: Fp, upper: Fp, k: int, f: u64, q: int)
      returns (g: Nearness.Target)
    requires 0 < frac < P53 && Prepared(frac, exp, lower, w, upper, k, f, q)
    ensures Nearness.Frame(lower.frac, w.frac, upper.frac, g) && g.t == P10(k) && Product(P2(-upper.exp), g.c, 1.0)
    ensures g.low == LowMid(frac, exp) && g.high == HighMid(frac, exp) && g.mid == frac as real * P2(exp)
    ensures g.slack == Slack(frac, exp)
  {
    var ue, lo, hi := exp - Shift(frac), LowerFrac(frac), UpperFrac(frac);
    LowerAtMid(frac, exp);
    UpperAtMid(frac, exp);
    TargetAt(frac, exp);
    ScaledBounds(lo, f, Scaled64(lo, f));
    ScaledBounds(hi, f, Scaled64(hi, f));
    var c, slackT := UnitOfScale(ue, f, q, k, -upper.exp, Slack(frac, exp));
    var lowT := OneClose(lo, f, lower.frac - 1, ue, q, k, c, LowMid(frac, exp));
    var midT := OneClose(frac * Pow2(Shift(frac)), f, w.frac, ue, q, k, c, frac as real * P2(exp));
    var highT := OneClose(hi, f, upper.frac + 1, ue, q, k, c, HighMid(frac, exp));
    g := Nearness.Target(c, P10(k), LowMid(frac, exp), frac as real * P2(exp), HighMid(frac, exp), Slack(frac, exp),
      lowT, midT, highT, slackT);
  }

  lemma OneClose(z: nat, f: nat, r: nat, ue: int, q: int, k: int, c: real, x: real) returns (xt: real)
    requires z < B64 && ScaledTo(z, f, r) && GrisuPowers.HalfUlp(f, q, k) && Product(z as real, P2(ue), x)
    requires Product(B64 as real, P2(ue + q), c)
    ensures Product(x, P10(k), xt) && Nearness.Close(r, c, xt)
  {
    xt := x * P10(k);
    SplitPowers(0, k, ue, q);
    Nearness.ScaledClose(z, f, r, P2(ue), P2(q), P10(k), P2(ue + q), c, x, xt);
  }

  lemma UnitOfScale(ue: int, f: nat, q: int, k: int, e: nat, slack: real) returns (c: real, slackT: real)
    requires B63 <= f && GrisuPowers.HalfUlp(f, q, k) && e == -(ue + q + 64) && slack == 5.0 * P2(ue)
    ensures Product(B64 as real, P2(ue + q), c) && Product(slack, P10(k), slackT) && 2.0 * c < slackT
    ensures Product(P2(e), c, 1.0) && c > 0.0
  {
    c, slackT := B64 as real * P2(ue + q), slack * P10(k);
    SplitPowers(0, k, ue, q);
    Nearness.FiveUnits(f, P2(ue), P2(q), P10(k), P2(ue + q));
    UnitInverse(e, ue, q);
    Reassociate(P2(e), B64 as real, P2(ue + q));
  }

  /** The double itself, with the significand that fills 64 bits. */
  lemma TargetAt(frac: nat, exp: int)
    requires 0 < frac < P53
    ensures Product((frac * Pow2(Shift(frac))) as real, P2(exp - Shift(frac)), frac as real * P2(exp))
  {
    var s := Shift(frac);
    Unshift(frac, s, exp, exp - s, frac * Pow2(s), frac as real * P2(exp));
  }

  /** A decimal and its scaled value. */
  lemma ScaledDecimal(x: nat, K: int, k: int, e: nat, g: Nearness.Target, dx: real)
      returns (u: real, y: real, n: nat)
    requires Product(P2(e), g.c, 1.0) && g.t == P10(k) && Product(x as real, P10(K), dx)
    ensures n == x * Grisu.Unit(K + k, e) && Nearness.StandsFor(K + k, n, y, u, dx, g)
  {
    u, y, n := Nearness.ScaledOf(x, K + k, e);
    SplitPowers(K, k, 0, 0);
    Nearness.Split(x as real, P10(K), P10(k), P10(K + k), u, dx);
    Nearness.Back(u, y, P2(e), g.c);
  }

  lemma OneNearest(v: nat, x: nat, K: int, k: int, e: nat, lo: nat, w: nat, hi: nat, g: Nearness.Target, dv: real,
      dx: real)
    requires Nearness.Frame(lo, w, hi, g) && Product(P2(e), g.c, 1.0) && g.t == P10(k)
    requires Grisu.Best(v, K + k, e, lo, w, hi) && Product(v as real, P10(K), dv) && Product(x as real, P10(K), dx)
    ensures Nearness.WellInside(dx, g) ==> Nearness.NoFarther(dv, dx, g.mid, g.slack)
  {
    var uv, yv, n := ScaledDecimal(v, K, k, e, g, dv);
    var ux, yx, m := ScaledDecimal(x, K, k, e, g, dx);
    if Nearness.WellInside(dx, g) {
      Nearness.NearestBack(K + k, Grisu.Unit(K + k, e), v, x, lo, w, hi, n, m, yv, yx, uv, ux, dv, dx, g);
    }
  }

  lemma OneLonger(v: nat, x: nat, K: int, k: int, e: nat, lo: nat, w: nat, hi: nat, g: Nearness.Target, dx: real)
    requires Nearness.Frame(lo, w, hi, g) && Product(P2(e), g.c, 1.0) && g.t == P10(k)
    requires Grisu.Best(v, K + k, e, lo, w, hi) && Product((10 * x) as real, P10(K), dx)
    ensures !Nearness.WellInside(dx, g)
  {
    var u, y, m := ScaledDecimal(10 * x, K, k, e, g, dx);
    Nearness.NoneBack(K + k, Grisu.Unit(K + k, e), v, x, lo, w, hi, m, y, u, dx, g);
  }

  /** What the generator guarantees, over the reals. */
  lemma InReals(v: nat, kappa: int, e: nat, lo: nat, hi: nat) returns (x: real, y: real)
    requires Bounded(v, kappa, e, lo, hi)
    ensures Product(v as real, P10(kappa), x) && Product(x, P2(e), y) && Within(lo as real, y, hi as real)
  {
    P2OfNat(e);
    if kappa >= 0 {
      P10OfNat(kappa);
      x, y := WholeUnits(v, Pow10(kappa), Pow2(e), lo, hi, P10(kappa), P2(e));
    } else {
      GrisuPowers.Inverse10(kappa, Pow10(-kappa));
      x, y := DivideOut(v, Pow10(-kappa), Pow2(e), lo, hi, P10(kappa), P2(e));
    }
  }

  ghost predicate Bounded(v: int, kappa: int, e: nat, lo: nat, hi: nat) {
    Grisu.Scale(lo, kappa) <= v * Grisu.Unit(kappa, e) <= Grisu.Scale(hi, kappa)
  }

  lemma InBounds(v: int, kappa: int, e: nat, lo: nat, w: nat, hi: nat)
    requires Grisu.Best(v, kappa, e, lo, w, hi)
    ensures Bounded(v, kappa, e, lo, hi)
  {
  }

  lemma WholeUnits(v: nat, a: nat, b: nat, lo: nat, hi: nat, t: real, p: real) returns (x: real, y: real)
    requires lo <= v * (a * b) <= hi && t == a as real && p == b as real
    ensures Product(v as real, t, x) && Product(x, p, y) && Within(lo as real, y, hi as real)
  {
    x := v as real * a as real;
    y := x * b as real;
    assert (a * b) as real == a as real * b as real;
    assert (v * (a * b)) as real == v as real * (a * b) as real;
  }

  lemma DivideOut(v: nat, a: nat, b: nat, lo: nat, hi: nat, t: real, p: real) returns (x: real, y: real)
    requires lo * a <= v * b <= hi * a && t * a as real == 1.0 && t > 0.0 && p == b as real
    ensures Product(v as real, t, x) && Product(x, p, y) && Within(lo as real, y, hi as real)
  {
    x := v as real * t;
    y := x * b as real;
    ExactProduct(lo, a); ExactProduct(v, b); ExactProduct(hi, a);
    DivideBounds(lo as real, hi as real, a as real, v as real, b as real, t);
  }

  lemma DivideBounds(lo: real, hi: real, a: real, v: real, b: real, t: real)
    requires lo * a <= v * b <= hi * a && t * a == 1.0 && t > 0.0
    ensures lo <= v * t * b <= hi
  {
    RMono(lo * a, v * b, t);
    RMono(v * b, hi * a, t);
    OneOut(lo, a, t); OneOut(hi, a, t);
    Swap(v, t, b);
  }

  lemma OneOut(x: real, a: real, t: real)
    requires t * a == 1.0
    ensures x * a * t == x
  {
    assert x * a * t == x * (t * a);
  }

  lemma ExactProduct(x: nat, f: nat)
    ensures (x * f) as real == x as real * f as real
  {
  }

  lemma Swap(x: real, s: real, t: real)
    ensures x * s * t == x * t * s
  {
  }

  lemma Reassociate(x: real, y: real, z: real)
    ensures x * (y * z) == x * y * z
  {
  }

  /** The generator's bounds, in terms of the unscaled boundaries. */
  lemma Unscaled(x: real, y: real, e: nat, lo': nat, hi': nat, lo: u64, hi: u64, f: u64, ue: int, q: int)
    requires e == -(ue + q + 64) && lo' == Scaled64(lo, f) + 1 && hi' == Scaled64(hi, f) - 1
    requires Product(x, P2(e), y) && Within(lo' as real, y, hi' as real)
    ensures Scaled(lo * f + B63, hi * f - B63, P2(ue + q), x)
  {
    UnitInverse(e, ue, q);
    ScaledBounds(lo, f, Scaled64(lo, f)); ScaledBounds(hi, f, Scaled64(hi, f));
    UnscaleBoth(x, y, P2(e), P2(ue + q), lo', hi', lo * f + B63, hi * f - B63, B64 as real);
  }

  /** The exponents of the scaling cancel. */
  lemma UnitInverse(e: nat, ue: int, q: int)
    requires e == -(ue + q + 64)
    ensures Product(P2(e) * B64 as real, P2(ue + q), 1.0)
  {
    P2Add(e + 64, ue + q);
    P2Add(e, 64);
    P2OfNat(64);
    Pow2Word64();
  }

  lemma UnscaleBoth(x: real, y: real, u: real, c: real, lo': int, hi': int, lo: int, hi: int, b: real)
    requires Product(x, u, y) && Within(lo' as real, y, hi' as real) && Product(u * b, c, 1.0) && c > 0.0
    requires b == B64 as real && lo <= lo' * B64 && hi' * B64 <= hi
    ensures Scaled(lo, hi, c, x)
  {
    var z := y * b;
    assert lo as real <= z <= hi as real;
    RMono(lo as real, z, c);
    RMono(z, hi as real, c);
    assert z * c == x * (u * b * c);
  }

  /** The error of the cached power is absorbed by the tightening. */
  lemma DecimalInterval(v: nat, x: real, K: int, k: int, lo: u64, hi: u64, f: u64, ue: int, q: int)
    requires GrisuPowers.HalfUlp(f, q, k) && Product(v as real, P10(K + k), x)
    requires Scaled(lo * f + B63, hi * f - B63, P2(ue + q), x)
    ensures Inside(lo as real, P2(ue), DecimalValue(v, K), hi as real)
  {
    SplitPowers(K, k, ue, q);
    Absorb(x, lo, hi, f, P2(ue), P2(q), P10(k), P2(ue + q));
    DecimalIs(v, K);
    CancelTen(x, v as real, P10(K), P10(k), P10(K + k), DecimalValue(v, K), lo as real, hi as real, P2(ue));
  }

  lemma DecimalIs(v: int, K: int)
    ensures Product(v as real, P10(K), DecimalValue(v, K))
  {
  }

  lemma SplitPowers(K: int, k: int, ue: int, q: int)
    ensures Product(P10(K), P10(k), P10(K + k)) && Product(P2(ue), P2(q), P2(ue + q))
  {
    P10Add(K, k);
    P2Add(ue, q);
  }

  lemma Absorb(x: real, lo: nat, hi: nat, f: nat, s: real, p: real, t: real, c: real)
    requires lo < B64 && hi < B64 && s > 0.0 && p > 0.0 && Product(s, p, c)
    requires GrisuPowers.WithinHalf(f as real, p, t)
    requires Scaled(lo * f + B63, hi * f - B63, c, x)
    ensures InsideTimes(lo as real, hi as real, t, s, x)
  {
    ExactProduct(hi, f); ExactProduct(lo, f);
    var b := B63 as real;
    Below(x, hi as real, f as real, s, p, t, c, b);
    Above(x, lo as real, f as real, s, p, t, c, b);
  }

  lemma CancelTen(x: real, v: real, u: real, t: real, ut: real, vu: real, lo: real, hi: real, s: real)
    requires Product(u, t, ut) && Product(v, ut, x) && Product(v, u, vu) && InsideTimes(lo, hi, t, s, x) && t > 0.0
    ensures Inside(lo, s, vu, hi)
  {
    Reassociate(v, u, t);
    RMono(vu, hi * s, t);
    RMono(lo * s, vu, t);
    Swap(hi, s, t); Swap(lo, s, t);
  }

  /** Half a unit in the last place of f costs less than the unit given up. */
  lemma Below(x: real, hi: real, f: real, s: real, p: real, t: real, c: real, b: real)
    requires x <= (hi * f - b) * c && c == s * p && 0.0 <= hi < 2.0 * b && s > 0.0 && p > 0.0
    requires GrisuPowers.WithinHalf(f, p, t)
    ensures x < hi * t * s
  {
    HalfCost(hi, f * p, p, t, b);
    Regroup(hi, f, s, p, -b);
    RMono(hi * (f * p) + (-b) * p, hi * t, s);
  }

  lemma Above(x: real, lo: real, f: real, s: real, p: real, t: real, c: real, b: real)
    requires (lo * f + b) * c <= x && c == s * p && 0.0 <= lo < 2.0 * b && s > 0.0 && p > 0.0
    requires GrisuPowers.WithinHalf(f, p, t)
    ensures lo * t * s < x
  {
    HalfCost(lo, f * p, p, t, b);
    Regroup(lo, f, s, p, b);
    RMono(lo * t, lo * (f * p) + b * p, s);
  }

  lemma HalfCost(x: real, u: real, p: real, t: real, b: real)
    requires 0.0 <= x < 2.0 * b && p > 0.0 && 2.0 * u - p <= 2.0 * t <= 2.0 * u + p
    ensures x * u + (-b) * p < x * t < x * u + b * p
  {
    RMono(x, 2.0 * b, p);
    if x > 0.0 {
      RMono(2.0 * u - p, 2.0 * t, x);
      RMono(2.0 * t, 2.0 * u + p, x);
    }
    HalfExpand(x, u, p, t, b);
  }

  lemma HalfExpand(x: real, u: real, p: real, t: real, b: real)
    ensures (2.0 * u - p) * x == 2.0 * (x * u) - x * p
    ensures (2.0 * u + p) * x == 2.0 * (x * u) + x * p
    ensures 2.0 * t * x == 2.0 * (x * t) && 2.0 * b * p == 2.0 * (b * p) && (-b) * p == -(b * p)
    ensures x == 0.0 ==> x * u == 0.0 && x * t == 0.0
  {
  }

  lemma Regroup(x: real, f: real, s: real, p: real, b: real)
    ensures (x * f + b) * (s * p) == (x * (f * p) + b * p) * s
  {
    assert (x * f) * (s * p) == (x * (f * p)) * s;
    assert b * (s * p) == b * p * s;
  }

  lemma AtMidpoints(dv: real, frac: nat, exp: int)
    requires 0 < frac < P53
    requires Inside(LowerFrac(frac) as real, P2(exp - Shift(frac)), dv, UpperFrac(frac) as real)
    ensures Open(LowMid(frac, exp), dv, HighMid(frac, exp))
  {
    var s, l := Shift(frac), LowerShift(frac);
    LowerAtMid(frac, exp);
    UpperAtMid(frac, exp);
    Relabel(LowerFrac(frac) as real, P2(exp - s), dv, UpperFrac(frac) as real, LowMid(frac, exp), HighMid(frac, exp));
  }

  lemma LowerAtMid(frac: nat, exp: int)
    requires 0 < frac < P53
    ensures Product(LowerFrac(frac) as real, P2(exp - Shift(frac)), LowMid(frac, exp))
  {
    var s, l := Shift(frac), LowerShift(frac);
    Unshift(frac * Pow2(l) - 1, s - l, exp - l, exp - s, LowerFrac(frac), LowMid(frac, exp));
  }

  lemma UpperAtMid(frac: nat, exp: int)
    requires 0 < frac < P53
    ensures Product(UpperFrac(frac) as real, P2(exp - Shift(frac)), HighMid(frac, exp))
  {
    var s := Shift(frac);
    Unshift(2 * frac + 1, s - 1, exp - 1, exp - s, UpperFrac(frac), HighMid(frac, exp));
  }

  lemma Relabel(lo: real, s: real, x: real, hi: real, a: real, b: real)
    requires Inside(lo, s, x, hi) && Product(lo, s, a) && Product(hi, s, b)
    ensures Open(a, x, b)
  {
  }

  lemma Unshift(x: int, s: nat, exp: int, low: int, y: int, a: real)
    requires low == exp - s && y == x * Pow2(s) && Product(x as real, P2(exp), a)
    ensures Product(y as real, P2(low), a)
  {
    P2Sum(s, low, exp);
    P2OfNat(s);
    UnshiftArith(x, Pow2(s), P2(low), P2(exp), y, a);
  }

  lemma P2Sum(a: int, b: int, c: int)
    requires c == a + b
    ensures Product(P2(a), P2(b), P2(c))
  {
    P2Add(a, b);
  }

  lemma UnshiftArith(x: int, m: nat, low: real, high: real, y: int, a: real)
    requires y == x * m && Product(x as real, high, a) && Product(m as real, low, high)
    ensures Product(y as real, low, a)
  {
    assert y as real == x as real * m as real;
    Reassociate(x as real, m as real, low);
  }

  // ----- reading the decimal back

  /** The real number a finite double denotes. */
  function RealValue(d: u64): real { if Negative(d) then -AbsValue(d) else AbsValue(d) }
  function AbsValue(d: u64): real { Significand(d) as real * P2(LastPlace(d)) }

  lemma AbsIs(d: u64)
    ensures Product(Significand(d) as real, P2(LastPlace(d)), AbsValue(d))
  {
  }

  lemma ProductUnique(x: real, y: real, a: real, b: real)
    requires Product(x, y, a) && Product(x, y, b)
    ensures a == b
  {
  }

  /** x is nearer to d than to any other finite double, so that rounding x to the
      nearest double gives d back. */
  ghost predicate RoundsTo(x: real, d: u64) {
    && Finite(d)
    && forall d': u64 | Finite(d') && RealValue(d') != RealValue(d) :: Nearer(x, RealValue(d), RealValue(d'))
  }

  /** With d = 4w in quarter units u of its last place, no double lies strictly
      between d and the neighbours the boundaries were computed for. */
  ghost predicate Apart(w: real, u: real, frac: nat, y: real) {
    y >= 4.0 * w + 4.0 * u || y <= 4.0 * w - (if LowerShift(frac) == 2 then 2.0 else 4.0) * u
  }

  lemma Closest(w: real, u: real, frac: nat, a: real, x: real, b: real, z: real, y: real)
    requires u > 0.0 && Apart(w, u, frac, y) && Open(a, x, b) && z == 4.0 * w
    requires a == 4.0 * w - (if LowerShift(frac) == 2 then 1.0 else 2.0) * u && b == 4.0 * w + 2.0 * u
    ensures Nearer(x, z, y)
  {
  }

  ghost predicate Nearer(x: real, z: real, y: real) { RAbs(x - z) < RAbs(x - y) }

  /** The midpoints and the value, in quarter units. */
  lemma InQuarters(frac: nat, exp: int) returns (u: real, w: real)
    ensures u == P2(exp - 2) && Product(frac as real, u, w) && u > 0.0
    ensures Product(frac as real, P2(exp), 4.0 * w)
    ensures HighMid(frac, exp) == 4.0 * w + 2.0 * u
    ensures LowMid(frac, exp) == 4.0 * w - (if LowerShift(frac) == 2 then 1.0 else 2.0) * u
  {
    u := P2(exp - 2);
    w := frac as real * u;
    P2Next(exp - 2); P2Next(exp - 1);
    assert Pow2(1) == 2 && Pow2(2) == 4 by { assert Pow2(2) == 2 * Pow2(1); }
    Quartered(frac, u, P2(exp - 1), P2(exp));
  }

  lemma Quartered(frac: nat, u: real, u2: real, u4: real)
    requires u2 == 2.0 * u && u4 == 2.0 * u2
    ensures var w := frac as real * u;
      && frac as real * u4 == 4.0 * w
      && (2 * frac + 1) as real * u2 == 4.0 * w + 2.0 * u
      && (4 * frac - 1) as real * u == 4.0 * w - u
      && (2 * frac - 1) as real * u2 == 4.0 * w - 2.0 * u
  {
    var f := frac as real;
    assert (2 * frac + 1) as real == 2.0 * f + 1.0;
    assert (2 * frac - 1) as real == 2.0 * f - 1.0;
    assert (4 * frac - 1) as real == 4.0 * f - 1.0;
  }

  /** Every other double keeps that distance. */
  lemma Neighbours(d: u64, d': u64, u: real, w: real)
    requires Positive(d) && !Negative(d) && Finite(d') && RealValue(d') != RealValue(d)
    requires u == P2(LastPlace(d) - 2) && Product(Significand(d) as real, u, w)
    requires AbsValue(d) == 4.0 * w
    ensures Apart(w, u, Significand(d), RealValue(d'))
  {
    AbsIs(d');
    var exp, exp' := LastPlace(d), LastPlace(d');
    if exp' >= exp {
      CoarserNeighbour(Significand(d), Significand(d'), exp, exp', u, w, Negative(d'), RealValue(d'));
    } else {
      FinerNeighbour(Significand(d), Significand(d'), exp, exp', u, w, RealValue(d'));
    }
  }

  lemma CoarserNeighbour(frac: nat, m: nat, exp: int, exp': int, u: real, w: real, neg: bool, y: real)
    requires u == P2(exp - 2) && Product(frac as real, u, w) && exp <= exp'
    requires Product(m as real, P2(exp'), if neg then -y else y) && y != 4.0 * w
    ensures Apart(w, u, frac, y)
  {
    var n := m * Pow2(exp' - exp);
    Coarser(m, exp' - exp, exp, exp', u);
    Grid(frac, u, w, Signed(n, neg), n, neg, y);
  }

  lemma FinerNeighbour(frac: nat, m: nat, exp: int, exp': int, u: real, w: real, y: real)
    requires u == P2(exp - 2) && Product(frac as real, u, w) && exp' < exp && frac >= P52 && m < P53
    requires Product(m as real, P2(exp'), y) || Product(m as real, P2(exp'), -y)
    ensures Apart(w, u, frac, y)
  {
    Finer(m, exp, exp', u);
    FinerGrid(frac, u, w, y);
  }

  lemma Coarser(m: nat, k: nat, exp: int, exp': int, u: real)
    requires exp' == exp + k && u == P2(exp - 2)
    ensures m as real * P2(exp') == 4.0 * ((m * Pow2(k)) as real * u)
  {
    P2Next(exp - 2); P2Next(exp - 1);
    P2Sum(k, exp, exp');
    P2OfNat(k);
    CoarserArith(m, Pow2(k), P2(exp), P2(exp'), u);
  }

  lemma CoarserArith(m: nat, p: nat, low: real, high: real, u: real)
    requires Product(p as real, low, high) && low == 4.0 * u
    ensures m as real * high == 4.0 * ((m * p) as real * u)
  {
    assert (m * p) as real == m as real * p as real;
    Reassociate(m as real, p as real, low);
  }

  /** A double on a coarser or equal grid. */
  lemma Grid(frac: nat, u: real, w: real, n: int, abs: nat, neg: bool, y: real)
    requires u > 0.0 && Product(frac as real, u, w) && n == Signed(abs, neg)
    requires (if neg then -y else y) == 4.0 * (abs as real * u) && y != 4.0 * w
    ensures Apart(w, u, frac, y)
  {
    var nu := SignedProduct(abs, neg, u);
    if n == frac { ProductUnique(n as real, u, nu, w); }
    Adjacent(frac, u, w);
    if n > frac {
      GridMono(frac + 1, n, u, w + u, nu);
    } else {
      GridMono(n, frac - 1, u, nu, w - u);
    }
  }

  lemma GridMono(m: int, n: int, u: real, mu: real, nu: real)
    requires m <= n && u > 0.0 && Product(m as real, u, mu) && Product(n as real, u, nu)
    ensures mu <= nu
  {
    RMono(m as real, n as real, u);
  }

  lemma Adjacent(frac: nat, u: real, w: real)
    requires Product(frac as real, u, w)
    ensures Product((frac + 1) as real, u, w + u) && Product((frac - 1) as real, u, w - u)
  {
    assert (frac + 1) as real == frac as real + 1.0;
    assert (frac - 1) as real == frac as real - 1.0;
  }

  lemma SignedProduct(a: int, neg: bool, u: real) returns (z: real)
    ensures Product(Signed(a, neg) as real, u, z)
    ensures z == if neg then -(a as real * u) else a as real * u
  {
    z := Signed(a, neg) as real * u;
  }

  lemma Finer(m: nat, exp: int, exp': int, u: real)
    requires exp' < exp && m < P53 && u == P2(exp - 2)
    ensures 0.0 <= m as real * P2(exp') <= 2.0 * ((P53 - 1) as real * u)
  {
    P2Next(exp - 2);
    P2Monotone(exp', exp - 1);
    FinerArith(m as real, (P53 - 1) as real, P2(exp'), P2(exp - 1), u);
  }

  lemma FinerArith(m: real, b: real, low: real, high: real, u: real)
    requires 0.0 <= m <= b && 0.0 < low <= high && high == 2.0 * u
    ensures 0.0 <= m * low <= 2.0 * (b * u)
  {
    RMono(m, b, low);
    if b > 0.0 { RMono(low, high, b); }
    RMono(0.0, m, low);
    assert high * b == 2.0 * (b * u);
  }

  lemma {:induction false} P2Monotone(a: int, b: int)
    requires a <= b
    ensures P2(a) <= P2(b)
    decreases b - a
  {
    if a < b {
      P2Monotone(a, b - 1);
      P2Next(b - 1);
    }
  }

  /** A double on a finer grid lies below every normalised one. */
  lemma FinerGrid(frac: nat, u: real, w: real, y: real)
    requires u > 0.0 && Product(frac as real, u, w) && frac >= P52 && y <= 2.0 * ((P53 - 1) as real * u)
    ensures Apart(w, u, frac, y)
  {
    assert (P53 - 1) as real == 2.0 * P52 as real - 1.0;
    if frac > P52 {
      RMono((P52 + 1) as real, frac as real, u);
    }
  }

  /** The decimal that Grisu2 produces reads back as the double it was made from. */
  lemma ReadingGivesBack(d: u64, v: int, K: int)
    requires Positive(d) && !Negative(d)
    requires BetweenMidpoints(v, K, Significand(d), LastPlace(d))
    ensures RoundsTo(DecimalValue(v, K), d)
  {
    var u, w := InQuarters(Significand(d), LastPlace(d));
    AbsIs(d);
    ProductUnique(Significand(d) as real, P2(LastPlace(d)), AbsValue(d), 4.0 * w);
    forall d': u64 | Finite(d') && RealValue(d') != RealValue(d)
      ensures Nearer(DecimalValue(v, K), RealValue(d), RealValue(d'))
    {
      Neighbours(d, d', u, w);
      Closest(w, u, Significand(d), LowMid(Significand(d), LastPlace(d)), DecimalValue(v, K),
              HighMid(Significand(d), LastPlace(d)), RealValue(d), RealValue(d'));
    }
  }

  // ----- the midpoints are those of the neighbouring doubles

  lemma FieldsOf(d: u64, e: nat, f: nat)
    requires d == e * P52 + f && f < P52 && e < 2048
    ensures Biased(d) == e && Fraction(d) == f
  {
    DivUnique(d, P52, e, f);
    ModSmall(e, 2048);
  }

  lemma Fields(d: u64)
    requires !Negative(d)
    ensures d == Biased(d) * P52 + Fraction(d)
  {
    DivMod(d, P52);
    ModSmall(d / P52, 2048);
  }

  /** The bits of the next double are those of the next number. */
  lemma NextFields(d: u64)
    requires !Negative(d) && Finite(d)
    ensures d + 1 < B63
    ensures if Significand(d) < P53 - 1
      then Significand(d + 1) == Significand(d) + 1 && LastPlace(d + 1) == LastPlace(d)
      else Significand(d + 1) == P52 && LastPlace(d + 1) == LastPlace(d) + 1
  {
    Fields(d);
    var e, f := Biased(d), Fraction(d);
    if f + 1 < P52 { FieldsOf(d + 1, e, f + 1); } else { FieldsOf(d + 1, e + 1, 0); }
  }

  lemma NextDouble(d: u64)
    requires !Negative(d) && Finite(d)
    ensures d + 1 < B63 && AbsValue(d + 1) == AbsValue(d) + P2(LastPlace(d))
  {
    NextFields(d);
    P2Next(LastPlace(d));
    AbsIs(d);
    AbsIs(d + 1);
    if Significand(d) < P53 - 1 {
      OneMore(Significand(d), P2(LastPlace(d)), AbsValue(d), AbsValue(d + 1));
    } else {
      Carried(P52, P2(LastPlace(d)), P2(LastPlace(d) + 1), AbsValue(d), AbsValue(d + 1));
    }
  }

  lemma OneMore(m: nat, p: real, y: real, y': real)
    requires Product(m as real, p, y) && Product((m + 1) as real, p, y')
    ensures y' == y + p
  {
  }

  lemma Carried(h: nat, p: real, p': real, y: real, y': real)
    requires p' == 2.0 * p && Product((2 * h - 1) as real, p, y) && Product(h as real, p', y')
    ensures y' == y + p
  {
    assert (2 * h - 1) as real == 2.0 * h as real - 1.0;
  }

  lemma MagnitudeInQuarters(d: u64) returns (u: real, w: real)
    requires Finite(d)
    ensures AbsValue(d) == 4.0 * w && P2(LastPlace(d) - 1) == 2.0 * u && P2(LastPlace(d)) == 4.0 * u && u > 0.0
    ensures HighMid(Significand(d), LastPlace(d)) == 4.0 * w + 2.0 * u
    ensures LowMid(Significand(d), LastPlace(d)) == 4.0 * w - (if Significand(d) == P52 then 1.0 else 2.0) * u
  {
    u, w := InQuarters(Significand(d), LastPlace(d));
    P2Next(LastPlace(d) - 2); P2Next(LastPlace(d) - 1);
    AbsIs(d);
    ProductUnique(Significand(d) as real, P2(LastPlace(d)), AbsValue(d), 4.0 * w);
  }

  /** Above d lies the midpoint to the next double (the power of two that would follow, for
      the largest one). */
  lemma UpperMidpoint(d: u64)
    requires Positive(d) && !Negative(d)
    ensures d + 1 < B63 && 2.0 * HighMid(Significand(d), LastPlace(d)) == AbsValue(d) + AbsValue(d + 1)
  {
    var u, w := MagnitudeInQuarters(d);
    NextDouble(d);
  }

  /** Below d lies the midpoint to the double before, except for the smallest normal number:
      its neighbours are equally far, and the source takes the lower bound half as far. */
  lemma LowerMidpoint(d: u64)
    requires Positive(d) && !Negative(d)
    ensures d > 0 && (2.0 * LowMid(Significand(d), LastPlace(d)) == AbsValue(d) + AbsValue(d - 1) <==> d != P52)
    ensures AbsValue(d - 1) + AbsValue(d) <= 2.0 * LowMid(Significand(d), LastPlace(d))
  {
    Fields(d);
    var u, w := MagnitudeInQuarters(d);
    BeforeFields(d);
    NextDouble(d - 1);
  }

  lemma BeforeFields(d: u64)
    requires Positive(d) && !Negative(d)
    ensures d > 0 && Finite(d - 1)
    ensures LastPlace(d - 1) == LastPlace(d) - (if Significand(d) == P52 && d != P52 then 1 else 0)
  {
    Fields(d);
    var e, f := Biased(d), Fraction(d);
    if f > 0 { FieldsOf(d - 1, e, f - 1); } else { FieldsOf(d - 1, e - 1, P52 - 1); }
  }

  // ----- layout

  const PLUS: byte := 43
  const LETTER_E: byte := 101

  function ZeroDigits(n: nat): (s: seq<byte>)
    ensures |s| == n && AllDigits(s)
  {
    seq(n, i => 48)
  }

  lemma {:induction false} ValueZeros(s: seq<byte>, n: nat)
    ensures Value(s + ZeroDigits(n)) == Value(s) * Pow10(n)
  {
    if n == 0 {
      assert s + ZeroDigits(0) == s;
    } else {
      ValueZeros(s, n - 1);
      ValueSnoc(s + ZeroDigits(n - 1), 48);
      assert s + ZeroDigits(n - 1) + [48] == s + ZeroDigits(n);
      TenfoldPower(Value(s), n);
    }
  }

  lemma TenfoldPower(v: int, n: nat)
    requires n > 0
    ensures v * Pow10(n) == 10 * (v * Pow10(n - 1))
  {
    assert Pow10(n) == 10 * Pow10(n - 1);
  }

  lemma {:induction false} LeadingZeros(n: nat, s: seq<byte>)
    ensures Value(ZeroDigits(n) + s) == Value(s)
  {
    if |s| == 0 {
      ValueZeros([], n);
      assert ZeroDigits(n) + s == [] + ZeroDigits(n);
    } else {
      var t := s[..|s| - 1];
      LeadingZeros(n, t);
      ValueSnoc(ZeroDigits(n) + t, s[|s| - 1]);
      assert ZeroDigits(n) + t + [s[|s| - 1]] == ZeroDigits(n) + s;
    }
  }

  /** The exponent part of a number: nothing, or 'e', a sign and digits. */
  ghost predicate IsExponent(tail: seq<byte>, ex: int) {
    if tail == [] then ex == 0
    else
      && |tail| > 2 && tail[0] == LETTER_E && AllDigits(tail[2..])
      && (tail[1] == PLUS || tail[1] == MINUS)
      && ex == Signed(Value(tail[2..]), tail[1] == MINUS)
  }

  /** A decimal numeral: digits, perhaps a point and digits, perhaps an exponent. */
  ghost predicate IsNumeral(text: seq<byte>, whole: seq<byte>, frac: seq<byte>, tail: seq<byte>, ex: int) {
    && |whole| > 0 && AllDigits(whole) && AllDigits(frac) && IsExponent(tail, ex)
    && text == whole + (if frac == [] then [] else [POINT] + frac) + tail
  }

  /** The text is a numeral for the real number x. */
  ghost predicate Denotes(text: seq<byte>, x: real) {
    exists whole, frac, tail, ex ::
      IsNumeral(text, whole, frac, tail, ex) && IsAmount(whole + frac, ex - |frac|, x)
  }
  ghost predicate IsAmount(digits: seq<byte>, k: int, x: real) { x == DecimalValue(Value(digits), k) }

  /** `write plain integer`, `write decimal w/o scientific notation`, and the
      scientific form; the result is what `emit_digits` leaves in dest. */
  method EmitDigits(digits: seq<byte>, K: int) returns (text: seq<byte>)
    requires 0 < |digits| <= 17 && AllDigits(digits) && -359 <= K <= 357
    ensures Denotes(text, DecimalValue(Value(digits), K))
    ensures |text| == EmittedLength(|digits|, K)
    ensures |text| <= 24 && (|text| == 24 <==> |digits| == 17 && K == 7)
    ensures LaidOut(text, digits, K)
  {
    var n := |digits|;
    var exp := Abs(K + n - 1);
    if K >= 0 && exp < n + 7 {
      text := digits + ZeroDigits(K);
      PlainDenotes(digits, K);
      return;
    }
    if K < 0 && (K > -7 || exp < 4) {
      var offset := n + K;
      if offset <= 0 {
        text := [48, POINT] + ZeroDigits(-offset) + digits;
        SmallDenotes(digits, K);
      } else {
        text := digits[..offset] + [POINT] + digits[offset..];
        PointDenotes(digits, K);
      }
      return;
    }
    text := EmitScientific(digits, K, exp);
  }

  /** The scientific form. */
  method EmitScientific(digits: seq<byte>, K: int, exp: nat) returns (text: seq<byte>)
    requires |digits| > 0 && AllDigits(digits) && exp == Abs(K + |digits| - 1) && 0 < exp < 1000
    ensures Denotes(text, DecimalValue(Value(digits), K))
    ensures |text| == |Mantissa(digits)| + 2 + ExponentLength(exp)
    ensures Scientific(text, digits, K)
  {
    text := [digits[0]];
    if |digits| > 1 { text := text + [POINT] + digits[1..]; }
    assert text == Mantissa(digits);
    var sign := if K + |digits| - 1 < 0 then MINUS else PLUS;
    var exponent := ExponentDigits(exp);
    var tail := [LETTER_E, sign] + exponent;
    assert tail[2..] == exponent;
    text := text + tail;
    assert text[..|Mantissa(digits)|] == Mantissa(digits) && text[|Mantissa(digits)|..] == tail;
    ScientificDenotes(digits, K, tail);
  }

  /** Up to 7 zeros are written behind the digits, and up to 6 places behind the point, or
      those of a number from 0.001 up to below 10000; beyond that the scientific form. */
  ghost predicate LaidOut(text: seq<byte>, digits: seq<byte>, K: int)
    requires |digits| > 0
  {
    var n := |digits|;
    if 0 <= K <= 7 then text == digits + ZeroDigits(K)
    else if K < 0 && (K >= -6 || -2 <= n + K <= 4) then
      if n + K <= 0 then text == [48, POINT] + ZeroDigits(-(n + K)) + digits
      else text == digits[..n + K] + [POINT] + digits[n + K..]
    else Scientific(text, digits, K)
  }

  /** The first digit, the others behind a point, and the exponent without leading zeros. */
  ghost predicate Scientific(text: seq<byte>, digits: seq<byte>, K: int)
    requires |digits| > 0
  {
    var m := |Mantissa(digits)|;
    && m + 3 <= |text| && text[..m] == Mantissa(digits) && IsExponent(text[m..], K + |digits| - 1)
    && (|text| > m + 3 ==> text[m + 2] != 48)
  }

  /** How many characters a number of n digits takes, by the form it is written in. */
  function EmittedLength(n: nat, K: int): int {
    var exp := Abs(K + n - 1);
    if K >= 0 && exp < n + 7 then n + K
    else if K < 0 && (K > -7 || exp < 4) then if n + K <= 0 then 2 - K else n + 1
    else (if n > 1 then n + 1 else 1) + 2 + ExponentLength(exp)
  }
  function ExponentLength(exp: nat): nat { if exp > 99 then 3 else if exp > 9 then 2 else 1 }

  /** Hundreds, tens and units of the exponent, without leading zeros. */
  method ExponentDigits(exp0: nat) returns (s: seq<byte>)
    requires exp0 < 1000
    ensures AllDigits(s) && |s| == ExponentLength(exp0) && Value(s) == exp0 && (|s| > 1 ==> s[0] != 48)
  {
    var exp: nat;
    s, exp := UpperExponentDigits(exp0);
    s := Append(s, exp % 10);
  }

  method UpperExponentDigits(exp0: nat) returns (s: seq<byte>, exp: nat)
    requires exp0 < 1000
    ensures AllDigits(s) && |s| == ExponentLength(exp0) - 1 && 10 * Value(s) + exp == exp0 && exp < 10
    ensures s != [] ==> s[0] != 48
  {
    exp, s := exp0, [];
    if exp > 99 {
      var cent := exp / 100;
      s := Append([], cent);
      exp := exp - cent * 100;
      if exp > 9 {
        var dec := exp / 10;
        s := Append(s, dec);
        exp := exp - dec * 10;
      } else {
        s := Append(s, 0);
      }
    } else if exp > 9 {
      var dec := exp / 10;
      s := Append([], dec);
      exp := exp - dec * 10;
    }
  }

  method Append(s: seq<byte>, digit: nat) returns (s': seq<byte>)
    requires digit < 10 && AllDigits(s)
    ensures s' == s + [digit + 48] && AllDigits(s') && Value(s') == 10 * Value(s) + digit
  {
    ValueSnoc(s, digit + 48);
    s' := s + [digit + 48];
  }

  lemma Numeral(text: seq<byte>, whole: seq<byte>, frac: seq<byte>, tail: seq<byte>, ex: int, v: int, k: int)
    requires IsNumeral(text, whole, frac, tail, ex) && Value(whole + frac) == v && ex - |frac| == k
    ensures Denotes(text, DecimalValue(v, k))
  {
    NumeralOf(text, whole, frac, tail, ex, DecimalValue(v, k));
  }

  lemma NumeralOf(text: seq<byte>, whole: seq<byte>, frac: seq<byte>, tail: seq<byte>, ex: int, x: real)
    requires IsNumeral(text, whole, frac, tail, ex) && IsAmount(whole + frac, ex - |frac|, x)
    ensures Denotes(text, x)
  {
  }

  lemma PlainDenotes(digits: seq<byte>, K: nat)
    requires |digits| > 0 && AllDigits(digits)
    ensures Denotes(digits + ZeroDigits(K), DecimalValue(Value(digits), K))
  {
    var text := digits + ZeroDigits(K);
    ValueZeros(digits, K);
    assert text == text + [] + [];
    assert text + [] == text;
    Numeral(text, text, [], [], 0, Value(digits) * Pow10(K), 0);
    WholeValue(Value(digits), K);
  }

  lemma WholeValue(v: int, K: nat)
    ensures DecimalValue(v * Pow10(K), 0) == DecimalValue(v, K)
  {
    P10OfNat(K);
    assert P10(0) == 1.0;
    WholeArith(v, Pow10(K), P10(K), P10(0));
  }

  lemma WholeArith(v: int, p: nat, t: real, one: real)
    requires t == p as real && one == 1.0
    ensures (v * p) as real * one == v as real * t
  {
    assert (v * p) as real == v as real * p as real;
  }

  lemma SmallNumeral(digits: seq<byte>, z: nat)
    requires |digits| > 0 && AllDigits(digits)
    ensures IsNumeral([48, POINT] + ZeroDigits(z) + digits, [48], ZeroDigits(z) + digits, [], 0)
  {
    assert [48, POINT] + ZeroDigits(z) + digits == [48] + ([POINT] + (ZeroDigits(z) + digits)) + [];
  }

  lemma SmallValue(digits: seq<byte>, z: nat)
    ensures Value([48] + (ZeroDigits(z) + digits)) == Value(digits)
  {
    LeadingZeros(z + 1, digits);
    assert ZeroDigits(z + 1) + digits == [48] + (ZeroDigits(z) + digits);
  }

  lemma SmallDenotes(digits: seq<byte>, K: int)
    requires |digits| > 0 && AllDigits(digits) && |digits| + K <= 0
    ensures Denotes([48, POINT] + ZeroDigits(-(|digits| + K)) + digits, DecimalValue(Value(digits), K))
  {
    var z := -(|digits| + K);
    SmallNumeral(digits, z);
    SmallValue(digits, z);
    Numeral([48, POINT] + ZeroDigits(z) + digits, [48], ZeroDigits(z) + digits, [], 0, Value(digits), K);
  }

  lemma PointNumeral(digits: seq<byte>, o: nat)
    requires AllDigits(digits) && 0 < o < |digits|
    ensures IsNumeral(digits[..o] + [POINT] + digits[o..], digits[..o], digits[o..], [], 0)
    ensures digits[..o] + digits[o..] == digits
  {
    assert digits[..o] + [POINT] + digits[o..] == digits[..o] + ([POINT] + digits[o..]) + [];
  }

  lemma PointDenotes(digits: seq<byte>, K: int)
    requires AllDigits(digits) && 0 < |digits| + K < |digits|
    ensures var o := |digits| + K;
      Denotes(digits[..o] + [POINT] + digits[o..], DecimalValue(Value(digits), K))
  {
    var o := |digits| + K;
    PointNumeral(digits, o);
    Numeral(digits[..o] + [POINT] + digits[o..], digits[..o], digits[o..], [], 0, Value(digits), K);
  }

  /** First digit, and the others behind a point. */
  function Mantissa(digits: seq<byte>): seq<byte>
    requires |digits| > 0
  {
    [digits[0]] + (if |digits| > 1 then [POINT] + digits[1..] else [])
  }

  lemma MantissaParts(digits: seq<byte>, tail: seq<byte>, ex: int)
    requires |digits| > 0 && AllDigits(digits) && IsExponent(tail, ex)
    ensures [digits[0]] + digits[1..] == digits &&
      IsNumeral(Mantissa(digits) + tail, [digits[0]], digits[1..], tail, ex)
  {
    if |digits| == 1 {
      assert digits[1..] == [] && [digits[0]] + [] == [digits[0]];
    }
  }

  lemma ScientificDenotes(digits: seq<byte>, K: int, tail: seq<byte>)
    requires |digits| > 0 && AllDigits(digits) && tail != [] && IsExponent(tail, K + |digits| - 1)
    ensures Denotes(Mantissa(digits) + tail, DecimalValue(Value(digits), K))
  {
    MantissaParts(digits, tail, K + |digits| - 1);
    Numeral(Mantissa(digits) + tail, [digits[0]], digits[1..], tail, K + |digits| - 1, Value(digits), K);
  }

  // ----- fpconv_dtoa

  /** `fpconv_dtoa`: the characters written to dest for the double d.  A finite
      non-zero double is written as a numeral that reads back as its magnitude.  The
      24 characters of dest are too few for a negative number whose 17 digits are
      followed by 7 zeros, and for no other. */
  method FpconvDtoa(d: u64) returns (text: seq<byte>, ghost digits: seq<byte>, ghost K: int)
    ensures var sign := if Negative(d) then [MINUS] else [];
      && |sign| <= |text| && text[..|sign|] == sign
      && (Finite(d) && Significand(d) == 0 ==> text == sign + [48])
      && (!Finite(d) ==> text == sign + (if Fraction(d) != 0 then [110, 97, 110] else [105, 110, 102]))
      && (Positive(d) ==> Denotes(text[|sign|..], DecimalValue(Value(digits), K)))
      && (Positive(d) ==> RoundsTo(DecimalValue(Value(digits), K), Unsigned(d)))
    ensures Positive(d) ==> IsDecimalOf(digits, K, d)
    ensures Positive(d) ==>
      NearestOf(Value(digits), K, Significand(d), LastPlace(d)) && ShortestAt(K, Significand(d), LastPlace(d))
    ensures Positive(d) ==> |digits| > 0 && LaidOut(text[if Negative(d) then 1 else 0..], digits, K)
    ensures |text| <= 25
    ensures |text| == 25 <==> Positive(d) && Negative(d) && |digits| == 17 && K == 7
  {
    text, digits, K := if Negative(d) then [MINUS] else [], [], 0;
    if Finite(d) && Significand(d) == 0 { text := text + [48]; return; }
    if !Finite(d) {
      text := text + (if Fraction(d) != 0 then [110, 97, 110] else [105, 110, 102]);
      return;
    }
    var buffer := new byte[18];
    var n, k := Grisu2(d, buffer);
    digits, K := buffer[..n], k;
    var s := EmitDigits(buffer[..n], k);
    text := text + s;
    SameMagnitude(d);
    ReadingGivesBack(Unsigned(d), Value(digits), K);
  }

  /** What Grisu2 finds: at most 17 digits without a leading zero, for a decimal between
      the midpoints around d. */
  ghost predicate IsDecimalOf(digits: seq<byte>, K: int, d: u64) {
    && 0 < |digits| <= 17 && AllDigits(digits) && digits[0] != 48
    && BetweenMidpoints(Value(digits), K, Significand(d), LastPlace(d))
  }

  /** d without its sign bit. */
  function Unsigned(d: u64): u64 { if Negative(d) then d - B63 else d }

  lemma SameMagnitude(d: u64)
    ensures Significand(Unsigned(d)) == Significand(d) && LastPlace(Unsigned(d)) == LastPlace(d)
    ensures Finite(Unsigned(d)) == Finite(d) && !Negative(Unsigned(d))
  {
    if Negative(d) { FlipFields(d); }
  }
}
