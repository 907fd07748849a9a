/** Unsigned 128-bit division of the runtime (libraries/rt/udivmodti4.c):
    Knuth's Algorithm D on two base-2^32 digits, and the branch-free
    shift-subtract loop for divisors that need more than 64 bits. */
module UDivMod {
  import opened Words

  function Add64(x: u64, y: u64): u64 { (x + y) % B64 }
  function Sub64(x: u64, y: u64): u64 { (x - y) % B64 }
  function Mul64(x: u64, y: u64): u64 { (x * y) % B64 }
  function Div64(x: u64, y: u64): (q: u64)
    requires y > 0
    ensures q <= x
  {
    DivLe(x, y);
    x / y
  }

  // ----- one quotient digit

  lemma Product64(x: nat, y: nat)
    requires x < B32 && y < B32
    ensures x * y < B64 && x * y <= B32 * y
  {
    MulMono(x, B32, y);
    assert B32 * y < B64;
  }

  /** The trial digit n21 / vn1 exceeds the base by at most one. */
  lemma TrialBound(n21: nat, vn1: nat, vn0: nat)
    requires B31 <= vn1 < B32 && vn0 < B32
    requires n21 < vn1 * B32 + vn0
    ensures n21 / vn1 <= B32 + 1
  {
    var q := n21 / vn1;
    DivMod(n21, vn1);
    if q >= B32 + 2 { MulMono(B32 + 2, q, vn1); }
  }

  /** The guard of the correction loop compares the trial digit with the true one. */
  lemma GuardMeaning(n21: nat, n0: nat, vn1: nat, vn0: nat, q: nat, rhat: nat)
    requires q * vn1 + rhat == n21
    ensures q * vn0 > B32 * rhat + n0 <==> q * (vn1 * B32 + vn0) > n21 * B32 + n0
  {
    assert q * (vn1 * B32 + vn0) == (q * vn1) * B32 + q * vn0;
  }

  /** One digit of Algorithm D: the trial digit and its correction loop.  Both
      digits run the same code; `steps` counts iterations. */
  method QuotientDigit(n21: u64, n0: u32, v: u64, vn1: u64, vn0: u64)
    returns (q: u64, ghost steps: nat)
    requires B31 <= vn1 < B32 && vn0 < B32 && v == vn1 * B32 + vn0
    requires n21 < v
    ensures q < B32
    ensures q * v <= n21 * B32 + n0 < (q + 1) * v
    ensures steps <= 2
  {
    TrialDigit(n21, n0, vn1, vn0);
    q := Div64(n21, vn1);
    var rhat := Sub64(n21, Mul64(q, vn1));
    steps := 0;
    while q >= B32 || Mul64(q, vn0) > Add64(Mul64(B32, rhat), n0)
      invariant q * vn1 + rhat == n21
      invariant rhat < B32 && steps * B31 <= rhat
      invariant q + steps <= B32 + 1
      invariant n21 * B32 + n0 < (q + 1) * v
      decreases q
    {
      TrueDigitBelow(n21, n0, v, vn1, vn0, q, rhat);
      Corrected(q, rhat, vn1);
      q := Sub64(q, 1);
      rhat := Add64(rhat, vn1);
      steps := steps + 1;
      if rhat >= B32 { break; }
    }
    FinalDigit(n21, n0, v, vn1, vn0, q, rhat);
  }

  lemma TrialDigit(n21: u64, n0: u32, vn1: u64, vn0: u64)
    requires B31 <= vn1 < B32 && vn0 < B32
    requires n21 < vn1 * B32 + vn0
    ensures var q := Div64(n21, vn1);
      && q <= B32 + 1 && q * vn1 <= n21
      && Sub64(n21, Mul64(q, vn1)) == n21 - q * vn1 < vn1
      && n21 * B32 + n0 < (q + 1) * (vn1 * B32 + vn0)
  {
    var q := Div64(n21, vn1);
    DivMod(n21, vn1);
    TrialBound(n21, vn1, vn0);
    ModSmall(q * vn1, B64);
    ModSmall(n21 - q * vn1, B64);
    InitialUpper(n21, n0, vn1, vn0, q);
  }

  lemma InitialUpper(n21: nat, n0: nat, vn1: nat, vn0: nat, q: nat)
    requires n0 < B32 && n21 < q * vn1 + vn1
    ensures n21 * B32 + n0 < (q + 1) * (vn1 * B32 + vn0)
  {
    assert n21 + 1 <= (q + 1) * vn1 by { assert (q + 1) * vn1 == q * vn1 + vn1; }
    MulMono(n21 + 1, (q + 1) * vn1, B32);
    assert (q + 1) * (vn1 * B32 + vn0) == ((q + 1) * vn1) * B32 + (q + 1) * vn0;
  }

  lemma Corrected(q: u64, rhat: u64, vn1: u64)
    requires 0 < q <= B32 + 1 && rhat < B32 && vn1 < B32
    ensures Sub64(q, 1) == q - 1 && Add64(rhat, vn1) == rhat + vn1
    ensures (q - 1) * vn1 + (rhat + vn1) == q * vn1 + rhat
  {
    ModSmall(q - 1, B64);
    ModSmall(rhat + vn1, B64);
    assert (q - 1) * vn1 == q * vn1 - vn1;
  }

  /** If the guard holds, the trial digit is too large. */
  lemma TrueDigitBelow(n21: nat, n0: u32, v: nat, vn1: nat, vn0: nat, q: u64, rhat: nat)
    requires B31 <= vn1 < B32 && vn0 < B32 && v == vn1 * B32 + vn0
    requires n21 < v && q * vn1 + rhat == n21 && rhat < B32
    requires q >= B32 || Mul64(q, vn0) > Add64(Mul64(B32, rhat), n0)
    ensures q > 0 && n21 * B32 + n0 < q * v
  {
    if q >= B32 {
      MulMono(n21 + 1, v, B32);
      MulMono(B32, q, v);
      assert B32 * v == v * B32;
    } else {
      Product64(q, vn0);
      ModSmall(q * vn0, B64);
      ModSmall(B32 * rhat, B64);
      ModSmall(B32 * rhat + n0, B64);
      GuardMeaning(n21, n0, vn1, vn0, q, rhat);
    }
  }

  /** Leaving the loop, by the guard or by the break, the trial digit is not too large. */
  lemma FinalDigit(n21: nat, n0: u32, v: nat, vn1: nat, vn0: nat, q: u64, rhat: u64)
    requires vn1 < B32 && vn0 < B32 && v == vn1 * B32 + vn0
    requires n21 < v && q * vn1 + rhat == n21
    requires rhat < B32 ==> q < B32 && Mul64(q, vn0) <= Add64(Mul64(B32, rhat), n0)
    requires rhat >= B32 ==> q <= B32
    ensures q * v <= n21 * B32 + n0 && q < B32
  {
    GuardMeaning(n21, n0, vn1, vn0, q, rhat);
    if rhat < B32 {
      Product64(q, vn0);
      ModSmall(q * vn0, B64);
      ModSmall(B32 * rhat, B64);
      ModSmall(B32 * rhat + n0, B64);
    } else {
      MulMono(q, B32, vn0);
    }
    DigitInRange(n21, n0, v, q);
  }

  lemma DigitInRange(n21: nat, n0: u32, v: nat, q: nat)
    requires n21 < v && q * v <= n21 * B32 + n0
    ensures q < B32
  {
    if q >= B32 { MulMono(B32, q, v); }
  }

  // ----- wrapped dividend digits are exact

  /** The next partial dividend is computed modulo 2^64, and still exact. */
  lemma PartialRemainder(n21: u64, n0: u32, v: u64, q: u64)
    requires q * v <= n21 * B32 + n0 < (q + 1) * v
    ensures Sub64(Add64(Mul64(n21, B32), n0), Mul64(q, v)) == n21 * B32 + n0 - q * v < v
  {
    var x, y := n21 * B32, q * v;
    DivMod(x, B64); DivMod(y, B64);
    DivMod(x % B64 + n0, B64);
    var w := Sub64(Add64(Mul64(n21, B32), n0), Mul64(q, v));
    var z := Add64(Mul64(n21, B32), n0) - Mul64(q, v);
    var k := -(x / B64) - (x % B64 + n0) / B64 + y / B64;
    assert z == (x + n0 - y) + k * B64;
    ModShift(x + n0 - y, B64, k);
    assert (q + 1) * v == y + v;
    ModSmall(x + n0 - y, B64);
  }

  // ----- normalisation

  lemma Normalised(v: u64, s: nat)
    requires v > 0 && s == Clz64(v)
    ensures v * Pow2(s) < B64 && B63 <= v * Pow2(s)
  {
    BitLenBounds(v);
    var n := BitLen(v);
    Pow2Add(n, s); Pow2Add(n - 1, s);
    assert Pow2(n) * Pow2(s) == B64 && Pow2(n - 1) * Pow2(s) == B63 by { Pow2Word64(); }
    MulMono(v + 1, Pow2(n), Pow2(s));
    MulMono(Pow2(n - 1), v, Pow2(s));
    assert (v + 1) * Pow2(s) == v * Pow2(s) + Pow2(s);
  }

  /** Shifting a two-word dividend left by s, word by word as the source does. */
  lemma ShiftedDividend(u1: u64, u0: u64, v: u64, s: nat)
    requires u1 < v && 0 < s < 64 && v * Pow2(s) < B64
    ensures var hi := BitOr(Shl64(u1, s), Shr(u0, 64 - s)); var lo := Shl64(u0, s);
      hi < v * Pow2(s) && hi * B64 + lo == (u1 * B64 + u0) * Pow2(s)
  {
    var p, p' := Pow2(s), Pow2(64 - s);
    Pow2Add(64 - s, s);
    assert p' * p == B64 by { Pow2Word64(); }
    var h := Shr(u0, 64 - s);
    ShiftHigh(u1, u0, v, p);
    var l := ShiftLow(u0, p, p', h);
    OrDisjoint(u1, h, s);
    ShiftParts(u1 * B64 + u0, u1 * p, u0 * p, p, h, l * p);
  }

  lemma ShiftParts(u: nat, u1p: nat, u0p: nat, p: nat, h: nat, lp: nat)
    requires u * p == u1p * B64 + u0p && u0p == h * B64 + lp
    ensures (u1p + h) * B64 + lp == u * p
  {
  }

  lemma ShiftHigh(u1: nat, u0: nat, v: nat, p: nat)
    requires u1 < v && v * p < B64
    ensures (u1 * p) % B64 == u1 * p && u1 * p + p <= v * p
    ensures (u1 * B64 + u0) * p == (u1 * p) * B64 + u0 * p
  {
    MulMono(u1 + 1, v, p);
    assert (u1 + 1) * p == u1 * p + p;
    ModSmall(u1 * p, B64);
    assert (u1 * B64) * p == (u1 * p) * B64;
  }

  lemma ShiftLow(u0: nat, p: nat, p': nat, h: nat) returns (l: nat)
    requires p > 0 && p' > 0 && p' * p == B64 && u0 < B64
    requires h == u0 / p'
    ensures h < p && (u0 * p) % B64 == l * p && u0 * p == h * B64 + l * p
  {
    l := u0 - h * p';
    DivMod(u0, p');
    if h >= p { MulMono(p, h, p'); }
    MulMono(l + 1, p', p);
    assert (l + 1) * p == l * p + p;
    assert u0 * p == h * B64 + l * p by {
      assert u0 * p == (h * p') * p + l * p;
      assert (h * p') * p == h * (p' * p);
    }
    DivUnique(u0 * p, B64, h, l * p);
  }

  /** Undoing the normalisation: quotient unchanged, remainder shifted back. */
  lemma Denormalise(u: nat, v: nat, p: nat, q: nat, r: nat)
    requires p > 0 && u * p == q * (v * p) + r && r < v * p
    ensures u == q * v + r / p && r / p < v
  {
    var k := u - q * v;
    assert r == k * p by { assert q * (v * p) == (q * v) * p; }
    if k < 0 { MulMono(k, -1, p); }
    if k >= v { MulMono(v, k, p); }
    DivUnique(r, p, k, 0);
  }

  /** Two digits make the quotient. */
  lemma TwoDigits(n: nat, d1: nat, d0: nat, v: nat, q1: nat, q0: nat, un21: nat, r: nat)
    requires un21 == n * B32 + d1 - q1 * v
    requires r == un21 * B32 + d0 - q0 * v
    requires q1 < B32 && q0 < B32
    ensures n * B64 + d1 * B32 + d0 == Add64(Mul64(q1, B32), q0) * v + r
  {
    ModSmall(q1 * B32, B64);
    ModSmall(q1 * B32 + q0, B64);
    assert (q1 * B32 + q0) * v == (q1 * v) * B32 + q0 * v;
  }

  method Udiv128by64to64(u1: u64, u0: u64, v0: u64) returns (q: u64, r: u64)
    requires u1 < v0  // "Result must fit in 64 bits"
    ensures u1 * B64 + u0 == q * v0 + r && r < v0
  {
    var v: u64 := v0;
    var s := Clz64(v);
    Normalised(v, s);
    var un64: u64, un10: u64;
    if s > 0 {
      ShiftedDividend(u1, u0, v0, s);
      ModSmall(v0 * Pow2(s), B64);
      v := Shl64(v, s);
      un64 := BitOr(Shl64(u1, s), Shr(u0, 64 - s));
      un10 := Shl64(u0, s);
    } else {
      un64 := u1;
      un10 := u0;
    }
    assert v == v0 * Pow2(s);
    assert un64 < v && un64 * B64 + un10 == (u1 * B64 + u0) * Pow2(s);
    ghost var steps;
    q, r, steps := DivideNormalised(un64, un10, v);
    Denormalise(u1 * B64 + u0, v0, Pow2(s), q, r);
    r := Shr(r, s);
  }

  /** The digit loop proper, on a divisor whose top bit is set. */
  method DivideNormalised(un64: u64, un10: u64, v: u64) returns (q: u64, r: u64, ghost steps: nat)
    requires B63 <= v && un64 < v
    ensures un64 * B64 + un10 == q * v + r && r < v
    ensures steps <= 4
  {
    Pow2Word32();
    AndMask(v, 32); AndMask(un10, 32);
    DivMod(v, B32); DivMod(un10, B32);
    var vn1, vn0 := Shr(v, 32), BitAnd(v, 0xFFFF_FFFF);
    var un1, un0 := Shr(un10, 32), BitAnd(un10, 0xFFFF_FFFF);
    var q1, s1 := QuotientDigit(un64, un1, v, vn1, vn0);
    PartialRemainder(un64, un1, v, q1);
    var un21 := Sub64(Add64(Mul64(un64, B32), un1), Mul64(q1, v));
    var q0, s0 := QuotientDigit(un21, un0, v, vn1, vn0);
    PartialRemainder(un21, un0, v, q0);
    r := Sub64(Add64(Mul64(un21, B32), un0), Mul64(q0, v));
    TwoDigits(un64, un1, un0, v, q1, q0, un21, r);
    q := Add64(Mul64(q1, B32), q0);
    steps := s1 + s0;
  }

  // ----- 128 by 128 bits

  function Lo(x: u128): u64 { x % B64 }
  function Hi(x: u128): (h: u64)
    ensures x == h * B64 + Lo(x)
  {
    x / B64
  }

  function Sub128(x: u128, y: u128): u128 { (x - y) % B128 }

  /** Arithmetic shift right of a `ti_int` by 127: all ones for a negative number. */
  function SignMask(x: u128): u128 { if x >= B127 then B128 - 1 else 0 }

  /** While dividend and divisor stay within 2^127 of each other, the sign of
      divisor - dividend - 1, taken modulo 2^128, is the comparison. */
  lemma SignIsComparison(dividend: u128, divisor: u128)
    requires dividend < 2 * divisor
    requires divisor >= B127 ==> dividend >= B127
    ensures SignMask(Sub128(Sub128(divisor, dividend), 1)) == if dividend >= divisor then B128 - 1 else 0
  {
    var d := divisor - dividend;
    if d < 0 {
      ModShift(d, B128, 1);
      ModSmall(d + B128, B128);
      ModSmall(d + B128 - 1, B128);
    } else if d == 0 {
      ModShift(-1, B128, 1);
      ModSmall(B128 - 1, B128);
    } else {
      ModSmall(d, B128);
      ModSmall(d - 1, B128);
    }
  }

  lemma LeadingBit(x: u128)
    requires Hi(x) > 0
    ensures var n := 128 - Clz64(Hi(x)); Pow2(n - 1) <= x < Pow2(n)
  {
    var h: nat := Hi(x);
    BitLenBounds(h);
    var l := BitLen(h);
    Pow2Add(l, 64); Pow2Add(l - 1, 64);
    assert Pow2(64) == B64 by { Pow2Word64(); }
    LeadingArith(h, Lo(x), Pow2(l - 1), Pow2(l));
  }

  lemma LeadingArith(h: nat, l: nat, lo: nat, hi: nat)
    requires lo <= h < hi && l < B64
    ensures lo * B64 <= h * B64 + l < hi * B64
  {
  }

  /** Aligning the leading bits by the difference of the leading-zero counts. */
  lemma Aligned(a: u128, b: u128, shift: int)
    requires b <= a && Hi(b) > 0 && Hi(a) > 0
    requires shift == Clz64(Hi(b)) - Clz64(Hi(a))
    ensures 0 <= shift < 64 && Shl128(b, shift) == b * Pow2(shift)
    ensures a < 2 * (b * Pow2(shift)) && (b * Pow2(shift) >= B127 ==> a >= B127)
  {
    LeadingBit(a); LeadingBit(b);
    var n, m := 128 - Clz64(Hi(a)), 128 - Clz64(Hi(b));
    if n < m { Pow2Mono(n, m - 1); }
    Pow2Add(m - 1, shift); Pow2Add(m, shift);
    var p := Pow2(shift);
    AlignedArith(b, Pow2(m - 1), Pow2(m), p);
    Pow2Mono(n, 128); Pow2Word128();
    ModSmall(b * p, B128);
    assert Pow2(n) == 2 * Pow2(n - 1);
  }

  lemma AlignedArith(b: nat, lo: nat, hi: nat, p: nat)
    requires lo <= b < hi && p > 0
    ensures lo * p <= b * p < hi * p
  {
    MulMono(lo, b, p);
    MulMono(b + 1, hi, p);
    assert (b + 1) * p == b * p + p;
  }

  /** Dividing the high word first leaves a division whose quotient fits 64 bits. */
  lemma HighWordFirst(a: u128, v: u64, qh: u64, rh: u64, ql: u64, r: u64)
    requires v > 0 && qh == Hi(a) / v && rh == Hi(a) % v
    requires rh * B64 + Lo(a) == ql * v + r
    ensures a == (qh * B64 + ql) * v + r
  {
    DivMod(Hi(a), v);
    assert (qh * B64 + ql) * v == (qh * v) * B64 + ql * v;
  }

  method UDivModTi4(a: u128, b: u128) returns (quotient: u128, rem: u128)
    requires b > 0
    ensures quotient == a / b && rem == a % b
  {
    if b > a {
      ModSmall(a, b);
      return 0, a;
    }
    if Hi(b) == 0 {
      if Hi(a) < Lo(b) {
        quotient, rem := Udiv128by64to64(Hi(a), Lo(a), Lo(b));
      } else {
        var qh: u64 := Div64(Hi(a), Lo(b));
        DivMod(Hi(a), Lo(b));
        var rh: u64 := Hi(a) % Lo(b);
        var ql, r := Udiv128by64to64(rh, Lo(a), Lo(b));
        HighWordFirst(a, Lo(b), qh, rh, ql, r);
        quotient, rem := qh * B64 + ql, r;
      }
      DivUnique(a, b, quotient, rem);
    } else {
      quotient, rem := ShiftSubtract(a, b);
      DivUnique(a, b, quotient, rem);
    }
  }

  /** One round of the branch-free loop, as arithmetic. */
  lemma Round(a: nat, low: nat, divisor: nat, dividend: nat, bit: nat)
    requires a == low * (2 * divisor) + dividend && dividend < 2 * divisor
    requires bit == if dividend >= divisor then 1 else 0
    ensures a == (2 * low + bit) * divisor + (dividend - bit * divisor)
    ensures 0 <= dividend - bit * divisor < divisor
  {
    assert low * (2 * divisor) == (2 * low) * divisor;
    if bit == 1 { assert (2 * low + 1) * divisor == (2 * low) * divisor + divisor; }
  }

  /** The words the loop body computes with shifts, masks and `|=`. */
  lemma BranchFree(low: u64, dividend: u128, divisor: u128, n: nat)
    requires dividend < 2 * divisor && (divisor >= B127 ==> dividend >= B127)
    requires low < Pow2(n) && n < 64
    ensures var s := SignMask(Sub128(Sub128(divisor, dividend), 1));
      var bit := if dividend >= divisor then 1 else 0;
      && BitOr(Shl64(low, 1), BitAnd(s, 1)) == 2 * low + bit
      && BitAnd(divisor, s) == bit * divisor
  {
    SignIsComparison(dividend, divisor);
    AppendBit(low, n);
    if dividend >= divisor { AllOnes(divisor); }
  }

  lemma AppendBit(low: u64, n: nat)
    requires low < Pow2(n) && n < 64
    ensures BitOr(Shl64(low, 1), 0) == 2 * low && BitOr(Shl64(low, 1), 1) == 2 * low + 1
  {
    assert Pow2(1) == 2 * Pow2(0) == 2;
    assert 2 * low < B64 by { Pow2Mono(n, 63); Pow2Word64(); }
    ModSmall(2 * low, B64);
    assert Shl64(low, 1) == 2 * low == low * Pow2(1);
    OrDisjoint(low, 0, 1); OrDisjoint(low, 1, 1);
  }

  lemma AllOnes(x: u128)
    ensures BitAnd(B128 - 1, 1) == 1 && BitAnd(x, B128 - 1) == x
  {
    Pow2Word128();
    AndOnes(x, 128);
    AndMask(B128 - 1, 1);
    assert Pow2(1) == 2 * Pow2(0);
  }

  lemma HalfShift(b: nat, k: nat, divisor: nat)
    requires divisor == b * Pow2(k)
    ensures k > 0 ==> Shr(divisor, 1) == b * Pow2(k - 1) && divisor == 2 * (b * Pow2(k - 1))
  {
    if k > 0 {
      assert Pow2(1) == 2;
      assert b * Pow2(k) == 2 * (b * Pow2(k - 1));
    }
  }

  /** Between rounds: `quotient` holds the digits found so far, and what is left of
      the dividend is below twice the shifted divisor (at the end, below b). */
  ghost predicate RoundInv(a: nat, b: nat, quotient: nat, divisor: nat, dividend: nat, shift: int) {
    if shift >= 0 then
      && divisor == b * Pow2(shift)
      && a == quotient * (2 * divisor) + dividend && dividend < 2 * divisor
      && (divisor >= B127 ==> dividend >= B127)
    else
      a == quotient * b + dividend && dividend < b
  }

  lemma RoundKeeps(a: u128, b: u128, low: u64, divisor: u128, dividend: u128, shift: nat, n: nat)
    requires RoundInv(a, b, low, divisor, dividend, shift) && low < Pow2(n) && n < 64
    ensures var s := SignMask(Sub128(Sub128(divisor, dividend), 1));
      var low' := BitOr(Shl64(low, 1), BitAnd(s, 1));
      && low' < Pow2(n + 1) && low' < B64 && BitAnd(divisor, s) <= dividend
      && RoundInv(a, b, low', Shr(divisor, 1), dividend - BitAnd(divisor, s), shift - 1)
  {
    var bit := if dividend >= divisor then 1 else 0;
    BranchFree(low, dividend, divisor, n);
    Round(a, low, divisor, dividend, bit);
    assert Pow2(n + 1) == 2 * Pow2(n) <= B64 by { Pow2Mono(n + 1, 64); Pow2Word64(); }
    NextRound(a, b, 2 * low + bit, divisor, dividend - bit * divisor, shift);
  }

  lemma NextRound(a: nat, b: nat, low: nat, divisor: nat, rest: int, shift: nat)
    requires divisor == b * Pow2(shift) && divisor < B128
    requires a == low * divisor + rest && 0 <= rest < divisor
    ensures RoundInv(a, b, low, Shr(divisor, 1), rest, shift - 1)
  {
    HalfShift(b, shift, divisor);
    if shift == 0 { assert Pow2(0) == 1; }
  }

  method ShiftSubtract(a: u128, b: u128) returns (quotient: u64, dividend: u128)
    requires b <= a && Hi(b) > 0
    ensures a == quotient * b + dividend && dividend < b
  {
    var shift: int := Clz64(Hi(b)) - Clz64(Hi(a));
    Aligned(a, b, shift);
    var divisor: u128 := Shl128(b, shift);
    dividend := a;
    quotient := 0;
    ghost var n := 0;
    while shift >= 0
      invariant -1 <= shift && n + shift < 64 && quotient < Pow2(n)
      invariant RoundInv(a, b, quotient, divisor, dividend, shift)
      decreases shift
    {
      RoundKeeps(a, b, quotient, divisor, dividend, shift, n);
      var s: u128 := SignMask(Sub128(Sub128(divisor, dividend), 1));
      quotient := BitOr(Shl64(quotient, 1), BitAnd(s, 1));
      dividend := dividend - BitAnd(divisor, s);
      divisor := Shr(divisor, 1);
      shift := shift - 1;
      n := n + 1;
    }
  }
}
