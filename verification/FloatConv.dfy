/** Conversions between 128-bit integers and IEEE 754 binary64
    (libraries/rt/floatuntidf.c, floattidf.c, fixunsdfti.c, int_t.h). */
module FloatConv {
  import opened Words
  import opened UDivMod

  // ----- what a bit pattern denotes (IEEE 754-2008, section 3.4)

  const P52 := 0x10_0000_0000_0000
  const P53 := 0x20_0000_0000_0000

  function Fraction(d: u64): nat { d % P52 }
  function Biased(d: u64): (e: nat)
    ensures e < 2048
  {
    d / P52 % 2048
  }
  predicate Negative(d: u64) { d >= B63 }
  predicate Finite(d: u64) { Biased(d) < 2047 }

  function Significand(d: u64): (m: nat)
    ensures m < P53
  {
    if Biased(d) == 0 then Fraction(d) else P52 + Fraction(d)
  }

  /** 1074.  Given by its bounds, not as a literal, so that powers of two with this
      exponent are not computed out. */
  ghost function UnitExp(): nat {
    var e: nat :| 1073 < e < 1075;
    e
  }

  /** The magnitude of a finite double in units of 2^-1074, the least positive one. */
  function Magnitude(d: u64): nat {
    Significand(d) * Pow2(if Biased(d) == 0 then 0 else Biased(d) - 1)
  }
  function Scaled(d: u64): int {
    var m: int := Magnitude(d);
    if Negative(d) then -m else m
  }

  /** Distance of the double d from the integer a, in units of 2^-1074. */
  ghost function Distance(a: int, d: u64): nat { Abs(a * Pow2(UnitExp()) - Scaled(d)) }

  /** Section 4.3.1: no finite double is nearer to a, and if another one is as
      near then r has an even significand. */
  ghost predicate NearestEven(a: int, r: u64) {
    && Finite(r)
    && forall d: u64 | Finite(d) ::
         && Distance(a, r) <= Distance(a, d)
         && (Distance(a, r) == Distance(a, d) && Scaled(d) != Scaled(r) ==> r % 2 == 0)
  }

  // ----- rounding an integer to 53 bits

  /** a in units of 2^sh, rounded half to even. */
  function RoundHalfEven(a: nat, sh: nat): nat {
    var h, l := a / Pow2(sh), a % Pow2(sh);
    if 2 * l > Pow2(sh) || (2 * l == Pow2(sh) && h % 2 == 1) then h + 1 else h
  }

  lemma RoundingError(a: nat, sh: nat)
    ensures var m := RoundHalfEven(a, sh);
      && 2 * Abs(a - m * Pow2(sh)) <= Pow2(sh)
      && (2 * Abs(a - m * Pow2(sh)) == Pow2(sh) ==> m % 2 == 0)
  {
    var u := Pow2(sh);
    DivMod(a, u);
    assert (a / u + 1) * u == a / u * u + u;
  }

  /** The value m * u beats every multiple of u, and everything below p * u. */
  lemma NearestMultiple(a: int, m: int, u: nat, p: int, d: int, j: int)
    requires u > 0 && 2 * Abs(a - m * u) <= u && p * u <= a
    requires d == j * u || d < p * u
    ensures Abs(a - m * u) <= Abs(a - d)
    ensures Abs(a - m * u) == Abs(a - d) && d != m * u ==> 2 * Abs(a - m * u) == u
  {
    OtherMultiple(a, m, u, p);
    if d == j * u { OtherMultiple(a, m, u, j); }
  }

  lemma OtherMultiple(a: int, m: int, u: nat, j: int)
    requires u > 0 && 2 * Abs(a - m * u) <= u
    ensures j == m || Abs(a - j * u) >= u - Abs(a - m * u)
  {
    assert (j - m) * u == j * u - m * u;
    if j > m { MulMono(1, j - m, u); }
    if j < m { MulMono(j - m, -1, u); }
  }

  /** Any double is a multiple of 2^k or lies below 2^(52+k). */
  lemma Granularity(d: u64, k: nat) returns (j: int)
    ensures Scaled(d) == j * Pow2(k) || Scaled(d) < P52 * Pow2(k)
  {
    var e := if Biased(d) == 0 then 0 else Biased(d) - 1;
    var s := Significand(d);
    j := 0;
    if e >= k {
      Pow2Add(e - k, k);
      j := s * Pow2(e - k);
      SignedMultiple(s, Pow2(e - k), Pow2(k));
      j := if Negative(d) then -j else j;
    } else {
      Pow2Mono(e, k);
      BelowHidden(s, Pow2(e), Pow2(k));
    }
  }

  lemma SignedMultiple(s: int, p: int, u: int)
    ensures s * (p * u) == (s * p) * u && -(s * (p * u)) == (-(s * p)) * u
  {
  }

  lemma BelowHidden(s: nat, u: nat, v: nat)
    requires s < P53 && u > 0 && 2 * u <= v
    ensures 0 <= s * u < P52 * v
  {
    MulMono(s + 1, P53, u);
    assert (s + 1) * u == s * u + u;
  }

  /** Rounding to 53 bits half to even gives the nearest double. */
  lemma RoundedIsNearest(a: nat, sh: nat, r: u64)
    requires P52 * Pow2(sh) <= a
    requires Finite(r) && r % 2 == RoundHalfEven(a, sh) % 2
    requires Scaled(r) == RoundHalfEven(a, sh) * Pow2(sh + UnitExp())
    ensures NearestEven(a, r)
  {
    RoundingError(a, sh);
    Pow2Add(sh, UnitExp());
    forall d: u64 | Finite(d)
      ensures Distance(a, r) <= Distance(a, d)
      ensures Distance(a, r) == Distance(a, d) && Scaled(d) != Scaled(r) ==> r % 2 == 0
    {
      var j := Granularity(d, sh + UnitExp());
      BeatsAll(a, RoundHalfEven(a, sh), Pow2(sh), Pow2(UnitExp()), Pow2(sh + UnitExp()), Scaled(d), j, Scaled(r),
        r % 2);
    }
  }

  lemma BeatsAll(a: int, m: nat, v: nat, t: nat, u: nat, d: int, j: int, r: int, parity: nat)
    requires v > 0 && t > 0 && u == v * t && P52 * v <= a && r == m * u
    requires 2 * Abs(a - m * v) <= v && (2 * Abs(a - m * v) == v ==> parity == 0)
    requires d == j * u || d < P52 * u
    ensures Abs(a * t - r) <= Abs(a * t - d)
    ensures Abs(a * t - r) == Abs(a * t - d) && d != r ==> parity == 0
  {
    MulMono(1, v, t);
    InUnits(a, m, v, t, u);
    NearestMultiple(a * t, m, u, P52, d, j);
  }

  lemma InUnits(a: int, m: nat, v: nat, t: nat, u: nat)
    requires t > 0 && u == v * t && P52 * v <= a && 2 * Abs(a - m * v) <= v
    ensures P52 * u <= a * t
    ensures 2 * Abs(a * t - m * u) <= u
    ensures 2 * Abs(a * t - m * u) == u ==> 2 * Abs(a - m * v) == v
  {
    MulMono(P52 * v, a, t);
    ScaleUp(a - m * v, v, t);
    Distribute(a, m, v, t);
  }

  lemma Distribute(a: int, m: int, v: int, t: int)
    ensures (a - m * v) * t == a * t - m * (v * t)
    ensures P52 * v * t == P52 * (v * t)
  {
  }

  lemma ScaleUp(x: int, v: nat, t: nat)
    requires t > 0 && 2 * Abs(x) <= v
    ensures Abs(x * t) == Abs(x) * t && 2 * Abs(x * t) <= v * t
    ensures 2 * Abs(x * t) == v * t ==> 2 * Abs(x) == v
  {
    assert (-x) * t == -(x * t);
    if x < 0 { MulMono(x, 0, t); } else { MulMono(0, x, t); }
    var y := 2 * Abs(x);
    assert y * t == 2 * (Abs(x) * t);
    MulMono(y, v, t);
    if y < v { MulMono(y + 1, v, t); assert (y + 1) * t == y * t + t; }
  }

  // ----- the bit manipulations of the source, as arithmetic

  /** `__clzti2`, branch-free: the mask f selects the word that is counted. */
  function Clz128(x: u128): (n: nat)
    requires x > 0
    ensures n == 128 - BitLen(x)
  {
    var f: u64 := if Hi(x) == 0 then B64 - 1 else 0;
    SelectWord(Hi(x), Lo(x), f);
    AndSixtyFour();
    LeadingWord(x);
    Clz64(BitOr(BitAnd(Hi(x), B64 - 1 - f), BitAnd(Lo(x), f))) + BitAnd(f, 64)
  }

  lemma LeadingWord(x: u128)
    requires x > 0
    ensures Hi(x) > 0 ==> BitLen(x) == 128 - Clz64(Hi(x))
    ensures Hi(x) == 0 ==> Lo(x) == x && BitLen(x) == 64 - Clz64(x)
  {
    if Hi(x) > 0 {
      LeadingBit(x);
      BitLenIs(x, 128 - Clz64(Hi(x)));
    }
  }

  lemma SelectWord(h: u64, l: u64, f: u64)
    requires f == if h == 0 then B64 - 1 else 0
    ensures BitOr(BitAnd(h, B64 - 1 - f), BitAnd(l, f)) == if h == 0 then l else h
  {
    Pow2Word64();
    AndOnes(h, 64); AndOnes(l, 64);
    AndZero(h); AndZero(l);
    assert BitOr(h, 0) == h;
  }

  lemma AndZero(x: nat)
    ensures BitAnd(x, 0) == 0 && BitAnd(0, x) == 0
  {
  }

  lemma AndSixtyFour()
    ensures BitAnd(B64 - 1, 64) == 64 && BitAnd(0, 64) == 0
  {
    AndBit(B64 - 1, 6);
    assert Pow2(6) == 64;
  }

  /** A single-bit mask tests that bit. */
  lemma {:induction false} AndBit(x: nat, k: nat)
    ensures BitAnd(x, Pow2(k)) == if x / Pow2(k) % 2 == 1 then Pow2(k) else 0
  {
    if k > 0 {
      AndBit(x / 2, k - 1);
      DivTwice(x, Pow2(k - 1));
      assert Pow2(k) / 2 == Pow2(k - 1) && Pow2(k) % 2 == 0;
      if x == 0 { ModSmall(0, Pow2(k)); }
    } else {
      assert BitAnd(x / 2, 0) == 0;
      assert x / 1 == x;
    }
  }

  lemma DivTwice(x: nat, m: nat)
    requires m > 0
    ensures x / (2 * m) == x / 2 / m
  {
    var q, r := x / 2 / m, x / 2 % m;
    DivMod(x / 2, m);
    assert x == q * (2 * m) + (2 * r + x % 2) by { assert q * (2 * m) == 2 * (q * m); }
    DivUnique(x, 2 * m, q, 2 * r + x % 2);
  }

  lemma OrOne(x: nat)
    ensures BitOr(x, 1) == x + (1 - x % 2)
  {
    if x > 0 { assert BitOr(x, 1) == 1 + 2 * BitOr(x / 2, 0); }
  }

  /** Guard and sticky digit below the 53 bits kept: 0 exact, 1 below half,
      2 exactly half, 3 above half. */
  function GuardSticky(l: nat, v: nat): (q: nat)
    ensures q <= 3
  {
    (if 2 * l >= v then 2 else 0) + (if l > 0 && 2 * l != v then 1 else 0)
  }

  /** Shifting right with the lost bits or-ed into the last one. */
  lemma StickyShift(a: nat, w: nat)
    requires w > 0
    ensures var x := a / w; var t := a % w;
      BitOr(x, if t != 0 then 1 else 0) == 4 * (a / (4 * w)) + GuardSticky(a % (4 * w), 4 * w)
  {
    DivMod(a, w);
    DivLe(a, w);
    var x: nat, t: nat := a / w, a % w;
    var h, c := x / 4, x % 4;
    assert x == 4 * h + c && x % 2 == c % 2;
    Quarters(a, w, x, t, h, c);
    StickyCases(c, w, t);
    OrOne(x);
    assert BitOr(x, 0) == x;
  }

  lemma Quarters(a: nat, w: nat, x: nat, t: nat, h: nat, c: nat)
    requires a == x * w + t && t < w && x == 4 * h + c && c < 4
    ensures a / (4 * w) == h && a % (4 * w) == c * w + t
  {
    MulMono(c + 1, 4, w);
    assert (c + 1) * w == c * w + w;
    assert x * w == h * (4 * w) + c * w;
    DivUnique(a, 4 * w, h, c * w + t);
  }

  lemma StickyCases(c: nat, w: nat, t: nat)
    requires c < 4 && t < w
    ensures GuardSticky(c * w + t, 4 * w) == if t != 0 then c + (1 - c % 2) else c
  {
    assert c * w == if c == 0 then 0 else if c == 1 then w else if c == 2 then 2 * w else 3 * w;
  }

  /** "Or P into R", add one, drop Q and R: rounds half to even. */
  lemma RoundStep(h: nat, q: nat)
    requires q <= 3
    ensures var x := 4 * h + q;
      var y := BitOr(x, if BitAnd(x, 4) != 0 then 1 else 0);
      (y + 1) / 4 == if q == 3 || (q == 2 && h % 2 == 1) then h + 1 else h
  {
    var x := 4 * h + q;
    ParityOfP(x, h);
    OrOne(x);
    assert BitOr(x, 0) == x;
  }

  lemma ParityOfP(x: nat, h: nat)
    requires 4 * h <= x < 4 * h + 4
    ensures BitAnd(x, 4) != 0 <==> h % 2 == 1
  {
    AndBit(x, 2);
    assert Pow2(2) == 4;
    assert x / 4 == h;
  }

  /** Rounding a number of 53 + sh bits gives 53 bits, or 2^53. */
  lemma RoundedRange(a: nat, sh: nat)
    requires P52 * Pow2(sh) <= a < P53 * Pow2(sh)
    ensures P52 <= RoundHalfEven(a, sh) <= P53
  {
    var v := Pow2(sh);
    DivMod(a, v);
    if a / v < P52 { MulMono(a / v + 1, P52, v); }
    if a / v >= P53 { MulMono(P53, a / v, v); }
  }

  // ----- assembling the double

  /** The double with significand m and exponent e. */
  lemma Assembled(m: nat, e: nat, neg: bool)
    requires P52 <= m < P53 && e < 1024
    ensures var d := (e + 1023) * P52 + (m - P52) + (if neg then B63 else 0);
      && 0 <= d < B64 && Finite(d) && Biased(d) == e + 1023 && Negative(d) == neg
      && Significand(d) == m && d % 2 == m % 2
  {
    var d := (e + 1023) * P52 + (m - P52) + (if neg then B63 else 0);
    var top := e + 1023 + (if neg then 2048 else 0);
    assert d == top * P52 + (m - P52) by { assert B63 == 2048 * P52; }
    assert top <= 4095;
    DivMul(top, P52, m - P52);
    if neg { DivMul(1, 2048, e + 1023); } else { ModSmall(e + 1023, 2048); }
  }

  /** The two 32-bit halves, built with shifts, masks and `|`. */
  lemma Halves(sign: u32, e: nat, m: nat)
    requires P52 <= m < P53 && e < 1024 && (sign == 0 || sign == B31)
    ensures var high := BitOr(BitOr(sign, (e + 1023) * 0x10_0000), BitAnd(Shr(m, 32) % B32, 0xF_FFFF));
      high * B32 + m % B32 == (e + 1023) * P52 + (m - P52) + (if sign == 0 then 0 else B63)
  {
    MaskHigh(m);
    var mh: nat := Shr(m, 32) - 0x10_0000;
    var top := (if sign == 0 then 0 else 0x800) + e + 1023;
    Pow2Twenty();
    OrSign(sign, e + 1023);
    OrDisjoint(top, mh, 20);
  }

  lemma Pow2Twenty()
    ensures Pow2(20) == 0x10_0000
  {
    assert Pow2(10) == 0x400;
    Pow2Double(10, 0x400);
  }

  lemma OrSign(sign: u32, e: nat)
    requires e < 2048 && (sign == 0 || sign == B31)
    ensures BitOr(sign, e * 0x10_0000) == ((if sign == 0 then 0 else 0x800) + e) * 0x10_0000
  {
    Pow2Word32();
    if sign != 0 { OrDisjoint(1, e * 0x10_0000, 31); }
  }

  lemma MaskHigh(m: nat)
    requires P52 <= m < P53
    ensures Shr(m, 32) == m / B32 && 0x10_0000 <= Shr(m, 32) < 0x20_0000
    ensures BitAnd(Shr(m, 32) % B32, 0xF_FFFF) == Shr(m, 32) - 0x10_0000
    ensures m == Shr(m, 32) * B32 + m % B32
  {
    assert Shr(m, 32) == m / B32 by { Pow2Word32(); }
    DivMod(m, B32);
    var mh: nat := Shr(m, 32);
    ModSmall(mh, B32);
    MaskTwenty(mh);
  }

  lemma MaskTwenty(mh: nat)
    requires 0x10_0000 <= mh < 0x20_0000
    ensures BitAnd(mh, 0xF_FFFF) == mh - 0x10_0000
  {
    Pow2Twenty();
    AndMask(mh, 20);
  }

  // ----- integer to double

  /** Bring the significant digits of a to 55 positions, losing nothing that
      rounding could need. */
  method ToFiftyFive(a: u128, sd: nat) returns (x: nat)
    requires a > 0 && sd == BitLen(a) && 53 < sd <= 128
    ensures var v := Pow2(sd - 53); x == 4 * (a / v) + GuardSticky(a % v, v)
  {
    if sd == 54 {
      Shifted54(a);
      x := Shl128(a, 1);
    } else if sd == 55 {
      Unshifted55(a);
      x := a;
    } else {
      var k := sd - 55;
      SourceSticky(a, k);
      x := BitOr(Shr(a, k), if BitAnd(a, Shr(B128 - 1, 128 + 55 - sd)) != 0 then 1 else 0);
    }
  }

  lemma Shifted54(a: u128)
    requires BitLen(a) == 54
    ensures Shl128(a, 1) == 2 * a == 4 * (a / 2) + GuardSticky(a % 2, 2) && Pow2(1) == 2
  {
    assert Pow2(1) == 2;
    BitLenBounds(a);
    Pow2Mono(54, 127); Pow2Word128();
    ModSmall(2 * a, B128);
  }

  lemma Unshifted55(a: nat)
    ensures a == 4 * (a / 4) + GuardSticky(a % 4, 4) && Pow2(2) == 4
  {
    assert Pow2(2) == 2 * Pow2(1);
  }

  lemma SourceSticky(a: u128, k: nat)
    requires 0 < k <= 128
    ensures var v := Pow2(k + 2);
      BitOr(Shr(a, k), if BitAnd(a, Shr(B128 - 1, 128 - k)) != 0 then 1 else 0)
      == 4 * (a / v) + GuardSticky(a % v, v)
  {
    assert Pow2(k + 2) == 2 * Pow2(k + 1) == 4 * Pow2(k);
    LostBits(a, k);
    StickyShift(a, Pow2(k));
  }

  /** The mask of the source selects exactly the bits shifted out. */
  lemma LostBits(a: u128, k: nat)
    requires 0 < k <= 128
    ensures BitAnd(a, Shr(B128 - 1, 128 - k)) == a % Pow2(k)
  {
    Pow2Add(k, 128 - k);
    Pow2Word128();
    assert Pow2(k) * Pow2(128 - k) == B128;
    OnesShifted(Pow2(k), Pow2(128 - k));
    AndMask(a, k);
  }

  lemma OnesShifted(p: nat, p': nat)
    requires p > 0 && p' > 0 && p * p' == B128
    ensures (B128 - 1) / p' == p - 1
  {
    assert (p - 1) * p' == p * p' - p';
    DivUnique(B128 - 1, p', p - 1, p' - 1);
  }

  /** The common core of `___floattidf` and `___floatuntidf`: round the magnitude a
      and assemble the double from its 32-bit halves. */
  method RoundAndPack(sign: u32, a: u128) returns (d: u64)
    requires a > 0 && (sign == 0 || sign == B31)
    ensures Rounded(a, d, sign != 0)
  {
    var sd := 128 - Clz128(a);
    BitLenBounds(a);
    BitLenAtMost(a, 128);
    assert sd <= 128 by { Pow2Word128(); }
    LeadingAt53(a, sd);
    var e: nat := sd - 1;
    var m: nat;
    if sd > 53 {
      m, e := RoundTo53(a, sd);
      PackRounded(a, sd - 53, m, e, sign != 0);
    } else {
      m := a * Pow2(53 - sd);
      PackExact(a, sd, m, sign != 0);
    }
    ghost var bits: u64 := Bits(m, e, sign != 0);
    assert Rounded(a, bits, sign != 0);
    Halves(sign, e, m);
    var high: nat := BitOr(BitOr(sign, (e + 1023) * 0x10_0000), BitAnd(Shr(m, 32) % B32, 0xF_FFFF));
    d := high * B32 + m % B32;
    assert d == bits;
  }

  /** m * 2^(e - 52) is a, which has 53 + sh digits, rounded; m has 53 digits. */
  predicate IsRounded(a: nat, sh: nat, m: nat, e: nat) {
    var r := RoundHalfEven(a, sh);
    && P52 <= m < P53
    && ((m == r && e == sh + 52) || (m == P52 && r == P53 && e == sh + 53))
  }

  method RoundTo53(a: u128, sd: nat) returns (m: nat, e: nat)
    requires a > 0 && sd == BitLen(a) && 53 < sd <= 128
    ensures IsRounded(a, sd - 53, m, e)
  {
    e := sd - 1;
    m := ToFiftyFive(a, sd);
    Finish(a, sd - 53, m);
    m := BitOr(m, if BitAnd(m, 4) != 0 then 1 else 0);
    m := m + 1;
    m := m / 4;
    LeadingAt53(a, sd);
    RoundedRange(a, sd - 53);
    CarryBit(m);
    if BitAnd(m, P53) != 0 {
      m := m / 2;
      e := e + 1;
    }
  }

  lemma Finish(a: nat, sh: nat, x: nat)
    requires var v := Pow2(sh); x == 4 * (a / v) + GuardSticky(a % v, v)
    ensures (BitOr(x, if BitAnd(x, 4) != 0 then 1 else 0) + 1) / 4 == RoundHalfEven(a, sh)
  {
    DivLe(a, Pow2(sh));
    RoundStep(a / Pow2(sh), GuardSticky(a % Pow2(sh), Pow2(sh)));
  }

  function Signed(a: int, neg: bool): int { if neg then -a else a }

  /** d has the given sign and is the nearest double to the magnitude a, up to sign. */
  ghost predicate Rounded(a: nat, d: u64, neg: bool) {
    Negative(d) == neg && NearestEven(Signed(a, neg), d)
  }

  function Bits(m: nat, e: nat, neg: bool): nat
    requires m >= P52
  {
    (e + 1023) * P52 + (m - P52) + (if neg then B63 else 0)
  }

  lemma LeadingAt53(a: nat, sd: nat)
    requires a > 0 && sd == BitLen(a)
    ensures sd > 53 ==> P52 * Pow2(sd - 53) <= a < P53 * Pow2(sd - 53)
    ensures sd <= 53 ==> P52 <= a * Pow2(53 - sd) < P53
  {
    BitLenBounds(a);
    Pow2Word64();
    if sd > 53 {
      Pow2Add(52, sd - 53); Pow2Add(53, sd - 53);
    } else {
      Pow2Add(sd - 1, 53 - sd); Pow2Add(sd, 53 - sd);
      AlignedArith(a, Pow2(sd - 1), Pow2(sd), Pow2(53 - sd));
    }
  }

  lemma CarryBit(m: nat)
    requires P52 <= m <= P53
    ensures BitAnd(m, P53) != 0 <==> m == P53
  {
    Pow2Word64();
    AndBit(m, 53);
    if m < P53 { ModSmall(m, P53); } else { DivMul(1, P53, 0); }
  }

  lemma MagnitudeOf(m: nat, e: nat, neg: bool)
    requires P52 <= m < P53 && e < 1024
    ensures Bits(m, e, neg) < B64 && Scaled(Bits(m, e, neg)) == Signed(m * Pow2(e + 1022), neg)
  {
    Assembled(m, e, neg);
  }

  lemma PackRounded(a: nat, sh: nat, m: nat, e: nat, neg: bool)
    requires P52 * Pow2(sh) <= a && e < 1024 && IsRounded(a, sh, m, e)
    ensures Bits(m, e, neg) < B64 && Rounded(a, Bits(m, e, neg), neg)
  {
    Assembled(m, e, neg);
    PackPositive(a, sh, m, e);
    var d := Bits(m, e, false);
    if neg {
      MirrorNearest(a, d);
      assert Bits(m, e, true) == Flip(d);
    }
  }

  lemma PackPositive(a: nat, sh: nat, m: nat, e: nat)
    requires P52 * Pow2(sh) <= a && e < 1024 && IsRounded(a, sh, m, e)
    ensures Bits(m, e, false) < B63 && NearestEven(a, Bits(m, e, false))
  {
    Assembled(m, e, false);
    MagnitudeOf(m, e, false);
    CarryScales(sh, m, e, RoundHalfEven(a, sh));
    RoundedIsNearest(a, sh, Bits(m, e, false));
  }

  lemma CarryScales(sh: nat, m: nat, e: nat, r: nat)
    requires (m == r && e == sh + 52) || (m == P52 && r == P53 && e == sh + 53)
    ensures m * Pow2(e + 1022) == r * Pow2(sh + UnitExp())
  {
    if e == sh + 53 { assert Pow2(e + 1022) == 2 * Pow2(sh + UnitExp()); }
  }

  // ----- negative integers

  function Flip(d: u64): u64 { if d >= B63 then d - B63 else d + B63 }

  lemma MirrorDouble(d: u64)
    ensures Scaled(Flip(d)) == -Scaled(d) && Finite(Flip(d)) == Finite(d) && Flip(d) % 2 == d % 2
  {
    FlipFields(d);
    assert Flip(d) % 2 == d % 2;
    assert Magnitude(Flip(d)) == Magnitude(d);
  }

  lemma FlipFields(d: u64)
    ensures Fraction(Flip(d)) == Fraction(d) && Biased(Flip(d)) == Biased(d)
  {
    var c := if d >= B63 then -1 else 1;
    var q: int, f := d / P52, d % P52;
    DivMod(d, P52);
    DivUnique(Flip(d), P52, q + 2048 * c, f);
    ModShift(q, 2048, c);
  }

  lemma MirrorDistance(a: int, d: u64)
    ensures Distance(-a, Flip(d)) == Distance(a, d)
  {
    MirrorDouble(d);
    MirrorProduct(a, Pow2(UnitExp()), Scaled(d), Scaled(Flip(d)));
  }

  lemma MirrorProduct(a: int, t: int, x: int, y: int)
    requires y == -x
    ensures Abs((-a) * t - y) == Abs(a * t - x)
  {
    assert (-a) * t == -(a * t);
  }

  lemma MirrorAt(a: int, r: u64, d: u64)
    requires NearestEven(a, r) && Finite(d)
    ensures Distance(-a, Flip(r)) <= Distance(-a, d)
    ensures Distance(-a, Flip(r)) == Distance(-a, d) && Scaled(d) != Scaled(Flip(r)) ==> Flip(r) % 2 == 0
  {
    MirrorDouble(r); MirrorDouble(d);
    MirrorDistance(a, r); MirrorDistance(a, Flip(d));
    assert Flip(Flip(d)) == d;
    MirrorDouble(Flip(d));
  }

  /** Distances are symmetric about zero. */
  lemma MirrorNearest(a: int, r: u64)
    requires NearestEven(a, r)
    ensures NearestEven(-a, Flip(r))
  {
    MirrorDouble(r);
    forall d: u64 | Finite(d)
      ensures Distance(-a, Flip(r)) <= Distance(-a, d)
      ensures Distance(-a, Flip(r)) == Distance(-a, d) && Scaled(d) != Scaled(Flip(r)) ==> Flip(r) % 2 == 0
    {
      MirrorAt(a, r, d);
    }
  }

  // ----- integers below 2^53

  lemma ExactIsNearest(a: int, d: u64)
    requires Finite(d) && Scaled(d) == a * Pow2(UnitExp())
    ensures NearestEven(a, d)
  {
  }

  lemma PackExact(a: nat, sd: nat, m: nat, neg: bool)
    requires 0 < sd <= 53 && m == a * Pow2(53 - sd) && P52 <= m < P53
    ensures Bits(m, sd - 1, neg) < B64 && Rounded(a, Bits(m, sd - 1, neg), neg)
  {
    Assembled(m, sd - 1, neg);
    MagnitudeOf(m, sd - 1, neg);
    Pow2Add(53 - sd, sd + 1021);
    ExactScale(a, Pow2(53 - sd), Pow2(sd + 1021), Pow2(UnitExp()));
    ExactIsNearest(Signed(a, neg), Bits(m, sd - 1, neg));
  }

  lemma ExactScale(a: int, p: int, q: int, t: int)
    requires p * q == t
    ensures a * p * q == a * t && -(a * p * q) == (-a) * t
  {
    assert a * p * q == a * (p * q);
  }

  /** `___floatuntidf`: the nearest double, ties to even. */
  method FloatUnTiDf(a: u128) returns (d: u64)
    ensures !Negative(d) && NearestEven(a, d)
  {
    if a == 0 {
      ExactIsNearest(0, 0);
      return 0;
    }
    d := RoundAndPack(0, a);
  }

  /** `___floattidf`: the magnitude is (a ^ s) - s with s the sign mask. */
  method FloatTiDf(a: i128) returns (d: u64)
    ensures Negative(d) == (a < 0) && NearestEven(a as int, d)
  {
    if a == 0 {
      ExactIsNearest(0, 0);
      return 0;
    }
    var word: u128 := a as int % B128;
    var magnitude: u128 := if a < 0 then ((B128 - 1 - word) + 1) % B128 else word;
    MagnitudeWord(a);
    d := RoundAndPack(if a < 0 then B31 else 0, magnitude);
  }

  lemma MagnitudeWord(a: i128)
    requires a != 0
    ensures var x := a as int; var w := x % B128;
      (if x < 0 then ((B128 - 1 - w) + 1) % B128 else w) == Abs(x) && 0 < Abs(x) < B128
  {
    var x := a as int;
    if x < 0 {
      ModShift(x, B128, 1);
      ModSmall(x + B128, B128);
      ModSmall(-x, B128);
    } else {
      ModSmall(x, B128);
    }
  }

  // ----- double to unsigned 128-bit integer

  lemma FieldMasks(a: u64)
    ensures var abs := BitAnd(a, B63 - 1);
      && (BitAnd(a, B63) != 0 <==> Negative(a))
      && Shr(abs, 52) == Biased(a)
      && BitOr(BitAnd(abs, P52 - 1), P52) == P52 + Fraction(a)
  {
    Pow2Word64();
    AndMask(a, 63); AndBit(a, 63);
    var abs: nat := a % B63;
    DivMod(a, B63);
    assert a / B63 == if Negative(a) then 1 else 0;
    if Negative(a) { DivMul(1, B63, a - B63); } else { ModSmall(a, B63); }
    AndMask(abs, 52);
    DropSign(a, abs);
    OrHidden(Fraction(a));
  }

  lemma DropSign(a: u64, abs: nat)
    requires abs == if a >= B63 then a - B63 else a
    ensures abs / P52 == Biased(a) && abs % P52 == Fraction(a)
  {
    DivMod(abs, P52);
    assert 0 <= abs / P52 < 2048;
    if a >= B63 {
      assert B63 == 2048 * P52;
      DivUnique(a, P52, abs / P52 + 2048, abs % P52);
      DivMul(1, 2048, abs / P52);
    } else {
      ModSmall(abs / P52, 2048);
    }
  }

  lemma OrHidden(f: nat)
    requires f < P52
    ensures BitOr(f, P52) == P52 + f
  {
    Pow2Word64();
    OrDisjoint(1, f, 52);
    OrCommutes(P52, f);
  }

  lemma {:induction false} OrCommutes(x: nat, y: nat)
    ensures BitOr(x, y) == BitOr(y, x)
    decreases x + y
  {
    if x > 0 && y > 0 { OrCommutes(x / 2, y / 2); }
  }

  /** `___fixunsdfti` on the bits of a double. */
  function FixUnsDfTi(a: u64): u128 {
    FieldMasks(a);
    var abs := BitAnd(a, B63 - 1);
    var sign := if BitAnd(a, B63) != 0 then -1 else 1;
    var exponent := Shr(abs, 52) - 1023;
    var significand := BitOr(BitAnd(abs, P52 - 1), P52);
    if sign == -1 || exponent < 0 then 0
    else if exponent >= 128 then B128 - 1
    else if exponent < 52 then Shr(significand, 52 - exponent)
    else Shl128(significand, exponent - 52)
  }

  /** What the branches of the conversion compute, as arithmetic. */
  function FixByCases(d: u64): nat {
    var e, m := Biased(d), P52 + Fraction(d);
    if Negative(d) || e < 1023 then 0
    else if e >= 1151 then B128 - 1
    else if e < 1075 then Shr(m, 1075 - e)
    else (m * Pow2(e - 1075)) % B128
  }

  lemma FixCases(d: u64)
    ensures FixUnsDfTi(d) == FixByCases(d)
  {
    FieldMasks(d);
  }

  /** r is the value of d truncated toward zero, saturated at both ends of the
      unsigned range (infinities and NaNs saturate as their sign says). */
  ghost predicate Truncation(d: u64, r: nat) {
    var unit := Pow2(UnitExp());
    if Negative(d) then r == 0
    else if Finite(d) && Magnitude(d) < B128 * unit then r * unit <= Magnitude(d) < (r + 1) * unit
    else r == B128 - 1
  }

  lemma FixTruncates(d: u64)
    ensures Truncation(d, FixUnsDfTi(d))
  {
    FixCases(d);
    CasesTruncate(d);
  }

  lemma CasesTruncate(d: u64)
    ensures Truncation(d, FixByCases(d))
  {
    if Negative(d) {
    } else if Biased(d) < 1023 {
      FixSmall(d);
    } else if Biased(d) >= 1151 {
      FixHuge(d);
    } else if Biased(d) < 1075 {
      FixRight(d);
    } else {
      FixLeft(d);
    }
  }

  lemma FixSmall(d: u64)
    requires Biased(d) < 1023
    ensures Magnitude(d) < Pow2(UnitExp()) <= B128 * Pow2(UnitExp())
  {
    var k := if Biased(d) == 0 then 0 else Biased(d) - 1;
    var n: nat := UnitExp() - 53;
    Pow2Mono(k, n);
    BelowOne(Significand(d), Pow2(k), Pow2(n));
    Pow2Word64();
    Pow2Add(53, n);
  }

  lemma FixHuge(d: u64)
    requires Biased(d) >= 1151
    ensures Magnitude(d) >= B128 * Pow2(UnitExp())
  {
    var e := Biased(d);
    HugeBound(e - 1);
    MulMono(P52, P52 + Fraction(d), Pow2(e - 1));
  }

  lemma HugeBound(k: nat)
    requires k >= 1150
    ensures B128 * Pow2(UnitExp()) <= P52 * Pow2(k)
  {
    Pow2Add(128, UnitExp());
    Pow2Add(52, k);
    Pow2Mono(128 + UnitExp(), 52 + k);
    assert Pow2(128) == B128 by { Pow2Word128(); }
    assert Pow2(52) == P52 by { Pow2Word64(); }
  }

  lemma FixRight(d: u64)
    requires 1023 <= Biased(d) < 1075
    ensures var r := Shr(P52 + Fraction(d), 1075 - Biased(d));
      r * Pow2(UnitExp()) <= Magnitude(d) < (r + 1) * Pow2(UnitExp()) && Magnitude(d) < B128 * Pow2(UnitExp())
  {
    var e, m := Biased(d), P52 + Fraction(d);
    Pow2Add(1075 - e, e - 1);
    Pow2Mono(e - 1, UnitExp());
    TruncateRight(m, Pow2(1075 - e), Pow2(e - 1), Pow2(UnitExp()));
    BelowHidden(m, Pow2(e - 1), Pow2(UnitExp()));
    MulMono(P52, B128, Pow2(UnitExp()));
  }

  lemma FixLeft(d: u64)
    requires 1075 <= Biased(d) < 1151
    ensures var r := ((P52 + Fraction(d)) * Pow2(Biased(d) - 1075)) % B128;
      r * Pow2(UnitExp()) <= Magnitude(d) < (r + 1) * Pow2(UnitExp()) && Magnitude(d) < B128 * Pow2(UnitExp())
  {
    var e, m := Biased(d), P52 + Fraction(d);
    Pow2Add(e - 1075, UnitExp());
    assert P53 * Pow2(e - 1075) <= B128 by {
      Pow2Word64(); Pow2Word128();
      Pow2Add(53, e - 1075); Pow2Mono(53 + (e - 1075), 128);
    }
    TruncateLeft(m, Pow2(e - 1075), Pow2(UnitExp()));
  }

  lemma BelowOne(s: nat, u: nat, v: nat)
    requires s < P53 && u <= v && v > 0
    ensures 0 <= s * u < P53 * v
  {
    MulMono(u, v, s);
    MulMono(s + 1, P53, v);
  }

  lemma TruncateRight(m: nat, p: nat, q: nat, t: nat)
    requires p > 0 && q > 0 && p * q == t
    ensures var r := m / p; r * t <= m * q < (r + 1) * t
  {
    var r := m / p;
    DivMod(m, p);
    MulMono(r * p, m, q);
    MulMono(m + 1, (r + 1) * p, q);
    assert (r + 1) * p == r * p + p;
    assert r * p * q == r * (p * q);
    assert (r + 1) * p * q == (r + 1) * (p * q);
    assert (m + 1) * q == m * q + q;
  }

  lemma TruncateLeft(m: nat, p: nat, t: nat)
    requires t > 0 && m < P53 && P53 * p <= B128 && p > 0
    ensures (m * p) % B128 == m * p && m * (p * t) == m * p * t && m * p * t < B128 * t && m * p * t < (m * p + 1) * t
  {
    MulMono(m + 1, P53, p);
    assert (m + 1) * p == m * p + p;
    ModSmall(m * p, B128);
    MulMono(m * p + 1, B128, t);
    assert (m * p + 1) * t == m * p * t + t;
  }

  // ----- integer to double and back

  /** Every integer of at most 53 significant digits is a double. */
  lemma ExactDouble(m: nat, k: nat) returns (d: u64)
    requires m < P53 && m * Pow2(k) < B128
    ensures Finite(d) && Scaled(d) == m * Pow2(k) * Pow2(UnitExp())
  {
    if m == 0 { return 0; }
    var len := BitLen(m);
    BitLenBounds(m);
    assert len <= 53 by { BitLenAtMost(m, 53); Pow2Word64(); }
    LeadingAt53(m, len);
    ExponentFits(m, k);
    d := NormalDouble(m * Pow2(53 - len), k + len - 1);
    SameScale(m, k, 53 - len, k + len - 1 + 1022);
  }

  lemma NormalDouble(m: nat, e: nat) returns (d: u64)
    requires P52 <= m < P53 && e < 1024
    ensures Finite(d) && Scaled(d) == m * Pow2(e + 1022)
  {
    MagnitudeOf(m, e, false);
    Assembled(m, e, false);
    d := Bits(m, e, false);
  }

  lemma ExponentFits(m: nat, k: nat)
    requires m > 0 && m * Pow2(k) < B128
    ensures k + BitLen(m) <= 128
  {
    var len := BitLen(m);
    BitLenBounds(m);
    Pow2Add(len - 1, k);
    MulMono(Pow2(len - 1), m, Pow2(k));
    if k + len - 1 >= 128 { Pow2Mono(128, len - 1 + k); Pow2Word128(); }
  }

  lemma SameScale(m: nat, k: nat, i: nat, j: nat)
    requires i + j == k + UnitExp()
    ensures m * Pow2(i) * Pow2(j) == m * Pow2(k) * Pow2(UnitExp())
  {
    Pow2Pair(i, j, k, UnitExp());
    SameProducts(m, Pow2(i), Pow2(j), Pow2(k), Pow2(UnitExp()));
  }

  lemma Pow2Pair(i: nat, j: nat, k: nat, l: nat)
    requires i + j == k + l
    ensures Pow2(i) * Pow2(j) == Pow2(k) * Pow2(l)
  {
    Pow2Add(i, j);
    Pow2Add(k, l);
  }

  lemma SameProducts(m: nat, p: nat, q: nat, r: nat, t: nat)
    requires p * q == r * t
    ensures m * p * q == m * r * t
  {
    assert m * p * q == m * (p * q);
    assert m * r * t == m * (r * t);
  }

  /** `___fixunsdfti` undoes `___floatuntidf` (and `___floattidf` on non-negative
      integers) whenever the integer has at most 53 significant digits. */
  lemma FixInvertsFloat(a: u128, d: u64, m: nat, k: nat)
    requires NearestEven(a, d)
    requires a == m * Pow2(k) && m < P53
    ensures FixUnsDfTi(d) == a
  {
    var x := ExactDouble(m, k);
    assert Distance(a, d) <= Distance(a, x) == 0;
    FixTruncates(d);
    FixOfInteger(a, FixUnsDfTi(d), Scaled(d), Pow2(UnitExp()), Negative(d), Magnitude(d));
  }

  lemma FixOfInteger(a: nat, r: nat, scaled: int, unit: nat, neg: bool, mag: nat)
    requires unit > 0 && a < B128 && scaled == a * unit
    requires scaled == (if neg then -(mag as int) else mag)
    requires if neg then r == 0 else if mag < B128 * unit then r * unit <= mag < (r + 1) * unit else r == B128 - 1
    ensures r == a
  {
    MulMono(a + 1, B128, unit);
    assert (a + 1) * unit == a * unit + unit;
    if neg {
      if a > 0 { MulMono(1, a, unit); }
    } else {
      if r < a { MulMono(r + 1, a, unit); }
      if r > a { MulMono(a + 1, r, unit); }
    }
  }
}
