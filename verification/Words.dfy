/** Machine words as naturals below a power of two.  Wrap-around is written out
    with `%`; shifts are multiplication and division by a power of two; the
    bitwise operators work digit by digit, so that every use of them as
    arithmetic has to be justified by a lemma below. */
module Words {
  const B31 := 0x8000_0000
  const B32 := 0x1_0000_0000
  const B63 := 0x8000_0000_0000_0000
  const B64 := 0x1_0000_0000_0000_0000
  const B127 := 0x8000_0000_0000_0000_0000_0000_0000_0000
  const B128 := 0x1_0000_0000_0000_0000_0000_0000_0000_0000

  type byte = x: nat | x < 256
  type u32 = x: nat | x < B32
  type u64 = x: nat | x < B64
  type u128 = x: nat | x < B128
  type i64 = x: int | -B63 <= x < B63
  newtype i128 = x: int | -B127 <= x < B127

  function Pow2Rec(n: nat): (r: nat)
    ensures r > 0
  {
    if n == 0 then 1 else 2 * Pow2Rec(n - 1)
  }

  /** 2 to the n.  (Not itself recursive: products of powers then always mention
      the same term.) */
  function Pow2(n: nat): (r: nat)
    ensures r > 0
  {
    Pow2Rec(n)
  }

  function BitAnd(x: nat, y: nat): nat {
    if x == 0 || y == 0 then 0
    else (if x % 2 == 1 && y % 2 == 1 then 1 else 0) + 2 * BitAnd(x / 2, y / 2)
  }

  function BitOr(x: nat, y: nat): nat
    decreases x + y
  {
    if x == 0 then y
    else if y == 0 then x
    else (if x % 2 == 1 || y % 2 == 1 then 1 else 0) + 2 * BitOr(x / 2, y / 2)
  }

  /** Number of significant bits; 64 - BitLen(x) is `__builtin_clzll(x)` for x > 0. */
  function BitLen(x: nat): nat {
    if x == 0 then 0 else 1 + BitLen(x / 2)
  }

  function Clz64(x: u64): (n: nat)
    requires x > 0
    ensures n < 64
  {
    BitLenBounds(x);
    BitLenAtMost(x, 64);
    Pow2Word64();
    64 - BitLen(x)
  }

  function Shl64(x: u64, s: nat): u64 { (x * Pow2(s)) % B64 }
  function Shl128(x: u128, s: nat): u128 { (x * Pow2(s)) % B128 }
  function Shr(x: nat, s: nat): (r: nat)
    ensures r <= x
  {
    DivLe(x, Pow2(s));
    x / Pow2(s)
  }

  // ----- powers of two

  lemma {:induction false} Pow2Add(m: nat, n: nat)
    ensures Pow2(m + n) == Pow2(m) * Pow2(n)
  {
    if m > 0 {
      Pow2Add(m - 1, n);
      assert Pow2(m + n) == 2 * Pow2(m - 1 + n);
    }
  }

  lemma {:induction false} Pow2Mono(m: nat, n: nat)
    requires m <= n
    ensures Pow2(m) <= Pow2(n)
    ensures m < n ==> 2 * Pow2(m) <= Pow2(n)
  {
    if m < n { Pow2Mono(m, n - 1); }
  }

  lemma Pow2Double(n: nat, v: nat)
    requires Pow2(n) == v
    ensures Pow2(n + n) == v * v && Pow2(n + n + 1) == 2 * (v * v)
  {
    Pow2Add(n, n);
  }

  lemma Pow2Word32()
    ensures Pow2(8) == 0x100 && Pow2(16) == 0x1_0000
    ensures Pow2(31) == B31 && Pow2(32) == B32
  {
    assert Pow2(4) == 0x10;
    assert Pow2(7) == 0x80;
    Pow2Double(4, 0x10); Pow2Double(8, 0x100); Pow2Double(16, 0x1_0000);
    Pow2Double(7, 0x80); Pow2Double(15, 0x8000);
  }

  lemma Pow2Word64()
    ensures Pow2(52) == 0x10_0000_0000_0000 && Pow2(53) == 0x20_0000_0000_0000
    ensures Pow2(63) == B63 && Pow2(64) == B64
  {
    Pow2Word32();
    assert Pow2(13) == 0x2000;
    Pow2Double(13, 0x2000); Pow2Double(26, 0x400_0000);
    Pow2Double(31, B31); Pow2Double(32, B32);
  }

  lemma Pow2Word128()
    ensures Pow2(127) == B127 && Pow2(128) == B128
  {
    Pow2Word64();
    Pow2Double(63, B63); Pow2Double(64, B64);
  }

  function Abs(x: int): nat { if x < 0 then -x else x }

  // ----- division facts used throughout

  lemma DivMod(x: nat, d: nat)
    requires d > 0
    ensures x == x / d * d + x % d && 0 <= x % d < d
  {
  }

  lemma DivLe(x: nat, d: nat)
    requires d > 0
    ensures 0 <= x / d <= x
  {
    var q := x / d;
    DivMod(x, d);
    if q < 0 { MulMono(q, -1, d); }
    if q > 0 { MulMono(1, d, q); assert q * d == d * q; }
  }

  lemma MulMono(a: int, b: int, c: nat)
    requires a <= b
    ensures a * c <= b * c
  {
    assert (b - a) * c >= 0;
  }

  /** Quotient and remainder are the only way to split x by d. */
  lemma DivUnique(x: nat, d: nat, q: int, r: int)
    requires d > 0 && x == q * d + r && 0 <= r < d
    ensures x / d == q && x % d == r
  {
    var q', r' := x / d, x % d;
    assert x == q' * d + r';
    assert (q - q') * d == r' - r;
    if q > q' { MulMono(1, q - q', d); }
    if q < q' { MulMono(1, q' - q, d); }
  }

  lemma DivMul(q: nat, d: nat, r: nat)
    requires r < d
    ensures (q * d + r) / d == q && (q * d + r) % d == r
  {
    DivUnique(q * d + r, d, q, r);
  }

  /** Residues: adding multiples of d changes nothing. */
  lemma ModShift(x: int, d: nat, k: int)
    requires d > 0
    ensures (x + k * d) % d == x % d
  {
    var q, r := x / d, x % d;
    assert x == q * d + r;
    var y := x + k * d;
    assert y == (q + k) * d + r by { assert (q + k) * d == q * d + k * d; }
    var q', r' := y / d, y % d;
    assert y == q' * d + r';
    assert (q + k - q') * d == r' - r by { assert (q + k - q') * d == (q + k) * d - q' * d; }
    if q + k - q' > 0 { MulMono(1, q + k - q', d); }
    if q + k - q' < 0 { MulMono(1, q' - q - k, d); }
  }

  lemma ModSmall(x: nat, d: nat)
    requires x < d
    ensures x % d == x && x / d == 0
  {
    DivUnique(x, d, 0, x);
  }

  // ----- bit operations as arithmetic

  /** Splitting off the lowest digit commutes with taking a remainder. */
  lemma ModDigit(x: nat, m: nat)
    requires m > 0
    ensures x % (2 * m) == 2 * (x / 2 % m) + x % 2
  {
    var q, r := x / 2 / m, x / 2 % m;
    DivMod(x / 2, m);
    assert q >= 0 by { DivLe(x / 2, m); }
    assert x == q * (2 * m) + (2 * r + x % 2) by { assert q * (2 * m) == 2 * (q * m); }
    DivUnique(x, 2 * m, q, 2 * r + x % 2);
  }

  lemma {:induction false} AndMask(x: nat, k: nat)
    ensures BitAnd(x, Pow2(k) - 1) == x % Pow2(k)
  {
    if k > 0 {
      var m := Pow2(k - 1);
      AndMask(x / 2, k - 1);
      ModDigit(x, m);
      var y := Pow2(k) - 1;
      assert y / 2 == m - 1 && y % 2 == 1;
      if x == 0 { ModSmall(0, Pow2(k)); }
    }
  }

  lemma {:induction false} AndOnes(x: nat, k: nat)
    requires x < Pow2(k)
    ensures BitAnd(x, Pow2(k) - 1) == x
  {
    AndMask(x, k);
    ModSmall(x, Pow2(k));
  }

  lemma {:induction false} OrDisjoint(h: nat, l: nat, k: nat)
    requires l < Pow2(k)
    ensures BitOr(h * Pow2(k), l) == h * Pow2(k) + l
  {
    if k > 0 && h > 0 && l > 0 {
      var m := Pow2(k - 1);
      assert h * Pow2(k) == 2 * (h * m);
      assert h * m >= 1 by { MulMono(1, h, m); }
      OrDisjoint(h, l / 2, k - 1);
      assert (h * Pow2(k)) / 2 == h * m && (h * Pow2(k)) % 2 == 0;
    }
  }

  lemma {:induction false} BitLenBounds(x: nat)
    requires x > 0
    ensures BitLen(x) > 0
    ensures Pow2(BitLen(x) - 1) <= x < Pow2(BitLen(x))
  {
    if x > 1 {
      BitLenBounds(x / 2);
      assert BitLen(x) == 1 + BitLen(x / 2);
    } else {
      assert BitLen(x) == 1 + BitLen(0);
    }
  }

  lemma BitLenAtMost(x: nat, k: nat)
    ensures x < Pow2(k) ==> BitLen(x) <= k
    ensures x >= Pow2(k) ==> BitLen(x) > k
  {
    if x > 0 {
      BitLenBounds(x);
      if x < Pow2(k) && BitLen(x) > k { Pow2Mono(k, BitLen(x) - 1); }
      if x >= Pow2(k) && BitLen(x) <= k { Pow2Mono(BitLen(x), k); }
    }
  }

  /** BitLen is the position of the leading bit, and the only such position. */
  lemma BitLenIs(x: nat, k: nat)
    requires k > 0 && Pow2(k - 1) <= x < Pow2(k)
    ensures BitLen(x) == k
  {
    BitLenAtMost(x, k);
    BitLenAtMost(x, k - 1);
  }
}
