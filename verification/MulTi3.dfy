/** Half-word multiplication: the runtime's 64 x 64 -> 128 and 128 x 128 products
    (libraries/rt/multi3.c) and the rounded product of Grisu's extended floats
    (libraries/eosiolib/tester/fpconv.c).  All word operations wrap at 2^64. */
module MulTi3 {
  import opened Words
  import opened UDivMod

  function LoHalf(x: u64): u32 { x % B32 }
  function HiHalf(x: u64): (h: u32)
    ensures x == h * B32 + LoHalf(x)
  {
    DivMod(x, B32);
    x / B32
  }

  /** A product of half words, plus two more half words, still fits one word. */
  lemma HalfProductFits(x: u32, y: u32)
    ensures 0 <= x * y <= B64 - 2 * B32 + 1
  {
    MulMono(x, 0xFFFF_FFFF, y);
    assert x * y <= 0xFFFF_FFFF * y;
  }

  lemma FourProducts(ah: nat, al: nat, bh: nat, bl: nat)
    ensures (ah * B32 + al) * (bh * B32 + bl) ==
            ah * bh * B64 + (ah * bl + bh * al) * B32 + al * bl
  {
    assert (ah * B32 + al) * (bh * B32 + bl) == (ah * B32) * (bh * B32) + (ah * B32) * bl + al * (bh * B32) + al * bl;
    assert (ah * B32) * (bh * B32) == (ah * bh) * B64;
    assert (ah * B32) * bl == (ah * bl) * B32;
    assert al * (bh * B32) == (bh * al) * B32;
  }

  method MulDdi3(a: u64, b: u64) returns (low: u64, high: u64)
    ensures high * B64 + low == a * b
  {
    var al: nat, ah: nat, bl: nat, bh: nat := LoHalf(a), HiHalf(a), LoHalf(b), HiHalf(b);
    HalfProductFits(al, bl); HalfProductFits(ah, bl); HalfProductFits(bh, al); HalfProductFits(ah, bh);
    FourProducts(ah, al, bh, bl);
    ghost var ll: nat, hl: nat, lh: nat, hh: nat := al * bl, ah * bl, bh * al, ah * bh;
    ModSmall(ll, B64); ModSmall(hl, B64); ModSmall(lh, B64); ModSmall(hh, B64);
    low := Mul64(al, bl);
    var t: u64 := HiHalf(low);
    low := LoHalf(low);
    ghost var l0 := low;
    t := AddExact(t, Mul64(ah, bl));
    ghost var t1 := t;
    low := AddExact(low, LoHalf(t) * B32);
    high := HiHalf(t);
    t := HiHalf(low);
    low := LoHalf(low);
    t := AddExact(t, Mul64(bh, al));
    ghost var t2 := t;
    low := AddExact(low, LoHalf(t) * B32);
    Carries(ll, hl, lh, hh, l0, t1, t2, high, low, a * b);
    high := AddExact(high, HiHalf(t));
    high := AddExact(high, Mul64(ah, bh));
  }

  /** An addition of the source that never carries out of its word. */
  method AddExact(x: u64, y: u64) returns (r: u64)
    requires x + y < B64
    ensures r == Add64(x, y) == x + y
  {
    ModSmall(x + y, B64);
    r := Add64(x, y);
  }

  lemma Carries(ll: nat, hl: nat, lh: nat, hh: nat, l0: nat, t1: u64, t2: u64, high: nat, low: u64, product: nat)
    requires l0 == ll % B32 && t1 == ll / B32 + hl && high == t1 / B32
    requires t2 == t1 % B32 + lh && low == l0 + t2 % B32 * B32
    requires product == hh * B64 + (hl + lh) * B32 + ll && product < B64 * B64
    ensures (high + t2 / B32 + hh) * B64 + low == product
    ensures high + t2 / B32 + hh < B64
  {
    DivMod(ll, B32); DivMod(t1, B32); DivMod(t2, B32);
  }

  // ----- signed 128-bit product

  /** The word with the same bits. */
  function ToU64(x: i64): u64 { x % B64 }
  /** Two's complement reading of a word. */
  function ToI64(x: u64): i64 { if x >= B63 then x - B64 else x }

  lemma Residue(x: int, d: int) returns (k: int)
    requires d > 0
    ensures x % d == x + k * d && 0 <= x % d < d
  {
    k := -(x / d);
    assert x == x / d * d + x % d;
    assert (-(x / d)) * d == -(x / d * d);
  }

  /** The high word is only right modulo 2^64, which is all the result keeps. */
  lemma HighWord(rh: u64, xh: i64, xl: u64, yh: i64, yl: u64) returns (k: int)
    ensures ToI64(Add64(rh, Add64(Mul64(ToU64(xh), yl), Mul64(xl, ToU64(yh)))))
            == rh + xh * yl + xl * yh + k * B64
  {
    var k1 := Residue(xh, B64);
    var k2 := Residue(yh, B64);
    var m1, m2 := ToU64(xh) * yl, xl * ToU64(yh);
    assert m1 == xh * yl + (k1 * yl) * B64;
    assert m2 == xl * yh + (k2 * xl) * B64 by { assert xl * (yh + k2 * B64) == xl * yh + (k2 * xl) * B64; }
    var k3 := Residue(m1, B64);
    var k4 := Residue(m2, B64);
    var s := Add64(Mul64(ToU64(xh), yl), Mul64(xl, ToU64(yh)));
    var k5 := Residue(m1 % B64 + m2 % B64, B64);
    var k6 := Residue(rh + s, B64);
    var h := ToI64(Add64(rh, s));
    var k7 := if h == Add64(rh, s) then 0 else -1;
    k := k1 * yl + k2 * xl + k3 + k4 + k5 + k6 + k7;
  }

  lemma SignedProduct(xh: int, xl: nat, yh: int, yl: nat, rh: nat, rl: nat, h: int, k: int)
    requires rh * B64 + rl == xl * yl
    requires h == rh + xh * yl + xl * yh + k * B64
    ensures (h * B64 + rl) == (xh * B64 + xl) * (yh * B64 + yl) + (k - xh * yh) * B128
  {
    assert (xh * B64 + xl) * (yh * B64 + yl)
        == (xh * yh) * B128 + (xh * yl + xl * yh) * B64 + xl * yl by {
      assert (xh * B64) * (yh * B64) == (xh * yh) * B128;
      assert (xh * B64) * yl == (xh * yl) * B64;
      assert xl * (yh * B64) == (xl * yh) * B64;
    }
  }

  /** `___multi3`: the signed product, reduced into the signed 128-bit range. */
  method MulTi3(a: i128, b: i128) returns (r: i128)
    ensures (r as int - a as int * b as int) % B128 == 0
  {
    var xh: i64, xl: u64 := Words128(a as int);
    var yh: i64, yl: u64 := Words128(b as int);
    var low, rh := MulDdi3(xl, yl);
    ghost var k := HighWord(rh, xh, xl, yh, yl);
    var high := ToI64(Add64(rh, Add64(Mul64(ToU64(xh), yl), Mul64(xl, ToU64(yh)))));
    SignedProduct(xh, xl, yh, yl, rh, low, high, k);
    Congruent(high * B64 + low, a as int, b as int, xh * B64 + xl, yh * B64 + yl, k - xh * yh);
    r := (high * B64 + low) as i128;
  }

  lemma Congruent(r: int, a: int, b: int, x: int, y: int, k: int)
    requires a == x && b == y && r == x * y + k * B128
    ensures (r - a * b) % B128 == 0
  {
    ModShift(0, B128, k);
  }

  /** The two words of a signed 128-bit value. */
  method Words128(a: int) returns (high: i64, low: u64)
    requires -B127 <= a < B127
    ensures a == high * B64 + low
  {
    high, low := a / B64, a % B64;
  }

  // ----- Grisu's product

  /** `multiply`: the 64 most significant bits of the product, rounded half up. */
  method MultiplyFrac(a: u64, b: u64) returns (f: u64)
    ensures f == (a * b + B63) / B64
  {
    var al: nat, ah: nat, bl: nat, bh: nat := LoHalf(a), HiHalf(a), LoHalf(b), HiHalf(b);
    HalfProductFits(al, bl); HalfProductFits(ah, bl); HalfProductFits(bh, al); HalfProductFits(ah, bh);
    FourProducts(ah, al, bh, bl);
    ModSmall(al * bl, B64); ModSmall(ah * bl, B64); ModSmall(bh * al, B64); ModSmall(ah * bh, B64);
    var ahbl, albh, albl, ahbh := Mul64(ah, bl), Mul64(bh, al), Mul64(al, bl), Mul64(ah, bh);
    var tmp := AddExact(LoHalf(ahbl), LoHalf(albh));
    tmp := AddExact(tmp, HiHalf(albl));
    tmp := AddExact(tmp, B31);
    RoundedHigh(ahbl, albh, albl, ahbh, tmp, a * b);
    f := AddExact(ahbh, HiHalf(ahbl));
    f := AddExact(f, HiHalf(albh));
    f := AddExact(f, HiHalf(tmp));
  }

  lemma RoundedHigh(ahbl: u64, albh: u64, albl: u64, ahbh: u64, tmp: u64, product: nat)
    requires product == ahbh * B64 + (ahbl + albh) * B32 + albl && product <= (B64 - 1) * (B64 - 1)
    requires tmp == LoHalf(ahbl) + LoHalf(albh) + HiHalf(albl) + B31
    ensures var f := ahbh + HiHalf(ahbl) + HiHalf(albh) + HiHalf(tmp);
      f == (product + B63) / B64 && f < B64
  {
    var f: nat := ahbh + HiHalf(ahbl) + HiHalf(albh) + HiHalf(tmp);
    var rest: nat := LoHalf(tmp) * B32 + LoHalf(albl);
    assert product + B63 == f * B64 + rest;
    DivUnique(product + B63, B64, f, rest);
  }
}
