/** Powers of two and ten with any integer exponent, as reals. */
module RealPowers {
  import opened Words
  import opened Decimal

  function P2Rec(z: int): (r: real)
    ensures r > 0.0
    decreases if z < 0 then -z else z
  {
    if z == 0 then 1.0 else if z > 0 then 2.0 * P2Rec(z - 1) else P2Rec(z + 1) / 2.0
  }

  function P10Rec(z: int): (r: real)
    ensures r > 0.0
    decreases if z < 0 then -z else z
  {
    if z == 0 then 1.0 else if z > 0 then 10.0 * P10Rec(z - 1) else P10Rec(z + 1) / 10.0
  }

  function P2(z: int): (r: real)
    ensures r > 0.0
  {
    P2Rec(z)
  }

  function P10(z: int): (r: real)
    ensures r > 0.0
  {
    P10Rec(z)
  }

  // A product by name: lemmas pass it on without reopening the arithmetic.
  ghost predicate Product(x: real, y: real, z: real) { x * y == z }

  function RAbs(x: real): real { if x < 0.0 then -x else x }

  lemma P2Next(z: int)
    ensures P2(z + 1) == 2.0 * P2(z)
  {
  }

  lemma P10Next(z: int)
    ensures P10(z + 1) == 10.0 * P10(z)
  {
  }

  lemma {:induction false} P2OfNat(n: nat)
    ensures P2(n) == Pow2(n) as real
  {
    if n > 0 {
      P2OfNat(n - 1);
      P2Next(n - 1);
      assert Pow2(n) == 2 * Pow2(n - 1);
    }
  }

  lemma {:induction false} P10OfNat(n: nat)
    ensures P10(n) == Pow10(n) as real
  {
    if n > 0 {
      P10OfNat(n - 1);
      P10Next(n - 1);
      assert Pow10(n) == 10 * Pow10(n - 1);
    }
  }

  lemma {:induction false} P2Add(a: int, b: int)
    ensures P2(a + b) == P2(a) * P2(b)
    decreases if b < 0 then -b else b
  {
    if b > 0 {
      P2Add(a, b - 1);
      P2AddUp(a, b);
    } else if b < 0 {
      P2Add(a, b + 1);
      P2AddDown(a, b);
    } else {
      MulOne(P2(a), P2(b));
    }
  }

  lemma P2AddUp(a: int, b: int)
    requires P2(a + (b - 1)) == P2(a) * P2(b - 1)
    ensures P2(a + b) == P2(a) * P2(b)
  {
    P2Next(a + b - 1); P2Next(b - 1);
    StepUp(P2(a), P2(b - 1), P2(b), P2(a + (b - 1)), P2(a + b), 2.0);
  }

  lemma P2AddDown(a: int, b: int)
    requires P2(a + (b + 1)) == P2(a) * P2(b + 1)
    ensures P2(a + b) == P2(a) * P2(b)
  {
    P2Next(a + b); P2Next(b);
    StepDown(P2(a), P2(b), P2(b + 1), P2(a + b), P2(a + (b + 1)), 2.0);
  }

  lemma {:induction false} P10Add(a: int, b: int)
    ensures P10(a + b) == P10(a) * P10(b)
    decreases if b < 0 then -b else b
  {
    if b > 0 {
      P10Add(a, b - 1);
      P10AddUp(a, b);
    } else if b < 0 {
      P10Add(a, b + 1);
      P10AddDown(a, b);
    } else {
      MulOne(P10(a), P10(b));
    }
  }

  lemma P10AddUp(a: int, b: int)
    requires P10(a + (b - 1)) == P10(a) * P10(b - 1)
    ensures P10(a + b) == P10(a) * P10(b)
  {
    P10Next(a + b - 1); P10Next(b - 1);
    StepUp(P10(a), P10(b - 1), P10(b), P10(a + (b - 1)), P10(a + b), 10.0);
  }

  lemma P10AddDown(a: int, b: int)
    requires P10(a + (b + 1)) == P10(a) * P10(b + 1)
    ensures P10(a + b) == P10(a) * P10(b)
  {
    P10Next(a + b); P10Next(b);
    StepDown(P10(a), P10(b), P10(b + 1), P10(a + b), P10(a + (b + 1)), 10.0);
  }

  lemma MulOne(x: real, y: real)
    requires y == 1.0
    ensures x * y == x
  {
  }

  lemma StepUp(x: real, y: real, y': real, p: real, p': real, c: real)
    requires p == x * y && y' == c * y && p' == c * p
    ensures p' == x * y'
  {
  }

  lemma StepDown(x: real, y: real, y': real, p: real, p': real, c: real)
    requires p' == x * y' && y' == c * y && p' == c * p && c > 0.0
    ensures p == x * y
  {
    assert c * (p - x * y) == 0.0;
  }

  /** Multiplication by a positive number keeps and reflects the order. */
  lemma RMono(x: real, y: real, c: real)
    requires c > 0.0
    ensures x < y <==> x * c < y * c
    ensures x <= y <==> x * c <= y * c
  {
    if x < y { assert (y - x) * c > 0.0; }
    if y < x { assert (x - y) * c > 0.0; }
  }
}
