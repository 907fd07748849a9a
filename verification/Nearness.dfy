/** From the scaled integers that digits are generated with back to the numbers they stand
    for: what is nearest and shortest there is nearly so here. */
module Nearness {
  import opened Words
  import opened Decimal
  import opened RealPowers
  import Grisu
  import GrisuPowers

  ghost predicate NoFarther(a: real, b: real, w: real, eps: real) { RAbs(a - w) <= RAbs(b - w) + eps }

  /** x * 10^kappa * 2^e. */
  ghost predicate IsScaled(x: int, kappa: int, e: nat, u: real, y: real) {
    Product(x as real, P10(kappa), u) && Product(u, P2(e), y)
  }

  /** What the generator multiplies by to stay with integers. */
  function Factor(kappa: int): (s: real)
    ensures s > 0.0
  {
    if kappa >= 0 then 1.0 else Pow10(-kappa) as real
  }

  /** An integer n is y times the factor. */
  ghost predicate Stands(y: real, kappa: int, n: nat) { Product(y, Factor(kappa), n as real) }

  lemma ScaledOf(x: nat, kappa: int, e: nat) returns (u: real, y: real, n: nat)
    ensures IsScaled(x, kappa, e, u, y) && n == x * Grisu.Unit(kappa, e) && Stands(y, kappa, n)
  {
    P2OfNat(e);
    n := x * Grisu.Unit(kappa, e);
    if kappa >= 0 {
      P10OfNat(kappa);
      u, y := WholeUnits(x, Pow10(kappa), Pow2(e));
    } else {
      GrisuPowers.Inverse10(kappa, Pow10(-kappa));
      u, y := PartUnits(x, Pow10(-kappa), Pow2(e), P10(kappa));
    }
  }

  lemma WholeUnits(x: nat, a: nat, b: nat) returns (u: real, y: real)
    ensures Product(x as real, a as real, u) && Product(u, b as real, y) && Product(y, 1.0, (x * (a * b)) as real)
  {
    u := (x * a) as real;
    y := (x * a * b) as real;
    assert x * (a * b) == x * a * b;
  }

  lemma PartUnits(x: nat, a: nat, b: nat, t: real) returns (u: real, y: real)
    requires Product(t, a as real, 1.0)
    ensures Product(x as real, t, u) && Product(u, b as real, y) && Product(y, a as real, (x * b) as real)
  {
    u := x as real * t;
    y := u * b as real;
    assert (x * b) as real == x as real * b as real;
    assert y * a as real == x as real * b as real * (t * a as real);
  }

  lemma ScaleReal(z: nat, kappa: int)
    ensures Product(z as real, Factor(kappa), Grisu.Scale(z, kappa) as real)
  {
    if kappa < 0 { assert (z * Pow10(-kappa)) as real == z as real * Pow10(-kappa) as real; }
  }

  lemma SameOrder(a: real, b: real, s: real, x: int, y: int)
    requires s > 0.0 && Product(a, s, x as real) && Product(b, s, y as real)
    ensures a <= b <==> x <= y
  {
    RMono(a, b, s);
  }

  lemma SameDistance(a: real, b: real, w: real, s: real, x: int, y: int, z: int)
    requires s > 0.0 && Product(a, s, x as real) && Product(b, s, y as real) && Product(w, s, z as real)
    requires Abs(x - z) <= Abs(y - z)
    ensures NoFarther(a, b, w, 0.0)
  {
    Distance(a, w, s, x, z);
    Distance(b, w, s, y, z);
    RMono(RAbs(a - w), RAbs(b - w), s);
  }

  lemma Distance(a: real, w: real, s: real, x: int, z: int)
    requires s > 0.0 && Product(a, s, x as real) && Product(w, s, z as real)
    ensures RAbs(a - w) * s == Abs(x - z) as real
  {
    assert (a - w) * s == a * s - w * s;
    RMono(a, w, s);
    assert (w - a) * s == w * s - a * s;
  }

  /** A decimal of the same exponent in the interval is no nearer to w. */
  lemma NearestScaled(kappa: int, unit: nat, v: nat, x: nat, lo: nat, w: nat, hi: nat, n: nat, m: nat, yn: real,
      ym: real)
    requires Grisu.BestOf(v, unit, Grisu.Scale(lo, kappa), Grisu.Scale(w, kappa), Grisu.Scale(hi, kappa))
    requires n == v * unit && m == x * unit && Stands(yn, kappa, n) && Stands(ym, kappa, m)
    requires lo as real <= ym <= hi as real
    ensures NoFarther(yn, ym, w as real, 0.0)
  {
    ScaleReal(lo, kappa);
    ScaleReal(w, kappa);
    ScaleReal(hi, kappa);
    var s := Factor(kappa);
    SameOrder(lo as real, ym, s, Grisu.Scale(lo, kappa), m);
    SameOrder(ym, hi as real, s, m, Grisu.Scale(hi, kappa));
    FromBest(v, x, unit, Grisu.Scale(lo, kappa), Grisu.Scale(w, kappa), Grisu.Scale(hi, kappa), n, m);
    SameDistance(yn, ym, w as real, s, n, m, Grisu.Scale(w, kappa));
  }

  lemma FromBest(v: nat, x: nat, unit: nat, lo: nat, w: nat, hi: nat, n: nat, m: nat)
    requires Grisu.BestOf(v, unit, lo, w, hi) && n == v * unit && m == x * unit && lo <= m <= hi
    ensures Abs(n - w) <= Abs(m - w)
  {
  }

  /** A decimal of the next exponent is not in the interval. */
  lemma NoneScaled(kappa: int, unit: nat, v: nat, x: nat, lo: nat, w: nat, hi: nat, m: nat, y: real)
    requires Grisu.BestOf(v, unit, Grisu.Scale(lo, kappa), Grisu.Scale(w, kappa), Grisu.Scale(hi, kappa))
    requires m == 10 * x * unit && Stands(y, kappa, m)
    ensures !(lo as real < y <= hi as real)
  {
    ScaleReal(lo, kappa);
    ScaleReal(hi, kappa);
    var s := Factor(kappa);
    SameOrder(y, lo as real, s, m, Grisu.Scale(lo, kappa));
    SameOrder(y, hi as real, s, m, Grisu.Scale(hi, kappa));
    NoneOfBest(v, x, unit, Grisu.Scale(lo, kappa), Grisu.Scale(w, kappa), Grisu.Scale(hi, kappa), m);
  }

  lemma NoneOfBest(v: nat, x: nat, unit: nat, lo: nat, w: nat, hi: nat, m: nat)
    requires Grisu.BestOf(v, unit, lo, w, hi) && m == 10 * x * unit
    ensures !(lo < m <= hi)
  {
    assert x * (10 * unit) == m;
  }

  // ----- back to the numbers

  /** A significand z, scaled by f * 2^q ~ t and rounded to r: in units of c = 2^64 * s * p,
      r is as far from z * s * t as the rounding and the error of f allow. */
  lemma RoundingError(z: nat, f: nat, r: nat, s: real, p: real, t: real, c: real, d: real)
    requires z < B64 && r * B64 <= z * f + B63 < r * B64 + B64 && s > 0.0 && p > 0.0
    requires GrisuPowers.WithinHalf(f as real, p, t) && Product(s, p, c) && Product(z as real, s, d)
    ensures RAbs(r as real * (B64 as real * c) - d * t) <= B64 as real * c
  {
    var b, b64 := B63 as real, B64 as real;
    var zf := Rounded(z, f, r);
    var rr := r as real * b64;
    var diff, e := Spread(rr - zf, b, c, s * p);
    var y, dt := HalfOff(f as real * p, p, t, d, z as real, s, c, b);
    Exchange(z as real, f as real, s, p);
    var x, bound := Moved(r as real, b64, rr, b, c, e);
    Distribute(rr, zf, c);
    Sum(x, zf * c, diff, y, dt, e, bound);
  }

  lemma Rounded(z: nat, f: nat, r: nat) returns (zf: real)
    requires r * B64 <= z * f + B63 < r * B64 + B64
    ensures zf == z as real * f as real && -(B63 as real) <= r as real * B64 as real - zf <= B63 as real
  {
    zf := (z * f) as real;
    assert (r * B64) as real == r as real * B64 as real;
    assert zf == z as real * f as real;
  }

  lemma Moved(r: real, b64: real, rr: real, b: real, c: real, e: real) returns (x: real, bound: real)
    requires rr == r * b64 && b64 == 2.0 * b && Product(b, c, e)
    ensures x == rr * c && bound == b64 * c && r * (b64 * c) == x && bound == 2.0 * e
  {
    x, bound := rr * c, b64 * c;
  }

  /** diff is x - y0, where y0 is y by another name. */
  lemma Sum(x: real, y0: real, diff: real, y: real, dt: real, e: real, bound: real)
    requires diff == x - y0 && y0 == y && bound == 2.0 * e && -e <= diff <= e && -e <= y - dt <= e
    ensures RAbs(x - dt) <= bound
  {
    SumOfTwo(x, y, dt, e);
  }

  lemma Doubled(b: real, b64: real, c: real)
    requires b64 == 2.0 * b
    ensures b64 * c == 2.0 * (b * c)
  {
  }

  lemma SumOfTwo(x: real, y: real, z: real, b: real)
    requires -b <= x - y <= b && -b <= y - z <= b
    ensures RAbs(x - z) <= 2.0 * b
  {
  }

  /** The same with all products named. */
  lemma ScaledClose(z: nat, f: nat, r: nat, s: real, p: real, t: real, c0: real, c: real, d: real, dt: real)
    requires z < B64 && r * B64 <= z * f + B63 < r * B64 + B64 && s > 0.0 && p > 0.0
    requires GrisuPowers.WithinHalf(f as real, p, t) && Product(s, p, c0) && Product(z as real, s, d)
    requires Product(B64 as real, c0, c) && Product(d, t, dt)
    ensures Close(r, c, dt)
  {
    RoundingError(z, f, r, s, p, t, c0, d);
  }

  lemma Spread(x: real, b: real, c: real, sp: real) returns (y: real, e: real)
    requires -b <= x <= b && c == sp && sp > 0.0
    ensures y == x * c && Product(b, c, e) && -e <= y <= e
  {
    y, e := x * c, b * c;
    RMono(x, b, c);
    RMono(-b, x, c);
  }

  lemma Exchange(z: real, f: real, s: real, p: real)
    ensures z * f * (s * p) == z * s * (f * p)
  {
  }

  lemma HalfOff(g: real, p: real, t: real, d: real, z: real, s: real, c: real, b: real) returns (y: real, dt: real)
    requires 2.0 * g - p <= 2.0 * t <= 2.0 * g + p && d == z * s && c == s * p && 0.0 <= z <= 2.0 * b && s > 0.0
    requires p > 0.0
    ensures y == d * g && dt == d * t && -(b * c) <= y - dt <= b * c
  {
    y, dt := d * g, d * t;
    var h := p / 2.0;
    assert -h <= g - t <= h;
    assert d >= 0.0;
    if d > 0.0 {
      RMono(g - t, h, d);
      RMono(-h, g - t, d);
    }
    assert (g - t) * d == d * g - d * t;
    assert h * d <= b * c by {
      assert d * p == z * c;
      RMono(z, 2.0 * b, c);
      assert h * d == (d * p) / 2.0;
    }
  }

  /** An integer r, in units of c, is within one of z. */
  ghost predicate Close(r: int, c: real, z: real) { RAbs(r as real * c - z) <= c }

  /** A number with the midpoints around it and the slack, each also times t; c is what one
      unit of the scaled integers stands for. */
  datatype Target = Target(c: real, t: real, low: real, mid: real, high: real, slack: real,
                           lowT: real, midT: real, highT: real, slackT: real)

  /** The scaled target and bounds stand for these numbers, and the slack outweighs the errors. */
  ghost predicate Frame(lo: int, w: int, hi: int, g: Target) {
    && g.c > 0.0 && g.t > 0.0 && 2.0 * g.c < g.slackT
    && Product(g.low, g.t, g.lowT) && Product(g.mid, g.t, g.midT) && Product(g.high, g.t, g.highT)
    && Product(g.slack, g.t, g.slackT)
    && Close(lo - 1, g.c, g.lowT) && Close(w, g.c, g.midT) && Close(hi + 1, g.c, g.highT)
  }

  /** A decimal x, its scaled value y, and the integer m that stands for it. */
  ghost predicate StandsFor(kappa: int, m: nat, y: real, u: real, x: real, g: Target) {
    Stands(y, kappa, m) && Product(y, g.c, u) && Product(x, g.t, u)
  }

  ghost predicate WellInside(x: real, g: Target) { g.low + g.slack <= x <= g.high - g.slack }

  /** What is nearest in units of c is nearest up to the slack. */
  lemma NearestBack(kappa: int, unit: nat, v: nat, x: nat, lo: nat, w: nat, hi: nat, n: nat, m: nat, yv: real, yx: real,
      uv: real, ux: real, dv: real, dx: real, g: Target)
    requires Grisu.BestOf(v, unit, Grisu.Scale(lo, kappa), Grisu.Scale(w, kappa), Grisu.Scale(hi, kappa))
    requires n == v * unit && m == x * unit && StandsFor(kappa, n, yv, uv, dv, g) && StandsFor(kappa, m, yx, ux, dx, g)
    requires Frame(lo, w, hi, g) && WellInside(dx, g)
    ensures NoFarther(dv, dx, g.mid, g.slack)
  {
    InsideScaled(lo, hi, g.c, g.t, dx, g.low, g.high, g.slack, yx, ux, g.lowT, g.highT, g.slackT);
    NearestScaled(kappa, unit, v, x, lo, w, hi, n, m, yv, yx);
    ToNumbers(lo, w, hi, yv, yx, uv, ux, dv, dx, g);
  }

  lemma ToNumbers(lo: int, w: int, hi: int, yv: real, yx: real, uv: real, ux: real, dv: real, dx: real, g: Target)
    requires Frame(lo, w, hi, g) && NoFarther(yv, yx, w as real, 0.0)
    requires Product(yv, g.c, uv) && Product(dv, g.t, uv) && Product(yx, g.c, ux) && Product(dx, g.t, ux)
    ensures NoFarther(dv, dx, g.mid, g.slack)
  {
    var wc := CloseBy(w, g.c, g.midT);
    InUnits(yv, yx, w as real, g.c, uv, ux, wc, g.midT, g.slackT);
    Unscaled(dv, dx, g.mid, g.t, g.slack, uv, ux, g.midT, g.slackT);
  }

  /** No decimal of the next exponent is well inside. */
  lemma NoneBack(kappa: int, unit: nat, v: nat, x: nat, lo: nat, w: nat, hi: nat, m: nat, y: real, u: real, dx: real,
      g: Target)
    requires Grisu.BestOf(v, unit, Grisu.Scale(lo, kappa), Grisu.Scale(w, kappa), Grisu.Scale(hi, kappa))
    requires m == 10 * x * unit && StandsFor(kappa, m, y, u, dx, g) && Frame(lo, w, hi, g)
    ensures !WellInside(dx, g)
  {
    NoneScaled(kappa, unit, v, x, lo, w, hi, m, y);
    if WellInside(dx, g) {
      InsideScaled(lo, hi, g.c, g.t, dx, g.low, g.high, g.slack, y, u, g.lowT, g.highT, g.slackT);
    }
  }

  lemma CloseBy(r: int, c: real, z: real) returns (rc: real)
    requires Close(r, c, z)
    ensures Product(r as real, c, rc) && RAbs(rc - z) <= c
  {
    rc := r as real * c;
  }

  lemma InUnits(yv: real, yx: real, w: real, c: real, a: real, b: real, wc: real, z: real, e: real)
    requires NoFarther(yv, yx, w, 0.0) && Product(yv, c, a) && Product(yx, c, b) && Product(w, c, wc)
    requires RAbs(wc - z) <= c && c > 0.0 && 2.0 * c < e
    ensures RAbs(a - z) <= RAbs(b - z) + e
  {
    Measured(yv, w, c, a, wc);
    Measured(yx, w, c, b, wc);
    RMono(RAbs(yv - w), RAbs(yx - w), c);
    Triangle(a, b, wc, z, c, e);
  }

  lemma Unscaled(dv: real, dx: real, d: real, t: real, eps: real, a: real, b: real, z: real, e: real)
    requires Product(dv, t, a) && Product(dx, t, b) && Product(d, t, z) && Product(eps, t, e) && t > 0.0
    requires RAbs(a - z) <= RAbs(b - z) + e
    ensures NoFarther(dv, dx, d, eps)
  {
    Measured(dv, d, t, a, z);
    Measured(dx, d, t, b, z);
    Divide(RAbs(dv - d), RAbs(dx - d), eps, t);
  }

  lemma Triangle(x: real, y: real, w: real, z: real, c: real, e: real)
    requires RAbs(x - w) <= RAbs(y - w) && RAbs(w - z) <= c && 2.0 * c < e
    ensures RAbs(x - z) <= RAbs(y - z) + e
  {
  }

  lemma Divide(x: real, y: real, eps: real, t: real)
    requires t > 0.0 && x * t <= y * t + eps * t
    ensures x <= y + eps
  {
    Distribute(y, eps, t);
    RMono(x, y + eps, t);
  }

  lemma Distribute(x: real, y: real, t: real)
    ensures (x + y) * t == x * t + y * t && (x - y) * t == x * t - y * t
  {
  }

  lemma Measured(y: real, w: real, c: real, a: real, b: real)
    requires Product(y, c, a) && Product(w, c, b) && c > 0.0
    ensures RAbs(y - w) * c == RAbs(a - b)
  {
    Distribute(y, w, c);
    Distribute(w, y, c);
    RMono(y, w, c);
  }

  /** A decimal well inside is inside the scaled and tightened bounds. */
  lemma InsideScaled(lo: int, hi: int, c: real, t: real, dx: real, l: real, h: real, eps: real, y: real, u: real,
      lt: real, ht: real, et: real)
    requires c > 0.0 && t > 0.0 && 2.0 * c < et && Close(lo - 1, c, lt) && Close(hi + 1, c, ht)
    requires Product(l, t, lt) && Product(h, t, ht) && Product(eps, t, et) && Product(dx, t, u) && Product(y, c, u)
    requires l + eps <= dx <= h - eps
    ensures lo as real < y <= hi as real
  {
    AboveLow(lo, c, t, dx, l, eps, y, u, lt, et);
    BelowHigh(hi, c, t, dx, h, eps, y, u, ht, et);
  }

  lemma AboveLow(lo: int, c: real, t: real, dx: real, l: real, eps: real, y: real, u: real, lt: real, et: real)
    requires c > 0.0 && t > 0.0 && 2.0 * c < et && Close(lo - 1, c, lt) && l + eps <= dx
    requires Product(l, t, lt) && Product(eps, t, et) && Product(dx, t, u) && Product(y, c, u)
    ensures lo as real < y
  {
    RMono(l + eps, dx, t);
    Distribute(l, eps, t);
    Distribute((lo - 1) as real, 1.0, c);
    RMono(lo as real, y, c);
  }

  lemma BelowHigh(hi: int, c: real, t: real, dx: real, h: real, eps: real, y: real, u: real, ht: real, et: real)
    requires c > 0.0 && t > 0.0 && 2.0 * c < et && Close(hi + 1, c, ht) && dx <= h - eps
    requires Product(h, t, ht) && Product(eps, t, et) && Product(dx, t, u) && Product(y, c, u)
    ensures y <= hi as real
  {
    RMono(dx, h - eps, t);
    Distribute(h, eps, t);
    Distribute((hi + 1) as real, 1.0, c);
    RMono(y, hi as real, c);
  }

  /** The scaled value of a decimal is in units of c what the decimal is in units of 1/t. */
  lemma Back(u: real, y: real, pe: real, c: real)
    requires Product(u, pe, y) && Product(pe, c, 1.0)
    ensures Product(y, c, u)
  {
    assert u * pe * c == u * (pe * c);
  }

  lemma Split(x: real, a: real, b: real, ab: real, u: real, xa: real)
    requires Product(a, b, ab) && Product(x, ab, u) && Product(x, a, xa)
    ensures Product(xa, b, u)
  {
    assert x * (a * b) == x * a * b;
  }

  /** Five units of the last place of a 64-bit significand outweigh the errors. */
  lemma FiveUnits(f: nat, s: real, p: real, t: real, c: real)
    requires B63 <= f && GrisuPowers.WithinHalf(f as real, p, t) && s > 0.0 && p > 0.0 && Product(s, p, c)
    ensures 2.0 * (B64 as real * c) < 5.0 * s * t
  {
    RMono(B63 as real, f as real, p);
    RMono(3.0, B63 as real, p);
    Outweighs(f as real * p, B63 as real * p, p, t);
    Doubled(B63 as real, B64 as real, p);
    RMono(2.0 * (B64 as real * p), 5.0 * t, s);
    Units(B64 as real, s, p, t);
  }

  lemma Outweighs(fp: real, bp: real, p: real, t: real)
    requires 2.0 * fp - p <= 2.0 * t && 3.0 * p <= bp <= fp && p > 0.0
    ensures 4.0 * bp < 5.0 * t
  {
  }

  lemma Units(b: real, s: real, p: real, t: real)
    ensures 2.0 * (b * p) * s == 2.0 * (b * (s * p)) && 5.0 * t * s == 5.0 * s * t
  {
  }
}
