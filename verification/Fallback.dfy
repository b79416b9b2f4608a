/** fallback_format as a whole: from significand and exponent to digits (src/3rdparty/fmt/format-inl.h). */
module Fallback {
  import opened Powers
  import opened Bigits
  import opened BigintModel
  import opened Decimal
  import opened FreeFormat
  import opened Dragon4

  /** A positive binary floating-point value f * 2^e, and whether its predecessor is closer than its successor. */
  datatype Binary = Binary(f: nat, e: int, closer: bool) {
    predicate Valid() {
      0 < f < 0x20_0000_0000_0000
    }

    function Shift(): nat {
      if closer then 2 else 1
    }

    function Significand(): nat {
      f * Pow(2, Shift())
    }

    predicate Even() {
      f % 2 == 0
    }
  }

  function Numerator(v: Binary, x: int): nat {
    if v.e >= 0 then v.Significand() * Pow(2, v.e)
    else if x < 0 then Pow(10, -x) * v.Significand()
    else v.Significand()
  }

  function Denominator(v: Binary, x: int): nat
    requires v.e >= 0 ==> x >= 0
  {
    if v.e >= 0 then Pow(10, x) * 2
    else if x < 0 then Pow(2, v.Shift() - v.e)
    else Pow(10, x) * Pow(2, v.Shift() - v.e)
  }

  function Lower(v: Binary, x: int): nat {
    if v.e >= 0 then Pow(2, v.e) else if x < 0 then Pow(10, -x) else 1
  }

  function Upper(v: Binary, x: int): nat {
    if v.closer then 2 * Lower(v, x) else Lower(v, x)
  }

  /** The bigit exponents at which numerator and lower, and the denominator, come to be stored. */
  function NumeratorExp(v: Binary, x: int): nat {
    if v.e >= 0 then v.e / 32 else if x < 0 then -x / 32 else 0
  }

  function DenominatorExp(v: Binary, x: int): nat
    requires v.e >= 0 ==> x >= 0
  {
    if v.e >= 0 then x / 32 else if x < 0 then (v.Shift() - v.e) / 32 else x / 32 + (v.Shift() - v.e) / 32
  }

  // ------------------------------------------------------------------ what the set-up stands for

  function PowOrOne(base: nat, n: int): nat {
    if n >= 0 then Pow(base, n) else 1
  }

  /**
    Numerator over denominator is f * 2^e / 10^x, except that for e >= 0 with a closer predecessor the denominator
    is shifted once where the significand is shifted twice, and the ratio is twice that.
    */
  lemma RatioIsValue(v: Binary, x: int)
    requires v.Valid() && (v.e >= 0 ==> x >= 0)
    ensures v.e < 0 || !v.closer <==>
            Numerator(v, x) * (PowOrOne(2, -v.e) * PowOrOne(10, x)) ==
            Denominator(v, x) * (v.f * (PowOrOne(2, v.e) * PowOrOne(10, -x)))
  {
    assert Pow(2, 0) == 1 && Pow(2, 1) == 2 && Pow(2, 2) == 4 && Pow(10, 0) == 1;
    var s := Pow(2, v.Shift());
    if v.e >= 0 {
      var p, t := Pow(2, v.e), Pow(10, x);
      PowPositive(2, v.e);
      PowPositive(10, x);
      LargeRatio(v.f, s, p, t);
    } else {
      PowAdd(2, v.Shift(), -v.e);
      if x < 0 {
        SmallRatio(v.f, s, Pow(2, -v.e), Pow(10, -x));
      } else {
        MediumRatio(v.f, s, Pow(2, -v.e), Pow(10, x));
      }
    }
  }

  lemma LargeRatio(f: nat, s: nat, p: nat, t: nat)
    requires f > 0 && p > 0 && t > 0
    ensures s == 2 <==> f * s * p * (1 * t) == t * 2 * (f * (p * 1))
  {
    var a := f * p * t;
    assert f * s * p * t == s * a by { MulCommutes(f, s); MulAssoc(s, f, p); MulAssoc(s, f * p, t); }
    assert t * 2 * (f * p) == 2 * a by { MulCommutes(t, 2); MulAssoc(2, t, f * p); MulCommutes(t, f * p); }
    MulGrows(f, p);
    MulGrows(f * p, t);
    MulCancel(s, 2, a);
  }

  lemma SmallRatio(f: nat, s: nat, p: nat, t: nat)
    ensures t * (f * s) * (p * 1) == s * p * (f * (1 * t))
  {
    var a := f * t;
    assert t * (f * s) == a * s by { MulCommutes(t, f * s); MulAssoc(f, s, t); MulCommutes(s, t); MulAssoc(f, t, s); }
    assert a * s * p == s * p * a by { MulAssoc(a, s, p); MulCommutes(a, s * p); }
  }

  lemma MediumRatio(f: nat, s: nat, p: nat, t: nat)
    ensures f * s * (p * t) == t * (s * p) * (f * (1 * 1))
  {
    assert f * s * (p * t) == f * (s * (p * t)) by { MulAssoc(f, s, p * t); }
    assert s * (p * t) == t * (s * p) by { MulAssoc(s, p, t); MulCommutes(s * p, t); }
    MulCommutes(f, t * (s * p));
  }

  /** The value f * 2^e in units of 10^p is ValueTop / ValueBottom. */
  function ValueTop(v: Binary, p: int): nat {
    v.f * (PowOrOne(2, v.e) * PowOrOne(10, -p))
  }

  function ValueBottom(v: Binary, p: int): (r: nat)
    ensures r > 0
  {
    PowOrOnePositive(2, -v.e);
    PowOrOnePositive(10, p);
    MulGrows(PowOrOne(2, -v.e), PowOrOne(10, p));
    PowOrOne(2, -v.e) * PowOrOne(10, p)
  }

  lemma PowOrOnePositive(base: nat, n: int)
    requires base > 0
    ensures PowOrOne(base, n) > 0
  {
    if n >= 0 {
      PowPositive(base, n);
    }
  }

  /** ... and that is numerator / denominator, once it has been scaled by the places in between. */
  lemma RatioAtPlace(v: Binary, x: int, k: nat)
    requires v.Valid() && (v.e >= 0 ==> x >= 0) && (v.e < 0 || !v.closer)
    ensures Numerator(v, x) * Pow(10, k) * ValueBottom(v, x - k) == ValueTop(v, x - k) * Denominator(v, x)
  {
    RatioIsValue(v, x);
    PlacesBetween(x, k);
    PowOrOnePositive(10, -x);
    ChangePlace(Numerator(v, x), PowOrOne(2, -v.e), PowOrOne(10, x), Denominator(v, x), v.f, PowOrOne(2, v.e),
                PowOrOne(10, -x), Pow(10, k), PowOrOne(10, x - k), PowOrOne(10, k - x));
  }

  /** ... and of one place more. */
  lemma RatioOnePlaceUp(v: Binary, x: int)
    requires v.Valid() && (v.e >= 0 ==> x >= 0) && (v.e < 0 || !v.closer)
    ensures Numerator(v, x) * ValueBottom(v, x + 1) == ValueTop(v, x + 1) * (10 * Denominator(v, x))
  {
    RatioIsValue(v, x);
    PlacesBetween(x + 1, 1);
    assert Pow(10, 1) == 10;
    PowOrOnePositive(10, -x);
    var up, down := PowOrOne(10, x + 1), PowOrOne(10, -x - 1);
    assert 10 * PowOrOne(10, x) * down == up * PowOrOne(10, -x);
    OnePlaceUp(Numerator(v, x), PowOrOne(2, -v.e), PowOrOne(10, x), Denominator(v, x), v.f, PowOrOne(2, v.e),
               PowOrOne(10, -x), up, down);
  }

  lemma PowOfZero(base: nat)
    ensures Pow(base, 0) == 1
  {
  }

  lemma PlacesBetween(x: int, k: nat)
    ensures Pow(10, k) * PowOrOne(10, x - k) * PowOrOne(10, -x) == PowOrOne(10, x) * PowOrOne(10, k - x)
  {
    hide Pow;
    PowOfZero(10);
    if x >= k {
      PowAdd(10, k, x - k);
    } else if x >= 0 {
      PowAdd(10, x, k - x);
    } else {
      PowAdd(10, k, -x);
    }
  }

  lemma ChangePlace(n: int, a: int, x: int, d: int, f: int, e: int, y: nat, k: int, p: int, q: int)
    requires n * (a * x) == d * (f * (e * y)) && k * p * y == x * q && y > 0
    ensures n * k * (a * p) == f * (e * q) * d
  {
    var left, right := n * k * (a * p), f * (e * q) * d;
    assert left * y == n * a * (k * p * y) by { Shuffle(n, k, a, p, y); }
    assert n * a * (x * q) == n * (a * x) * q by { MulAssoc(n, a, x * q); MulAssoc(a, x, q); MulAssoc(n, a * x, q); }
    assert d * (f * (e * y)) * q == right * y by { Shuffle2(d, f, e, y, q); }
    MulCancel(left, right, y);
  }

  lemma Shuffle(n: int, k: int, a: int, p: int, y: int)
    ensures n * k * (a * p) * y == n * a * (k * p * y)
  {
    assert k * (a * p) == a * (k * p) by { MulAssoc(k, a, p); MulAssoc(a, k, p); MulCommutes(k, a); }
    MulAssoc(n, k, a * p);
    MulAssoc(n, a, k * p);
    MulAssoc(n * a, k * p, y);
  }

  lemma Shuffle2(d: int, f: int, e: int, y: int, q: int)
    ensures d * (f * (e * y)) * q == f * (e * q) * d * y
  {
    var g := f * e;
    assert f * (e * y) == g * y && f * (e * q) == g * q by { MulAssoc(f, e, y); MulAssoc(f, e, q); }
    MulAssoc(d, g, y);
    MulAssoc(g * q, d, y);
    assert d * g * y * q == d * g * q * y by { MulAssoc(d * g, y, q); MulAssoc(d * g, q, y); MulCommutes(y, q); }
    assert d * g * q == g * q * d by { MulAssoc(d, g, q); MulCommutes(d, g * q); }
    MulAssoc(d * g, q, y);
    MulAssoc(g * q, d, y);
  }

  lemma OnePlaceUp(n: int, a: int, x: nat, d: int, f: int, e: int, y: nat, up: int, down: int)
    requires n * (a * x) == d * (f * (e * y)) && 10 * x * down == up * y && y > 0
    ensures n * (a * up) == f * (e * down) * (10 * d)
  {
    var left, right := n * (a * up), f * (e * down) * (10 * d);
    assert left * y == n * a * (10 * x * down) by { MulAssoc(n, a, up); MulAssoc(n * a, up, y); }
    assert n * a * (10 * x * down) == 10 * (n * (a * x) * down) by { TenOut(n, a, x, down); }
    assert 10 * (d * (f * (e * y)) * down) == right * y by { Shuffle2(d, f, e, y, down); TenIn(f * (e * down), d, y); }
    MulCancel(left, right, y);
  }

  lemma TenOut(n: int, a: int, x: int, z: int)
    ensures n * a * (10 * x * z) == 10 * (n * (a * x) * z)
  {
    MulAssoc(n, a, x);
    MulAssoc(n * a, x, z);
    assert 10 * x * z == 10 * (x * z);
    var g, h := n * a, x * z;
    assert g * (10 * h) == 10 * (g * h);
  }

  lemma TenIn(g: int, d: int, y: int)
    ensures g * (10 * d) * y == 10 * (g * d * y)
  {
    assert g * (10 * d) == 10 * (g * d);
  }

  /** f * 2^e in units of 10^p, rounded to the nearest integer, ties to the even one. */
  function RoundedAt(v: Binary, p: int): nat {
    RoundHalfEven(ValueTop(v, p), ValueBottom(v, p))
  }

  /** What the fixed mode rounds is the value. */
  lemma FixedRoundsTheValue(v: Binary, x: int, k: nat)
    requires v.Valid() && (v.e >= 0 ==> x >= 0) && (v.e < 0 || !v.closer)
    ensures Denominator(v, x) > 0
    ensures RoundHalfEven(Numerator(v, x) * Pow(10, k), Denominator(v, x)) == RoundedAt(v, x - k)
  {
    SetupIsPositive(v, x);
    RatioAtPlace(v, x, k);
    RoundsAlike(Numerator(v, x), Pow(10, k), Denominator(v, x), ValueTop(v, x - k), ValueBottom(v, x - k));
  }

  lemma RoundsAlike(n: nat, k: nat, d: nat, top: nat, bottom: nat)
    requires d > 0 && bottom > 0 && n * k * bottom == top * d
    ensures 0 <= n * k && RoundHalfEven(n * k, d) == RoundHalfEven(top, bottom)
  {
    MulMonotone(0, n, 0, k);
    RoundHalfEvenOfRatio(n * k, d, top, bottom);
  }

  /** ... also when no digit is asked for. */
  lemma NoDigitsRoundsTheValue(v: Binary, x: int)
    requires v.Valid() && (v.e >= 0 ==> x >= 0) && (v.e < 0 || !v.closer)
    ensures Denominator(v, x) > 0
    ensures RoundHalfEven(Numerator(v, x), 10 * Denominator(v, x)) == RoundedAt(v, x + 1)
  {
    SetupIsPositive(v, x);
    RatioOnePlaceUp(v, x);
    RoundHalfEvenOfRatio(Numerator(v, x), 10 * Denominator(v, x), ValueTop(v, x + 1), ValueBottom(v, x + 1));
  }

  /**
    The rounding interval is that of the floating-point format: w * 10^(x - j) lies in it exactly if it is between
    (4 * f - 2) * 2^(e - 2), or (4 * f - 1) * 2^(e - 2) if the predecessor is closer, and (4 * f + 2) * 2^(e - 2),
    both ends belonging to it for an even f.
    */
  lemma InsideIsHalfway(v: Binary, x: int, w: int, j: nat)
    requires v.Valid() && (v.e >= 0 ==> x >= 0) && (v.e < 0 || !v.closer)
    ensures var step, bottom := PowOrOne(2, v.e) * PowOrOne(10, j - x), ValueBottom(v, x - j);
      var low, high := (4 * v.f - if v.closer then 1 else 2) * step, (4 * v.f + 2) * step;
      Inside(w, j, Numerator(v, x), Denominator(v, x), Lower(v, x), Upper(v, x), v.Even()) <==>
      if v.Even() then low <= 4 * w * bottom <= high else low < 4 * w * bottom < high
  {
    SetupIsPositive(v, x);
    RatioAtPlace(v, x, j);
    QuarterGaps(v, x);
    var step := PowOrOne(2, v.e) * PowOrOne(10, j - x);
    IntervalInSteps(v.f, if v.closer then 1 else 2, Lower(v, x), Upper(v, x), Numerator(v, x), Denominator(v, x),
                    Pow(10, j), ValueBottom(v, x - j), step, w);
  }

  lemma QuarterGaps(v: Binary, x: int)
    requires v.Valid()
    ensures 4 * v.f * Lower(v, x) == (if v.closer then 1 else 2) * Numerator(v, x)
    ensures 4 * v.f * Upper(v, x) == 2 * Numerator(v, x)
  {
    GapsReachHalfway(v, x);
    MulAssoc(2, 2 * v.f, Lower(v, x));
    MulAssoc(2, 2 * v.f, Upper(v, x));
  }

  lemma IntervalInSteps(f: nat, c: int, l: int, u: int, n: int, d: nat, p: int, t: nat, s: int, w: int)
    requires f > 0 && d > 0 && t > 0
    requires n * p * t == f * s * d && 4 * f * l == c * n && 4 * f * u == 2 * n
    ensures -(l * p) < w * d - n * p <==> (4 * f - c) * s < 4 * w * t
    ensures -(l * p) <= w * d - n * p <==> (4 * f - c) * s <= 4 * w * t
    ensures w * d - n * p < u * p <==> 4 * w * t < (4 * f + 2) * s
    ensures w * d - n * p <= u * p <==> 4 * w * t <= (4 * f + 2) * s
  {
    GapInSteps(f, l, c, n, d, p, t, s);
    GapInSteps(f, u, 2, n, d, p, t, s);
    OffsetInSteps(f, w, n, d, p, t, s);
    MulGrows(f, t);
    MulGrows(f, d);
    IntervalScales(l * p, u * p, w * d - n * p, 4 * f * t, c * s, 2 * s, 4 * w * t - 4 * f * s, f * d);
    MulDistribute(4 * f, -c, s);
    MulDistribute(4 * f, 2, s);
    assert (-c) * s == -(c * s);
  }

  lemma IntervalScales(a: int, b: int, x: int, k: nat, c: int, d: int, y: int, m: nat)
    requires k > 0 && m > 0 && a * k == c * m && b * k == d * m && x * k == y * m
    ensures -a < x <==> -c < y
    ensures -a <= x <==> -c <= y
    ensures x < b <==> y < d
    ensures x <= b <==> y <= d
  {
    assert (-a) * k == -(a * k) && (-c) * m == -(c * m);
    MulCancel(-a, x, k);
    MulCancel(x, b, k);
    MulCancel(-c, y, m);
    MulCancel(y, d, m);
  }

  lemma GapInSteps(f: int, gap: int, c: int, n: int, d: int, p: int, t: int, s: int)
    requires 4 * f * gap == c * n && n * p * t == f * s * d
    ensures gap * p * (4 * f * t) == c * s * (f * d)
  {
    assert gap * p * (4 * f * t) == 4 * f * gap * (p * t) by {
      MulAssoc(gap, p, 4 * f * t);
      MulAssoc(4 * f, gap, p * t);
      var g := 4 * f;
      assert p * (g * t) == g * (p * t) by { MulAssoc(p, g, t); MulAssoc(g, p, t); MulCommutes(p, g); }
      assert gap * (g * (p * t)) == g * (gap * (p * t)) by {
        MulAssoc(gap, g, p * t); MulAssoc(g, gap, p * t); MulCommutes(gap, g);
      }
    }
    assert c * n * (p * t) == c * (n * p * t) by { MulAssoc(c, n, p * t); MulAssoc(n, p, t); }
    assert c * (f * s * d) == c * s * (f * d) by {
      MulAssoc(c, s, f * d);
      assert f * s * d == s * (f * d) by { MulCommutes(f, s); MulAssoc(s, f, d); }
    }
  }

  lemma OffsetInSteps(f: int, w: int, n: int, d: int, p: int, t: int, s: int)
    requires n * p * t == f * s * d
    ensures (w * d - n * p) * (4 * f * t) == (4 * w * t - 4 * f * s) * (f * d)
  {
    MulDistribute(w * d, -(n * p), 4 * f * t);
    MulDistribute(4 * w * t, -(4 * f * s), f * d);
    assert w * d * (4 * f * t) == 4 * w * t * (f * d) by {
      var a, b := w * t, f * d;
      assert w * d * (f * t) == a * b by {
        MulAssoc(w, d, f * t); MulAssoc(d, f, t); MulCommutes(d, f); MulCommutes(b, t); MulAssoc(w, t, b);
      }
      assert w * d * (4 * f * t) == 4 * (w * d * (f * t)) by { MulAssoc(4, f, t); FourOut(w * d, f * t); }
      assert 4 * w * t * b == 4 * (a * b) by { MulAssoc(4, w, t); MulAssoc(4, a, b); }
    }
    assert n * p * (4 * f * t) == 4 * f * s * (f * d) by {
      var g := n * p;
      assert g * (4 * f * t) == 4 * (f * (g * t)) by {
        MulAssoc(4, f, t);
        FourOut(g, f * t);
        MulAssoc(g, f, t); MulAssoc(f, g, t); MulCommutes(f, g);
      }
      assert f * (f * s * d) == f * s * (f * d) by {
        MulAssoc(f, s, f * d); MulAssoc(f, s, d); MulAssoc(s, f, d); MulAssoc(f, s, d); MulCommutes(f, s);
        assert f * s * d == s * (f * d);
      }
      assert 4 * f * s * (f * d) == 4 * (f * s * (f * d)) by { MulAssoc(4, f, s); MulAssoc(4, f * s, f * d); }
    }
    assert (-(n * p)) * (4 * f * t) == -(n * p * (4 * f * t));
    assert (-(4 * f * s)) * (f * d) == -(4 * f * s * (f * d));
  }

  lemma FourOut(x: int, y: int)
    ensures x * (4 * y) == 4 * (x * y)
  {
  }

  /** The gaps reach half-way to the neighbours of f * 2^e: a quarter of a step down if the predecessor is closer. */
  lemma GapsReachHalfway(v: Binary, x: int)
    requires v.Valid()
    ensures 2 * v.f * Upper(v, x) == Numerator(v, x)
    ensures (if v.closer then 4 * v.f else 2 * v.f) * Lower(v, x) == Numerator(v, x)
    ensures Lower(v, x) > 0
  {
    assert Pow(2, 1) == 2 && Pow(2, 2) == 4;
    var l, s := Lower(v, x), Pow(2, v.Shift());
    if v.e >= 0 { PowPositive(2, v.e); }
    if v.e < 0 && x < 0 { PowPositive(10, -x); MulCommutes(l, v.Significand()); }
    assert Numerator(v, x) == v.f * s * l;
    MulCommutes(v.f, s);
    if v.closer {
      MulAssoc(2 * v.f, 2, l);
    }
  }

  // ------------------------------------------------------------------ division stays exact

  lemma {:induction false} PowerOfFiveIsOdd(m: nat)
    ensures Pow(5, m) % 2 == 1
  {
    if m > 0 {
      PowerOfFiveIsOdd(m - 1);
    }
  }

  /** A 53-bit significand times a power of two is a power of ten only for exponents below the width of a bigit. */
  lemma PowerOfTenIsShort(f: nat, t: nat, m: nat)
    requires 0 < f < 0x20_0000_0000_0000 && f * Pow(2, t) == Pow(10, m)
    ensures t < 32
  {
    PowOfProduct(5, 2, m);
    PowPositive(2, t);
    PowPositive(2, m);
    if t > m {
      MulShiftTwo(f, Pow(2, t - m - 1));
      PowAdd(2, m, t - m);
      MulAssoc(f, Pow(2, t - m), Pow(2, m));
      MulCommutes(Pow(2, t - m), Pow(2, m));
      PowerOfFiveIsOdd(m);
      MulCancel(f * Pow(2, t - m), Pow(5, m), Pow(2, m));
    } else if t >= 32 {
      PowAdd(2, t, m - t);
      MulCommutes(Pow(2, t), Pow(2, m - t));
      MulAssoc(Pow(5, m), Pow(2, m - t), Pow(2, t));
      MulCancel(f, Pow(5, m) * Pow(2, m - t), Pow(2, t));
      PowPositive(2, m - t);
      MulGrows(Pow(5, m), Pow(2, m - t));
      PowMonotone(5, 32, m);
      FiveTo32();
    }
  }

  lemma MulShiftTwo(f: int, p: int)
    ensures f * (2 * p) == 2 * (f * p)
  {
  }

  lemma FiveTo32()
    ensures Pow(5, 32) > 0x20_0000_0000_0000
  {
    assert Pow(5, 4) == 625;
    PowAdd(5, 4, 4);
    PowAdd(5, 8, 8);
    PowAdd(5, 16, 16);
    MulMonotone(625 * 625, Pow(5, 8), 1, 1);
    MulMonotone(390625 * 390625, Pow(5, 16), 1, 1);
    MulMonotone(152587890625, Pow(5, 16), 152587890625, Pow(5, 16));
  }

  lemma LargeNeverTies(v: Binary, x: nat, k: nat)
    requires v.Valid() && v.e >= 32
    ensures Numerator(v, x) * Pow(10, k) != Denominator(v, x)
  {
    if Numerator(v, x) * Pow(10, k) == Denominator(v, x) {
      PowPositive(10, k);
      PowPositive(2, v.e);
      assert Pow(2, 1) == 2 && Pow(2, 2) == 4;
      var s := v.Shift();
      PowAdd(2, s, v.e);
      PowAdd(2, 1, s - 1 + v.e);
      MulAssoc(v.f, Pow(2, s), Pow(2, v.e));
      MulShiftTwo(v.f, Pow(2, s - 1 + v.e));
      var half := v.f * Pow(2, s - 1 + v.e);
      assert Numerator(v, x) == 2 * half;
      MulAssoc(2, half, Pow(10, k));
      assert half * Pow(10, k) == Pow(10, x);
      PowPositive(2, s - 1 + v.e);
      MulGrows(v.f, Pow(2, s - 1 + v.e));
      if k > x {
        PowPositive(10, x);
        PowMonotone(10, x + 1, k);
        MulMonotone(1, half, Pow(10, k), Pow(10, k));
      } else {
        PowAdd(10, x - k, k);
        MulCancel(half, Pow(10, x - k), Pow(10, k));
        PowerOfTenIsShort(v.f, s - 1 + v.e, x - k);
      }
    }
  }

  /** For a small value the estimate of the decimal exponent keeps the numerator stored below the denominator. */
  lemma SmallStaysBelow(v: Binary, x: int)
    requires v.Valid() && v.e < 0 && x < 0
    requires Numerator(v, x) < 10 * Denominator(v, x)
    ensures -x <= v.Shift() - v.e
  {
    var y, t := -x, v.Shift() - v.e;
    if y > t {
      PowMonotone(10, t + 1, y);
      PowBaseMonotone(2, 10, t);
      PowPositive(2, v.Shift());
      MulGrows(v.f, Pow(2, v.Shift()));
      MulGrows(Pow(10, y), v.Significand());
    }
  }

  lemma SetupIsSafe(v: Binary, x: int)
    requires v.Valid() && (v.e >= 0 ==> x >= 0)
    requires Numerator(v, x) < 10 * Denominator(v, x)
    ensures SafeDivision(Numerator(v, x), NumeratorExp(v, x), Denominator(v, x), DenominatorExp(v, x))
    ensures v.e < 0 ==> NumeratorExp(v, x) <= DenominatorExp(v, x)
  {
    if v.e >= 32 {
      forall k: nat ensures Numerator(v, x) * Pow(10, k) != Denominator(v, x) {
        LargeNeverTies(v, x, k);
      }
    }
    if v.e < 0 && x < 0 {
      SmallStaysBelow(v, x);
    }
  }

  // ------------------------------------------------------------------ the whole function

  method SetUp(v: Binary, x: int)
    returns (numerator: Bigint, denominator: Bigint, lower: Bigint, upper: Bigint)
    requires v.Valid() && (v.e >= 0 ==> x >= 0) && -0x4000_0000 < x < 0x4000_0000
    ensures fresh(numerator) && fresh(denominator) && fresh(lower) && fresh(upper)
    ensures numerator !in {denominator, lower, upper} && denominator !in {lower, upper}
    ensures numerator.Valid() && denominator.Valid() && lower.Valid() && upper.Valid()
    ensures numerator.Value() == Numerator(v, x) && numerator.exp == NumeratorExp(v, x)
    ensures denominator.Value() == Denominator(v, x) && denominator.exp == DenominatorExp(v, x)
    ensures lower.Value() == Lower(v, x) && lower.exp == NumeratorExp(v, x)
    ensures upper.Value() == Upper(v, x)
    ensures v.closer <==> upper != lower
  {
    numerator := new Bigint.Empty();
    denominator := new Bigint.Empty();
    lower := new Bigint.Empty();
    upper := lower;
    if v.closer {
      upper := new Bigint.Empty();
    }
    if v.e >= 0 {
      SetUpRatioLarge(v, x, numerator, denominator);
      SetPower2(lower, v.e);
      if v.closer {
        SetPower2(upper, v.e + 1);
      }
    } else if x < 0 {
      SetUpSmall(v, x, numerator, denominator, lower, upper);
    } else {
      SetUpRatioMedium(v, x, numerator, denominator);
      lower.AssignWord(1);
      if v.closer {
        upper.AssignWord(2);
      }
    }
  }

  method SetPower2(b: Bigint, n: nat)
    modifies b
    ensures b.Valid() && b.Value() == Pow(2, n) && b.exp == n / 32
  {
    b.AssignWord(1);
    b.ShiftLeft(n);
  }

  method SetUpRatioLarge(v: Binary, x: int, numerator: Bigint, denominator: Bigint)
    requires v.Valid() && v.e >= 0 && 0 <= x < 0x4000_0000 && numerator != denominator
    modifies numerator, denominator
    ensures numerator.Valid() && denominator.Valid()
    ensures numerator.Value() == Numerator(v, x) && numerator.exp == NumeratorExp(v, x)
    ensures denominator.Value() == Denominator(v, x) && denominator.exp == DenominatorExp(v, x)
  {
    var significand := ShiftedSignificand(v);
    numerator.AssignWord(significand);
    numerator.ShiftLeft(v.e);
    denominator.AssignPow10(x);
    assert Pow(2, 1) == 2;
    denominator.ShiftLeft(1);
  }

  method SetUpRatioMedium(v: Binary, x: int, numerator: Bigint, denominator: Bigint)
    requires v.Valid() && v.e < 0 && 0 <= x < 0x4000_0000 && numerator != denominator
    modifies numerator, denominator
    ensures numerator.Valid() && denominator.Valid()
    ensures numerator.Value() == Numerator(v, x) && numerator.exp == NumeratorExp(v, x)
    ensures denominator.Value() == Denominator(v, x) && denominator.exp == DenominatorExp(v, x)
  {
    var significand := ShiftedSignificand(v);
    numerator.AssignWord(significand);
    denominator.AssignPow10(x);
    denominator.ShiftLeft(v.Shift() - v.e);
  }

  /** The gaps are the power of ten that the numerator holds before the significand is multiplied in. */
  method SetUpSmall(v: Binary, x: int, numerator: Bigint, denominator: Bigint, lower: Bigint, upper: Bigint)
    requires v.Valid() && v.e < 0 && -0x4000_0000 < x < 0
    requires numerator !in {denominator, lower, upper} && denominator !in {lower, upper}
    requires v.closer <==> upper != lower
    modifies numerator, denominator, lower, upper
    ensures numerator.Valid() && denominator.Valid() && lower.Valid() && upper.Valid()
    ensures numerator.Value() == Numerator(v, x) && numerator.exp == NumeratorExp(v, x)
    ensures denominator.Value() == Denominator(v, x) && denominator.exp == DenominatorExp(v, x)
    ensures lower.Value() == Lower(v, x) && lower.exp == NumeratorExp(v, x)
    ensures upper.Value() == Upper(v, x)
  {
    var significand := ShiftedSignificand(v);
    numerator.AssignPow10(-x);
    lower.Assign(numerator);
    assert lower.Valid() && lower.Value() == Lower(v, x);
    if v.closer {
      upper.Assign(numerator);
      assert Pow(2, 1) == 2;
      upper.ShiftLeft(1);
    }
    SetPower2(denominator, v.Shift() - v.e);
    ScaleValue(Val(numerator.bigits), significand, B(numerator.exp));
    numerator.MultiplyDouble(significand);
  }

  lemma ScaleValue(v: nat, k: nat, b: nat)
    ensures v * k * b == v * b * k
  {
    MulAssoc(v, k, b);
    MulAssoc(v, b, k);
    MulCommutes(k, b);
  }

  method ShiftedSignificand(v: Binary) returns (significand: DoubleBigit)
    requires v.Valid()
    ensures significand == v.Significand() && significand > 0
  {
    assert Pow(2, 1) == 2 && Pow(2, 2) == 4;
    significand := v.f * (if v.closer then 4 else 2);
  }

  /**
    From significand and exponent to digits. In the fixed mode they are f * 2^e rounded half-even at the place that
    exp10 tells, wherever the set-up stands for the value; in the shortest mode they are those of Shortest.
    */
  method FallbackFormat(v: Binary, numDigits: int, exp10In: int) returns (buf: seq<char>, exp10: int)
    requires v.Valid() && (v.e >= 0 ==> exp10In >= 0) && -0x4000_0000 < exp10In < 0x4000_0000
    requires Numerator(v, exp10In) < 10 * Denominator(v, exp10In)
    requires numDigits < 0 ==>
      !IsHigh(Numerator(v, exp10In), Upper(v, exp10In), 10 * Denominator(v, exp10In), v.Even())
    ensures numDigits > 0 ==> |buf| == numDigits && AllDigits(buf)
    ensures numDigits > 0 ==>
      var rounded := RoundHalfEven(Numerator(v, exp10In) * Pow(10, numDigits - 1), Denominator(v, exp10In));
      || (exp10 == exp10In - (numDigits - 1) && Spelled(buf) == rounded)
      || (exp10 == exp10In - (numDigits - 1) + 1 && 10 * Spelled(buf) == rounded)
    ensures numDigits == 0 ==>
      && |buf| == 1 && AllDigits(buf) && exp10 == exp10In + 1
      && Spelled(buf) == RoundHalfEven(Numerator(v, exp10In), 10 * Denominator(v, exp10In))
    ensures numDigits < 0 ==>
      var digits := Shortest(v, exp10In);
      && (forall i :: 0 <= i < |digits| ==> digits[i] <= 9)
      && buf == Chars(digits)
      && exp10 == exp10In - (|digits| - 1)
    ensures numDigits >= 0 && (v.e < 0 || !v.closer) ==>
      var p := exp10In - (numDigits - 1);
      || (exp10 == p && Spelled(buf) == RoundedAt(v, p))
      || (exp10 == p + 1 && 10 * Spelled(buf) == RoundedAt(v, p))
  {
    if v.e < 0 || !v.closer {
      if numDigits > 0 {
        FixedRoundsTheValue(v, exp10In, numDigits - 1);
      } else {
        NoDigitsRoundsTheValue(v, exp10In);
      }
    }
    var numerator, denominator, lower, upper := SetUp(v, exp10In);
    SetupIsPositive(v, exp10In);
    SetupIsSafe(v, exp10In);
    if numDigits < 0 {
      buf, exp10 := ShortestDigits(numerator, denominator, lower, upper, v.Even(), exp10In);
      return;
    }
    if numDigits == 0 {
      exp10 := exp10In + 1;
      TimesTen(denominator);
      RoundToOneOrNone(numerator.Value(), denominator.Value());
      var result := AddCompare(numerator, numerator, denominator);
      buf := [if result > 0 then '1' else '0'];
      SpelledSnoc([], buf[0]);
      assert [] + [buf[0]] == buf;
      return;
    }
    buf, exp10 := FixedDigits(numerator, denominator, numDigits, exp10In);
  }

  function Shortest(v: Binary, x: int): seq<nat>
    requires v.Valid() && (v.e >= 0 ==> x >= 0)
  {
    SetupIsPositive(v, x);
    FreeDigits(Numerator(v, x), NumeratorExp(v, x), Denominator(v, x), DenominatorExp(v, x), Lower(v, x),
               NumeratorExp(v, x), Upper(v, x), v.Even())
  }

  lemma SetupIsPositive(v: Binary, x: int)
    requires v.Valid() && (v.e >= 0 ==> x >= 0)
    ensures Numerator(v, x) > 0 && Denominator(v, x) > 0 && Lower(v, x) > 0 && Upper(v, x) > 0
  {
    GapsReachHalfway(v, x);
    PowPositive(2, v.Shift());
    MulGrows(v.f, Pow(2, v.Shift()));
    if v.e >= 0 {
      PowPositive(2, v.e);
      PowPositive(10, x);
      MulGrows(v.Significand(), Pow(2, v.e));
    } else {
      PowPositive(2, v.Shift() - v.e);
      if x < 0 {
        PowPositive(10, -x);
        MulGrows(Pow(10, -x), v.Significand());
      } else {
        PowPositive(10, x);
        MulGrows(Pow(10, x), Pow(2, v.Shift() - v.e));
      }
    }
  }

  lemma RoundToOneOrNone(n: nat, d: nat)
    requires n < d
    ensures RoundHalfEven(n, d) == if n + n > d then 1 else 0
  {
    DivModUnique(n, d, 0, n);
  }

  // ------------------------------------------------------------------ what the shortest mode achieves

  /** compare sees ties with the lower gap, or they do not count. */
  predicate SeesTies(v: Binary, x: int)
    requires v.e >= 0 ==> x >= 0
  {
    !v.Even() || NumeratorExp(v, x) <= DenominatorExp(v, x)
  }

  /** Some decimal is the lower end of the rounding interval, and the only number in it of at most that many digits. */
  ghost predicate EndAlone(v: Binary, x: int)
    requires v.e >= 0 ==> x >= 0
  {
    var n, d, l, u := Numerator(v, x), Denominator(v, x), Lower(v, x), Upper(v, x);
    exists w: int, m: nat :: LowerEndAlone(w, m, n, d, l, u, v.Even())
  }

  /** ... or not the only one, but all others of that many digits are further away, and none is shorter. */
  ghost predicate EndNearest(v: Binary, x: int)
    requires v.e >= 0 ==> x >= 0
  {
    var n, d, l, u := Numerator(v, x), Denominator(v, x), Lower(v, x), Upper(v, x);
    exists w: int, m: nat :: LowerEndNearest(w, m, n, d, l, u, v.Even())
  }

  /**
    The digits of the shortest mode spell a number in the rounding interval. No shorter number lies there exactly if
    ties are seen or the interval does not have its lower end as its only number of some length; and none of the same
    length is nearer exactly if ties are seen or the lower end is not the nearest. If the predecessor is not closer,
    that is never so, and the number is always a nearest one.
    */
  lemma ShortestIsBest(v: Binary, x: int)
    requires v.Valid() && (v.e >= 0 ==> x >= 0)
    ensures var digits, n, d := Shortest(v, x), Numerator(v, x), Denominator(v, x);
      var l, u, last := Lower(v, x), Upper(v, x), |Shortest(v, x)| - 1;
      && digits != [] && Inside(Number(digits), last, n, d, l, u, v.Even())
      && (NoneShorter(last, n, d, l, u, v.Even()) <==> SeesTies(v, x) || !EndAlone(v, x))
      && (NoneCloser(Number(digits), last, n, d, l, u, v.Even()) <==> SeesTies(v, x) || !EndNearest(v, x))
    ensures !v.closer ==> !EndNearest(v, x)
    ensures v.e < 0 && Numerator(v, x) < 10 * Denominator(v, x) ==> SeesTies(v, x)
  {
    SetupIsPositive(v, x);
    if Numerator(v, x) < 10 * Denominator(v, x) {
      SetupIsSafe(v, x);
    }
    GapBelowNumerator(v, x);
    var n, ne, d, de := Numerator(v, x), NumeratorExp(v, x), Denominator(v, x), DenominatorExp(v, x);
    var l, u, even := Lower(v, x), Upper(v, x), v.Even();
    FreeDigitsInside(n, ne, d, de, l, ne, u, even);
    FreeDigitsShortest(n, ne, d, de, l, ne, u, even);
    FreeDigitsNearest(n, ne, d, de, l, ne, u, even);
  }

  lemma GapBelowNumerator(v: Binary, x: int)
    requires v.Valid() && (v.e >= 0 ==> x >= 0)
    ensures 0 < Lower(v, x) < Numerator(v, x)
  {
    GapsReachHalfway(v, x);
    var k := if v.closer then 4 * v.f else 2 * v.f;
    MulMonotone(2, k, Lower(v, x), Lower(v, x));
  }

  /** 2^52, whose predecessor is closer, is set up as twice its value: its sixteen digits are those of 2^53. */
  lemma CloserPredecessorDoubles()
    ensures var v := Binary(0x10_0000_0000_0000, 0, true);
      && v.Valid() && Numerator(v, 15) < 10 * Denominator(v, 15)
      && RoundHalfEven(Numerator(v, 15) * Pow(10, 15), Denominator(v, 15)) == 9007199254740992
      && v.f * Pow(2, v.e) == 4503599627370496
  {
    var v := Binary(0x10_0000_0000_0000, 0, true);
    assert Pow(2, 0) == 1 && Pow(2, 2) == 4;
    assert Pow(10, 5) == 100000;
    PowAdd(10, 5, 5);
    PowAdd(10, 10, 5);
    var t := Pow(10, 15);
    assert t == 1000000000000000;
    assert Numerator(v, 15) == 18014398509481984;
    DivModUnique(Numerator(v, 15) * t, t * 2, 9007199254740992, 0);
  }

  /**
    For e >= 0 the ratio starts below ten, as every digit has to, if the value is below ten units of 10^x; if the
    predecessor is closer, exactly if it is below five.
    */
  lemma LargeStartsBelowTen(v: Binary, x: nat)
    requires v.Valid() && v.e >= 0
    ensures Numerator(v, x) < 10 * Denominator(v, x) <==>
            v.f * Pow(2, v.e) < (if v.closer then 5 else 10) * Pow(10, x)
  {
    assert Pow(2, 1) == 2 && Pow(2, 2) == 4;
    var a, s := v.f * Pow(2, v.e), Pow(2, v.Shift());
    assert Numerator(v, x) == s * a by { MulCommutes(v.f, s); MulAssoc(s, v.f, Pow(2, v.e)); }
  }

  /**
    Where it does not: 2^56, marked as having a closer predecessor, is below ten units of 10^16, but its first
    quotient is 14, and what is stored for it is no digit.
    */
  lemma CloserPredecessorIsNoDigit()
    ensures var v := Binary(0x10_0000_0000_0000, 4, true);
      && v.Valid() && Pow(10, 16) <= v.f * Pow(2, v.e) < 10 * Pow(10, 16)
      && Denominator(v, 16) > 0 && Numerator(v, 16) / Denominator(v, 16) == 14
      && !IsDigit(('0' as int + 14) as char)
  {
    var v := Binary(0x10_0000_0000_0000, 4, true);
    assert Pow(2, 2) == 4 && Pow(2, 4) == 16 && Pow(10, 4) == 10000;
    PowAdd(10, 4, 4);
    PowAdd(10, 8, 8);
    var t := Pow(10, 16);
    assert t == 10000000000000000;
    assert Numerator(v, 16) == 288230376151711744;
    DivModUnique(Numerator(v, 16), t * 2, 14, 8230376151711744);
  }

  /**
    A double on which the shortest mode misses a shorter number: 8344650268554688 * 2^32 has 3584 * 10^22 exactly on
    the lower end of its interval, which belongs to it, but the numerator, stored one bigit below the gap, is not seen
    to tie with it, and digits go on after 3584.
    */
  lemma ShortestMissesTie()
    ensures var v := Binary(8344650268554688, 32, false);
      && v.Valid() && Numerator(v, 25) < 10 * Denominator(v, 25)
      && !IsHigh(Numerator(v, 25), Upper(v, 25), 10 * Denominator(v, 25), v.Even())
      && Inside(3584, 3, Numerator(v, 25), Denominator(v, 25), Lower(v, 25), Upper(v, 25), v.Even())
      && |Shortest(v, 25)| > 4
  {
    var v, b, d := Binary(8344650268554688, 32, false), 0x1_0000_0000, 20000000000000000000000000;
    TwoTo32();
    TenTo25();
    assert Pow(2, 1) == 2 && Pow(10, 3) == 1000;
    assert Numerator(v, 25) == 16689300537109376 * b && Denominator(v, 25) == d && Lower(v, 25) == b;
    MissedRound(16689300537109376 * b, 1, b, 3, 11680000000000004294967296);
    MissedRound(10 * 11680000000000004294967296, 0, 10 * b, 5, 16800000000000042949672960);
    MissedRound(10 * 16800000000000042949672960, 0, 100 * b, 8, 8000000000000429496729600);
    MissedRound(10 * 8000000000000429496729600, 0, 1000 * b, 4, 1000 * b);
  }

  /** It meets the condition: ties can go unseen there, and the lower end is alone. */
  lemma MissedTieIsAlone()
    ensures var v := Binary(8344650268554688, 32, false); !SeesTies(v, 25) && EndAlone(v, 25)
  {
    var v := Binary(8344650268554688, 32, false);
    ShortestMissesTie();
    ShortestIsBest(v, 25);
    var n, d, l, u := Numerator(v, 25), Denominator(v, 25), Lower(v, 25), Upper(v, 25);
    assert !NoneShorter(|Shortest(v, 25)| - 1, n, d, l, u, v.Even()) by {
      assert Inside(3584, 3, n, d, l, u, v.Even());
    }
  }

  /** A round that neither gap ends, the lower one perhaps because a tie is not seen. */
  lemma MissedRound(n: nat, ne: nat, l: nat, q: nat, r: nat)
    requires n == q * 20000000000000000000000000 + r && 0 < q && ne <= 1
    requires 0 < l <= r && r + l < 20000000000000000000000000
    ensures var d := 20000000000000000000000000;
      FreeDigits(n, ne, d, 0, l, 1, l, true) == [q] + FreeDigits(10 * r, 0, d, 0, 10 * l, 1, 10 * l, true)
  {
    FreeDigitsRound(n, ne, 20000000000000000000000000, 0, l, 1, l, true, q, r);
  }

  lemma TenTo25()
    ensures Pow(10, 25) == 10000000000000000000000000
  {
    assert Pow(10, 5) == 100000;
    PowAdd(10, 5, 5);
    PowAdd(10, 10, 10);
    PowAdd(10, 20, 5);
  }
}
