/** Integer powers and the few non-linear facts that the other modules share. */
module Powers {

  function Pow(base: nat, n: nat): nat {
    if n == 0 then 1 else base * Pow(base, n - 1)
  }

  lemma {:induction false} PowPositive(base: nat, n: nat)
    requires base > 0
    ensures Pow(base, n) > 0
  {
    if n > 0 {
      PowPositive(base, n - 1);
    }
  }

  function Power2(k: nat): (r: nat)
    ensures r > 0
  {
    PowPositive(2, k);
    Pow(2, k)
  }

  lemma {:induction false} PowAdd(base: nat, m: nat, n: nat)
    ensures Pow(base, m + n) == Pow(base, m) * Pow(base, n)
  {
    if m > 0 {
      PowAdd(base, m - 1, n);
      MulAssoc(base, Pow(base, m - 1), Pow(base, n));
    }
  }

  lemma {:induction false} PowMul(base: nat, m: nat, n: nat)
    ensures Pow(base, m * n) == Pow(Pow(base, m), n)
  {
    if n > 0 {
      PowMul(base, m, n - 1);
      assert m * n == m + m * (n - 1);
      PowAdd(base, m, m * (n - 1));
    } else {
      assert m * n == 0;
    }
  }

  lemma {:induction false} PowOfProduct(a: nat, b: nat, n: nat)
    ensures Pow(a * b, n) == Pow(a, n) * Pow(b, n)
  {
    if n > 0 {
      var x, y := Pow(a, n - 1), Pow(b, n - 1);
      PowOfProduct(a, b, n - 1);
      assert (a * b) * (x * y) == (a * x) * (b * y) by {
        MulAssoc(a * b, x, y);
        MulAssoc(a, b, x);
        MulAssoc(a, x, b);
        MulAssoc(a * x, b, y);
      }
    }
  }

  lemma {:induction false} PowMonotone(base: nat, m: nat, n: nat)
    requires base > 0 && m <= n
    ensures Pow(base, m) <= Pow(base, n)
  {
    PowAdd(base, m, n - m);
    PowPositive(base, n - m);
    PowPositive(base, m);
    MulGrows(Pow(base, m), Pow(base, n - m));
  }

  lemma {:induction false} PowBaseMonotone(a: nat, b: nat, n: nat)
    requires a <= b
    ensures Pow(a, n) <= Pow(b, n)
  {
    if n > 0 {
      PowBaseMonotone(a, b, n - 1);
      MulMonotone(a, b, Pow(a, n - 1), Pow(b, n - 1));
    }
  }

  function Magnitude(x: int): nat {
    if x < 0 then -x else x
  }

  lemma MulAssoc(x: int, y: int, z: int)
    ensures (x * y) * z == x * (y * z)
  {
  }

  lemma MulCommutes(x: int, y: int)
    ensures x * y == y * x
  {
  }

  lemma MulDistribute(x: int, y: int, k: int)
    ensures (x + y) * k == x * k + y * k
  {
  }

  lemma MulGrows(x: nat, y: nat)
    requires y > 0
    ensures x <= x * y
  {
  }

  lemma MulMonotone(a: nat, b: nat, x: nat, y: nat)
    requires a <= b && x <= y
    ensures a * x <= b * y
  {
    assert a * x <= b * x;
    assert b * x <= b * y;
  }

  lemma MulStrict(a: int, b: int, k: nat)
    requires a < b && k > 0
    ensures a * k < b * k
  {
  }

  /** Comparing two products with a common positive factor compares the other factors. */
  lemma MulCancel(a: int, b: int, k: nat)
    requires k > 0
    ensures a * k < b * k <==> a < b
    ensures a * k == b * k <==> a == b
  {
    if a < b {
      MulStrict(a, b, k);
    } else if b < a {
      MulStrict(b, a, k);
    }
  }

  function Quotient(n: nat, d: nat): nat
    requires d > 0
  {
    n / d
  }

  function Remainder(n: nat, d: nat): (r: nat)
    requires d > 0
    ensures r < d && n == Quotient(n, d) * d + r
  {
    n % d
  }

  /** Two ways to write a number as a multiple of d plus a remainder are the same way. */
  lemma QuotientUnique(d: nat, q: int, r: nat, q': int, r': nat)
    requires r < d && r' < d && q * d + r == q' * d + r'
    ensures q == q' && r == r'
  {
    if q < q' {
      MulMonotoneInt(q + 1, q', d);
    } else if q' < q {
      MulMonotoneInt(q' + 1, q, d);
    }
  }

  lemma MulMonotoneInt(a: int, b: int, k: nat)
    requires a <= b
    ensures a * k <= b * k
  {
  }

  /** The quotient and remainder that division computes are the ones that satisfy its equation. */
  lemma DivModUnique(n: nat, d: nat, q: int, r: nat)
    requires r < d && n == q * d + r
    ensures n / d == q && n % d == r
    ensures Quotient(n, d) == q && Remainder(n, d) == r
  {
    QuotientUnique(d, q, r, n / d, n % d);
  }
}
