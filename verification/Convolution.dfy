/** Column sums: the product of two bigit strings, computed one result column at a time. */
module Convolution {
  import opened Powers
  import opened Bigits

  function At(s: seq<Bigit>, i: int): Bigit {
    if 0 <= i < |s| then s[i] else 0
  }

  /** Column k of s * t: the sum of s[i] * t[j] over i + j == k. */
  function Column(s: seq<Bigit>, t: seq<Bigit>, k: int): nat
    decreases |s|
  {
    if s == [] || k < 0 then 0 else Product(s[0], At(t, k)) + Column(s[1..], t, k - 1)
  }

  /** The first m columns, each at its weight. */
  function Columns(s: seq<Bigit>, t: seq<Bigit>, m: nat): nat {
    if m == 0 then 0 else Columns(s, t, m - 1) + Column(s, t, m - 1) * B(m - 1)
  }

  /** The first m bigits of t. */
  function Low(t: seq<Bigit>, m: nat): nat {
    if m == 0 then 0 else Low(t, m - 1) + At(t, m - 1) * B(m - 1)
  }

  lemma {:induction false} LowIsVal(t: seq<Bigit>, m: nat)
    ensures m <= |t| ==> Low(t, m) == Val(t[..m])
    ensures m >= |t| ==> Low(t, m) == Val(t)
  {
    if m > 0 {
      LowIsVal(t, m - 1);
      if m <= |t| {
        ValTakeStep(t, m - 1);
        assert m == |t| ==> t[..m] == t;
      }
    } else {
      assert t[..0] == [];
    }
  }

  lemma {:induction false} ColumnsOfEmpty(t: seq<Bigit>, m: nat)
    ensures Columns([], t, m) == 0
  {
    if m > 0 {
      ColumnsOfEmpty(t, m - 1);
    }
  }

  /** Peeling the lowest bigit off the left factor shifts the remaining columns by one. */
  lemma {:induction false} ColumnsPeel(s: seq<Bigit>, t: seq<Bigit>, m: nat)
    requires s != []
    ensures Columns(s, t, m + 1) == s[0] * Low(t, m + 1) + BASE * Columns(s[1..], t, m)
  {
    if m == 0 {
      assert Columns(s, t, 1) == Columns(s, t, 0) + Column(s, t, 0) * B(0);
      assert Low(t, 1) == Low(t, 0) + At(t, 0) * B(0);
    } else {
      ColumnsPeel(s, t, m - 1);
      PeelArithmetic(s[0], At(t, m), Column(s[1..], t, m - 1), B(m - 1), Low(t, m), Columns(s[1..], t, m - 1));
    }
  }

  lemma PeelArithmetic(a: int, x: int, c: int, w: int, low: int, cols: int)
    ensures a * low + BASE * cols + (a * x + c) * (BASE * w) == a * (low + x * (BASE * w)) + BASE * (cols + c * w)
  {
    var v := BASE * w;
    assert (a * x + c) * v == a * (x * v) + c * v by { MulAssoc(a, x, v); }
    assert c * v == BASE * (c * w) by { MulAssoc(c, BASE, w); }
  }

  lemma Distribute(a: int, rest: int, t: int)
    ensures (a + BASE * rest) * t == a * t + BASE * (rest * t)
  {
  }

  /** All the columns together are the product. */
  lemma {:induction false} ColumnsAreProduct(s: seq<Bigit>, t: seq<Bigit>, m: nat)
    requires m >= |s| + |t|
    ensures Columns(s, t, m) == Val(s) * Val(t)
    decreases |s|
  {
    if s == [] {
      ColumnsOfEmpty(t, m);
    } else {
      ColumnsPeel(s, t, m - 1);
      ColumnsAreProduct(s[1..], t, m - 1);
      LowIsVal(t, m);
      Distribute(s[0], Val(s[1..]), Val(t));
    }
  }

  /** Terms of a column whose right index is beyond the end contribute nothing. */
  lemma {:induction false} ColumnSkip(s: seq<Bigit>, t: seq<Bigit>, k: int, i: nat)
    requires i <= |s| && k - i >= |t| - 1
    ensures Column(s, t, k) == Column(s[i..], t, k - i)
    decreases i
  {
    if i == 0 {
      assert s[0..] == s;
    } else if k >= 0 {
      ColumnSkip(s[1..], t, k - 1, i - 1);
      assert s[1..][i - 1..] == s[i..];
    }
  }

  lemma ColumnStep(s: seq<Bigit>, t: seq<Bigit>, i: nat, k: int)
    requires i < |s| && 0 <= k
    ensures Column(s[i..], t, k) == Product(s[i], At(t, k)) + Column(s[i + 1..], t, k - 1)
  {
    assert s[i..][1..] == s[i + 1..];
  }

  /** A column of an n-bigit square has at most n terms. */
  lemma {:induction false} ColumnBound(s: seq<Bigit>, t: seq<Bigit>, k: int)
    ensures Column(s, t, k) <= |s| * (BASE_SQUARED - 1)
    decreases |s|
  {
    if s != [] && k >= 0 {
      ColumnBound(s[1..], t, k - 1);
      MulMonotone(s[0], BASE - 1, At(t, k), BASE - 1);
    }
  }
}
