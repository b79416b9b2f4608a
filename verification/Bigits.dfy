/** Little-endian numbers in base 2^32: the abstract value of a bigint's storage. */
module Bigits {
  import opened Powers

  const BASE: nat := 0x1_0000_0000
  const BASE_SQUARED: nat := 0x1_0000_0000_0000_0000

  /** A 32-bit word of a bigint, and the 64-bit word the arithmetic widens to. */
  type Bigit = x: nat | x < 0x1_0000_0000
  type DoubleBigit = x: nat | x < 0x1_0000_0000_0000_0000

  function Val(s: seq<Bigit>): nat {
    if s == [] then 0 else s[0] + BASE * Val(s[1..])
  }

  /** B(n) is the weight of the bigit at index n. */
  function B(n: nat): nat { Pow(BASE, n) }

  lemma BPositive(n: nat)
    ensures B(n) > 0
  {
    PowPositive(BASE, n);
  }

  lemma BStep(n: nat)
    ensures B(n + 1) == BASE * B(n)
  {
  }

  lemma {:induction false} ValConcat(s: seq<Bigit>, t: seq<Bigit>)
    ensures Val(s + t) == Val(s) + B(|s|) * Val(t)
  {
    if s == [] {
      assert s + t == t;
    } else {
      assert (s + t)[1..] == s[1..] + t;
      ValConcat(s[1..], t);
      MulAssoc(BASE, B(|s| - 1), Val(t));
    }
  }

  lemma ValSingle(x: Bigit)
    ensures Val([x]) == x
  {
    assert [x][1..] == [];
  }

  lemma ValSnoc(s: seq<Bigit>, x: Bigit)
    ensures Val(s + [x]) == Val(s) + x * B(|s|)
  {
    ValConcat(s, [x]);
    ValSingle(x);
    MulCommutes(B(|s|), Val([x]));
  }

  /** Splitting a number before the bigit at index i. */
  lemma ValSplit(s: seq<Bigit>, i: nat)
    requires i <= |s|
    ensures Val(s) == Val(s[..i]) + B(i) * Val(s[i..])
  {
    assert s == s[..i] + s[i..];
    ValConcat(s[..i], s[i..]);
  }

  lemma ValTakeStep(s: seq<Bigit>, i: nat)
    requires i < |s|
    ensures Val(s[..i + 1]) == Val(s[..i]) + s[i] * B(i)
  {
    assert s[..i + 1] == s[..i] + [s[i]];
    ValSnoc(s[..i], s[i]);
  }

  lemma {:induction false} ValBound(s: seq<Bigit>)
    ensures Val(s) < B(|s|)
  {
    if s != [] {
      ValBound(s[1..]);
      assert Val(s[1..]) + 1 <= B(|s| - 1);
    }
  }

  lemma {:induction false} ValZeros(s: seq<Bigit>)
    requires forall i :: 0 <= i < |s| ==> s[i] == 0
    ensures Val(s) == 0
  {
    if s != [] {
      ValZeros(s[1..]);
    }
  }

  function Zeros(n: nat): (r: seq<Bigit>)
    ensures |r| == n && forall i :: 0 <= i < n ==> r[i] == 0
  {
    seq(n, _ => 0)
  }

  /** The number has a non-zero top bigit exactly when it reaches the weight of that bigit. */
  lemma TopBigit(s: seq<Bigit>)
    requires s != []
    ensures s[|s| - 1] != 0 <==> Val(s) >= B(|s| - 1)
  {
    var k := |s| - 1;
    ValTakeStep(s, k);
    assert s[..k + 1] == s;
    ValBound(s[..k]);
    if s[k] != 0 {
      MulMonotone(1, s[k], B(k), B(k));
    }
  }

  /** Canonical storage: no leading zero bigit, and zero is a single 0 bigit. */
  predicate Canonical(s: seq<Bigit>) {
    s != [] && (|s| > 1 ==> s[|s| - 1] != 0)
  }

  lemma {:induction false} ZeroIsAllZeros(s: seq<Bigit>)
    requires Val(s) == 0
    ensures forall i :: 0 <= i < |s| ==> s[i] == 0
  {
    if s != [] {
      ZeroIsAllZeros(s[1..]);
      forall i | 0 <= i < |s| ensures s[i] == 0 {
        if i > 0 { assert s[i] == s[1..][i - 1]; }
      }
    }
  }

  lemma CanonicalZero(s: seq<Bigit>)
    requires Canonical(s)
    ensures Val(s) == 0 <==> s == [0]
  {
    if Val(s) == 0 {
      ZeroIsAllZeros(s);
    }
    assert Val([0]) == 0;
  }

  /** The number that storage s with bigit exponent e stands for. */
  function Amount(s: seq<Bigit>, e: nat): nat {
    Val(s) * B(e)
  }

  /** The bigit of weight B(i), zero outside the stored range. */
  function BigitAt(s: seq<Bigit>, e: nat, i: int): Bigit {
    if e <= i < e + |s| then s[i - e] else 0
  }

  /** The number formed by the bigits of weight B(i) and above. */
  function High(s: seq<Bigit>, e: nat, i: nat): nat {
    if i >= e + |s| then 0 else if i >= e then Val(s[i - e..]) else Val(s) * B(e - i)
  }

  lemma HighStep(s: seq<Bigit>, e: nat, i: nat)
    ensures High(s, e, i) == High(s, e, i + 1) * BASE + BigitAt(s, e, i)
  {
    if e <= i < e + |s| {
      var t := s[i - e..];
      assert t[0] == s[i - e] && t[1..] == s[i + 1 - e..];
      assert Val(t) == t[0] + BASE * Val(t[1..]);
      if i + 1 == e + |s| { assert Val(t[1..]) == 0; }
    } else if i < e {
      BStep(e - i - 1);
      MulAssoc(Val(s), B(e - i - 1), BASE);
      if i + 1 == e {
        assert s[0..] == s;
        if s == [] { assert High(s, e, i + 1) == 0; }
      }
    }
  }

  lemma HighAll(s: seq<Bigit>, e: nat)
    ensures High(s, e, 0) == Amount(s, e)
  {
    assert s[0..] == s;
  }

  /** High is division by the weight: what is below weight B(i) amounts to less than B(i). */
  lemma {:induction false} HighBounds(s: seq<Bigit>, e: nat, i: nat)
    ensures High(s, e, i) * B(i) <= Amount(s, e) < (High(s, e, i) + 1) * B(i)
  {
    if i == 0 {
      HighAll(s, e);
    } else {
      HighBounds(s, e, i - 1);
      HighStep(s, e, i - 1);
      ShiftBounds(High(s, e, i - 1), High(s, e, i), BigitAt(s, e, i - 1), B(i - 1), Amount(s, e));
    }
  }

  lemma ShiftBounds(g: nat, h: nat, d: Bigit, w: nat, amount: nat)
    requires g == h * BASE + d
    requires g * w <= amount < (g + 1) * w
    ensures h * (BASE * w) <= amount < (h + 1) * (BASE * w)
  {
    MulMonotone(h * BASE, g, w, w);
    MulMonotone(g + 1, (h + 1) * BASE, w, w);
    MulAssoc(h, BASE, w);
    MulAssoc(h + 1, BASE, w);
  }

  lemma HighOrder(s: seq<Bigit>, e: nat, t: seq<Bigit>, f: nat, i: nat)
    requires High(s, e, i) < High(t, f, i)
    ensures Amount(s, e) < Amount(t, f)
  {
    HighBounds(s, e, i);
    HighBounds(t, f, i);
    MulMonotone(High(s, e, i) + 1, High(t, f, i), B(i), B(i));
  }

  /** A number of n bigits, counting those below its exponent, is below B(n). */
  lemma AmountBound(s: seq<Bigit>, e: nat)
    ensures Amount(s, e) < B(e + |s|)
  {
    HighBounds(s, e, e + |s|);
  }

  /** ... and reaches B(n - 1) when it is canonical and not zero. */
  lemma AmountReaches(s: seq<Bigit>, e: nat)
    requires Canonical(s) && Val(s) > 0
    ensures Amount(s, e) >= B(e + |s| - 1)
  {
    TopBigit(s);
    if |s| == 1 { assert B(0) == 1; }
    PowAdd(BASE, |s| - 1, e);
    MulMonotone(B(|s| - 1), Val(s), B(e), B(e));
  }

  lemma AmountPositive(s: seq<Bigit>, e: nat)
    ensures Amount(s, e) > 0 <==> Val(s) > 0
  {
    BPositive(e);
    if Val(s) > 0 {
      MulGrows(Val(s), B(e));
    }
  }

  /** A canonical number that is at least another has at least as many bigits. */
  lemma MoreBigits(s: seq<Bigit>, e: nat, t: seq<Bigit>, f: nat)
    requires Canonical(t) && Val(t) > 0
    requires Amount(s, e) >= Amount(t, f)
    ensures e + |s| >= f + |t|
  {
    AmountReaches(t, f);
    AmountBound(s, e);
    if e + |s| < f + |t| {
      PowMonotone(BASE, e + |s|, f + |t| - 1);
    }
  }

  /** Dropping zero bigits from the top changes no value. */
  lemma DropTopZeros(s: seq<Bigit>, n: nat)
    requires n <= |s|
    requires forall i :: n <= i < |s| ==> s[i] == 0
    ensures Val(s[..n]) == Val(s)
  {
    ValSplit(s, n);
    ValZeros(s[n..]);
    assert B(n) * 0 == 0;
  }

  /** A product of two bigits leaves room for adding one more in 64 bits. */
  lemma BigitTimesBigit(x: Bigit, y: Bigit, carry: Bigit)
    ensures x * y + carry <= (BASE - 1) * BASE
  {
    MulMonotone(x, BASE - 1, y, BASE - 1);
  }

  /** The widened product of two bigits. */
  function Product(x: Bigit, y: Bigit): DoubleBigit {
    BigitTimesBigit(x, y, 0);
    MulMonotone(0, x, 0, y);
    var r: nat := x * y;
    r
  }
}
