/** What in-place subtraction with a borrow does to the value of a bigit string. */
module Subtraction {
  import opened Powers
  import opened Bigits

  lemma {:induction false} ValUpdate(s: seq<Bigit>, i: nat, x: Bigit)
    requires i < |s|
    ensures Val(s[i := x]) == Val(s) + (x - s[i]) * B(i)
  {
    var t := s[i := x];
    if i == 0 {
      assert t[1..] == s[1..];
    } else {
      assert t[1..] == s[1..][i - 1 := x];
      ValUpdate(s[1..], i - 1, x);
      MulShift(BASE, x - s[i], B(i - 1));
    }
  }

  lemma MulShift(b: int, d: int, w: int)
    ensures b * (d * w) == d * (b * w)
  {
    MulAssoc(b, d, w);
    MulAssoc(d, b, w);
  }

  /** The bigits of was up to index shift + j have had the first j bigits of other taken off, but for a borrow. */
  ghost predicate LowSubtracted(was: seq<Bigit>, now: seq<Bigit>, other: seq<Bigit>, shift: nat, j: nat, borrow: nat) {
    && borrow <= 1 && j <= |other| && shift + j <= |now| == |was| && now[shift + j..] == was[shift + j..]
    && Val(now[..shift + j]) - borrow * B(shift + j) == Val(was[..shift + j]) - Val(other[..j]) * B(shift)
  }

  lemma SubtractStep(was: seq<Bigit>, before: seq<Bigit>, after: seq<Bigit>, other: seq<Bigit>, shift: nat,
                     j: nat, borrowIn: nat, borrowOut: nat)
    requires j < |other| && shift + j < |was| && borrowOut <= 1
    requires LowSubtracted(was, before, other, shift, j, borrowIn)
    requires |after| == |before| && after == before[shift + j := after[shift + j]]
    requires after[shift + j] - borrowOut * BASE == before[shift + j] - other[j] - borrowIn
    ensures LowSubtracted(was, after, other, shift, j + 1, borrowOut)
  {
    var i := shift + j;
    ValTakeStep(after, i);
    ValTakeStep(was, i);
    ValTakeStep(other, j);
    assert after[..i] == before[..i];
    assert before[i] == before[i..][0] == was[i];
    assert after[i + 1..] == before[i..][1..];
    PowAdd(BASE, shift, j);
    TakeOneMore(Val(other[..j]), other[j], B(j), B(shift));
    BorrowArithmetic(after[i], before[i], other[j], borrowIn, borrowOut, B(i));
  }

  lemma TakeOneMore(v: int, d: int, a: int, b: int)
    ensures (v + d * a) * b == v * b + d * (b * a)
  {
    MulAssoc(d, a, b);
  }

  lemma BorrowArithmetic(after: int, before: int, other: int, borrowIn: int, borrowOut: int, w: int)
    requires after - borrowOut * BASE == before - other - borrowIn
    ensures after * w - borrowOut * (BASE * w) == before * w - other * w - borrowIn * w
  {
    MulAssoc(borrowOut, BASE, w);
    assert (after - borrowOut * BASE) * w == (before - other - borrowIn) * w;
  }

  /** The storage after the borrow loop has run on bigit i. */
  function Settled(s: seq<Bigit>, i: nat, borrow: Bigit): (r: seq<Bigit>)
    requires borrow > 0 ==> i < |s|
  {
    if borrow == 0 then s else s[i := if s[i] == 0 then BASE - 2 else s[i] - 1]
  }

  /** A borrow leaves the subtracted bigits exactly when they hold less than is subtracted from them. */
  lemma BorrowOut(was: seq<Bigit>, low: seq<Bigit>, other: seq<Bigit>, shift: nat, out: nat)
    requires out <= 1 && shift + |other| <= |was| == |low|
    requires Val(low[..shift + |other|]) - out * B(shift + |other|) ==
             Val(was[..shift + |other|]) - Val(other) * B(shift)
    ensures out == 1 <==> Val(was[..shift + |other|]) < Val(other) * B(shift)
  {
    ValBound(low[..shift + |other|]);
    BorrowMeansLess(Val(low[..shift + |other|]), Val(was[..shift + |other|]), Val(other) * B(shift),
                    B(shift + |other|), out);
  }

  lemma BorrowMeansLess(low: int, was: int, taken: int, w: int, out: nat)
    requires out <= 1 && 0 <= low < w && low - out * w == was - taken
    ensures out == 1 <==> was < taken
  {
    if out == 1 {
      assert out * w == w;
    } else {
      assert out * w == 0;
    }
  }

  /** A number that is not below the other has a bigit to borrow from. */
  lemma EnoughBigits(was: seq<Bigit>, other: seq<Bigit>, shift: nat, e: nat)
    requires shift + |other| <= |was|
    requires Amount(was, e) >= Amount(other, e + shift)
    ensures Val(was[..shift + |other|]) < Val(other) * B(shift) ==> shift + |other| < |was|
  {
    PowAdd(BASE, shift, e);
    BPositive(e);
    MulAssoc(Val(other), B(shift), B(e));
    MulCancel(Val(was), Val(other) * B(shift), B(e));
    if shift + |other| == |was| {
      assert was[..|was|] == was;
    }
  }

  /** How far the borrow loop misses: it loses a borrow that should go on to the next bigit. */
  function Excess(was: seq<Bigit>, i: nat, borrow: Bigit): Bigit
    requires borrow > 0 ==> i < |was|
  {
    if borrow > 0 && was[i] == 0 then BASE - 1 else 0
  }

  lemma SettledValue(was: seq<Bigit>, low: seq<Bigit>, i: nat, taken: int, out: Bigit)
    requires out <= 1 && i <= |was| == |low| && (out == 1 ==> i < |was|)
    requires low[i..] == was[i..]
    requires Val(low[..i]) == Val(was[..i]) - taken + if out == 1 then B(i) else 0
    ensures Val(Settled(low, i, out)) == Val(was) - taken + Excess(was, i, out) * B(i)
  {
    ValSplit(was, i);
    ValSplit(low, i);
    if out == 1 {
      var now := Settled(low, i, out);
      assert low[i] == low[i..][0] && was[i] == was[i..][0];
      ValUpdate(low, i, now[i]);
      assert now[i] + 1 == low[i] + Excess(was, i, out);
      MulDistribute(Excess(was, i, out), -1, B(i));
    }
  }

  lemma SettledAmount(was: seq<Bigit>, low: seq<Bigit>, other: seq<Bigit>, shift: nat, e: nat, i: nat, out: Bigit)
    requires out <= 1 && i == shift + |other| <= |was| == |low| && (out == 1 ==> i < |was|)
    requires low[i..] == was[i..]
    requires Val(low[..i]) == Val(was[..i]) - Val(other) * B(shift) + if out == 1 then B(i) else 0
    ensures Amount(Settled(low, i, out), e) ==
            Amount(was, e) - Amount(other, e + shift) + Excess(was, i, out) * B(e + i)
  {
    SettledValue(was, low, i, Val(other) * B(shift), out);
    var now, extra := Settled(low, i, out), Excess(was, i, out);
    assert Val(now) == Val(was) - Val(other) * B(shift) + extra * B(i);
    DifferenceAmount(now, was, other, shift, e, i, extra);
  }

  /** The borrow of a subtraction of other, shifted, is left for a bigit that is zero. */
  ghost predicate MeetsZero(was: seq<Bigit>, other: seq<Bigit>, shift: nat) {
    var k := shift + |other|;
    k < |was| && was[k] == 0 && Val(was[..k]) < Val(other) * B(shift)
  }

  /** After the borrow loop the difference is there, or too much when the borrow met a zero. */
  lemma SettledDifference(was: seq<Bigit>, low: seq<Bigit>, other: seq<Bigit>, shift: nat, e: nat, out: Bigit)
    requires LowSubtracted(was, low, other, shift, |other|, out)
    requires Amount(was, e) >= Amount(other, e + shift)
    ensures var i := shift + |other|;
      && (out == 1 ==> i < |low|)
      && Amount(Settled(low, i, out), e) == Amount(was, e) - Amount(other, e + shift) +
         if MeetsZero(was, other, shift) then (BASE - 1) * B(e + i) else 0
  {
    var i := shift + |other|;
    assert other[..|other|] == other;
    BorrowOut(was, low, other, shift, out);
    EnoughBigits(was, other, shift, e);
    SettledAmount(was, low, other, shift, e, i, out);
  }

  lemma DifferenceAmount(now: seq<Bigit>, was: seq<Bigit>, other: seq<Bigit>, shift: nat, e: nat, i: nat, extra: int)
    requires Val(now) == Val(was) - Val(other) * B(shift) + extra * B(i)
    ensures Amount(now, e) == Amount(was, e) - Amount(other, e + shift) + extra * B(e + i)
  {
    PowAdd(BASE, shift, e);
    PowAdd(BASE, i, e);
    AmountArithmetic(Val(now), Val(was), Val(other), B(shift), extra, B(i), B(e));
  }

  lemma AmountArithmetic(v: int, was: int, other: int, s: int, extra: int, k: int, e: int)
    requires v == was - other * s + extra * k
    ensures v * e == was * e - other * (s * e) + extra * (k * e)
  {
    MulAssoc(other, s, e);
    MulAssoc(extra, k, e);
  }
}
