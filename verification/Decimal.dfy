/** Decimal digit strings: their value, rounding, and carrying past a nine. */
module Decimal {
  import opened Powers

  function DigitOf(c: char): int {
    c as int - '0' as int
  }

  function DigitChar(d: nat): char
    requires d <= 10
  {
    ('0' as int + d) as char
  }

  predicate IsDigit(c: char) {
    '0' <= c <= '9'
  }

  predicate AllDigits(s: seq<char>) {
    forall i :: 0 <= i < |s| ==> IsDigit(s[i])
  }

  /** The number that a digit string spells, leading digit first. */
  function Spelled(s: seq<char>): int {
    if s == [] then 0 else 10 * Spelled(s[..|s| - 1]) + DigitOf(s[|s| - 1])
  }

  lemma SpelledSnoc(s: seq<char>, c: char)
    ensures Spelled(s + [c]) == 10 * Spelled(s) + DigitOf(c)
  {
    assert (s + [c])[..|s|] == s;
  }

  lemma {:induction false} SpelledConcat(s: seq<char>, t: seq<char>)
    ensures Spelled(s + t) == Spelled(s) * Pow(10, |t|) + Spelled(t)
  {
    if t == [] {
      assert s + t == s;
    } else {
      var u := t[..|t| - 1];
      SpelledConcat(s, u);
      assert (s + t)[..|s + t| - 1] == s + u;
      MulAssoc(Spelled(s), Pow(10, |u|), 10);
    }
  }

  lemma {:induction false} SpelledBound(s: seq<char>)
    requires AllDigits(s)
    ensures 0 <= Spelled(s) < Pow(10, |s|)
  {
    if s != [] {
      SpelledBound(s[..|s| - 1]);
    }
  }

  /** Changing the digit at i changes the value by that much at its place. */
  lemma {:induction false} SpelledUpdate(s: seq<char>, i: nat, c: char)
    requires i < |s|
    ensures Spelled(s[i := c]) == Spelled(s) + (DigitOf(c) - DigitOf(s[i])) * Pow(10, |s| - 1 - i)
  {
    var n := |s| - 1;
    var t := s[i := c];
    if i == n {
      assert t[..n] == s[..n];
    } else {
      assert t[..n] == s[..n][i := c];
      SpelledUpdate(s[..n], i, c);
      MulAssoc(DigitOf(c) - DigitOf(s[i]), Pow(10, n - 1 - i), 10);
    }
  }

  lemma {:induction false} SpelledZeros(s: seq<char>)
    requires forall i :: 0 <= i < |s| ==> s[i] == '0'
    ensures Spelled(s) == 0
  {
    if s != [] {
      SpelledZeros(s[..|s| - 1]);
    }
  }

  /** a / d rounded to the nearest integer, ties to the even one. */
  function RoundHalfEven(a: nat, d: nat): nat
    requires d > 0
  {
    var q, r := a / d, a % d;
    if 2 * r > d || (2 * r == d && q % 2 == 1) then q + 1 else q
  }

  /** ... which no other integer is closer to, and which is even when two are equally close. */
  lemma RoundHalfEvenIsNearest(a: nat, d: nat, v: int)
    requires d > 0
    ensures Distance(a, RoundHalfEven(a, d) * d) <= Distance(a, v * d)
    ensures v != RoundHalfEven(a, d) && Distance(a, RoundHalfEven(a, d) * d) == Distance(a, v * d) ==>
      RoundHalfEven(a, d) % 2 == 0
  {
    hide RoundHalfEven;
    var q, r := Quotient(a, d), Remainder(a, d);
    RoundHalfEvenFrom(a, d, q, r);
    MulDistribute(q, 1, d);
    MulDistribute(q, 2, d);
    MulDistribute(q, -1, d);
    if v < q {
      MulMonotoneInt(v, q - 1, d);
    } else if v > q + 1 {
      MulMonotoneInt(q + 2, v, d);
    }
    NearestMultiple(a, d, q, r, q * d, 2 * r > d || (2 * r == d && q % 2 == 1), v, v * d);
  }

  /** The same with the multiples of d at hand: p is the one below a, and w another one. */
  lemma NearestMultiple(a: nat, d: nat, q: int, r: nat, p: int, up: bool, v: int, w: int)
    requires r < d && a == p + r && (up <==> 2 * r > d || (2 * r == d && q % 2 == 1))
    requires if v < q then w <= p - d else if v == q then w == p else if v == q + 1 then w == p + d else w >= p + 2 * d
    ensures Distance(a, if up then p + d else p) <= Distance(a, w)
    ensures v != (if up then q + 1 else q) && Distance(a, if up then p + d else p) == Distance(a, w) ==>
      (if up then q + 1 else q) % 2 == 0
  {
  }

  /** ... computed from any quotient and remainder. */
  lemma RoundHalfEvenFrom(a: nat, d: nat, q: nat, r: nat)
    requires r < d && a == q * d + r
    ensures RoundHalfEven(a, d) == q + if 2 * r > d || (2 * r == d && q % 2 == 1) then 1 else 0
  {
    DivModUnique(a, d, q, r);
  }

  /** It depends on the ratio alone. */
  lemma RoundHalfEvenOfRatio(a: nat, d: nat, b: nat, e: nat)
    requires d > 0 && e > 0 && a * e == b * d
    ensures RoundHalfEven(a, d) == RoundHalfEven(b, e)
  {
    RatioDivision(Quotient(a, d), Remainder(a, d), d, Quotient(b, e), Remainder(b, e), e);
  }

  lemma RatioDivision(q: int, r: nat, d: nat, p: int, t: nat, e: nat)
    requires r < d && t < e && (q * d + r) * e == (p * e + t) * d
    ensures q == p && (2 * r < d <==> 2 * t < e) && (2 * r == d <==> 2 * t == e)
  {
    CrossMultiplied(q, r, d, e);
    CrossMultiplied(p, t, e, d);
    MulCommutes(d, e);
    MulStrict(r, d, e);
    MulStrict(t, e, d);
    MulMonotone(0, r, 0, e);
    MulMonotone(0, t, 0, d);
    QuotientUnique(d * e, q, r * e, p, t * d);
    MulCancel(2 * r, d, e);
    MulCancel(2 * t, e, d);
    MulAssoc(2, r, e);
    MulAssoc(2, t, d);
  }

  lemma CrossMultiplied(q: int, r: int, d: int, e: int)
    ensures (q * d + r) * e == q * (d * e) + r * e
  {
    MulDistribute(q * d, r, e);
    MulAssoc(q, d, e);
  }

  function Distance(x: int, y: int): nat {
    if x <= y then y - x else x - y
  }

  /**
    Carries out of the last digit, which may be a ten, to the left; the value stays, and only the first digit can
    be left at ten, with zeros after it.
    */
  method CarryLeft(digits: seq<char>) returns (buf: seq<char>)
    requires digits != [] && AllDigits(digits[..|digits| - 1])
    requires 0 <= DigitOf(digits[|digits| - 1]) <= 10
    ensures |buf| == |digits| && Spelled(buf) == Spelled(digits)
    ensures AllDigits(buf[1..]) && 0 <= DigitOf(buf[0]) <= 10
    ensures DigitOf(buf[0]) == 10 ==> forall k :: 0 < k < |buf| ==> buf[k] == '0'
  {
    buf := digits;
    var i := |buf| - 1;
    while i > 0 && buf[i] > '9'
      invariant 0 <= i < |buf| == |digits|
      invariant Spelled(buf) == Spelled(digits)
      invariant AllDigits(buf[..i]) && 0 <= DigitOf(buf[i]) <= 10
      invariant forall k :: i < k < |buf| ==> buf[k] == '0'
    {
      assert buf[..i][i - 1] == buf[i - 1];
      CarryOne(buf, i);
      var up := (buf[i - 1] as int + 1) as char;
      buf := Carried(buf, i, up);
      i := i - 1;
    }
    forall k | 0 < k < |buf| ensures IsDigit(buf[k]) {
      if k < i { assert buf[k] == buf[..i][k]; }
    }
  }

  function Carried(s: seq<char>, i: nat, up: char): (t: seq<char>)
    requires 0 < i < |s|
    ensures |t| == |s| && t[..i - 1] == s[..i][..i - 1] && t[i - 1] == up && t[i] == '0'
    ensures forall k :: i < k < |s| ==> t[k] == s[k]
  {
    s[i := '0'][i - 1 := up]
  }

  lemma CarryOne(s: seq<char>, i: nat)
    requires 0 < i < |s| && DigitOf(s[i]) == 10 && IsDigit(s[i - 1])
    ensures Spelled(Carried(s, i, (s[i - 1] as int + 1) as char)) == Spelled(s)
  {
    var t := s[i := '0'];
    SpelledUpdate(s, i, '0');
    SpelledUpdate(t, i - 1, (s[i - 1] as int + 1) as char);
    assert Pow(10, |s| - 1 - (i - 1)) == 10 * Pow(10, |s| - 1 - i);
  }

  /** A ten in front with zeros after it is a power of ten; one in front is a tenth of it. */
  lemma LeadingTen(s: seq<char>)
    requires s != [] && forall k :: 0 < k < |s| ==> s[k] == '0'
    ensures Spelled(s) == DigitOf(s[0]) * Pow(10, |s| - 1)
  {
    assert s == [s[0]] + s[1..];
    SpelledConcat([s[0]], s[1..]);
    SpelledZeros(s[1..]);
    assert [s[0]][..0] == [];
  }

  /** Adds one in the last place. If every digit is a nine, the result is shown a place higher. */
  method Increment(digits: seq<char>) returns (buf: seq<char>, ten: bool)
    requires digits != [] && AllDigits(digits)
    ensures |buf| == |digits| && AllDigits(buf)
    ensures (if ten then 10 * Spelled(buf) else Spelled(buf)) == Spelled(digits) + 1
    ensures ten ==> buf[0] == '1'
  {
    var last := |digits| - 1;
    var up := (digits[last] as int + 1) as char;
    LastPlace(digits, up);
    buf := CarryLeft(digits[last := up]);
    ten := buf[0] > '9';
    if ten {
      LeadingTen(buf);
      buf := buf[0 := '1'];
      LeadingTen(buf);
    }
  }

  lemma LastPlace(digits: seq<char>, c: char)
    requires digits != []
    ensures digits[|digits| - 1 := c][..|digits| - 1] == digits[..|digits| - 1]
    ensures Spelled(digits[|digits| - 1 := c]) == Spelled(digits) + DigitOf(c) - DigitOf(digits[|digits| - 1])
  {
    SpelledUpdate(digits, |digits| - 1, c);
    assert Pow(10, 0) == 1;
  }
}
