/** The digits of the shortest mode of fallback_format as a function of the numbers, and what they achieve. */
module FreeFormat {
  import opened Powers
  import opened BigintModel

  /** The remainder r is within the lower gap l, as told by compare on storage exponents re and le. */
  predicate IsLow(r: nat, re: nat, l: nat, le: nat, even: bool) {
    Comparison(r, re, l, le) - (if even then 1 else 0) < 0
  }

  /** Rounding up is within the upper gap u. */
  predicate IsHigh(r: nat, u: nat, d: nat, even: bool) {
    Sign(r + u - d) + (if even then 1 else 0) > 0
  }

  predicate RoundsUp(q: nat, r: nat, d: nat, low: bool, high: bool) {
    !low || (high && (r + r > d || (r + r == d && q % 2 != 0)))
  }

  function ExpAfter(q: nat, ne: nat, de: nat): nat {
    if q > 0 then Min(ne, de) else ne
  }

  function FreeDigits(n: nat, ne: nat, d: nat, de: nat, l: nat, le: nat, u: nat, even: bool): seq<nat>
    requires d > 0 && l > 0
    decreases if l < d then d - l else 0
  {
    var q, r := Quotient(n, d), Remainder(n, d);
    var re := ExpAfter(q, ne, de);
    var low, high := IsLow(r, re, l, le, even), IsHigh(r, u, d, even);
    if low || high then
      [if RoundsUp(q, r, d, low, high) then q + 1 else q]
    else
      [q] + FreeDigits(10 * r, re, d, de, 10 * l, le, 10 * u, even)
  }

  /** One round of the recursion, for a quotient and remainder known from elsewhere. */
  lemma FreeDigitsRound(n: nat, ne: nat, d: nat, de: nat, l: nat, le: nat, u: nat, even: bool, q: nat, r: nat)
    requires d > 0 && l > 0 && ne <= le && n == q * d + r && r < d
    ensures var re := ExpAfter(q, ne, de);
      var low, high := IsLow(r, re, l, le, even), IsHigh(r, u, d, even);
      && (!low ==> l <= r)
      && FreeDigits(n, ne, d, de, l, le, u, even) ==
         if low || high then [if RoundsUp(q, r, d, low, high) then q + 1 else q]
         else [q] + FreeDigits(10 * r, re, d, de, 10 * l, le, 10 * u, even)
  {
    DivModUnique(n, d, q, r);
  }

  function Number(digits: seq<nat>): nat {
    if digits == [] then 0 else digits[0] * Pow(10, |digits| - 1) + Number(digits[1..])
  }

  /** How far v, at j places after the first digit, lies above n / d. */
  function Offset(v: int, j: nat, n: nat, d: nat): int {
    v * d - n * Pow(10, j)
  }

  /** v lies in the rounding interval around n / d, whose ends belong to it for an even significand. */
  ghost predicate Inside(v: int, j: nat, n: nat, d: nat, l: nat, u: nat, even: bool) {
    var offset := Offset(v, j, n, d);
    if even then -(l * Pow(10, j)) <= offset <= u * Pow(10, j)
    else -(l * Pow(10, j)) < offset < u * Pow(10, j)
  }

  /** v, at j places after the first digit, is the lower end of the interval. */
  predicate IsLowerEnd(v: int, j: nat, n: nat, d: nat, l: nat) {
    Offset(v, j, n, d) == -(l * Pow(10, j))
  }

  /** v lies closer to n / d than w does. */
  predicate Closer(v: int, w: int, j: nat, n: nat, d: nat) {
    Magnitude(Offset(v, j, n, d)) < Magnitude(Offset(w, j, n, d))
  }

  ghost predicate NoneShorter(last: int, n: nat, d: nat, l: nat, u: nat, even: bool) {
    forall v: int, j: nat :: j < last ==> !Inside(v, j, n, d, l, u, even)
  }

  /** The lower end is a decimal of m + 1 digits, and no other one of at most that many lies in the interval. */
  ghost predicate LowerEndAlone(w: int, m: nat, n: nat, d: nat, l: nat, u: nat, even: bool) {
    IsLowerEnd(w, m, n, d, l) && forall v :: Inside(v, m, n, d, l, u, even) ==> v == w
  }

  ghost predicate NoneCloser(w: int, last: nat, n: nat, d: nat, l: nat, u: nat, even: bool) {
    forall v :: Inside(v, last, n, d, l, u, even) ==> !Closer(v, w, last, n, d)
  }

  /**
    The lower end is a decimal of m + 1 digits, the next one after it is inside but further away, and no other one
    of fewer digits lies in the interval.
    */
  ghost predicate LowerEndNearest(w: int, m: nat, n: nat, d: nat, l: nat, u: nat, even: bool) {
    && IsLowerEnd(w, m, n, d, l)
    && Inside(w + 1, m, n, d, l, u, even) && Closer(w, w + 1, m, n, d)
    && forall v: int, j: nat :: j < m && Inside(v, j, n, d, l, u, even) ==> IsLowerEnd(v, j, n, d, l)
  }

  /** compare tells a tie with the lower gap when the two are stored at the same exponent, and it stays so. */
  predicate TiesAreSeen(ne: nat, de: nat, le: nat, even: bool) {
    !even || ne == le <= de
  }

  // ------------------------------------------------------------------ one round

  /** Dropping the leading digit q leaves the same picture at ten times the scale. */
  lemma PeelOffset(v: int, j: nat, n: nat, d: nat)
    requires d > 0
    ensures Offset(v, j + 1, n, d) == Offset(v - Quotient(n, d) * Pow(10, j + 1), j, 10 * Remainder(n, d), d)
  {
    var q, r, p := Quotient(n, d), Remainder(n, d), Pow(10, j);
    assert n == q * d + r;
    PeelArithmetic(v, q, r, d, p);
  }

  lemma PeelArithmetic(v: int, q: int, r: int, d: int, p: int)
    ensures v * d - (q * d + r) * (10 * p) == (v - q * (10 * p)) * d - (10 * r) * p
  {
    var x := 10 * p;
    assert (q * d + r) * x == q * x * d + r * x;
    assert r * x == (10 * r) * p;
    assert (v - q * x) * d == v * d - q * x * d;
  }

  lemma PeelOffsetTo(v: int, w: int, j: nat, n: nat, d: nat)
    requires d > 0 && v == w + Quotient(n, d) * Pow(10, j + 1)
    ensures Offset(v, j + 1, n, d) == Offset(w, j, 10 * Remainder(n, d), d)
  {
    PeelOffset(v, j, n, d);
  }

  lemma PeelInside(v: int, j: nat, n: nat, d: nat, l: nat, u: nat, even: bool)
    requires d > 0
    ensures Inside(v, j + 1, n, d, l, u, even) ==
            Inside(v - Quotient(n, d) * Pow(10, j + 1), j, 10 * Remainder(n, d), d, 10 * l, 10 * u, even)
  {
    PeelOffset(v, j, n, d);
    MulAssoc(l, 10, Pow(10, j));
    MulAssoc(u, 10, Pow(10, j));
  }

  /** At the first digit the offsets of q and of what lies on either side of it are known. */
  lemma FirstOffset(v: int, n: nat, d: nat)
    requires d > 0
    ensures v <= Quotient(n, d) ==> Offset(v, 0, n, d) + Remainder(n, d) <= 0
    ensures v < Quotient(n, d) ==> Offset(v, 0, n, d) + Remainder(n, d) + d <= 0
    ensures v > Quotient(n, d) ==> Offset(v, 0, n, d) >= d - Remainder(n, d)
    ensures v > Quotient(n, d) + 1 ==> Offset(v, 0, n, d) >= d - Remainder(n, d) + d
    ensures v == Quotient(n, d) ==> Offset(v, 0, n, d) + Remainder(n, d) == 0
    ensures v == Quotient(n, d) + 1 ==> Offset(v, 0, n, d) == d - Remainder(n, d)
  {
    var q, r := Quotient(n, d), Remainder(n, d);
    assert n == q * d + r;
    assert v * d - n == (v - q) * d - r by { MulDistribute(v - q, q, d); }
    assert Pow(10, 0) == 1;
    if v <= q { MulMonotoneInt(v - q, 0, d); }
    if v < q { MulMonotoneInt(v - q, -1, d); }
    if v > q { MulMonotoneInt(1, v - q, d); }
    if v > q + 1 { MulMonotoneInt(2, v - q, d); }
  }

  /** When neither gap is seen to reach a one-digit number, only the lower end of the interval can be one. */
  lemma FirstOutside(v: int, n: nat, d: nat, l: nat, u: nat, even: bool)
    requires d > 0 && Remainder(n, d) >= l && !IsHigh(Remainder(n, d), u, d, even)
    ensures Inside(v, 0, n, d, l, u, even) ==> even && IsLowerEnd(v, 0, n, d, l)
  {
    FirstOffset(v, n, d);
    assert Pow(10, 0) == 1;
  }

  lemma NumberPeel(q: nat, digits: seq<nat>)
    ensures Number([q] + digits) == q * Pow(10, |digits|) + Number(digits)
  {
    assert ([q] + digits)[1..] == digits;
  }

  lemma LowIsSound(r: nat, re: nat, l: nat, le: nat, even: bool)
    requires re <= le
    ensures IsLow(r, re, l, le, even) ==> r < l || (even && r == l)
    ensures !IsLow(r, re, l, le, even) ==> r >= l
    ensures !even || re == le ==> (IsLow(r, re, l, le, even) <==> r < l || (even && r == l))
  {
  }

  // ------------------------------------------------------------------ the theorems

  /** Every digit is a digit, even after the final increment. */
  lemma {:induction false} FreeDigitsAreDigits(n: nat, ne: nat, d: nat, de: nat, l: nat, le: nat, u: nat, even: bool)
    requires d > 0 && l > 0 && n < 10 * d && ne <= le
    requires !IsHigh(n, u, 10 * d, even)
    ensures forall i :: 0 <= i < |FreeDigits(n, ne, d, de, l, le, u, even)| ==>
      FreeDigits(n, ne, d, de, l, le, u, even)[i] <= 9
    decreases if l < d then d - l else 0
  {
    var q, r := Quotient(n, d), Remainder(n, d);
    var re := ExpAfter(q, ne, de);
    assert n == q * d + r;
    if q >= 10 { MulMonotone(10, q, d, d); }
    if !IsLow(r, re, l, le, even) && !IsHigh(r, u, d, even) {
      LowIsSound(r, re, l, le, even);
      FreeDigitsAreDigits(10 * r, re, d, de, 10 * l, le, 10 * u, even);
    }
  }

  /** Where a gap reaches a one-digit number, the rounded quotient is inside. */
  lemma FirstInside(n: nat, d: nat, l: nat, u: nat, even: bool, low: bool, digit: nat)
    requires d > 0 && l > 0 && u > 0
    requires low ==> Remainder(n, d) < l || (even && Remainder(n, d) == l)
    requires low || IsHigh(Remainder(n, d), u, d, even)
    requires var q, r := Quotient(n, d), Remainder(n, d);
      digit == if RoundsUp(q, r, d, low, IsHigh(r, u, d, even)) then q + 1 else q
    ensures Number([digit]) == digit && Inside(digit, 0, n, d, l, u, even)
  {
    FirstOffset(digit, n, d);
    assert Pow(10, 0) == 1 && [digit][1..] == [];
  }

  /** The number spelled lies in the rounding interval. */
  lemma {:induction false} FreeDigitsInside(n: nat, ne: nat, d: nat, de: nat, l: nat, le: nat, u: nat, even: bool)
    requires d > 0 && l > 0 && ne <= le
    requires u > 0
    ensures var digits := FreeDigits(n, ne, d, de, l, le, u, even);
      digits != [] && Inside(Number(digits), |digits| - 1, n, d, l, u, even)
    decreases if l < d then d - l else 0
  {
    var q, r := Quotient(n, d), Remainder(n, d);
    var re := ExpAfter(q, ne, de);
    var low, high := IsLow(r, re, l, le, even), IsHigh(r, u, d, even);
    var digits := FreeDigits(n, ne, d, de, l, le, u, even);
    LowIsSound(r, re, l, le, even);
    if low || high {
      FirstInside(n, d, l, u, even, low, digits[0]);
    } else {
      var rest := FreeDigits(10 * r, re, d, de, 10 * l, le, 10 * u, even);
      FreeDigitsInside(10 * r, re, d, de, 10 * l, le, 10 * u, even);
      NumberPeel(q, rest);
      PeelInside(Number(digits), |rest| - 1, n, d, l, u, even);
    }
  }

  /** However the numbers are stored, the only shorter number inside can be the lower end of the interval. */
  lemma {:induction false} OnlyLowerEndMissed(n: nat, ne: nat, d: nat, de: nat, l: nat, le: nat, u: nat, even: bool,
                                              v: int, j: nat)
    requires d > 0 && l > 0 && ne <= le
    requires j < |FreeDigits(n, ne, d, de, l, le, u, even)| - 1 && Inside(v, j, n, d, l, u, even)
    ensures even && IsLowerEnd(v, j, n, d, l)
    decreases if l < d then d - l else 0
  {
    var q, r := Quotient(n, d), Remainder(n, d);
    var re := ExpAfter(q, ne, de);
    LowIsSound(r, re, l, le, even);
    if j == 0 {
      FirstOutside(v, n, d, l, u, even);
      assert Pow(10, 0) == 1;
    } else {
      var rest := FreeDigits(10 * r, re, d, de, 10 * l, le, 10 * u, even);
      assert FreeDigits(n, ne, d, de, l, le, u, even) == [q] + rest;
      var w := v - q * Pow(10, j);
      PeelInside(v, j - 1, n, d, l, u, even);
      OnlyLowerEndMissed(10 * r, re, d, de, 10 * l, le, 10 * u, even, w, j - 1);
      PeelLowerEnd(v, w, j - 1, n, d, l);
    }
  }

  lemma PeelLowerEnd(v: int, w: int, j: nat, n: nat, d: nat, l: nat)
    requires d > 0 && v == w + Quotient(n, d) * Pow(10, j + 1)
    ensures IsLowerEnd(v, j + 1, n, d, l) == IsLowerEnd(w, j, 10 * Remainder(n, d), d, 10 * l)
  {
    PeelOffsetTo(v, w, j, n, d);
    MulAssoc(l, 10, Pow(10, j));
  }

  /** Where ties are seen, the lower end is not missed either. */
  lemma {:induction false} SeenTiesEnd(n: nat, ne: nat, d: nat, de: nat, l: nat, le: nat, u: nat, even: bool,
                                       v: int, j: nat)
    requires d > 0 && l > 0 && ne <= le && TiesAreSeen(ne, de, le, even)
    requires j < |FreeDigits(n, ne, d, de, l, le, u, even)| - 1
    ensures !Inside(v, j, n, d, l, u, even)
    decreases if l < d then d - l else 0
  {
    var q, r := Quotient(n, d), Remainder(n, d);
    var re := ExpAfter(q, ne, de);
    LowIsSound(r, re, l, le, even);
    if j == 0 {
      FirstOutside(v, n, d, l, u, even);
      FirstOffset(v, n, d);
    } else {
      var rest := FreeDigits(10 * r, re, d, de, 10 * l, le, 10 * u, even);
      assert FreeDigits(n, ne, d, de, l, le, u, even) == [q] + rest;
      SeenTiesEnd(10 * r, re, d, de, 10 * l, le, 10 * u, even, v - q * Pow(10, j), j - 1);
      PeelInside(v, j - 1, n, d, l, u, even);
    }
  }

  /** Where ties are not seen, the digits never spell the lower end of an interval of positive numbers. */
  lemma {:induction false} LowerEndNotSpelled(n: nat, ne: nat, d: nat, de: nat, l: nat, le: nat, u: nat)
    requires d > 0 && l > 0 && (ne < le || (ne == le && de < le && n > l))
    ensures var digits := FreeDigits(n, ne, d, de, l, le, u, true);
      digits != [] && !IsLowerEnd(Number(digits), |digits| - 1, n, d, l)
    decreases if l < d then d - l else 0
  {
    var q, r := Quotient(n, d), Remainder(n, d);
    var re := ExpAfter(q, ne, de);
    var low, high := IsLow(r, re, l, le, true), IsHigh(r, u, d, true);
    var digits := FreeDigits(n, ne, d, de, l, le, u, true);
    LowIsSound(r, re, l, le, true);
    if low || high {
      assert Number(digits) == digits[0];
      FirstOffset(digits[0], n, d);
      assert n == q * d + r;
      assert Pow(10, 0) == 1;
    } else {
      var rest := FreeDigits(10 * r, re, d, de, 10 * l, le, 10 * u, true);
      LowerEndNotSpelled(10 * r, re, d, de, 10 * l, le, 10 * u);
      NumberPeel(q, rest);
      PeelLowerEnd(Number(digits), Number(rest), |rest| - 1, n, d, l);
    }
  }

  /**
    No number with fewer digits lies in the interval, exactly if ties are seen or the interval does not have its lower
    end as its only number of some length.
    */
  lemma FreeDigitsShortest(n: nat, ne: nat, d: nat, de: nat, l: nat, le: nat, u: nat, even: bool)
    requires d > 0 && u > 0 && 0 < l < n && ne <= le
    ensures NoneShorter(|FreeDigits(n, ne, d, de, l, le, u, even)| - 1, n, d, l, u, even) <==>
            TiesAreSeen(ne, de, le, even) || !exists w: int, m: nat :: LowerEndAlone(w, m, n, d, l, u, even)
  {
    var last := |FreeDigits(n, ne, d, de, l, le, u, even)| - 1;
    if TiesAreSeen(ne, de, le, even) {
      forall v: int, j: nat | j < last ensures !Inside(v, j, n, d, l, u, even) {
        SeenTiesEnd(n, ne, d, de, l, le, u, even, v, j);
      }
    } else {
      forall w: int, m: nat | LowerEndAlone(w, m, n, d, l, u, even)
        ensures m < last && Inside(w, m, n, d, l, u, even)
      {
        AloneIsShorter(n, ne, d, de, l, le, u, w, m);
      }
      forall w: int, m: nat | m < last && Inside(w, m, n, d, l, u, even)
        ensures LowerEndAlone(w, m, n, d, l, u, even)
      {
        MissedIsAlone(n, ne, d, de, l, le, u, even, w, m);
      }
    }
  }

  /** Digits that do not spell the lower end are longer than it if nothing else of its length is inside. */
  lemma AloneIsShorter(n: nat, ne: nat, d: nat, de: nat, l: nat, le: nat, u: nat, w: int, m: nat)
    requires d > 0 && u > 0 && 0 < l < n && ne <= le && !TiesAreSeen(ne, de, le, true)
    requires LowerEndAlone(w, m, n, d, l, u, true)
    ensures m < |FreeDigits(n, ne, d, de, l, le, u, true)| - 1 && Inside(w, m, n, d, l, u, true)
  {
    var digits := FreeDigits(n, ne, d, de, l, le, u, true);
    var last := |digits| - 1;
    FreeDigitsInside(n, ne, d, de, l, le, u, true);
    LowerEndNotSpelled(n, ne, d, de, l, le, u);
    if last <= m {
      Padded(Number(digits), last, m - last, n, d, l, u, true);
      assert false;
    }
    EndIsInside(w, m, n, d, l, u);
  }

  lemma EndIsInside(w: int, m: nat, n: nat, d: nat, l: nat, u: nat)
    requires IsLowerEnd(w, m, n, d, l)
    ensures Inside(w, m, n, d, l, u, true)
  {
    MulMonotone(0, l, 0, Pow(10, m));
    MulMonotone(0, u, 0, Pow(10, m));
  }

  lemma MissedIsAlone(n: nat, ne: nat, d: nat, de: nat, l: nat, le: nat, u: nat, even: bool, w: int, m: nat)
    requires d > 0 && l > 0 && ne <= le
    requires m < |FreeDigits(n, ne, d, de, l, le, u, even)| - 1 && Inside(w, m, n, d, l, u, even)
    ensures LowerEndAlone(w, m, n, d, l, u, even)
  {
    forall v | v == w || Inside(v, m, n, d, l, u, even) ensures v == w && IsLowerEnd(v, m, n, d, l) {
      OnlyLowerEndMissed(n, ne, d, de, l, le, u, even, v, m);
      OnlyLowerEndMissed(n, ne, d, de, l, le, u, even, w, m);
      MulCancel(v, w, d);
    }
  }

  /** Zeros behind a number leave it where it is in the interval. */
  lemma Padded(v: int, j: nat, k: nat, n: nat, d: nat, l: nat, u: nat, even: bool)
    ensures Inside(v, j, n, d, l, u, even) == Inside(v * Pow(10, k), j + k, n, d, l, u, even)
    ensures IsLowerEnd(v, j, n, d, l) == IsLowerEnd(v * Pow(10, k), j + k, n, d, l)
  {
    var p, x, offset := Pow(10, k), Pow(10, j), Offset(v, j, n, d);
    PowAdd(10, j, k);
    PowPositive(10, k);
    PaddedOffset(v, n, d, x, p);
    assert Offset(v * p, j + k, n, d) == offset * p;
    MulAssoc(l, x, p);
    MulAssoc(u, x, p);
    assert (-(l * x)) * p == -(l * x * p);
    MulCancel(-(l * x), offset, p);
    MulCancel(offset, u * x, p);
  }

  lemma PaddedOffset(v: int, n: int, d: int, x: int, p: int)
    ensures v * p * d - n * (x * p) == (v * d - n * x) * p
  {
    assert v * p * d == v * d * p;
    assert n * (x * p) == n * x * p;
  }

  // ------------------------------------------------------------------ the nearest number

  /** Where a gap reaches a one-digit number, nothing inside is closer but perhaps the lower end. */
  lemma FirstNearest(n: nat, d: nat, l: nat, u: nat, even: bool, low: bool, v: int)
    requires d > 0 && Inside(v, 0, n, d, l, u, even)
    requires if low then Remainder(n, d) < l || (even && Remainder(n, d) == l) else Remainder(n, d) >= l
    requires low || IsHigh(Remainder(n, d), u, d, even)
    ensures var q, r := Quotient(n, d), Remainder(n, d);
      var digit := if RoundsUp(q, r, d, low, IsHigh(r, u, d, even)) then q + 1 else q;
      && Number([digit]) == digit
      && (Closer(v, digit, 0, n, d) ==> even && !low && IsLowerEnd(v, 0, n, d, l))
  {
    var q, r := Quotient(n, d), Remainder(n, d);
    var digit := if RoundsUp(q, r, d, low, IsHigh(r, u, d, even)) then q + 1 else q;
    assert Pow(10, 0) == 1 && [digit][1..] == [];
    FirstOffset(digit, n, d);
    FirstOffset(v, n, d);
  }

  /** However the numbers are stored, the only closer number of the same length can be the lower end. */
  lemma {:induction false} OnlyLowerEndCloser(n: nat, ne: nat, d: nat, de: nat, l: nat, le: nat, u: nat, even: bool,
                                              v: int)
    requires d > 0 && l > 0 && ne <= le
    requires Inside(v, |FreeDigits(n, ne, d, de, l, le, u, even)| - 1, n, d, l, u, even)
    ensures var digits := FreeDigits(n, ne, d, de, l, le, u, even);
      Closer(v, Number(digits), |digits| - 1, n, d) ==>
        !TiesAreSeen(ne, de, le, even) && IsLowerEnd(v, |digits| - 1, n, d, l)
    decreases if l < d then d - l else 0
  {
    var q, r := Quotient(n, d), Remainder(n, d);
    var re := ExpAfter(q, ne, de);
    var low, high := IsLow(r, re, l, le, even), IsHigh(r, u, d, even);
    var digits := FreeDigits(n, ne, d, de, l, le, u, even);
    LowIsSound(r, re, l, le, even);
    if low || high {
      FirstNearest(n, d, l, u, even, low, v);
      EndIsRemainder(v, n, d, l);
    } else {
      var rest := FreeDigits(10 * r, re, d, de, 10 * l, le, 10 * u, even);
      assert digits == [q] + rest;
      var w := v - q * Pow(10, |rest|);
      PeelInside(v, |rest| - 1, n, d, l, u, even);
      OnlyLowerEndCloser(10 * r, re, d, de, 10 * l, le, 10 * u, even, w);
      PeelCloser(q, rest, v, w, n, d);
      PeelLowerEnd(v, w, |rest| - 1, n, d, l);
    }
  }

  lemma EndIsRemainder(v: int, n: nat, d: nat, l: nat)
    requires d > 0 && l > 0
    ensures IsLowerEnd(v, 0, n, d, l) && Remainder(n, d) >= l ==> Remainder(n, d) == l
  {
    FirstOffset(v, n, d);
    assert Pow(10, 0) == 1;
  }

  /**
    No number of the same length in the interval is closer, exactly if ties are seen or the lower end is not the
    nearest number of the length at which the digits end. With equal gaps it never is.
    */
  lemma FreeDigitsNearest(n: nat, ne: nat, d: nat, de: nat, l: nat, le: nat, u: nat, even: bool)
    requires d > 0 && u > 0 && 0 < l < n && ne <= le
    ensures var digits := FreeDigits(n, ne, d, de, l, le, u, even);
      digits != [] &&
      (NoneCloser(Number(digits), |digits| - 1, n, d, l, u, even) <==>
       TiesAreSeen(ne, de, le, even) || !exists w: int, m: nat :: LowerEndNearest(w, m, n, d, l, u, even))
    ensures u <= l ==> !exists w: int, m: nat :: LowerEndNearest(w, m, n, d, l, u, even)
  {
    var digits := FreeDigits(n, ne, d, de, l, le, u, even);
    var last, num := |digits| - 1, Number(digits);
    FreeDigitsInside(n, ne, d, de, l, le, u, even);
    forall v | Inside(v, last, n, d, l, u, even) && Closer(v, num, last, n, d)
      ensures !TiesAreSeen(ne, de, le, even) && LowerEndNearest(v, last, n, d, l, u, even)
    {
      CloserIsNearestEnd(n, ne, d, de, l, le, u, even, v);
    }
    forall w: int, m: nat | LowerEndNearest(w, m, n, d, l, u, even)
      ensures !TiesAreSeen(ne, de, le, even) ==> !NoneCloser(num, last, n, d, l, u, even)
      ensures u > l
    {
      PowPositive(10, m);
      if u <= l { MulMonotone(u, l, Pow(10, m), Pow(10, m)); }
      if !TiesAreSeen(ne, de, le, even) {
        NearestEndIsCloser(n, ne, d, de, l, le, u, w, m);
      }
    }
  }

  lemma CloserIsNearestEnd(n: nat, ne: nat, d: nat, de: nat, l: nat, le: nat, u: nat, even: bool, v: int)
    requires d > 0 && l > 0 && u > 0 && ne <= le
    requires var digits := FreeDigits(n, ne, d, de, l, le, u, even);
      Inside(v, |digits| - 1, n, d, l, u, even) && Closer(v, Number(digits), |digits| - 1, n, d)
    ensures !TiesAreSeen(ne, de, le, even)
    ensures LowerEndNearest(v, |FreeDigits(n, ne, d, de, l, le, u, even)| - 1, n, d, l, u, even)
  {
    var digits := FreeDigits(n, ne, d, de, l, le, u, even);
    var last, num := |digits| - 1, Number(digits);
    FreeDigitsInside(n, ne, d, de, l, le, u, even);
    OnlyLowerEndCloser(n, ne, d, de, l, le, u, even, v);
    BeyondEnd(v, num, last, n, d, l, u, even);
    OffsetOrder(v, v + 1, last, n, d);
    if Inside(v + 1, last, n, d, l, u, even) && Closer(v + 1, num, last, n, d) {
      OnlyLowerEndCloser(n, ne, d, de, l, le, u, even, v + 1);
    }
    forall w: int, j: nat | j < last && Inside(w, j, n, d, l, u, even) ensures IsLowerEnd(w, j, n, d, l) {
      OnlyLowerEndMissed(n, ne, d, de, l, le, u, even, w, j);
    }
  }

  lemma OffsetOrder(v: int, w: int, j: nat, n: nat, d: nat)
    requires d > 0
    ensures Offset(v, j, n, d) < Offset(w, j, n, d) <==> v < w
    ensures Offset(v, j, n, d) == Offset(w, j, n, d) <==> v == w
  {
    MulCancel(v, w, d);
  }

  /** A number inside that is further away than the lower end lies beyond n / d, and its predecessor is inside. */
  lemma BeyondEnd(v: int, w: int, j: nat, n: nat, d: nat, l: nat, u: nat, even: bool)
    requires d > 0 && IsLowerEnd(v, j, n, d, l) && Inside(w, j, n, d, l, u, even) && Closer(v, w, j, n, d)
    ensures Offset(w, j, n, d) > l * Pow(10, j) && v + 1 <= w
    ensures Inside(v + 1, j, n, d, l, u, even)
  {
    OffsetOrder(v, w, j, n, d);
    OffsetOrder(v, v + 1, j, n, d);
    OffsetOrder(w, v + 1, j, n, d);
  }

  lemma NearestEndIsCloser(n: nat, ne: nat, d: nat, de: nat, l: nat, le: nat, u: nat, w: int, m: nat)
    requires d > 0 && u > 0 && 0 < l < n && ne <= le && !TiesAreSeen(ne, de, le, true)
    requires LowerEndNearest(w, m, n, d, l, u, true)
    ensures var digits := FreeDigits(n, ne, d, de, l, le, u, true);
      |digits| - 1 == m && Inside(w, m, n, d, l, u, true) && Closer(w, Number(digits), m, n, d)
  {
    var digits := FreeDigits(n, ne, d, de, l, le, u, true);
    var last, num := |digits| - 1, Number(digits);
    FreeDigitsInside(n, ne, d, de, l, le, u, true);
    LowerEndNotSpelled(n, ne, d, de, l, le, u);
    OffsetOrder(w, w + 1, m, n, d);
    if m < last {
      OnlyLowerEndMissed(n, ne, d, de, l, le, u, true, w + 1, m);
    }
    OffsetOrder(w, num, m, n, d);
    OffsetOrder(w + 1, num, m, n, d);
  }

  /** Whatever is closer with the first digit in front is so without it. */
  lemma PeelCloser(q: nat, rest: seq<nat>, v: int, w: int, n: nat, d: nat)
    requires d > 0 && q == Quotient(n, d) && rest != [] && v == w + q * Pow(10, |rest|)
    ensures Closer(v, Number([q] + rest), |rest|, n, d) ==
            Closer(w, Number(rest), |rest| - 1, 10 * Remainder(n, d), d)
  {
    NumberPeel(q, rest);
    PeelOffsetTo(v, w, |rest| - 1, n, d);
    PeelOffsetTo(Number([q] + rest), Number(rest), |rest| - 1, n, d);
  }

  /**
    A tie that is not seen is passed by: the quotient alone lies on the lower end of the interval, and the digits go
    on behind it.
    */
  lemma UnseenTieIsNotShortest(n: nat, ne: nat, d: nat, de: nat, l: nat, le: nat, u: nat)
    requires l > 0 && ne <= le && Min(ne, de) < le
    requires d > 0 && n >= d && n % d == l && l + u < d
    ensures IsLowerEnd(n / d, 0, n, d, l) && Inside(n / d, 0, n, d, l, u, true)
    ensures |FreeDigits(n, ne, d, de, l, le, u, true)| > 1
  {
    assert n / d > 0 by { MulMonotone(1, d, 1, d); DivModUnique(n, d, n / d, n % d); }
    FirstOffset(n / d, n, d);
    assert Pow(10, 0) == 1;
  }
}
