/** Exact digit generation on bigints: fallback_format of src/3rdparty/fmt/format-inl.h. */
module Dragon4 {
  import opened Powers
  import opened Bigits
  import opened BigintModel
  import opened Decimal
  import opened FreeFormat

  /**
    Division by the denominator is exact when the numerator is not stored above it, or when no tenfold of the
    numerator ever ties with the denominator.
    */
  ghost predicate SafeDivision(n: nat, ne: nat, d: nat, de: nat) {
    ne <= de || forall k: nat :: n * Pow(10, k) != d
  }

  lemma SafeTimesTen(n: nat, ne: nat, d: nat, de: nat)
    requires SafeDivision(n, ne, d, de)
    ensures SafeDivision(10 * n, ne, d, de)
  {
    if ne > de {
      forall k: nat ensures 10 * n * Pow(10, k) != d {
        assert 10 * n * Pow(10, k) == n * Pow(10, k + 1) by { MulAssoc(n, 10, Pow(10, k)); }
      }
    }
  }

  /** ... or when it does not tie in the first rounds of a digit generation. */
  ghost predicate SafeFor(rounds: nat, n: nat, ne: nat, d: nat, de: nat) {
    ne <= de || forall k: nat :: k < rounds ==> n * Pow(10, k) != d
  }

  /** The one case in which division leaves the numerator alone instead of taking the denominator off once. */
  ghost predicate UnseenTie(n: nat, ne: nat, d: nat, de: nat) {
    n == d && ne > de
  }

  /** One digit: what divmod_assign does to a numerator of at most ten times the denominator. */
  method NextDigit(numerator: Bigint, denominator: Bigint) returns (digit: nat)
    requires numerator != denominator && numerator.Valid() && denominator.Valid()
    requires denominator.Value() > 0 && ZeroNotAbove(numerator, denominator)
    requires numerator.Value() <= 10 * denominator.Value()
    modifies numerator
    ensures numerator.Valid() && ZeroNotAbove(numerator, denominator)
    ensures old(UnseenTie(numerator.Value(), numerator.exp, denominator.Value(), denominator.exp)) ==>
      digit == 0 && numerator.Value() == old(numerator.Value())
    ensures !old(UnseenTie(numerator.Value(), numerator.exp, denominator.Value(), denominator.exp)) ==>
      && digit == old(numerator.Value()) / denominator.Value()
      && numerator.Value() == old(numerator.Value()) % denominator.Value() < denominator.Value()
    ensures old(numerator.Value()) == digit * denominator.Value() + numerator.Value()
    ensures if old(numerator.Value()) == 10 * denominator.Value() then digit == 10 else digit <= 9
    ensures numerator.exp == if digit > 0 then Min(old(numerator.exp), denominator.exp) else old(numerator.exp)
  {
    ghost var n, d := numerator.Value(), denominator.Value();
    AmountPositive(numerator.bigits, numerator.exp);
    digit := numerator.DivmodAssign(denominator);
    if numerator.Value() < d {
      DivModUnique(n, d, digit, numerator.Value());
      TenAtMost(n, d, digit, numerator.Value());
    }
  }

  lemma TenAtMost(n: nat, d: nat, digit: nat, r: nat)
    requires d > 0 && r < d && n == digit * d + r && n <= 10 * d
    ensures if n == 10 * d then digit == 10 else digit <= 9
  {
    if digit >= 10 { MulMonotone(10, digit, d, d); }
    if n == 10 * d { QuotientUnique(d, 10, 0, digit, r); }
  }

  /** ... which is a digit of the decimal expansion if ties are ruled out. */
  method SafeDigit(numerator: Bigint, denominator: Bigint) returns (digit: nat)
    requires numerator != denominator && numerator.Valid() && denominator.Valid()
    requires denominator.Value() > 0 && ZeroNotAbove(numerator, denominator)
    requires numerator.Value() < 10 * denominator.Value()
    requires SafeDivision(numerator.Value(), numerator.exp, denominator.Value(), denominator.exp)
    modifies numerator
    ensures numerator.Valid() && ZeroNotAbove(numerator, denominator)
    ensures digit == old(numerator.Value()) / denominator.Value() && digit <= 9
    ensures numerator.Value() == old(numerator.Value()) % denominator.Value()
    ensures numerator.Value() < denominator.Value()
    ensures old(numerator.Value()) == digit * denominator.Value() + numerator.Value()
    ensures numerator.exp == if digit > 0 then Min(old(numerator.exp), denominator.exp) else old(numerator.exp)
    ensures SafeDivision(10 * numerator.Value(), numerator.exp, denominator.Value(), denominator.exp)
  {
    ghost var n, ne, d := numerator.Value(), numerator.exp, denominator.Value();
    assert n * Pow(10, 0) == n;
    digit := NextDigit(numerator, denominator);
    if digit == 0 {
      SafeTimesTen(n, ne, d, denominator.exp);
    }
  }

  method TimesTen(x: Bigint)
    requires x.Valid()
    modifies x
    ensures x.Valid() && x.exp == old(x.exp) && x.Value() == 10 * old(x.Value())
  {
    ghost var v := Val(x.bigits);
    x.MultiplyBigit(10);
    MulAssoc(10, v, B(x.exp));
    MulCommutes(10, v);
  }

  // ------------------------------------------------------------------ a fixed number of digits

  /**
    The digits of numerator / denominator rounded half-even to numDigits digits; rounding up to the next power of
    ten keeps the number of digits and raises the exponent. They are all digits exactly if no tie goes unseen before
    the last one; otherwise a ten is stored for one of them.
    */
  method FixedDigits(numerator: Bigint, denominator: Bigint, numDigits: nat, exp10In: int)
    returns (buf: seq<char>, exp10: int)
    requires numDigits > 0
    requires numerator != denominator && numerator.Valid() && denominator.Valid()
    requires denominator.Value() > 0 && ZeroNotAbove(numerator, denominator)
    requires numerator.Value() < 10 * denominator.Value()
    modifies numerator
    ensures |buf| == numDigits
    ensures AllDigits(buf) <==>
            old(SafeFor(numDigits - 1, numerator.Value(), numerator.exp, denominator.Value(), denominator.exp))
    ensures var rounded := RoundHalfEven(old(numerator.Value()) * Pow(10, numDigits - 1), denominator.Value());
      || (exp10 == exp10In - (numDigits - 1) && Spelled(buf) == rounded)
      || (exp10 == exp10In - (numDigits - 1) + 1 && 10 * Spelled(buf) == rounded)
  {
    ghost var n, ne, d, de := numerator.Value(), numerator.exp, denominator.Value(), denominator.exp;
    buf := LeadingDigits(numerator, denominator, numDigits - 1);
    var digit, up := RoundingDigit(numerator, denominator, n, ne, buf);
    buf, exp10 := LastDigit(buf, digit, up, exp10In - (numDigits - 1));
  }

  /** The digit of the last round, and whether what is left behind it rounds it up. */
  method RoundingDigit(numerator: Bigint, denominator: Bigint, ghost n: nat, ghost ne: nat, buf: seq<char>)
    returns (digit: nat, up: bool)
    requires numerator != denominator && numerator.Valid() && denominator.Valid()
    requires denominator.Value() > 0 && ZeroNotAbove(numerator, denominator)
    requires Expands(n, ne, denominator.Value(), denominator.exp, numerator.Value(), numerator.exp, buf, |buf|)
    modifies numerator
    ensures digit <= 10 && (up ==> AllDigits(buf) && digit <= 9)
    ensures AllDigits(buf) && digit <= 9 <==> SafeFor(|buf|, n, ne, denominator.Value(), denominator.exp)
    ensures 10 * Spelled(buf) + digit + (if up then 1 else 0) ==
            RoundHalfEven(n * Pow(10, |buf|), denominator.Value())
  {
    ghost var d, de, left, e := denominator.Value(), denominator.exp, numerator.Value(), numerator.exp;
    digit := NextDigit(numerator, denominator);
    LastIsDigit(n, ne, d, de, left, e, buf, digit, numerator.Value());
    LastRounds(n * Pow(10, |buf|), Spelled(buf), d, de, left, e, digit, numerator.Value());
    var result := AddCompare(numerator, numerator, denominator);
    up := result > 0 || (result == 0 && digit % 2 != 0);
  }

  /** One round gives a digit and a remainder, but for a tie that goes unseen. */
  ghost predicate Round(left: nat, e: nat, d: nat, de: nat, digit: nat, r: nat) {
    && left == digit * d + r && (if left == 10 * d then digit == 10 else digit <= 9)
    && if UnseenTie(left, e, d, de) then digit == 0 && r == d else r < d
  }

  lemma NothingLeft(d: nat, left: nat, digit: nat, r: nat)
    requires d > 0 && left == digit * d + r && (r < d || (r == d && digit == 0 && left == d))
    ensures left == 0 ==> digit == 0 && r == 0
    ensures left == 10 * d && digit == 10 ==> r == 0
  {
    if digit > 0 { MulMonotone(1, digit, d, d); }
  }

  /** The last digit is one exactly if no tie has gone unseen before it, and only then something is left behind it. */
  lemma LastIsDigit(n: nat, ne: nat, d: nat, de: nat, left: nat, e: nat, buf: seq<char>, digit: nat, r: nat)
    requires d > 0 && Expands(n, ne, d, de, left, e, buf, |buf|) && Round(left, e, d, de, digit, r)
    ensures r > 0 ==> AllDigits(buf) && digit <= 9
    ensures AllDigits(buf) && digit <= 9 <==> SafeFor(|buf|, n, ne, d, de)
  {
    NothingLeft(d, left, digit, r);
    SafeOneMore(n, ne, d, de, |buf|);
  }

  /** Half-even rounding seen from the last digit: its parity is that of the whole number. */
  lemma LastRounds(scaled: nat, m: nat, d: nat, de: nat, left: nat, e: nat, digit: nat, r: nat)
    requires d > 0 && scaled == 10 * (m * d) + left && Round(left, e, d, de, digit, r)
    ensures RoundHalfEven(scaled, d) == 10 * m + digit + if r + r > d || (r + r == d && digit % 2 != 0) then 1 else 0
  {
    var q := QuotientSoFar(scaled, m, d, left, digit, r);
    RoundedDigits(scaled, q, d, digit, r);
  }

  lemma QuotientSoFar(scaled: nat, m: nat, d: nat, left: nat, digit: nat, r: nat) returns (q: nat)
    requires scaled == 10 * (m * d) + left && left == digit * d + r
    ensures q == 10 * m + digit && scaled == q * d + r && q % 2 == digit % 2
  {
    q := 10 * m + digit;
    DigitStep(scaled, m, d, left, digit, r);
  }

  /** A denominator left over from an unseen tie behind a zero rounds up to the one that it stands for. */
  lemma RoundedDigits(scaled: nat, q: nat, d: nat, digit: nat, r: nat)
    requires d > 0 && scaled == q * d + r && q % 2 == digit % 2 && (r < d || (r == d && digit == 0))
    ensures RoundHalfEven(scaled, d) == q + if r + r > d || (r + r == d && digit % 2 != 0) then 1 else 0
  {
    if r < d {
      RoundHalfEvenFrom(scaled, d, q, r);
    } else {
      MulDistribute(q, 1, d);
      RoundHalfEvenFrom(scaled, d, q + 1, 0);
    }
  }

  /**
    Where things stand before round i, for a numerator n stored at ne and a denominator d stored at de: what is left is
    in the numerator, now at exponent e, and it is ten times the denominator right after an unseen tie.
    */
  ghost predicate Expands(n: nat, ne: nat, d: nat, de: nat, left: nat, e: nat, buf: seq<char>, i: nat) {
    && |buf| == i && Spelled(buf) >= 0 && n * Pow(10, i) == 10 * (Spelled(buf) * d) + left
    && e == (if Spelled(buf) > 0 then Min(ne, de) else ne)
    && (if i > 0 && UnseenTie(n * Pow(10, i - 1), ne, d, de) then left == 10 * d else left < 10 * d)
    && (AllDigits(buf) <==> SafeFor(if i > 0 then i - 1 else 0, n, ne, d, de))
    && (!AllDigits(buf) ==> left == 0)
  }

  /** All digits but the last, leaving the remainder for it in the numerator. */
  method LeadingDigits(numerator: Bigint, denominator: Bigint, count: nat) returns (buf: seq<char>)
    requires numerator != denominator && numerator.Valid() && denominator.Valid()
    requires denominator.Value() > 0 && ZeroNotAbove(numerator, denominator)
    requires numerator.Value() < 10 * denominator.Value()
    modifies numerator
    ensures numerator.Valid() && ZeroNotAbove(numerator, denominator)
    ensures Expands(old(numerator.Value()), old(numerator.exp), denominator.Value(), denominator.exp,
                    numerator.Value(), numerator.exp, buf, count)
  {
    ghost var n, ne, d, de := numerator.Value(), numerator.exp, denominator.Value(), denominator.exp;
    buf := [];
    var i := 0;
    assert n * Pow(10, 0) == n;
    while i < count
      invariant 0 <= i <= count && numerator.Valid() && ZeroNotAbove(numerator, denominator)
      invariant Expands(n, ne, d, de, numerator.Value(), numerator.exp, buf, i)
    {
      ghost var left, e := numerator.Value(), numerator.exp;
      var digit := NextDigit(numerator, denominator);
      ExpandsOnce(n, ne, d, de, left, e, buf, i, digit, numerator.Value());
      buf := buf + [DigitChar(digit)];
      TimesTen(numerator);
      i := i + 1;
    }
  }

  /** A tie in round i goes unseen exactly if it would with the numbers as they were at the start. */
  lemma TieFromStart(n: nat, ne: nat, d: nat, de: nat, left: nat, e: nat, buf: seq<char>, i: nat)
    requires d > 0 && Expands(n, ne, d, de, left, e, buf, i)
    ensures UnseenTie(left, e, d, de) <==> UnseenTie(n * Pow(10, i), ne, d, de)
  {
    if Spelled(buf) > 0 {
      MulMonotone(1, Spelled(buf), d, d);
    } else {
      assert Spelled(buf) * d == 0;
    }
  }

  /** One round: the digit for it and what is then left, times ten. */
  lemma ExpandsOnce(n: nat, ne: nat, d: nat, de: nat, left: nat, e: nat, buf: seq<char>, i: nat, digit: nat, r: nat)
    requires d > 0 && Expands(n, ne, d, de, left, e, buf, i)
    requires Round(left, e, d, de, digit, r)
    ensures Expands(n, ne, d, de, 10 * r, if digit > 0 then Min(e, de) else e, buf + [DigitChar(digit)], i + 1)
  {
    var m, p := Spelled(buf), Pow(10, i);
    TieFromStart(n, ne, d, de, left, e, buf, i);
    SpelledSnoc(buf, DigitChar(digit));
    DigitStep(n * p, m, d, left, digit, r);
    MulTenfold(n, p);
    SafeOneMore(n, ne, d, de, i);
    DigitsSnoc(buf, digit);
    NothingLeft(d, left, digit, r);
  }

  lemma SafeOneMore(n: nat, ne: nat, d: nat, de: nat, i: nat)
    ensures SafeFor(i, n, ne, d, de) <==>
            SafeFor(if i > 0 then i - 1 else 0, n, ne, d, de) && (i == 0 || !UnseenTie(n * Pow(10, i - 1), ne, d, de))
  {
    if ne > de && i > 0 {
      assert SafeFor(i, n, ne, d, de) ==> n * Pow(10, i - 1) != d;
    }
  }

  lemma DigitsSnoc(buf: seq<char>, digit: nat)
    requires digit <= 10
    ensures AllDigits(buf + [DigitChar(digit)]) <==> AllDigits(buf) && digit <= 9
  {
    var all := buf + [DigitChar(digit)];
    assert all[|buf|] == DigitChar(digit);
    if AllDigits(all) {
      forall k | 0 <= k < |buf| ensures IsDigit(buf[k]) { assert buf[k] == all[k]; }
    }
  }

  lemma MulTenfold(n: int, p: int)
    ensures n * (10 * p) == 10 * (n * p)
  {
  }

  /** Stores the last digit, rounded up if asked for, carrying through nines and past the first digit. */
  method LastDigit(leading: seq<char>, digit: nat, up: bool, exp10In: int) returns (buf: seq<char>, exp10: int)
    requires digit <= 10 && (up ==> AllDigits(leading) && digit <= 9)
    ensures |buf| == |leading| + 1 && (AllDigits(buf) <==> AllDigits(leading) && digit <= 9)
    ensures var rounded := 10 * Spelled(leading) + digit + if up then 1 else 0;
      || (exp10 == exp10In && Spelled(buf) == rounded)
      || (exp10 == exp10In + 1 && 10 * Spelled(buf) == rounded)
  {
    exp10 := exp10In;
    if up {
      if digit == 9 {
        SpelledSnoc(leading, DigitChar(9));
        var ten: bool;
        buf, ten := Increment(leading + [DigitChar(9)]);
        if ten {
          exp10 := exp10 + 1;
        }
        return;
      }
      SpelledSnoc(leading, DigitChar(digit + 1));
      buf := leading + [DigitChar(digit + 1)];
      return;
    }
    SpelledSnoc(leading, DigitChar(digit));
    DigitsSnoc(leading, digit);
    buf := leading + [DigitChar(digit)];
  }

  lemma DigitStep(scaled: int, m: int, d: int, n: int, digit: int, r: int)
    requires scaled == 10 * (m * d) + n && n == digit * d + r
    ensures scaled == (10 * m + digit) * d + r
    ensures 10 * scaled == 10 * ((10 * m + digit) * d) + 10 * r
  {
  }

  // ------------------------------------------------------------------ as many digits as needed

  function Chars(digits: seq<nat>): (s: seq<char>)
    requires forall i :: 0 <= i < |digits| ==> digits[i] <= 10
    ensures |s| == |digits|
  {
    seq(|digits|, i requires 0 <= i < |digits| => DigitChar(digits[i]))
  }

  lemma {:induction false} CharsSpell(digits: seq<nat>)
    requires forall i :: 0 <= i < |digits| ==> digits[i] <= 10
    ensures Spelled(Chars(digits)) == Number(digits)
  {
    if digits != [] {
      var head, rest := [digits[0]], digits[1..];
      assert Chars(digits) == Chars(head) + Chars(rest);
      CharsSpell(rest);
      SpelledConcat(Chars(head), Chars(rest));
      assert Chars(head)[..0] == [];
      assert Spelled(Chars(head)) == digits[0];
    }
  }

  /** The operands of the loop: which of them may be shared, and what they must satisfy for digits to stay digits. */
  ghost predicate Ready(numerator: Bigint, denominator: Bigint, lower: Bigint, upper: Bigint, even: bool)
    reads numerator, denominator, lower, upper
  {
    && numerator !in {denominator, lower, upper} && denominator !in {lower, upper}
    && numerator.Valid() && denominator.Valid() && lower.Valid() && upper.Valid()
    && denominator.Value() > 0 && lower.Value() > 0 && upper.Value() > 0
    && ZeroNotAbove(numerator, denominator) && numerator.exp <= lower.exp
    && numerator.Value() < 10 * denominator.Value()
    && !IsHigh(numerator.Value(), upper.Value(), 10 * denominator.Value(), even)
    && SafeDivision(numerator.Value(), numerator.exp, denominator.Value(), denominator.exp)
  }

  ghost function Free(numerator: Bigint, denominator: Bigint, lower: Bigint, upper: Bigint, even: bool): seq<nat>
    requires denominator.Value() > 0 && lower.Value() > 0
    reads numerator, denominator, lower, upper
  {
    FreeDigits(numerator.Value(), numerator.exp, denominator.Value(), denominator.exp, lower.Value(), lower.exp,
               upper.Value(), even)
  }

  /**
    Generates digits until one lies within the gaps. The gaps grow in place with the remainder; upper may be the
    same bigint as lower, which then grows once a round.
    */
  method ShortestDigits(numerator: Bigint, denominator: Bigint, lower: Bigint, upper: Bigint, even: bool,
                        exp10In: int)
    returns (buf: seq<char>, exp10: int)
    requires Ready(numerator, denominator, lower, upper, even)
    modifies numerator, lower, upper
    ensures var digits := old(Free(numerator, denominator, lower, upper, even));
      && (forall i :: 0 <= i < |digits| ==> digits[i] <= 9)
      && buf == Chars(digits)
      && exp10 == exp10In - (|digits| - 1)
  {
    ghost var d, all := denominator.Value(), Free(numerator, denominator, lower, upper, even);
    FreeDigitsAreDigits(numerator.Value(), numerator.exp, d, denominator.exp, lower.Value(), lower.exp,
                        upper.Value(), even);
    var numDigits := 0;
    buf := [];
    while true
      invariant Ready(numerator, denominator, lower, upper, even)
      invariant |buf| == numDigits <= |all| && buf == Chars(all[..numDigits])
      invariant all[numDigits..] == Free(numerator, denominator, lower, upper, even)
      decreases if lower.Value() < d then d - lower.Value() else 0
    {
      ghost var left := all[numDigits..];
      var digit, last := ShortestDigit(numerator, denominator, lower, upper, even);
      numDigits := numDigits + 1;
      AppendChar(all, numDigits - 1, digit, left);
      buf := buf + [DigitChar(digit)];
      if last {
        exp10 := exp10In - (numDigits - 1);
        return;
      }
    }
  }

  /** One round: the next digit, and unless it is the last, everything scaled up for the following one. */
  method ShortestDigit(numerator: Bigint, denominator: Bigint, lower: Bigint, upper: Bigint, even: bool)
    returns (digit: nat, last: bool)
    requires Ready(numerator, denominator, lower, upper, even)
    modifies numerator, lower, upper
    ensures digit <= 10
    ensures last ==> old(Free(numerator, denominator, lower, upper, even)) == [digit]
    ensures !last ==> Ready(numerator, denominator, lower, upper, even)
    ensures !last ==>
      old(Free(numerator, denominator, lower, upper, even)) ==
      [digit] + Free(numerator, denominator, lower, upper, even)
    ensures !last ==> lower.Value() > old(lower.Value()) && old(lower.Value()) < denominator.Value()
  {
    ghost var n, ne := numerator.Value(), numerator.exp;
    digit := SafeDigit(numerator, denominator);
    FreeDigitsRound(n, ne, denominator.Value(), denominator.exp, lower.Value(), lower.exp, upper.Value(), even,
                    digit, numerator.Value());
    var c := Compare(numerator, lower);
    var low := c - (if even then 1 else 0) < 0;
    c := AddCompare(numerator, upper, denominator);
    var high := c + (if even then 1 else 0) > 0;
    last := low || high;
    if last {
      digit := FinalDigit(numerator, denominator, digit, low, high);
    } else {
      ScaleUp(numerator, lower, upper);
    }
  }

  method FinalDigit(numerator: Bigint, denominator: Bigint, digitIn: nat, low: bool, high: bool)
    returns (digit: nat)
    requires numerator.Valid() && denominator.Valid() && denominator.Value() > 0
    requires ZeroNotAbove(numerator, denominator)
    ensures digit == digitIn +
                     if RoundsUp(digitIn, numerator.Value(), denominator.Value(), low, high) then 1 else 0
  {
    digit := digitIn;
    if !low {
      digit := digit + 1;
    } else if high {
      var result := AddCompare(numerator, numerator, denominator);
      if result > 0 || (result == 0 && digit % 2 != 0) {
        digit := digit + 1;
      }
    }
  }

  method ScaleUp(numerator: Bigint, lower: Bigint, upper: Bigint)
    requires numerator !in {lower, upper}
    requires numerator.Valid() && lower.Valid() && upper.Valid()
    modifies numerator, lower, upper
    ensures numerator.Valid() && lower.Valid() && upper.Valid()
    ensures numerator.exp == old(numerator.exp) && lower.exp == old(lower.exp) && upper.exp == old(upper.exp)
    ensures numerator.Value() == 10 * old(numerator.Value())
    ensures lower.Value() == 10 * old(lower.Value()) && upper.Value() == 10 * old(upper.Value())
  {
    TimesTen(numerator);
    TimesTen(lower);
    if upper != lower {
      TimesTen(upper);
    }
  }

  lemma AppendChar(digits: seq<nat>, k: nat, digit: nat, left: seq<nat>)
    requires k < |digits| && (forall i :: 0 <= i < |digits| ==> digits[i] <= 9)
    requires left == digits[k..] && left[0] == digit
    ensures digit <= 9
    ensures Chars(digits[..k]) + [DigitChar(digit)] == Chars(digits[..k + 1])
    ensures digits[k + 1..] == left[1..]
    ensures |left| == 1 ==> digits[..k + 1] == digits
  {
  }
}
