/** Fixed-precision digit generation with a tracked error: grisu_gen_digits of src/3rdparty/fmt/format-inl.h. */
module Grisu {
  import opened Powers
  import opened Decimal
  import opened Words

  datatype Direction = Unknown | Up | Down

  datatype Outcome = More | Done | Failed

  /**
    Down when every remainder within the error rounds down, up when every one rounds up; the comparisons are
    arranged so that no 64-bit operation overflows.
    */
  function RoundDirection(divisor: Word64, remainder: Word64, error: Word64): (d: Direction)
    requires remainder < divisor && error < divisor && error < divisor - error
    ensures d == Down <==> 2 * (remainder + error) <= divisor
    ensures d == Up <==> 2 * (remainder as int - error) >= divisor && 2 * (remainder + error) > divisor
  {
    if AllDown(divisor, remainder, error) then Down
    else if AllUp(divisor, remainder, error) then Up
    else Unknown
  }

  predicate AllDown(divisor: Word64, remainder: Word64, error: Word64)
    requires remainder < divisor && error < divisor - error
  {
    var left: Word64 := divisor - remainder;
    if remainder <= left then
      var twiceError: Word64, twiceRemainder: Word64 := error * 2, remainder * 2;
      var room: Word64 := divisor - twiceRemainder;
      twiceError <= room
    else false
  }

  predicate AllUp(divisor: Word64, remainder: Word64, error: Word64)
    requires remainder < divisor
  {
    if remainder >= error then
      var least: Word64 := remainder - error;
      var room: Word64 := divisor - least;
      least >= room
    else false
  }

  /** d units are as near as any number of units to everything from lo to hi. */
  predicate NearestToAll(lo: int, hi: int, unit: int, d: int) {
    2 * (hi - d * unit) <= unit && 2 * (d * unit - lo) <= unit
  }

  /** That is: for every real number in between, and every other number of units. */
  lemma NearestToEach(lo: int, hi: int, unit: int, d: int, t: real, other: int)
    requires NearestToAll(lo, hi, unit, d) && unit > 0 && lo as real <= t <= hi as real
    ensures Abs(t - (d * unit) as real) <= Abs(t - (other * unit) as real)
  {
    MulDistribute(other, 1, unit);
    MulDistribute(d, 1, unit);
    if other < d {
      MulMonotoneInt(other + 1, d, unit);
      NearerThan(lo, hi, unit, d * unit, t, other * unit);
    } else if other > d {
      MulMonotoneInt(d + 1, other, unit);
      NearerThan(lo, hi, unit, d * unit, t, other * unit);
    }
  }

  lemma NearerThan(lo: int, hi: int, unit: int, x: int, t: real, y: int)
    requires 2 * (hi - x) <= unit && 2 * (x - lo) <= unit && lo as real <= t <= hi as real
    requires y + unit <= x || x + unit <= y
    ensures Abs(t - x as real) <= Abs(t - y as real)
  {
    assert 2.0 * (t - x as real) <= unit as real && 2.0 * (x as real - t) <= unit as real;
  }

  function Abs(x: real): real {
    if x < 0.0 then -x else x
  }

  /** The digits so far and the remainder make up the value: value * scale == spelled * unit + remainder. */
  predicate Tracks(value: int, scale: int, m: int, unit: int, remainder: int) {
    value * scale == m * unit + remainder
  }

  lemma RoundedDown(value: int, scale: int, m: int, unit: int, remainder: int)
    requires Tracks(value, scale, m, unit, remainder) && 0 <= remainder && 0 <= scale
    requires 2 * (remainder + scale) <= unit
    ensures NearestToAll((value - 1) * scale, (value + 1) * scale, unit, m)
  {
    MulDistribute(value, 1, scale);
    MulDistribute(value, -1, scale);
  }

  lemma RoundedUp(value: int, scale: int, m: int, unit: int, remainder: int)
    requires Tracks(value, scale, m, unit, remainder) && remainder < unit && 2 * scale < unit
    requires 2 * (remainder - scale) >= unit
    ensures NearestToAll((value - 1) * scale, (value + 1) * scale, unit, m + 1)
  {
    MulDistribute(value, 1, scale);
    MulDistribute(value, -1, scale);
    MulDistribute(m, 1, unit);
  }

  /** No number of units is nearest to everything from lo to hi: some of it rounds down and some of it up. */
  ghost predicate NothingNearest(lo: int, hi: int, unit: int) {
    forall m :: !NearestToAll(lo, hi, unit, m)
  }

  lemma Undecided(value: int, scale: int, m: int, unit: int, remainder: int)
    requires Tracks(value, scale, m, unit, remainder)
    requires 2 * (remainder - scale) < unit < 2 * (remainder + scale) && unit > 0
    ensures NothingNearest((value - 1) * scale, (value + 1) * scale, unit)
  {
    var lo, hi := (value - 1) * scale, (value + 1) * scale;
    forall other ensures !NearestToAll(lo, hi, unit, other) {
      NotNearest(value, scale, m, unit, remainder, other);
    }
  }

  lemma NotNearest(value: int, scale: int, m: int, unit: int, remainder: int, other: int)
    requires Tracks(value, scale, m, unit, remainder)
    requires 2 * (remainder - scale) < unit < 2 * (remainder + scale) && unit > 0
    ensures !NearestToAll((value - 1) * scale, (value + 1) * scale, unit, other)
  {
    MulDistribute(value, 1, scale);
    MulDistribute(value, -1, scale);
    if other <= m {
      MulMonotoneInt(other, m, unit);
    } else {
      MulDistribute(m, 1, unit);
      MulMonotoneInt(m + 1, other, unit);
    }
  }

  class FixedHandler {
    var buf: seq<char>
    var precision: int
    var exp10: int
    const fixed: bool

    constructor (precision: int, exp10: int, fixed: bool)
      ensures buf == [] && this.precision == precision && this.exp10 == exp10 && this.fixed == fixed
    {
      buf, this.precision, this.exp10, this.fixed := [], precision, exp10, fixed;
    }

    /** How many units the digits stand for, given the decimal exponent before they were rounded. */
    ghost function Units(exp10Before: int): int
      reads this
    {
      if exp10 == exp10Before then Spelled(buf) else 10 * Spelled(buf)
    }

    method OnStart(divisor: Word64, remainder: Word64, error: Word64, exp: int) returns (r: Outcome)
      requires remainder < divisor && error < divisor && error < divisor - error
      requires buf == []
      modifies this
      ensures exp10 == old(exp10) && AllDigits(buf)
      ensures precision == if fixed then old(precision) + exp + exp10 else old(precision)
      ensures !fixed || precision > 0 ==> r == More && buf == []
      ensures fixed && precision < 0 ==> r == Done && buf == []
      ensures fixed && precision == 0 ==>
        match RoundDirection(divisor, remainder, error)
        case Unknown => r == Failed && buf == []
        case Down => r == Done && buf == "0"
        case Up => r == Done && buf == "1"
    {
      if !fixed {
        return More;
      }
      precision := precision + exp + exp10;
      if precision > 0 {
        return More;
      }
      if precision < 0 {
        return Done;
      }
      var dir := RoundDirection(divisor, remainder, error);
      if dir == Unknown {
        return Failed;
      }
      buf := buf + [if dir == Up then '1' else '0'];
      r := Done;
    }

    method OnDigit(digit: char, divisor: Word64, remainder: Word64, error: Word64, integral: bool,
                   ghost value: int, ghost scale: int)
      returns (r: Outcome)
      requires remainder < divisor && IsDigit(digit) && AllDigits(buf)
      requires integral ==> error == 1 && divisor > 2
      requires error == scale && Tracks(value, scale, 10 * Spelled(buf) + DigitOf(digit), divisor, remainder)
      modifies this
      ensures AllDigits(buf) && precision == old(precision)
      ensures r == More ==> |buf| < precision && buf == old(buf) + [digit] && exp10 == old(exp10)
      ensures r == More && !integral ==> error < remainder
      ensures r == Done ==> |old(buf)| + 1 >= precision
      ensures r == Done ==> |buf| == |old(buf)| + 1 || (fixed && |buf| == |old(buf)| + 2 && buf[0] == '1')
      ensures r == Done ==> exp10 == old(exp10) || (!fixed && exp10 == old(exp10) + 1)
      ensures r == Done ==>
        NearestToAll((value - 1) * scale, (value + 1) * scale, divisor, Units(old(exp10)))
      ensures r == Failed <==>
        || (!integral && error >= remainder)
        || (&& |old(buf)| + 1 >= precision
            && (|| (!integral && 2 * error >= divisor)
                || NothingNearest((value - 1) * scale, (value + 1) * scale, divisor)))
    {
      hide NearestToAll;
      SpelledSnoc(buf, digit);
      buf := buf + [digit];
      if !integral && error >= remainder {
        return Failed;
      }
      if |buf| < precision {
        return More;
      }
      if !integral && (error >= divisor || error >= divisor - error) {
        return Failed;
      }
      var dir := RoundDirection(divisor, remainder, error);
      if dir != Up {
        if dir == Down {
          RoundedDown(value, scale, Spelled(buf), divisor, remainder);
          return Done;
        }
        Undecided(value, scale, Spelled(buf), divisor, remainder);
        return Failed;
      }
      RoundedUp(value, scale, Spelled(buf), divisor, remainder);
      RoundUp();
      r := Done;
    }

    /** Increments the number the digits spell; a carry out of the first digit costs a digit or an exponent. */
    method RoundUp()
      requires buf != [] && AllDigits(buf)
      modifies this`buf, this`exp10
      ensures AllDigits(buf)
      ensures exp10 == old(exp10) || (!fixed && exp10 == old(exp10) + 1)
      ensures |buf| == |old(buf)| || (fixed && |buf| == |old(buf)| + 1 && buf[0] == '1')
      ensures Units(old(exp10)) == old(Spelled(buf)) + 1
    {
      var ten: bool;
      buf, ten := Increment(buf);
      if ten {
        if fixed {
          SpelledSnoc(buf, '0');
          buf := buf + ['0'];
        } else {
          exp10 := exp10 + 1;
        }
      }
    }
  }

  // ------------------------------------------------------------------ the generator

  function CountDigits(n: nat): (c: nat)
    requires n > 0
    ensures c > 0 && Pow(10, c - 1) <= n < Pow(10, c)
  {
    if n < 10 then assert Pow(10, 0) == 1 && Pow(10, 1) == 10; 1 else 1 + CountDigits(n / 10)
  }

  /** The unit of the digit that follows when exp decimal places are left, in fractions of one. */
  function Unit(one: nat, exp: int): nat {
    if exp >= 0 then Pow(10, exp) * one else one
  }

  /** ... and by how much the value is scaled up once they are used up. */
  function Scale(exp: int): nat {
    if exp >= 0 then 1 else Pow(10, -exp)
  }

  /** What done means, exp places being left. */
  ghost predicate Sound(value: nat, one: nat, exp: int, units: int) {
    NearestToAll((value - 1) * Scale(exp), (value + 1) * Scale(exp), Unit(one, exp), units)
  }

  /** Everything within the error of the value does not round to one number at that place. */
  ghost predicate NothingSound(value: nat, one: nat, exp: int) {
    NothingNearest((value - 1) * Scale(exp), (value + 1) * Scale(exp), Unit(one, exp))
  }

  /** The error, scaled up with the value, is half a unit or has caught up with what is left behind the digits. */
  predicate CaughtUp(value: nat, one: nat, exp: int)
    requires one > 0
  {
    exp < 0 && (Remainder(value * Scale(exp), one) <= Scale(exp) || 2 * Scale(exp) >= one)
  }

  /** With no digits asked for, a tenth of the value is within ten times the error of half a unit. */
  predicate StartUndecided(value: nat, unit: nat) {
    2 * (value / 10 - 10) < unit < 2 * (value / 10 + 10)
  }

  /**
    The digits of value / one with an error of one unit in the last place of value. Reporting them as done means
    that they are a nearest decimal, at their place, to everything within the error.
    */
  method GenDigits(value: Word64, shift: nat, handler: FixedHandler) returns (r: Outcome, exp: int)
    requires 32 <= shift <= 60 && 0 < Pow(2, shift) <= value < 0x1_0000_0000 * Pow(2, shift)
    requires handler.buf == []
    modifies handler
    ensures r != More && AllDigits(handler.buf)
    ensures r == Done && handler.buf != [] ==>
      Sound(value, Pow(2, shift), exp, handler.Units(old(handler.exp10)))
    ensures r == Done && handler.buf == [] ==>
      var place := CountDigits(value / Pow(2, shift)) - handler.precision;
      && handler.fixed && handler.precision < 0
      && 2 * (value + 1) < Unit(Pow(2, shift), place) && Sound(value, Pow(2, shift), place, 0)
    ensures r == Done && (handler.fixed ==> handler.precision > 0) ==>
      CountDigits(value / Pow(2, shift)) - exp == if handler.precision > 1 then handler.precision else 1
    ensures r == Failed ==>
      if handler.fixed && handler.precision == 0 then
        StartUndecided(value, Pow(10, CountDigits(value / Pow(2, shift)) - 1) * Pow(2, shift))
      else CaughtUp(value, Pow(2, shift), exp) || NothingSound(value, Pow(2, shift), exp)
  {
    hide Pow, CountDigits, RoundDirection, NearestToAll, NothingNearest, Spelled;
    var one := Pow(2, shift);
    OneIsSmall(shift);
    var integral: nat := value / one;
    var fractional: Word64 := value % one;
    exp := CountDigits(integral);
    StartFits(value, one, integral, exp);
    var divisor: Word64 := Pow(10, exp - 1) * one;
    r := handler.OnStart(divisor, value / 10, 10, exp);
    if r != More {
      if handler.buf != [] {
        StartIsSound(value, one, exp, RoundDirection(divisor, value / 10, 10));
        OneDigitSpells();
      } else if r == Done {
        BelowThePlace(value, one, exp, exp - handler.precision);
      }
      return;
    }
    r, exp := IntegralDigits(value, one, integral, fractional, exp, handler);
    if r != More {
      return;
    }
    r, exp := FractionalDigits(value, one, fractional, handler);
  }

  lemma OneDigitSpells()
    ensures Spelled("0") == 0 && Spelled("1") == 1
  {
    SpelledSnoc([], '0');
    SpelledSnoc([], '1');
  }

  lemma OneIsSmall(shift: nat)
    requires 32 <= shift <= 60
    ensures 0x1_0000_0000 <= Pow(2, shift) <= 0x1000_0000_0000_0000
  {
    assert Pow(2, 8) == 256;
    PowAdd(2, 8, 8);
    assert Pow(2, 16) == 65536;
    PowAdd(2, 16, 16);
    assert Pow(2, 32) == 0x1_0000_0000;
    PowAdd(2, 32, 16);
    assert Pow(2, 48) == 0x1_0000_0000_0000;
    assert Pow(2, 12) == 16 * Pow(2, 8);
    PowAdd(2, 48, 12);
    PowMonotone(2, 32, shift);
    PowMonotone(2, shift, 60);
  }

  lemma StartFits(value: nat, one: nat, integral: nat, exp: nat)
    requires one > 1000 && integral == value / one > 0 && exp == CountDigits(integral)
    ensures Pow(10, exp - 1) * one <= value < Pow(10, exp) * one
    ensures value / 10 < Pow(10, exp - 1) * one && Pow(10, exp - 1) * one > 1000
    ensures value == integral * one + value % one
  {
    PowPositive(10, exp - 1);
    var fraction := FractionOf(value, one, integral);
    FitsBetween(value, one, integral, fraction, Pow(10, exp - 1), Pow(10, exp));
  }

  lemma FractionOf(value: nat, one: nat, integral: nat) returns (fraction: nat)
    requires one > 0 && integral == value / one
    ensures fraction == value % one < one && value == integral * one + fraction
  {
    fraction := value % one;
  }

  lemma FitsBetween(value: nat, one: nat, integral: nat, fraction: nat, p: nat, q: nat)
    requires value == integral * one + fraction && fraction < one && one > 1000
    requires 1 <= p <= integral < q && q == 10 * p
    ensures 1000 < p * one <= value < q * one && value / 10 < p * one
  {
    MulMonotone(p, integral, one, one);
    MulMonotone(integral + 1, q, one, one);
    MulDistribute(integral, 1, one);
    MulAssoc(10, p, one);
    MulMonotone(1, p, one, one);
  }

  /** With no digits wanted, a tenth of the value and ten times the error still decide soundly. */
  lemma StartIsSound(value: Word64, one: nat, exp: nat, d: Direction)
    requires one > 1000 && value / one > 0 && exp == CountDigits(value / one)
    requires Pow(10, exp - 1) * one < 0x1_0000_0000_0000_0000
    requires value / 10 < Pow(10, exp - 1) * one && 10 < Pow(10, exp - 1) * one - 10
    requires d == RoundDirection(Pow(10, exp - 1) * one, value / 10, 10)
    ensures d == Down ==> Sound(value, one, exp, 0)
    ensures d == Up ==> Sound(value, one, exp, 1)
  {
    StartFits(value, one, value / one, exp);
    MulAssoc(10, Pow(10, exp - 1), one);
    assert Scale(exp) == 1 && Unit(one, exp) == 10 * (Pow(10, exp - 1) * one);
  }

  /** A place above the leading digit is out of reach: everything within the error is below half of it. */
  lemma BelowThePlace(value: nat, one: nat, exp: nat, place: nat)
    requires one > 1000 && value < Pow(10, exp) * one && exp < place
    ensures 2 * (value + 1) < Unit(one, place) && Sound(value, one, place, 0)
  {
    PowMonotone(10, exp + 1, place);
    MulMonotone(10 * Pow(10, exp), Pow(10, place), one, one);
    MulAssoc(10, Pow(10, exp), one);
    PowPositive(10, exp);
    MulMonotone(1, Pow(10, exp), one, one);
    assert 0 * Unit(one, place) == 0;
  }

  /** The digits before the point. */
  method IntegralDigits(value: Word64, one: nat, integralIn: nat, fractional: nat, expIn: int, handler: FixedHandler)
    returns (r: Outcome, exp: int)
    requires 1000 < one && expIn > 0 && handler.buf == []
    requires value == integralIn * one + fractional && fractional < one
    requires integralIn < Pow(10, expIn) && Pow(10, expIn - 1) * one <= value
    modifies handler
    ensures AllDigits(handler.buf) && handler.precision == old(handler.precision)
    ensures r == More ==> exp == 0 && |handler.buf| == expIn < handler.precision
    ensures r == More ==> value == Spelled(handler.buf) * one + fractional
    ensures r == More ==> handler.exp10 == old(handler.exp10)
    ensures r == Done ==> handler.buf != [] && expIn - exp == if handler.precision > 1 then handler.precision else 1
    ensures r == Done ==> Sound(value, one, exp, handler.Units(old(handler.exp10)))
    ensures r == Failed ==> NothingSound(value, one, exp)
  {
    var integral: nat := integralIn;
    exp := expIn;
    r := More;
    assert Spelled([]) * Pow(10, exp) == 0;
    while exp > 0
      invariant r == More && 0 <= exp <= expIn && integral < Pow(10, exp) && AllDigits(handler.buf)
      invariant handler.precision == old(handler.precision) && handler.exp10 == old(handler.exp10)
      invariant value == (Spelled(handler.buf) * Pow(10, exp) + integral) * one + fractional
      invariant exp > 0 ==> Pow(10, exp - 1) * one <= value
      invariant |handler.buf| == expIn - exp && (exp < expIn ==> |handler.buf| < handler.precision)
    {
      exp := exp - 1;
      if exp > 0 {
        MulMonotone(Pow(10, exp - 1), Pow(10, exp), one, one);
      }
      r, integral := IntegralDigit(value, one, integral, fractional, exp, handler);
      if r != More {
        return;
      }
    }
    assert Pow(10, 0) == 1;
  }

  /** One digit before the point, exp of them being left after it. */
  method IntegralDigit(value: Word64, one: nat, integral: nat, fractional: nat, exp: nat, handler: FixedHandler)
    returns (r: Outcome, rest: nat)
    requires 1000 < one && fractional < one && AllDigits(handler.buf)
    requires integral < Pow(10, exp + 1) && Pow(10, exp) * one <= value
    requires value == (Spelled(handler.buf) * Pow(10, exp + 1) + integral) * one + fractional
    modifies handler
    ensures AllDigits(handler.buf) && handler.precision == old(handler.precision)
    ensures r == More ==> handler.exp10 == old(handler.exp10) && rest < Pow(10, exp)
    ensures r == More ==> |handler.buf| == |old(handler.buf)| + 1 < handler.precision
    ensures r == More ==> value == (Spelled(handler.buf) * Pow(10, exp) + rest) * one + fractional
    ensures r == Done ==> handler.buf != [] && |old(handler.buf)| + 1 >= handler.precision
    ensures r == Done ==> Sound(value, one, exp, handler.Units(old(handler.exp10)))
    ensures r == Failed ==> NothingSound(value, one, exp)
  {
    PowPositive(10, exp);
    var digit, unit, remainder;
    digit, rest, unit, remainder :=
      DivmodIntegral(value, integral, Pow(10, exp), one, fractional, Spelled(handler.buf));
    SpelledSnoc(handler.buf, DigitChar(digit));
    r := handler.OnDigit(DigitChar(digit), unit, remainder, 1, true, value, 1);
  }

  /** Splits off the leading digit, and says what is left of the value and how much a unit of the digit is worth. */
  method DivmodIntegral(value: Word64, integral: nat, p: nat, one: nat, fractional: nat, ghost m: int)
    returns (digit: nat, rest: nat, unit: Word64, remainder: Word64)
    requires p > 0 && integral < 10 * p && fractional < one && 1000 < one && p * one <= value
    requires value == (m * (10 * p) + integral) * one + fractional
    ensures digit <= 9 && rest < p && 1000 < unit && remainder < unit
    ensures unit == p * one && Tracks(value, 1, 10 * m + digit, unit, remainder)
    ensures value == ((10 * m + digit) * p + rest) * one + fractional
  {
    MulMonotone(1, p, one, one);
    DigitSplit(integral, p);
    digit, rest := integral / p, integral % p;
    IntegralStep(value, m, integral, digit, rest, p, one, fractional);
    Regroup(value, 10 * m + digit, p, rest, one, fractional);
    unit, remainder := p * one, rest * one + fractional;
  }

  lemma DigitSplit(n: nat, p: nat)
    requires p > 0 && n < 10 * p
    ensures 0 <= n / p <= 9 && 0 <= n % p < p && n == n / p * p + n % p
  {
    assert n == n / p * p + n % p;
    if n / p >= 10 {
      MulMonotone(10, n / p, p, p);
    }
  }

  lemma IntegralStep(value: int, m: int, integral: int, digit: int, rest: int, p: int, one: int, fractional: int)
    requires value == (m * (10 * p) + integral) * one + fractional
    requires integral == digit * p + rest && 0 <= rest < p && 0 <= fractional < one
    ensures Tracks(value, 1, 10 * m + digit, p * one, rest * one + fractional)
    ensures 0 <= rest * one + fractional < p * one
  {
    assert m * (10 * p) + digit * p == (10 * m + digit) * p;
    MulDistribute((10 * m + digit) * p, rest, one);
    MulAssoc(10 * m + digit, p, one);
    MulMonotoneInt(rest + 1, p, one);
    MulDistribute(rest, 1, one);
  }

  lemma Regroup(value: int, m: int, p: int, rest: int, one: int, fractional: int)
    requires Tracks(value, 1, m, p * one, rest * one + fractional)
    ensures value == (m * p + rest) * one + fractional
  {
    MulAssoc(m, p, one);
    MulDistribute(m * p, rest, one);
  }

  /** The digits behind the point, until the handler is satisfied or the error has caught up with the remainder. */
  method FractionalDigits(value: Word64, one: nat, fractionalIn: nat, handler: FixedHandler)
    returns (r: Outcome, exp: int)
    requires 1000 < one <= 0x1000_0000_0000_0000 && fractionalIn < one && AllDigits(handler.buf)
    requires value == Spelled(handler.buf) * one + fractionalIn && |handler.buf| < handler.precision
    modifies handler
    ensures r != More && AllDigits(handler.buf) && handler.precision == old(handler.precision)
    ensures r == Done ==> handler.buf != [] && |old(handler.buf)| - exp == handler.precision
    ensures r == Done ==> Sound(value, one, exp, handler.Units(old(handler.exp10)))
    ensures r == Failed ==> CaughtUp(value, one, exp) || NothingSound(value, one, exp)
  {
    var fractional: Word64 := fractionalIn;
    var error: Word64 := 1;
    exp := 0;
    while true
      invariant exp <= 0 && error == Pow(10, -exp) < one && fractional < one && AllDigits(handler.buf)
      invariant handler.precision == old(handler.precision) && handler.exp10 == old(handler.exp10)
      invariant Tracks(value, error, Spelled(handler.buf), one, fractional)
      invariant |handler.buf| == |old(handler.buf)| - exp < handler.precision
      decreases one - error
    {
      exp := exp - 1;
      r, fractional, error := FractionalDigit(value, one, fractional, error, exp, handler);
      if r != More {
        return;
      }
    }
  }

  /** One digit behind the point, the one at place exp. */
  method FractionalDigit(value: Word64, one: nat, before: Word64, scale: Word64, ghost exp: int, handler: FixedHandler)
    returns (r: Outcome, fractional: Word64, error: Word64)
    requires 1000 < one <= 0x1000_0000_0000_0000 && before < one && AllDigits(handler.buf)
    requires exp < 0 && scale == Pow(10, -exp - 1) < one
    requires Tracks(value, scale, Spelled(handler.buf), one, before)
    modifies handler
    ensures AllDigits(handler.buf) && handler.precision == old(handler.precision) && error == Pow(10, -exp)
    ensures r == More ==> handler.exp10 == old(handler.exp10) && error < fractional < one
    ensures r == More ==> Tracks(value, error, Spelled(handler.buf), one, fractional)
    ensures r == More ==> |handler.buf| == |old(handler.buf)| + 1 < handler.precision
    ensures r == Done ==> handler.buf != [] && |old(handler.buf)| + 1 >= handler.precision
    ensures r == Done ==> Sound(value, one, exp, handler.Units(old(handler.exp10)))
    ensures r == Failed ==> CaughtUp(value, one, exp) || NothingSound(value, one, exp)
  {
    hide NearestToAll, NothingNearest, Spelled;
    error := scale * 10;
    var digit;
    digit, fractional := DivmodFractional(value, scale, one, before, Spelled(handler.buf));
    SpelledSnoc(handler.buf, DigitChar(digit));
    r := handler.OnDigit(DigitChar(digit), one, fractional, error, false, value, error);
  }

  /** Ten times what is left is the next digit and what is left behind it. */
  method DivmodFractional(value: Word64, ghost scale: nat, one: nat, before: Word64, ghost m: int)
    returns (digit: nat, fractional: Word64)
    requires 0 < one <= 0x1000_0000_0000_0000 && before < one && Tracks(value, scale, m, one, before)
    ensures digit <= 9 && fractional < one && Tracks(value, 10 * scale, 10 * m + digit, one, fractional)
    ensures Remainder(value * (10 * scale), one) == fractional
  {
    fractional := before * 10;
    DigitSplit(fractional, one);
    digit, fractional := fractional / one, fractional % one;
    FractionalStep(value, scale, m, one, before, digit, fractional);
    MulMonotone(0, value, 0, 10 * scale);
    LeftOver(value * (10 * scale), one, 10 * m + digit, fractional);
  }

  lemma LeftOver(n: nat, d: nat, q: int, r: nat)
    requires r < d && n == q * d + r
    ensures Remainder(n, d) == r
  {
    DivModUnique(n, d, q, r);
  }

  lemma FractionalStep(value: int, scale: int, m: int, one: int, before: int, digit: int, rest: int)
    requires Tracks(value, scale, m, one, before) && 10 * before == digit * one + rest
    ensures Tracks(value, 10 * scale, 10 * m + digit, one, rest)
  {
    assert value * (10 * scale) == 10 * (value * scale);
    assert (10 * m + digit) * one == 10 * (m * one) + digit * one;
  }
}
