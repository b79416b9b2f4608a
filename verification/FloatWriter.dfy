/** write_float and write_exponent of src/3rdparty/fmt/format.h: laying out decimal digits as text. */
module FloatWriter {
  import opened Powers
  import opened Wrappers
  import opened Decimal

  datatype Format = General | Exponent | Fixed | Hex

  datatype Specs = Specs(format: Format, precision: int, upper: bool, showpoint: bool)

  // ------------------------------------------------------------------ reading a number

  /** coefficient * 10^exponent */
  datatype Number = Number(coefficient: int, exponent: int) {
    /** Less than 10^k. */
    predicate Below(k: int) {
      if k >= exponent then coefficient < Pow(10, k - exponent) else coefficient * Pow(10, exponent - k) < 1
    }

    predicate Equals(other: Number) {
      var low := if exponent < other.exponent then exponent else other.exponent;
      coefficient * Pow(10, exponent - low) == other.coefficient * Pow(10, other.exponent - low)
    }
  }

  /** How many digits a text starts with. */
  function Run(s: string): (n: nat)
    ensures n <= |s|
  {
    if s != [] && IsDigit(s[0]) then 1 + Run(s[1..]) else 0
  }

  /** The digits in front of the point, those behind it, and the rest. */
  datatype Parts = Parts(whole: string, fraction: string, tail: string)

  function Split(s: string, point: char): Parts {
    var n := Run(s);
    var rest := s[n..];
    if rest != [] && rest[0] == point then SplitFraction(s[..n], rest[1..]) else Parts(s[..n], [], rest)
  }

  function SplitFraction(whole: string, s: string): Parts {
    var m := Run(s);
    Parts(whole, s[..m], s[m..])
  }

  /** Reads digits, optionally a point and more digits, optionally an exponent with its sign, and nothing else. */
  function Read(s: string, point: char): Option<Number> {
    ReadParts(Split(s, point))
  }

  function ReadParts(parts: Parts): Option<Number> {
    if parts.whole == [] then None
    else ReadExponent(Number(Spelled(parts.whole + parts.fraction), -(|parts.fraction| as int)), parts.tail)
  }

  predicate IsMark(c: char) { c == 'e' || c == 'E' }

  function ReadExponent(number: Number, s: string): Option<Number> {
    if s == [] then
      Some(number)
    else if |s| >= 3 && IsMark(s[0]) && (s[1] == '+' || s[1] == '-') && AllDigits(s[2..]) then
      Some(number.(exponent := number.exponent + if s[1] == '-' then -Spelled(s[2..]) else Spelled(s[2..])))
    else
      None
  }

  // ------------------------------------------------------------------ the exponent

  function Pad(n: nat, width: nat): (s: string)
    ensures |s| == width && AllDigits(s)
  {
    if width == 0 then [] else Pad(n / 10, width - 1) + [DigitChar(n % 10)]
  }

  lemma {:induction false} PadSpells(n: nat, width: nat)
    requires n < Pow(10, width)
    ensures Spelled(Pad(n, width)) == n
  {
    if width > 0 {
      PadSpells(n / 10, width - 1);
      SpelledSnoc(Pad(n / 10, width - 1), DigitChar(n % 10));
    }
  }

  /** At least two digits, and no more than the exponent needs. */
  function ExponentWidth(exp: nat): nat {
    if exp >= 1000 then 4 else if exp >= 100 then 3 else 2
  }

  function ExponentText(exp: int): string {
    [if exp < 0 then '-' else '+'] + Pad(Magnitude(exp), ExponentWidth(Magnitude(exp)))
  }

  method WriteExponent(exponent: int, it: string) returns (out: string)
    requires -10000 < exponent < 10000
    ensures out == it + ExponentText(exponent)
  {
    var exp := exponent;
    out := it;
    if exp < 0 {
      out := out + ['-'];
      exp := -exp;
    } else {
      out := out + ['+'];
    }
    out := WriteMagnitude(exp, out);
  }

  method WriteMagnitude(n: nat, it: string) returns (out: string)
    requires n < 10000
    ensures out == it + Pad(n, ExponentWidth(n))
  {
    PadSplits(n, ExponentWidth(n) - 2);
    var exp;
    out, exp := WriteHundreds(n, it);
    out := WritePair(exp, out);
  }

  /** The digits in front of the last two, of which only a thousand needs the first. */
  method WriteHundreds(n: nat, it: string) returns (out: string, exp: nat)
    requires n < 10000
    ensures out == it + Pad(n / 100, ExponentWidth(n) - 2) && exp == n % 100
  {
    out, exp := it, n;
    if exp >= 100 {
      var top := Pad(exp / 100, 2);
      LastOfPair(exp / 100);
      if exp >= 1000 {
        out := out + [top[0]];
      }
      out := out + [top[1]];
      exp := exp % 100;
    }
  }

  /** Two digits from the table of pairs. */
  method WritePair(exp: nat, it: string) returns (out: string)
    requires exp < 100
    ensures out == it + Pad(exp, 2)
  {
    var d := Pad(exp, 2);
    out := it + [d[0]] + [d[1]];
  }

  lemma LastOfPair(n: nat)
    ensures Pad(n, 1) == [Pad(n, 2)[1]]
  {
    assert Pad(n, 2) == Pad(n / 10, 1) + [DigitChar(n % 10)];
    assert Pad(n, 1) == Pad(n / 10, 0) + [DigitChar(n % 10)];
  }

  lemma PadSplits(n: nat, width: nat)
    ensures Pad(n, width + 2) == Pad(n / 100, width) + Pad(n % 100, 2)
  {
    HundredDigits(n);
    var m := n % 100;
    assert Pad(n, width + 2) == Pad(n / 10, width + 1) + [DigitChar(n % 10)];
    assert Pad(n / 10, width + 1) == Pad(n / 100, width) + [DigitChar(n / 10 % 10)];
    assert Pad(m, 2) == Pad(m / 10, 1) + [DigitChar(m % 10)];
    assert Pad(m / 10, 1) == Pad(m / 10 / 10, 0) + [DigitChar(m / 10 % 10)];
  }

  lemma HundredDigits(n: nat)
    ensures n / 10 / 10 == n / 100 && n % 100 / 10 % 10 == n / 10 % 10 && n % 100 % 10 == n % 10
  {
  }

  lemma ExponentReadsBack(exp: int, number: Number, mark: char)
    requires -10000 < exp < 10000 && IsMark(mark)
    ensures ReadExponent(number, [mark] + ExponentText(exp)) ==
            Some(number.(exponent := number.exponent + exp))
  {
    var digits := ShownDigits(Magnitude(exp));
    SignedReads(number, mark, exp, ExponentText(exp), digits);
  }

  lemma ShownDigits(n: nat) returns (digits: string)
    requires n < 10000
    ensures digits == Pad(n, ExponentWidth(n)) && Spelled(digits) == n && AllDigits(digits) && digits != []
  {
    digits := Pad(n, ExponentWidth(n));
    assert Pow(10, 2) == 100 && Pow(10, 3) == 1000 && Pow(10, 4) == 10000;
    PadSpells(n, ExponentWidth(n));
  }

  lemma SignedReads(number: Number, mark: char, exp: int, text: string, digits: string)
    requires IsMark(mark) && AllDigits(digits) && digits != [] && Spelled(digits) == Magnitude(exp)
    requires text == [if exp < 0 then '-' else '+'] + digits
    ensures ReadExponent(number, [mark] + text) == Some(number.(exponent := number.exponent + exp))
  {
    assert ([mark] + text)[2..] == digits;
  }

  // ------------------------------------------------------------------ the four layouts

  function ZeroChars(n: int): (s: string)
    ensures |s| == (if n > 0 then n else 0) && forall i :: 0 <= i < |s| ==> s[i] == '0'
  {
    if n <= 0 then [] else seq(n, i => '0')
  }

  predicate UsesExponent(digits: string, exp: int, specs: Specs) {
    var outputExp := exp + |digits| - 1;
    || specs.format == Exponent
    || (&& specs.format == General
        && (outputExp < -4 || outputExp >= (if specs.precision > 0 then specs.precision else 16)))
  }

  /** What the writer demands: digits and a small exponent where it writes one. */
  predicate Writable(digits: string, exp: int, specs: Specs) {
    UsesExponent(digits, exp, specs) ==> digits != [] && -10000 < exp + |digits| - 1 < 10000
  }

  /** The digits in front of the point. */
  function Whole(digits: string, exp: int, specs: Specs): string
    requires Writable(digits, exp, specs)
  {
    var whole := exp + |digits|;
    if UsesExponent(digits, exp, specs) then digits[..1]
    else if exp >= 0 then digits + ZeroChars(exp)
    else if whole > 0 then digits[..whole]
    else "0"
  }

  /** The digits behind it, with the zeros that a forced point asks for. */
  function Fraction(digits: string, exp: int, specs: Specs): string
    requires Writable(digits, exp, specs)
  {
    var whole := exp + |digits|;
    if UsesExponent(digits, exp, specs) then
      digits[1..] + if specs.showpoint then ZeroChars(specs.precision - |digits|) else []
    else if exp >= 0 then
      if !specs.showpoint then []
      else if specs.precision <= whole && specs.format != Fixed then "0"
      else ZeroChars(specs.precision - whole)
    else if whole > 0 then
      digits[whole..] + if specs.showpoint then ZeroChars(specs.precision - |digits|) else []
    else
      ZeroChars(LeadingZeros(digits, exp, specs)) + digits
  }

  /** Zeros between the point and the digits; a zero without digits is cut to the precision. */
  function LeadingZeros(digits: string, exp: int, specs: Specs): int {
    var numZeros := -(exp + |digits|);
    if digits == [] && 0 <= specs.precision < numZeros then specs.precision else numZeros
  }

  function Text(digits: string, exp: int, specs: Specs, point: char): string
    requires Writable(digits, exp, specs)
  {
    Join(Whole(digits, exp, specs), Fraction(digits, exp, specs), specs.showpoint, point) + Tail(digits, exp, specs)
  }

  function Join(whole: string, fraction: string, showpoint: bool, point: char): string {
    if fraction != [] || showpoint then whole + [point] + fraction else whole
  }

  /** The exponent that the text shows, zero if it shows none. */
  function ShownExponent(digits: string, exp: int, specs: Specs): int {
    if UsesExponent(digits, exp, specs) then exp + |digits| - 1 else 0
  }

  function Tail(digits: string, exp: int, specs: Specs): string {
    if UsesExponent(digits, exp, specs) then
      [if specs.upper then 'E' else 'e'] + ExponentText(ShownExponent(digits, exp, specs))
    else
      []
  }

  method WriteFloat(it: string, digits: string, exponent: int, specs: Specs, point: char) returns (out: string)
    requires Writable(digits, exponent, specs)
    ensures out == it + Text(digits, exponent, specs, point)
  {
    hide ZeroChars, Join, ExponentText;
    out := it;
    var size := |digits|;
    if UsesExponent(digits, exponent, specs) {
      out := WriteScientific(digits, exponent, specs, point, out);
      return;
    }
    var exp := exponent + size;
    if size <= exp {
      out := WriteInteger(digits, exp, specs, point, out);
    } else if exp > 0 {
      out := WriteMixed(digits, exp, specs, point, out);
    } else {
      out := WriteFraction(digits, exp, specs, point, out);
    }
  }

  /** 1234e5 -> 1.234e+08 */
  method WriteScientific(digits: string, exponent: int, specs: Specs, point: char, it: string) returns (out: string)
    requires UsesExponent(digits, exponent, specs) && Writable(digits, exponent, specs)
    ensures out == it + Text(digits, exponent, specs, point)
  {
    out := WriteDigits(digits, specs, point, it);
    assert digits[..1] == [digits[0]];
    ghost var head := Join(Whole(digits, exponent, specs), Fraction(digits, exponent, specs), specs.showpoint, point);
    assert out == it + head;
    var mark := if specs.upper then 'E' else 'e';
    out := out + [mark];
    Reassociate(it, head, [mark], ExponentText(exponent + |digits| - 1));
    out := WriteExponent(exponent + |digits| - 1, out);
  }

  /** ... up to the exponent */
  method WriteDigits(digits: string, specs: Specs, point: char, it: string) returns (out: string)
    requires digits != []
    ensures var zeros := if specs.showpoint then ZeroChars(specs.precision - |digits|) else [];
      out == it + Join([digits[0]], digits[1..] + zeros, specs.showpoint, point)
  {
    out := it + [digits[0]];
    var numZeros := specs.precision - |digits|;
    if |digits| > 1 || specs.showpoint {
      out := out + [point];
    }
    out := out + digits[1..];
    ghost var zeros := if specs.showpoint then ZeroChars(numZeros) else [];
    if |digits| > 1 || specs.showpoint {
      JoinBehind(it, [digits[0]], [point], digits[1..], zeros);
    } else {
      assert digits[1..] == [];
    }
    if numZeros > 0 && specs.showpoint {
      out := out + ZeroChars(numZeros);
    }
  }

  lemma JoinBehind(a: string, b: string, c: string, d: string, e: string)
    ensures a + b + c + d + e == a + (b + c + (d + e))
    ensures e == [] ==> a + b + c + d == a + (b + c + (d + e))
  {
    assert a + b + c + d + e == a + (b + c + d + e);
    assert b + c + d + e == b + c + (d + e);
  }

  /** 1234e5 -> 123400000[.0+] */
  method WriteInteger(digits: string, exp: int, specs: Specs, point: char, it: string) returns (out: string)
    requires |digits| <= exp
    ensures var whole := digits + ZeroChars(exp - |digits|);
      var zeros := if specs.precision <= exp && specs.format != Fixed then "0" else ZeroChars(specs.precision - exp);
      out == it + Join(whole, if specs.showpoint then zeros else [], specs.showpoint, point)
  {
    out := it + digits;
    out := out + ZeroChars(exp - |digits|);
    if specs.showpoint {
      out := out + [point];
      var numZeros := specs.precision - exp;
      if numZeros <= 0 {
        if specs.format != Fixed {
          out := out + ['0'];
        }
        return;
      }
      out := out + ZeroChars(numZeros);
    }
  }

  /** 1234e-2 -> 12.34[0+] */
  method WriteMixed(digits: string, exp: int, specs: Specs, point: char, it: string) returns (out: string)
    requires 0 < exp < |digits|
    ensures var zeros := if specs.showpoint then ZeroChars(specs.precision - |digits|) else [];
      out == it + Join(digits[..exp], digits[exp..] + zeros, specs.showpoint, point)
  {
    out := it + digits[..exp];
    if !specs.showpoint {
      if |digits| != exp {
        out := out + [point];
      }
      out := out + digits[exp..];
      return;
    }
    out := out + [point];
    out := out + digits[exp..];
    if specs.precision > |digits| {
      out := out + ZeroChars(specs.precision - |digits|);
    }
  }

  /** 1234e-6 -> 0.001234 */
  method WriteFraction(digits: string, exp: int, specs: Specs, point: char, it: string) returns (out: string)
    requires exp <= 0
    ensures var zeros := ZeroChars(LeadingZeros(digits, exp - |digits|, specs));
      out == it + Join("0", zeros + digits, specs.showpoint, point)
  {
    out := it + ['0'];
    var numZeros := -exp;
    if |digits| == 0 && specs.precision >= 0 && specs.precision < numZeros {
      numZeros := specs.precision;
    }
    if numZeros != 0 || |digits| != 0 || specs.showpoint {
      out := out + [point];
      out := out + ZeroChars(numZeros);
      out := out + digits;
    }
  }

  // ------------------------------------------------------------------ the text reads back

  lemma {:induction false} RunEnds(digits: string, rest: string)
    requires AllDigits(digits) && (rest == [] || !IsDigit(rest[0]))
    ensures Run(digits + rest) == |digits|
  {
    if digits == [] {
      assert digits + rest == rest;
    } else {
      RunEnds(digits[1..], rest);
      assert (digits + rest)[1..] == digits[1..] + rest;
    }
  }

  predicate IsPoint(c: char) {
    !IsDigit(c) && !IsMark(c)
  }

  lemma SplitJoined(whole: string, fraction: string, showpoint: bool, point: char, tail: string)
    requires AllDigits(whole) && AllDigits(fraction) && IsPoint(point)
    requires tail == [] || IsMark(tail[0])
    ensures Split(Join(whole, fraction, showpoint, point) + tail, point) == Parts(whole, fraction, tail)
  {
    if fraction != [] || showpoint {
      Reassociate(whole, [point], fraction, tail);
      SplitPointed(whole, fraction + tail, point);
      RunEnds(fraction, tail);
      TakeDrop(fraction, tail);
    } else {
      RunEnds(whole, tail);
      TakeDrop(whole, tail);
    }
  }

  lemma SplitPointed(whole: string, rest: string, point: char)
    requires AllDigits(whole) && IsPoint(point)
    ensures Split(whole + ([point] + rest), point) == SplitFraction(whole, rest)
  {
    RunEnds(whole, [point] + rest);
    TakeDrop(whole, [point] + rest);
    TakeDrop([point], rest);
  }

  lemma TakeDrop(s: string, t: string)
    ensures (s + t)[..|s|] == s && (s + t)[|s|..] == t
  {
  }

  lemma Reassociate(a: string, b: string, c: string, d: string)
    ensures a + b + c + d == a + (b + (c + d))
  {
  }

  /** Zeros behind the digits scale the number, zeros in front leave it. */
  lemma SpelledWithZeros(s: string, k: int)
    ensures k >= 0 ==> Spelled(s + ZeroChars(k)) == Spelled(s) * Pow(10, k)
    ensures Spelled(ZeroChars(k) + s) == Spelled(s)
  {
    SpelledConcat(s, ZeroChars(k));
    SpelledConcat(ZeroChars(k), s);
    SpelledZeros(ZeroChars(k));
  }

  lemma ScaledEquals(number: Number, coefficient: int, k: nat, exponent: int)
    requires number.coefficient == coefficient * Pow(10, k) && number.exponent + k == exponent
    ensures number.Equals(Number(coefficient, exponent))
  {
    assert Pow(10, 0) == 1;
  }

  lemma ZeroEquals(exponent: int, other: int)
    ensures Number(0, exponent).Equals(Number(0, other))
  {
  }

  /** All the digits written, as one number: the digits, scaled by the zeros behind them. */
  lemma DigitsWritten(digits: string, exp: int, specs: Specs) returns (k: nat)
    requires Writable(digits, exp, specs) && (digits == [] ==> exp >= 0)
    ensures Spelled(Whole(digits, exp, specs) + Fraction(digits, exp, specs)) == Spelled(digits) * Pow(10, k)
    ensures -(|Fraction(digits, exp, specs)| as int) ==
            (if UsesExponent(digits, exp, specs) then 1 - |digits| else exp) - k
  {
    var n, fraction := exp + |digits|, |Fraction(digits, exp, specs)|;
    if UsesExponent(digits, exp, specs) || (exp < 0 && n > 0) {
      k := if specs.showpoint && specs.precision > |digits| then specs.precision - |digits| else 0;
      DigitsAndZeros(digits, exp, specs, k);
    } else if exp >= 0 {
      k := exp + fraction;
      DigitsAndZeros(digits, exp, specs, k);
    } else {
      k := 0;
      ZerosAndDigits(digits, exp, specs);
    }
    SpelledWithZeros(digits, k);
  }

  lemma DigitsAndZeros(digits: string, exp: int, specs: Specs, k: nat)
    requires Writable(digits, exp, specs)
    requires |digits| + k == |Whole(digits, exp, specs)| + |Fraction(digits, exp, specs)|
    requires UsesExponent(digits, exp, specs) || exp >= 0 || exp + |digits| > 0
    ensures Whole(digits, exp, specs) + Fraction(digits, exp, specs) == digits + ZeroChars(k)
  {
  }

  lemma ZerosAndDigits(digits: string, exp: int, specs: Specs)
    requires !UsesExponent(digits, exp, specs) && exp < 0 && exp + |digits| <= 0
    ensures Spelled(Whole(digits, exp, specs) + Fraction(digits, exp, specs)) == Spelled(digits)
  {
    SpelledAfterZeros(LeadingZeros(digits, exp, specs), digits);
  }

  lemma SpelledAfterZeros(zeros: nat, digits: string)
    ensures Spelled("0" + (ZeroChars(zeros) + digits)) == Spelled(digits)
  {
    OneMoreZero(zeros, digits);
    SpelledWithZeros(digits, 1 + zeros);
  }

  lemma OneMoreZero(zeros: nat, digits: string)
    ensures "0" + (ZeroChars(zeros) + digits) == ZeroChars(1 + zeros) + digits
  {
    assert "0" + ZeroChars(zeros) == ZeroChars(1 + zeros);
  }

  /** What the digits and the exponent of the text make. */
  function Worth(digits: string, exp: int, specs: Specs): Number
    requires Writable(digits, exp, specs)
  {
    Number(Spelled(Whole(digits, exp, specs) + Fraction(digits, exp, specs)),
           ShownExponent(digits, exp, specs) - |Fraction(digits, exp, specs)|)
  }

  /** ... is the value. */
  lemma WorthTheValue(digits: string, exp: int, specs: Specs)
    requires Writable(digits, exp, specs) && (digits == [] ==> exp != 0)
    ensures Worth(digits, exp, specs).Equals(Number(Spelled(digits), exp))
  {
    if digits == [] && exp < 0 {
      ZerosAndDigits(digits, exp, specs);
      ZeroEquals(Worth(digits, exp, specs).exponent, exp);
    } else {
      var k := DigitsWritten(digits, exp, specs);
      ScaledEquals(Worth(digits, exp, specs), Spelled(digits), k, exp);
    }
  }

  lemma PartsAreDigits(digits: string, exp: int, specs: Specs)
    requires AllDigits(digits) && Writable(digits, exp, specs)
    ensures AllDigits(Whole(digits, exp, specs)) && AllDigits(Fraction(digits, exp, specs))
    ensures Whole(digits, exp, specs) == [] <==> digits == [] && exp == 0 && !UsesExponent(digits, exp, specs)
  {
    var whole, fraction, n := Whole(digits, exp, specs), Fraction(digits, exp, specs), exp + |digits|;
    if UsesExponent(digits, exp, specs) || (exp < 0 && n > 0) {
      DigitsConcat(if UsesExponent(digits, exp, specs) then digits[1..] else digits[n..],
                   if specs.showpoint then ZeroChars(specs.precision - |digits|) else []);
    } else if exp >= 0 {
      DigitsConcat(digits, ZeroChars(exp));
    } else {
      DigitsConcat(ZeroChars(LeadingZeros(digits, exp, specs)), digits);
    }
  }

  lemma DigitsConcat(s: string, t: string)
    requires AllDigits(s) && AllDigits(t)
    ensures AllDigits(s + t)
  {
  }

  lemma TailReads(digits: string, exp: int, specs: Specs, worth: Number)
    requires Writable(digits, exp, specs)
    ensures var tail := Tail(digits, exp, specs);
      && (tail != [] ==> IsMark(tail[0]))
      && ReadExponent(Number(worth.coefficient, worth.exponent - ShownExponent(digits, exp, specs)), tail) ==
         Some(worth)
  {
    var shown := ShownExponent(digits, exp, specs);
    if UsesExponent(digits, exp, specs) {
      ExponentReadsBack(shown, Number(worth.coefficient, worth.exponent - shown), if specs.upper then 'E' else 'e');
    }
  }

  lemma JoinedReads(whole: string, fraction: string, showpoint: bool, point: char, tail: string, shown: int,
                    worth: Number)
    requires AllDigits(whole) && AllDigits(fraction) && IsPoint(point)
    requires tail != [] ==> IsMark(tail[0])
    requires worth == Number(Spelled(whole + fraction), shown - |fraction|)
    requires ReadExponent(Number(worth.coefficient, worth.exponent - shown), tail) == Some(worth)
    ensures Read(Join(whole, fraction, showpoint, point) + tail, point) == if whole == [] then None else Some(worth)
  {
    SplitJoined(whole, fraction, showpoint, point, tail);
    PartsRead(Parts(whole, fraction, tail), shown, worth);
  }

  lemma PartsRead(parts: Parts, shown: int, worth: Number)
    requires worth == Number(Spelled(parts.whole + parts.fraction), shown - |parts.fraction|)
    requires ReadExponent(Number(worth.coefficient, worth.exponent - shown), parts.tail) == Some(worth)
    ensures ReadParts(parts) == if parts.whole == [] then None else Some(worth)
  {
  }

  lemma TextReads(digits: string, exp: int, specs: Specs, point: char)
    requires AllDigits(digits) && Writable(digits, exp, specs) && IsPoint(point)
    ensures Read(Text(digits, exp, specs, point), point) ==
            if Whole(digits, exp, specs) == [] then None else Some(Worth(digits, exp, specs))
  {
    PartsAreDigits(digits, exp, specs);
    TailReads(digits, exp, specs, Worth(digits, exp, specs));
    JoinedReads(Whole(digits, exp, specs), Fraction(digits, exp, specs), specs.showpoint, point,
                Tail(digits, exp, specs), ShownExponent(digits, exp, specs), Worth(digits, exp, specs));
  }

  /**
    Read as a decimal number, the text is worth digits * 10^exp in every layout, with or without a forced point. The
    one text that is not a number is that of no digits at all with exponent zero.
    */
  lemma TextKeepsValue(digits: string, exp: int, specs: Specs, point: char)
    requires AllDigits(digits) && Writable(digits, exp, specs) && IsPoint(point)
    ensures var read := Read(Text(digits, exp, specs, point), point);
      if digits == [] && exp == 0 then read == None
      else read.Some? && read.value.Equals(Number(Spelled(digits), exp))
  {
    TextReads(digits, exp, specs, point);
    PartsAreDigits(digits, exp, specs);
    if Whole(digits, exp, specs) != [] {
      WorthTheValue(digits, exp, specs);
    }
  }

  // ------------------------------------------------------------------ which layout is used

  predicate HasMark(s: string) {
    exists i :: 0 <= i < |s| && IsMark(s[i])
  }

  /** No digit and no point is a mark, and an exponent has only the one it starts with. */
  lemma MarkIsInTail(digits: string, exp: int, specs: Specs, point: char)
    requires AllDigits(digits) && Writable(digits, exp, specs) && IsPoint(point)
    ensures var text := Text(digits, exp, specs, point);
      var at := |text| - |Tail(digits, exp, specs)|;
      && (forall i :: 0 <= i < |text| && i != at ==> !IsMark(text[i]))
      && (UsesExponent(digits, exp, specs) <==> at < |text|)
      && (at < |text| ==> text[at] == if specs.upper then 'E' else 'e')
  {
    hide Whole, Fraction;
    PartsAreDigits(digits, exp, specs);
    NoMarkInJoined(Whole(digits, exp, specs), Fraction(digits, exp, specs), specs.showpoint, point);
    var head := Join(Whole(digits, exp, specs), Fraction(digits, exp, specs), specs.showpoint, point);
    var text, tail := Text(digits, exp, specs, point), Tail(digits, exp, specs);
    NoMarkInExponent(ShownExponent(digits, exp, specs));
    assert forall i :: 0 <= i < |head| ==> text[i] == head[i];
    assert forall i :: |head| <= i < |text| ==> text[i] == tail[i - |head|];
  }

  lemma NoMarkInJoined(whole: string, fraction: string, showpoint: bool, point: char)
    requires AllDigits(whole) && AllDigits(fraction) && IsPoint(point)
    ensures !HasMark(Join(whole, fraction, showpoint, point))
  {
  }

  lemma NoMarkInExponent(exp: int)
    ensures !HasMark(ExponentText(exp))
  {
  }

  /**
    An exponent is written, once, always in exponent format, never in fixed format, and in general format exactly if
    the leading digit stands below 10^-4 or at the precision, sixteen if there is none, or above it. There is one digit
    in front of the point then, and the mark has the case asked for.
    */
  lemma ExponentIsAskedFor(digits: string, exp: int, specs: Specs, point: char)
    requires AllDigits(digits) && Writable(digits, exp, specs) && IsPoint(point)
    ensures var text, lead := Text(digits, exp, specs, point), exp + |digits| - 1;
      && (HasMark(text) <==> match specs.format
                             case Exponent => true
                             case General => lead < -4 || lead >= (if specs.precision > 0 then specs.precision else 16)
                             case Fixed => false
                             case Hex => false)
      && (forall i, j :: 0 <= i < |text| && 0 <= j < |text| && IsMark(text[i]) && IsMark(text[j]) ==> i == j)
      && (forall i :: 0 <= i < |text| && IsMark(text[i]) ==> text[i] == if specs.upper then 'E' else 'e')
      && (HasMark(text) ==> |Split(text, point).whole| == 1)
  {
    hide Text, Tail, Fraction, IsMark;
    MarkIsInTail(digits, exp, specs, point);
    TextSplits(digits, exp, specs, point);
    var text := Text(digits, exp, specs, point);
    var at := |text| - |Tail(digits, exp, specs)|;
    if UsesExponent(digits, exp, specs) {
      CaseIsMark(specs.upper);
      assert IsMark(text[at]);
    }
  }

  lemma CaseIsMark(upper: bool)
    ensures IsMark(if upper then 'E' else 'e')
  {
  }

  /** What is read in front of the point, behind it, and after that. */
  lemma TextSplits(digits: string, exp: int, specs: Specs, point: char)
    requires AllDigits(digits) && Writable(digits, exp, specs) && IsPoint(point)
    ensures Split(Text(digits, exp, specs, point), point) ==
            Parts(Whole(digits, exp, specs), Fraction(digits, exp, specs), Tail(digits, exp, specs))
  {
    hide Whole, Fraction;
    PartsAreDigits(digits, exp, specs);
    TailReads(digits, exp, specs, Worth(digits, exp, specs));
    SplitJoined(Whole(digits, exp, specs), Fraction(digits, exp, specs), specs.showpoint, point,
                Tail(digits, exp, specs));
  }

  /** The leading digit, unless it is a zero, says between which powers of ten the value lies. */
  lemma LeadingDigitBounds(digits: string, exp: int, k: int)
    requires AllDigits(digits) && digits != [] && digits[0] != '0'
    ensures Number(Spelled(digits), exp).Below(k) <==> exp + |digits| - 1 < k
  {
    var n := |digits| - 1;
    SpelledFromLeading(digits);
    SpelledBound(digits);
    PowPositive(10, n);
    if k < exp {
      PowPositive(10, exp - k);
      MulGrows(Spelled(digits), Pow(10, exp - k));
    } else if n + 1 <= k - exp {
      PowMonotone(10, n + 1, k - exp);
    } else {
      PowMonotone(10, k - exp, n);
    }
  }

  lemma SpelledFromLeading(digits: string)
    requires AllDigits(digits) && digits != [] && digits[0] != '0'
    ensures Spelled(digits) >= Pow(10, |digits| - 1)
  {
    assert digits == [digits[0]] + digits[1..];
    SpelledConcat([digits[0]], digits[1..]);
    SpelledBound(digits[1..]);
    assert [digits[0]][..0] == [] && Spelled([digits[0]]) == DigitOf(digits[0]) >= 1;
    MulMonotone(1, DigitOf(digits[0]), Pow(10, |digits| - 1), Pow(10, |digits| - 1));
  }

  /** So general format writes an exponent exactly if the value is below 10^-4 or not below 10^precision. */
  lemma ValueAsksForExponent(digits: string, exp: int, specs: Specs, point: char)
    requires AllDigits(digits) && Writable(digits, exp, specs) && IsPoint(point) && specs.format == General
    requires digits != [] && digits[0] != '0'
    ensures var value := Number(Spelled(digits), exp);
      HasMark(Text(digits, exp, specs, point)) <==>
      value.Below(-4) || !value.Below(if specs.precision > 0 then specs.precision else 16)
  {
    hide Text, HasMark;
    ExponentIsAskedFor(digits, exp, specs, point);
    LeadingDigitBounds(digits, exp, -4);
    LeadingDigitBounds(digits, exp, if specs.precision > 0 then specs.precision else 16);
  }

  /** An exponent has a sign and at least two digits, and more only if the first of them is not a zero. */
  lemma ExponentIsShort(exp: int)
    requires -10000 < exp < 10000
    ensures var s := ExponentText(exp); |s| >= 3 && (|s| > 3 ==> s[1] != '0') && (s[0] == '-' <==> exp < 0)
  {
    var n := Magnitude(exp);
    if n >= 100 {
      PadSplits(n, ExponentWidth(n) - 2);
      LeadingOfPad(n / 100, ExponentWidth(n) - 2);
    }
  }

  lemma LeadingOfPad(n: nat, width: nat)
    requires (width == 1 && 1 <= n < 10) || (width == 2 && 10 <= n < 100)
    ensures Pad(n, width)[0] != '0'
  {
    assert Pad(n, width) == Pad(n / 10, width - 1) + [DigitChar(n % 10)];
    if width == 2 {
      assert Pad(n / 10, 1) == Pad(n / 10 / 10, 0) + [DigitChar(n / 10 % 10)];
    }
  }

  /** How many digits a text shows before its exponent. */
  function Shown(s: string, point: char): nat {
    var parts := Split(s, point);
    |parts.whole| + |parts.fraction|
  }

  /**
    With a forced point, a text read back shows as many digits as the precision asks for, or all there are if they are
    more; only a zero behind the point of a whole number and zeros in front of a small one come on top. Without one it
    shows the digits and the zeros that their place needs. A point is forced, or there is a digit behind it.
    */
  lemma DigitsAreFilledUp(digits: string, exp: int, specs: Specs, point: char)
    requires AllDigits(digits) && Writable(digits, exp, specs) && IsPoint(point) && digits != []
    ensures var text, whole := Text(digits, exp, specs, point), exp + |digits|;
      var shown, precision := Shown(text, point), if specs.showpoint then specs.precision else 0;
      if HasMark(text) || exp < 0 < whole then
        shown == if precision > |digits| then precision else |digits|
      else if exp < 0 then
        shown == 1 - whole + |digits|
      else if precision > whole then
        shown == precision
      else
        shown == whole + if specs.showpoint && specs.format != Fixed then 1 else 0
    ensures var text := Text(digits, exp, specs, point);
      var parts := Split(text, point);
      |text| == |parts.whole| + |parts.fraction| + |parts.tail| +
                if specs.showpoint || parts.fraction != [] then 1 else 0
  {
    hide HasMark;
    TextSplits(digits, exp, specs, point);
    MarkOrNot(digits, exp, specs, point);
  }

  /** A small number without digits is written with zeros, cut to the precision if there is one. */
  lemma NoDigitsAreZeros(exp: int, specs: Specs, point: char)
    requires Writable([], exp, specs) && IsPoint(point) && exp < 0
    ensures Shown(Text([], exp, specs, point), point) ==
            1 + if 0 <= specs.precision < -exp then specs.precision else -exp
  {
    TextSplits([], exp, specs, point);
  }

  lemma MarkOrNot(digits: string, exp: int, specs: Specs, point: char)
    requires AllDigits(digits) && Writable(digits, exp, specs) && IsPoint(point)
    ensures HasMark(Text(digits, exp, specs, point)) <==> UsesExponent(digits, exp, specs)
  {
    hide Text, IsMark, HasMark;
    ExponentIsAskedFor(digits, exp, specs, point);
  }
}
