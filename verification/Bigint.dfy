/** The arbitrary-precision integer of the float formatter (src/3rdparty/fmt/format-inl.h). */
module BigintModel {
  import opened Powers
  import opened Bigits
  import opened Convolution
  import opened AccumulatorModel
  import opened Subtraction

  function Sign(x: int): int {
    if x < 0 then -1 else if x > 0 then 1 else 0
  }

  function Min(x: int, y: int): (r: int) {
    if x <= y then x else y
  }

  function Max(x: int, y: int): (r: int) {
    if x >= y then x else y
  }

  class Bigint {
    var bigits: seq<Bigit>
    var exp: nat

    ghost function Value(): nat
      reads this
    {
      Amount(bigits, exp)
    }

    ghost predicate Valid()
      reads this
    {
      Canonical(bigits)
    }

    function NumBigits(): nat
      reads this
    {
      |bigits| + exp
    }

    constructor (n: DoubleBigit)
      ensures Valid() && Value() == n && exp == 0
    {
      bigits, exp := [], 0;
      new;
      AssignWord(n);
    }

    constructor Empty()
      ensures bigits == [] && exp == 0
    {
      bigits, exp := [], 0;
    }

    // ---------------------------------------------------------------- assignment

    /** Resizing keeps the common prefix; what appears above it is unspecified. */
    method Resize(n: nat)
      modifies this`bigits
      ensures |bigits| == n
      ensures forall i :: 0 <= i < n && i < |old(bigits)| ==> bigits[i] == old(bigits)[i]
    {
      bigits := if n <= |bigits| then bigits[..n] else bigits + seq(n - |bigits|, _ => 0);
    }

    method AssignWord(value: DoubleBigit)
      modifies this
      ensures Valid() && Value() == value && exp == 0
    {
      var n: nat := value;
      bigits := [n % BASE];
      n := n / BASE;
      while n != 0
        invariant |bigits| >= 1 && n < BASE
        invariant n > 0 ==> |bigits| == 1
        invariant Val(bigits) + n * B(|bigits|) == value
        invariant n == 0 && |bigits| > 1 ==> bigits[|bigits| - 1] != 0
        decreases n
      {
        ValSnoc(bigits, n % BASE);
        bigits := bigits + [n % BASE];
        n := n / BASE;
      }
      exp := 0;
    }

    method Assign(other: Bigint)
      modifies this
      ensures bigits == old(other.bigits) && exp == old(other.exp)
    {
      bigits := other.bigits;
      exp := other.exp;
    }

    // ---------------------------------------------------------------- leading zeros

    method RemoveLeadingZeros()
      requires bigits != []
      modifies this`bigits
      ensures Valid() && Val(bigits) == old(Val(bigits))
      ensures bigits <= old(bigits)
    {
      var numBigits := |bigits| - 1;
      while numBigits > 0 && bigits[numBigits] == 0
        invariant 0 <= numBigits < |bigits|
        invariant forall i :: numBigits < i < |bigits| ==> bigits[i] == 0
      {
        numBigits := numBigits - 1;
      }
      DropTopZeros(bigits, numBigits + 1);
      bigits := bigits[..numBigits + 1];
    }

    // ---------------------------------------------------------------- multiplication

    /** Storage of n or n + 1 bigits whose value has not shrunk is canonical. */
    lemma CanonicalAfterGrowth(was: seq<Bigit>, now: seq<Bigit>, carry: Bigit, value: nat)
      requires Canonical(was) && value > 0 && |now| == |was|
      requires Val(now) + carry * B(|was|) == Val(was) * value
      ensures Canonical(if carry != 0 then now + [carry] else now)
    {
      if carry == 0 && |was| > 1 {
        TopBigit(was);
        MulGrows(Val(was), value);
        TopBigit(now);
      }
    }

    method MultiplyBigit(value: Bigit)
      requires Valid() && value > 0
      modifies this`bigits
      ensures Valid() && Val(bigits) == old(Val(bigits)) * value
    {
      ghost var was := bigits;
      var carry: Bigit := 0;
      var i, n := 0, |bigits|;
      while i < n
        invariant i <= n == |bigits| == |was|
        invariant bigits[i..] == was[i..]
        invariant Val(bigits[..i]) + carry * B(i) == Val(was[..i]) * value
      {
        BigitTimesBigit(bigits[i], value, carry);
        var result: DoubleBigit := bigits[i] * value + carry;
        ghost var before, carryIn := bigits, carry;
        var low;
        low, carry := SplitWord(result);
        bigits := bigits[i := low];
        WideStep(was, before, bigits, i, value, carryIn, carry);
        i := i + 1;
      }
      assert bigits[..n] == bigits && was[..n] == was;
      PushTopCarry(was, value, carry);
    }

    /** The carry out of the top bigit becomes a new top bigit. */
    method PushTopCarry(ghost was: seq<Bigit>, ghost value: nat, carry: Bigit)
      requires Canonical(was) && value > 0 && |bigits| == |was|
      requires Val(bigits) + carry * B(|was|) == Val(was) * value
      modifies this`bigits
      ensures Valid() && Val(bigits) == Val(was) * value
      ensures |bigits| <= |was| + 1
    {
      CanonicalAfterGrowth(was, bigits, carry, value);
      if carry != 0 {
        ValSnoc(bigits, carry);
        bigits := bigits + [carry];
      }
    }

    /** One column: a bigit times the two halves of a 64-bit value, plus a 64-bit carry, never overflows. */
    static method MultiplyAddWide(x: Bigit, lower: Bigit, upper: Bigit, carry: DoubleBigit)
      returns (low: Bigit, high: DoubleBigit)
      ensures high * BASE + low == x * (upper * BASE + lower) + carry
    {
      var carryLow, carryHigh := SplitWord(carry);
      BigitTimesBigit(x, lower, carryLow);
      var result: DoubleBigit := x * lower + carryLow;
      var resultHigh;
      low, resultHigh := SplitWord(result);
      WideSumFits(x, upper, resultHigh, carryHigh);
      high := x * upper + resultHigh + carryHigh;
      ColumnAddsUp(x, lower, upper, carryLow, carryHigh, low, resultHigh);
    }

    static method SplitWord(n: DoubleBigit) returns (low: Bigit, high: Bigit)
      ensures n == high * BASE + low && low == n % BASE && high == n / BASE
    {
      low, high := n % BASE, n / BASE;
    }

    /** Multiplies by a 64-bit value, two products a bigit, with a 64-bit carry. */
    method MultiplyDouble(value: DoubleBigit)
      requires Valid() && value > 0
      modifies this`bigits
      ensures Valid() && Val(bigits) == old(Val(bigits)) * value
    {
      ghost var was := bigits;
      var lower: DoubleBigit := value % BASE;
      var upper: DoubleBigit := value / BASE;
      var carry: DoubleBigit := 0;
      var i, n := 0, |bigits|;
      while i < n
        invariant i <= n == |bigits| == |was|
        invariant bigits[i..] == was[i..]
        invariant Val(bigits[..i]) + carry * B(i) == Val(was[..i]) * value
      {
        ghost var before, carryIn := bigits, carry;
        var low, high := MultiplyAddWide(bigits[i], lower, upper, carry);
        bigits := bigits[i := low];
        carry := high;
        assert value == upper * BASE + lower;
        WideStep(was, before, bigits, i, value, carryIn, carry);
        i := i + 1;
      }
      assert bigits[..n] == bigits && was[..n] == was;
      PushCarry(carry);
      if |bigits| == n {
        CanonicalAfterGrowth(was, bigits, 0, value);
      }
    }

    // ---------------------------------------------------------------- shift

    /** Multiplies by 2^shift: whole bigits go into the exponent, the rest through a carry loop. */
    method ShiftLeft(shift: nat)
      requires Valid()
      modifies this
      ensures Valid() && Value() == old(Value()) * Pow(2, shift)
      ensures exp == old(exp) + shift / 32
      ensures |bigits| <= |old(bigits)| + 1
    {
      ShiftWeight(Val(bigits), exp, shift);
      exp := exp + shift / 32;
      if shift % 32 != 0 {
        ShiftBits(shift % 32);
      }
    }

    method ShiftBits(bits: nat)
      requires Valid() && 0 < bits < 32
      modifies this`bigits
      ensures Valid() && Val(bigits) == old(Val(bigits)) * Pow(2, bits)
      ensures |bigits| <= |old(bigits)| + 1
    {
      ghost var was := bigits;
      var low, high := Pow(2, bits), Pow(2, 32 - bits);
      PowersOfTwo(bits);
      var carry: Bigit := 0;
      var i, n := 0, |bigits|;
      while i < n
        invariant i <= n == |bigits| == |was|
        invariant bigits[i..] == was[i..]
        invariant carry < low
        invariant Val(bigits[..i]) + carry * B(i) == Val(was[..i]) * low
      {
        ghost var before, carryIn := bigits, carry;
        var shifted, c := ShiftBigit(bigits[i], low, high, carry);
        bigits := bigits[i := shifted];
        carry := c;
        WideStep(was, before, bigits, i, low, carryIn, carry);
        i := i + 1;
      }
      assert bigits[..n] == bigits && was[..n] == was;
      PushTopCarry(was, low, carry);
    }

    static method ShiftBigit(x: Bigit, low: nat, high: nat, carry: Bigit) returns (shifted: Bigit, carryOut: Bigit)
      requires low * high == BASE && low > 0 && high > 0 && carry < low
      ensures x * low + carry == carryOut * BASE + shifted && carryOut < low
    {
      ShiftedBigit(x, Quotient(x, high), Remainder(x, high), low, high, carry);
      carryOut := x / high;
      shifted := (x * low) % BASE + carry;
    }

    // ---------------------------------------------------------------- square

    /** Squares column by column. */
    method Square()
      requires Valid() && |bigits| < 0x4000_0000
      modifies this
      ensures Valid() && exp == 2 * old(exp)
      ensures Val(bigits) == old(Val(bigits)) * old(Val(bigits))
      ensures |bigits| <= 2 * |old(bigits)|
    {
      var n := bigits;
      Resize(2 * |n|);
      ghost var carry := StoreColumns(n);
      ColumnsAreProduct(n, n, 2 * |n|);
      SquareFits(n, carry);
      RemoveLeadingZeros();
      exp := exp * 2;
    }

    /** Fills the result with the columns of n squared; what is carried out of the last one is returned. */
    method StoreColumns(n: seq<Bigit>) returns (ghost carry: nat)
      requires |bigits| == 2 * |n| && |n| < 0x4000_0000
      modifies this`bigits
      ensures |bigits| == 2 * |n|
      ensures Val(bigits) + carry * B(2 * |n|) == Columns(n, n, 2 * |n|)
    {
      var sum := new Accumulator();
      assert bigits[..0] == [];
      StoreLowColumns(n, sum);
      StoreHighColumns(n, sum);
      assert bigits[..2 * |n|] == bigits;
      carry := sum.Total();
    }

    /** The result bigits below k and the accumulator make up the columns below k. */
    ghost predicate ColumnsStored(n: seq<Bigit>, sum: Accumulator, k: nat)
      reads this, sum
    {
      && |bigits| == 2 * |n| && k <= |bigits| && |n| < 0x4000_0000 && sum.Total() <= |n| * BASE_SQUARED
      && Val(bigits[..k]) + sum.Total() * B(k) == Columns(n, n, k)
    }

    method StoreLowColumns(n: seq<Bigit>, sum: Accumulator)
      requires ColumnsStored(n, sum, 0)
      modifies this`bigits, sum
      ensures ColumnsStored(n, sum, |n|)
    {
      var k := 0;
      while k < |n|
        invariant 0 <= k <= |n| && ColumnsStored(n, sum, k)
      {
        ColumnBound(n, n, k);
        MulDistribute(sum.Total(), Column(n, n, k), B(k));
        AddLowColumn(n, k, sum);
        StoreColumn(n, k, sum);
        k := k + 1;
      }
    }

    method StoreHighColumns(n: seq<Bigit>, sum: Accumulator)
      requires ColumnsStored(n, sum, |n|)
      modifies this`bigits, sum
      ensures ColumnsStored(n, sum, 2 * |n|)
    {
      var k := |n|;
      while k < 2 * |n|
        invariant |n| <= k <= 2 * |n| && ColumnsStored(n, sum, k)
      {
        ColumnBound(n, n, k);
        MulDistribute(sum.Total(), Column(n, n, k), B(k));
        AddHighColumn(n, k, sum);
        StoreColumn(n, k, sum);
        k := k + 1;
      }
    }

    /** Writes the low word of the accumulator as result bigit k and carries the rest. */
    method StoreColumn(n: seq<Bigit>, k: nat, sum: Accumulator)
      requires k < |bigits| && k < 2 * |n| && |n| < 0x4000_0000
      requires |n| * BASE_SQUARED + |n| * (BASE_SQUARED - 1) >= sum.Total()
      requires Val(bigits[..k]) + sum.Total() * B(k) == Columns(n, n, k + 1)
      modifies this`bigits, sum
      ensures |bigits| == |old(bigits)|
      ensures sum.Total() <= |n| * BASE_SQUARED
      ensures Val(bigits[..k + 1]) + sum.Total() * B(k + 1) == Columns(n, n, k + 1)
    {
      ghost var was, total := bigits, sum.Total();
      bigits := bigits[k := sum.LowBigit()];
      sum.ShiftRight32();
      assert bigits[..k] == was[..k];
      ValTakeStep(bigits, k);
      CarrySplit(total, B(k));
    }

    // ---------------------------------------------------------------- powers of ten

    /** Leaves exactly 10^power, as 5^power shifted by power bits. */
    method AssignPow10(power: nat)
      requires power < 0x4000_0000
      modifies this
      ensures Valid() && Value() == Pow(10, power)
      ensures exp == power / 32
    {
      if power == 0 {
        AssignWord(1);
        return;
      }
      AssignPow5(power);
      ShiftLeft(power);
      PowOfProduct(5, 2, power);
    }

    /** Square-and-multiply over the bits of power, top one first. */
    method AssignPow5(power: nat)
      requires 0 < power < 0x4000_0000
      modifies this
      ensures Valid() && exp == 0 && Val(bigits) == Pow(5, power)
    {
      var bitmask := TopBitmask(power);
      AssignFive();
      ghost var weight := bitmask;
      bitmask := bitmask / 2;
      while bitmask != 0
        invariant Valid() && exp == 0
        invariant IsPowerOfTwo(weight) && bitmask == weight / 2
        invariant Val(bigits) == Pow(5, Quotient(power, weight))
        decreases bitmask
      {
        SquareAndMultiply(power, bitmask);
        weight := bitmask;
        bitmask := bitmask / 2;
      }
      assert Quotient(power, 1) == power;
    }

    method AssignFive()
      modifies this
      ensures Valid() && exp == 0 && Val(bigits) == Pow(5, 1)
    {
      AssignWord(5);
      assert B(0) == 1;
    }

    /** One round: from five to the bits of power above bitmask to five to those down to bitmask. */
    method SquareAndMultiply(power: nat, bitmask: nat)
      requires bitmask > 0 && power < 0x4000_0000
      requires Valid() && exp == 0 && Val(bigits) == Pow(5, Quotient(power, 2 * bitmask))
      modifies this
      ensures Valid() && exp == 0 && Val(bigits) == Pow(5, Quotient(power, bitmask))
    {
      ghost var done := Quotient(power, 2 * bitmask);
      HalveDivisor(power, bitmask);
      PowAdd(5, done, done);
      SizeOfPow5(bigits, done);
      Square();
      if Quotient(power, bitmask) % 2 != 0 {
        MultiplyBigit(5);
      }
    }

    /** The largest power of two not above power. */
    static method TopBitmask(power: nat) returns (bitmask: nat)
      requires power > 0
      ensures IsPowerOfTwo(bitmask) && Quotient(power, bitmask) == 1
    {
      bitmask := 1;
      while power >= bitmask
        invariant IsPowerOfTwo(bitmask) && bitmask <= 2 * power
        decreases 2 * power - bitmask
      {
        bitmask := bitmask * 2;
      }
      bitmask := bitmask / 2;
      DivModUnique(power, bitmask, 1, power - bitmask);
    }

    // ---------------------------------------------------------------- alignment and division

    /** Lowers the exponent to other's by moving the bigits up, top one first, and zeroing the rest. */
    method Align(other: Bigint)
      requires Valid()
      modifies this
      ensures Value() == old(Value())
      ensures exp == Min(old(exp), old(other.exp))
      ensures bigits == Zeros(old(exp) - exp) + old(bigits)
      ensures old(Value()) > 0 ==> Valid()
    {
      var difference := exp - other.exp;
      if difference <= 0 {
        assert Zeros(0) + bigits == bigits;
        return;
      }
      ZerosBelow(bigits, difference, other.exp);
      AmountPositive(bigits, exp);
      CanonicalZero(bigits);
      MoveUp(difference);
      exp := exp - difference;
    }

    /** In place, although source and target overlap: copying from the top bigit down. */
    method MoveUp(difference: nat)
      modifies this`bigits
      ensures bigits == Zeros(difference) + old(bigits)
    {
      ghost var was := bigits;
      var numBigits := |bigits|;
      Resize(numBigits + difference);
      var i, j := numBigits - 1, numBigits - 1 + difference;
      while i >= 0
        invariant -1 <= i < numBigits && j == i + difference && |bigits| == numBigits + difference
        invariant forall k :: 0 <= k <= i ==> bigits[k] == was[k]
        invariant forall k :: i < k < numBigits ==> bigits[k + difference] == was[k]
      {
        bigits := bigits[j := bigits[i]];
        i, j := i - 1, j - 1;
      }
      bigits := Zeros(difference) + bigits[difference..];
    }

    /** One bigit of a subtraction; the widened difference wraps, and its top bit is the borrow. */
    method SubtractBigits(index: nat, other: Bigit, borrow: Bigit) returns (borrowOut: Bigit)
      requires index < |bigits| && borrow <= 1
      modifies this`bigits
      ensures borrowOut <= 1
      ensures |bigits| == |old(bigits)| && bigits == old(bigits)[index := bigits[index]]
      ensures bigits[index] - borrowOut * BASE == old(bigits)[index] - other - borrow
    {
      var result: DoubleBigit := (bigits[index] - other - borrow) % BASE_SQUARED;
      bigits := bigits[index := result % BASE];
      borrowOut := result / (BASE_SQUARED / 2);
    }

    /** Whether the borrow of a subtraction of other is left for a zero bigit. */
    ghost predicate BorrowMeetsZero(other: Bigint)
      requires other.exp >= exp
      reads this, other
    {
      MeetsZero(bigits, other.bigits, other.exp - exp)
    }

    /**
      Subtracts in place. The final borrow loop stays on one bigit, so when that bigit is zero it is decremented
      twice and the result is too large; otherwise the result is the difference.
      */
    method SubtractAligned(other: Bigint)
      requires this != other && other.exp >= exp
      requires other.bigits != [] && |bigits| >= other.exp - exp + |other.bigits|
      requires Value() >= other.Value()
      modifies this`bigits
      ensures Valid()
      ensures Value() == old(Value()) - other.Value() +
                         if old(BorrowMeetsZero(other)) then (BASE - 1) * B(other.exp + |other.bigits|) else 0
    {
      ghost var was := bigits;
      var i := other.exp - exp;
      var borrow := SubtractLow(other, i);
      SettledDifference(was, bigits, other.bigits, i, exp, borrow);
      i := i + |other.bigits|;
      SettleBorrow(i, borrow);
      RemoveLeadingZeros();
    }

    /** Subtracts other's bigits from those at index shift and above, up to the borrow out of the last one. */
    method SubtractLow(other: Bigint, shift: nat) returns (borrow: Bigit)
      requires this != other && shift + |other.bigits| <= |bigits|
      modifies this`bigits
      ensures LowSubtracted(old(bigits), bigits, other.bigits, shift, |other.bigits|, borrow)
    {
      ghost var was := bigits;
      borrow := 0;
      var i, j := shift, 0;
      while j != |other.bigits|
        invariant 0 <= j <= |other.bigits| && i == shift + j
        invariant LowSubtracted(was, bigits, other.bigits, shift, j, borrow)
        decreases |other.bigits| - j
      {
        ghost var before, borrowIn := bigits, borrow;
        borrow := SubtractBigits(i, other.bigits[j], borrow);
        SubtractStep(was, before, bigits, other.bigits, shift, j, borrowIn, borrow);
        i, j := i + 1, j + 1;
      }
    }

    /** Takes the borrow from bigit i until none is left; twice when that bigit is zero. */
    method SettleBorrow(i: nat, borrowIn: Bigit)
      requires borrowIn <= 1 && (borrowIn == 1 ==> i < |bigits|)
      modifies this`bigits
      ensures bigits == Settled(old(bigits), i, borrowIn)
    {
      ghost var was := bigits;
      var borrow := borrowIn;
      while borrow > 0
        invariant 0 <= borrow <= borrowIn && |bigits| == |was|
        invariant borrow == 0 ==> bigits == Settled(was, i, borrowIn)
        invariant borrow == 1 ==> bigits == was || (was[i] == 0 && bigits == was[i := BASE - 1])
        decreases borrow, if bigits == was then 1 else 0
      {
        borrow := SubtractBigits(i, 0, borrow);
      }
    }

    /**
      Divides in place by repeated subtraction: returns the floor quotient and leaves the remainder, except when
      this equals the divisor but is stored at a higher exponent, which compare reports as less. A zero must not reach
      above the divisor: compare reports it as greater then, and the divisor is subtracted from it.
      */
    method DivmodAssign(divisor: Bigint) returns (quotient: nat)
      requires this != divisor && Valid() && divisor.Valid() && divisor.Value() > 0
      requires Value() == 0 ==> exp < divisor.NumBigits()
      requires Value() < 0x8000_0000 * divisor.Value()
      modifies this
      ensures Valid() && (Value() == 0 ==> exp < divisor.NumBigits())
      ensures old(ZeroNotAbove(this, divisor)) ==> ZeroNotAbove(this, divisor)
      ensures exp == if quotient > 0 then Min(old(exp), divisor.exp) else old(exp)
      ensures old(Value()) == divisor.Value() && old(exp) > divisor.exp ==>
        quotient == 0 && Value() == old(Value())
      ensures !(old(Value()) == divisor.Value() && old(exp) > divisor.exp) ==>
        old(Value()) == quotient * divisor.Value() + Value() && Value() < divisor.Value()
    {
      ZeroStored(bigits, exp);
      AmountPositive(divisor.bigits, divisor.exp);
      var c := Compare(this, divisor);
      if c < 0 {
        return 0;
      }
      Align(divisor);
      quotient := SubtractRepeatedly(divisor);
    }

    method SubtractRepeatedly(divisor: Bigint) returns (quotient: nat)
      requires this != divisor && Valid() && divisor.Valid() && divisor.Value() > 0
      requires exp <= divisor.exp
      requires divisor.Value() <= Value() < 0x8000_0000 * divisor.Value()
      modifies this`bigits
      ensures Valid() && quotient > 0
      ensures old(Value()) == quotient * divisor.Value() + Value() && Value() < divisor.Value()
    {
      ghost var all, d := Value(), divisor.Value();
      quotient := 0;
      while true
        invariant Valid() && quotient * d + Value() == all
        invariant d <= Value() <= all
        decreases Value()
      {
        SubtractOnce(divisor);
        MulDistribute(quotient, 1, d);
        quotient := quotient + 1;
        var c := Compare(this, divisor);
        if c < 0 {
          break;
        }
      }
    }

    method SubtractOnce(divisor: Bigint)
      requires this != divisor && Valid() && divisor.Valid() && exp <= divisor.exp
      requires divisor.Value() <= Value() < 0x8000_0000 * divisor.Value()
      requires divisor.Value() > 0
      modifies this`bigits
      ensures Valid() && Value() == old(Value()) - divisor.Value()
    {
      QuotientIsSmall(bigits, exp, divisor.bigits, divisor.exp);
      SubtractAligned(divisor);
    }

    /** Appends what is left of a carry, a bigit at a time. */
    method PushCarry(value: DoubleBigit)
      modifies this`bigits
      ensures Val(bigits) == old(Val(bigits)) + value * B(|old(bigits)|)
      ensures |bigits| >= |old(bigits)|
      ensures value == 0 ==> bigits == old(bigits)
      ensures value > 0 ==> |bigits| > |old(bigits)| && bigits[|bigits| - 1] != 0
    {
      var carry: nat := value;
      while carry != 0
        invariant |bigits| >= |old(bigits)|
        invariant Val(bigits) + carry * B(|bigits|) == old(Val(bigits)) + value * B(|old(bigits)|)
        invariant |bigits| == |old(bigits)| ==> carry == value && bigits == old(bigits)
        invariant |bigits| > |old(bigits)| ==> value > 0 && carry < BASE && (carry == 0 ==> bigits[|bigits| - 1] != 0)
        decreases carry
      {
        ValSnoc(bigits, carry % BASE);
        CarrySplit(carry, B(|bigits|));
        bigits := bigits + [carry % BASE];
        carry := carry / BASE;
      }
    }
  }

  /** The bound in MultiplyDouble, reached when all the words are all ones. */
  lemma WideCarryFits(x: Bigit, upper: Bigit, result: DoubleBigit, carry: DoubleBigit)
    requires result <= (BASE - 1) * BASE
    ensures x * upper + result / BASE + carry / BASE <= BASE_SQUARED - 1
    ensures x == upper == BASE - 1 && result == (BASE - 1) * BASE && carry == BASE_SQUARED - 1 ==>
      x * upper + result / BASE + carry / BASE == BASE_SQUARED - 1
  {
    WideSumFits(x, upper, result / BASE, carry / BASE);
  }

  lemma WideSumFits(x: Bigit, upper: Bigit, resultHigh: Bigit, carryHigh: Bigit)
    ensures 0 <= x * upper + resultHigh + carryHigh <= BASE_SQUARED - 1
  {
    MulMonotone(x, BASE - 1, upper, BASE - 1);
  }

  lemma ColumnAddsUp(x: int, lower: int, upper: int, carryLow: int, carryHigh: int, low: int, resultHigh: int)
    requires x * lower + carryLow == resultHigh * BASE + low
    ensures (x * upper + resultHigh + carryHigh) * BASE + low ==
            x * (upper * BASE + lower) + (carryHigh * BASE + carryLow)
  {
    MulAssoc(x, upper, BASE);
    MulDistribute(upper * BASE, lower, x);
    MulCommutes(x, upper * BASE + lower);
    MulCommutes(x, upper * BASE);
    MulCommutes(x, lower);
  }

  lemma WideStep(was: seq<Bigit>, before: seq<Bigit>, after: seq<Bigit>, i: nat, value: nat,
                 carryIn: nat, carryOut: nat)
    requires i < |was| == |before| == |after|
    requires before[i..] == was[i..] && after == before[i := after[i]]
    requires Val(before[..i]) + carryIn * B(i) == Val(was[..i]) * value
    requires before[i] * value + carryIn == carryOut * BASE + after[i]
    ensures Val(after[..i + 1]) + carryOut * B(i + 1) == Val(was[..i + 1]) * value
    ensures after[i + 1..] == was[i + 1..]
  {
    ValTakeStep(after, i);
    ValTakeStep(was, i);
    assert after[..i] == before[..i];
    assert before[i] == before[i..][0] == was[i];
    assert after[i + 1..] == before[i..][1..];
    CarryArithmetic(Val(before[..i]), Val(was[..i]), was[i], value, carryIn, carryOut, after[i], B(i));
  }

  /** One column of a multiplication by value: low and high part of the sum go one place apart. */
  lemma CarryArithmetic(low: int, lowWas: int, x: int, value: int, carryIn: int, carryOut: int, d: int, w: int)
    requires low + carryIn * w == lowWas * value
    requires x * value + carryIn == carryOut * BASE + d
    ensures low + d * w + carryOut * (BASE * w) == (lowWas + x * w) * value
  {
    calc {
      (lowWas + x * w) * value;
      { assert x * w * value == x * value * w; }
      lowWas * value + x * value * w;
      { assert x * value == carryOut * BASE + d - carryIn; }
      lowWas * value + (carryOut * BASE + d - carryIn) * w;
      { MulAssoc(carryOut, BASE, w); }
      low + d * w + carryOut * (BASE * w);
    }
  }

  lemma CarrySplit(carry: nat, w: nat)
    ensures carry * w == (carry % BASE) * w + (carry / BASE) * (BASE * w)
  {
    assert carry == carry / BASE * BASE + carry % BASE;
    MulAssoc(carry / BASE, BASE, w);
  }

  lemma PowersOfTwo(bits: nat)
    requires 0 < bits < 32
    ensures Pow(2, bits) * Pow(2, 32 - bits) == BASE
    ensures 1 < Pow(2, bits) < BASE && 1 < Pow(2, 32 - bits) < BASE
  {
    PowAdd(2, bits, 32 - bits);
    TwoTo32();
    PowMonotone(2, 1, bits);
    PowMonotone(2, 1, 32 - bits);
    assert Pow(2, 1) == 2;
    MulMonotone(2, Pow(2, bits), Pow(2, 32 - bits), Pow(2, 32 - bits));
    MulMonotone(Pow(2, bits), Pow(2, bits), 2, Pow(2, 32 - bits));
  }

  lemma TwoTo32()
    ensures Pow(2, 32) == BASE
  {
    assert Pow(2, 8) == 256;
    PowAdd(2, 8, 8);
    PowAdd(2, 16, 16);
  }

  lemma ShiftWeight(v: nat, e: nat, shift: nat)
    ensures v * Pow(2, shift % 32) * B(e + shift / 32) == v * B(e) * Pow(2, shift)
    ensures shift % 32 == 0 ==> v * B(e + shift / 32) == v * B(e) * Pow(2, shift)
  {
    var q, low := shift / 32, Pow(2, shift % 32);
    PowAdd(2, 32 * q, shift % 32);
    PowMul(2, 32, q);
    TwoTo32();
    PowAdd(BASE, e, q);
    MulRegroup(v, B(e), B(q), low);
    assert shift % 32 == 0 ==> low == 1;
  }

  lemma MulRegroup(v: int, a: int, b: int, c: int)
    ensures v * c * (a * b) == v * a * (b * c)
  {
    MulAssoc(v, a, b * c);
    MulAssoc(v, c, a * b);
    MulAssoc(a, b, c);
  }

  /** The part of x * low that stays in the word leaves room for a carry below low. */
  lemma ShiftedBigit(x: Bigit, q: nat, r: nat, low: nat, high: nat, carry: nat)
    requires low * high == BASE && low > 0 && high > 0 && carry < low
    requires x == q * high + r && r < high
    ensures q < low && (x * low) % BASE + carry < BASE
    ensures x * low + carry == q * BASE + ((x * low) % BASE + carry)
  {
    MulDistribute(q * high, r, low);
    MulAssoc(q, high, low);
    MulCommutes(high, low);
    MulMonotone(r + 1, high, low, low);
    MulDistribute(r, 1, low);
    DivModUnique(x * low, BASE, q, r * low);
    if q >= low {
      MulMonotone(low, q, high, high);
    }
  }

  lemma SquareFits(n: seq<Bigit>, carry: nat)
    requires n != []
    ensures Val(n) * Val(n) < B(2 * |n|)
    ensures carry * B(2 * |n|) <= Val(n) * Val(n) ==> carry == 0
  {
    ValBound(n);
    PowAdd(BASE, |n|, |n|);
    BelowSquare(Val(n), B(|n|), carry);
  }

  lemma BelowSquare(v: nat, b: nat, carry: nat)
    requires v < b
    ensures v * v < b * b
    ensures carry * (b * b) <= v * v ==> carry == 0
  {
    MulMonotone(v, b - 1, v, b);
    MulDistribute(b, -1, b);
    if carry > 0 {
      MulMonotone(1, carry, b * b, b * b);
    }
  }

  predicate IsPowerOfTwo(n: nat) {
    n == 1 || (n > 0 && n % 2 == 0 && IsPowerOfTwo(n / 2))
  }

  lemma HalveDivisor(n: nat, d: nat)
    requires d > 0
    ensures Quotient(n, d) == 2 * Quotient(n, 2 * d) + Quotient(n, d) % 2
  {
    var q, r := n / (2 * d), n % (2 * d);
    assert n == q * (2 * d) + r;
    if r < d {
      DivModUnique(n, d, 2 * q, r);
    } else {
      DivModUnique(n, d, 2 * q + 1, r - d);
    }
  }

  /** Five to a power below 2^30 stays far below the bigit count that squaring can index. */
  lemma SizeOfPow5(s: seq<Bigit>, power: nat)
    requires Canonical(s) && Val(s) == Pow(5, power) && power < 0x4000_0000
    ensures |s| < 0x4000_0000
  {
    if |s| >= 0x4000_0000 {
      TopBigit(s);
      PowBaseMonotone(5, 8, power);
      assert Pow(2, 3) == 8;
      PowMul(2, 3, power);
      TwoTo32();
      PowMul(2, 32, |s| - 1);
      assert Pow(2, 32 * (|s| - 1)) <= Pow(2, 3 * power);
      PowMonotone(2, 3 * power + 1, 32 * (|s| - 1));
      PowPositive(2, 3 * power);
    }
  }

  lemma ZerosBelow(s: seq<Bigit>, n: nat, e: nat)
    ensures Amount(Zeros(n) + s, e) == Amount(s, e + n)
  {
    ValConcat(Zeros(n), s);
    ValZeros(Zeros(n));
    PowAdd(BASE, n, e);
    ScaleArithmetic(Val(s), B(n), B(e));
  }

  lemma ScaleArithmetic(v: int, a: int, b: int)
    ensures (0 + a * v) * b == v * (a * b)
  {
    MulAssoc(v, a, b);
  }

  // ------------------------------------------------------------------ comparison

  /** A zero operand must not be stored at a higher exponent than what it is compared with. */
  ghost predicate ZeroNotAbove(x: Bigint, y: Bigint)
    reads x, y
  {
    x.Value() == 0 ==> x.exp <= y.exp
  }

  /**
    What compare returns for amounts l and r stored at exponents le and re: the sign of the difference, but equal
    amounts at different exponents are told apart by their exponents.
    */
  function Comparison(l: nat, le: nat, r: nat, re: nat): int {
    if l == r then Sign(re - le) else Sign(l - r)
  }

  /** A zero that is stored so high that its one bigit reaches above all of t. */
  predicate ZeroAbove(s: seq<Bigit>, e: nat, t: seq<Bigit>, f: nat) {
    Amount(s, e) == 0 && e >= f + |t|
  }

  /** What compare returns for any two canonical numbers: a zero that reaches above the other one counts as larger. */
  function StoredComparison(l: seq<Bigit>, le: nat, r: seq<Bigit>, re: nat): int {
    if ZeroAbove(l, le, r, re) then 1
    else if ZeroAbove(r, re, l, le) then -1
    else Comparison(Amount(l, le), le, Amount(r, re), re)
  }

  method Compare(lhs: Bigint, rhs: Bigint) returns (c: int)
    requires lhs.Valid() && rhs.Valid()
    ensures c == StoredComparison(lhs.bigits, lhs.exp, rhs.bigits, rhs.exp)
    ensures c == Sign(lhs.Value() - rhs.Value()) <==>
            if lhs.Value() == rhs.Value() then lhs.exp == rhs.exp
            else (lhs.Value() == 0 ==> lhs.exp < rhs.NumBigits()) && (rhs.Value() == 0 ==> rhs.exp < lhs.NumBigits())
    ensures ZeroNotAbove(lhs, rhs) && ZeroNotAbove(rhs, lhs) ==>
      c == Comparison(lhs.Value(), lhs.exp, rhs.Value(), rhs.exp)
  {
    var l, r, le, re := lhs.bigits, rhs.bigits, lhs.exp, rhs.exp;
    ComparisonIsSign(l, le, r, re);
    AmountPositive(l, le);
    AmountPositive(r, re);
    CanonicalZero(l);
    CanonicalZero(r);
    if lhs.NumBigits() != rhs.NumBigits() {
      if Val(l) > 0 && lhs.NumBigits() > rhs.NumBigits() {
        FewerBigits(r, re, l, le);
      }
      if Val(r) > 0 && lhs.NumBigits() < rhs.NumBigits() {
        FewerBigits(l, le, r, re);
      }
      return if lhs.NumBigits() > rhs.NumBigits() then 1 else -1;
    }
    c := CompareStored(l, le, r, re);
  }

  /** The bigits of numbers that end at the same place, top ones first. */
  method CompareStored(l: seq<Bigit>, le: nat, r: seq<Bigit>, re: nat) returns (c: int)
    requires le + |l| == re + |r|
    ensures c == Comparison(Amount(l, le), le, Amount(r, re), re)
  {
    var i, j := |l| - 1, |r| - 1;
    var end := i - j;
    if end < 0 {
      end := 0;
    }
    while i >= end
      invariant end - 1 <= i < |l| && i + le == j + re
      invariant High(l, le, i + 1 + le) == High(r, re, i + 1 + le)
    {
      if l[i] != r[j] {
        FirstDifference(l, le, r, re, i, j);
        return if l[i] > r[j] then 1 else -1;
      }
      SameOneFurther(l, le, r, re, i, j);
      i, j := i - 1, j - 1;
    }
    NoDifference(l, le, r, re, i, j);
    if i != j {
      return if i > j then 1 else -1;
    }
    return 0;
  }

  lemma SameOneFurther(l: seq<Bigit>, le: nat, r: seq<Bigit>, re: nat, i: nat, j: nat)
    requires i < |l| && j < |r| && i + le == j + re && l[i] == r[j]
    requires High(l, le, i + 1 + le) == High(r, re, i + 1 + le)
    ensures High(l, le, i + le) == High(r, re, i + le)
  {
    HighStep(l, le, i + le);
    HighStep(r, re, i + le);
  }

  /** The first bigits that differ decide, whatever lies below them. */
  lemma FirstDifference(l: seq<Bigit>, le: nat, r: seq<Bigit>, re: nat, i: nat, j: nat)
    requires i < |l| && j < |r| && i + le == j + re && l[i] != r[j]
    requires High(l, le, i + 1 + le) == High(r, re, i + 1 + le)
    ensures Comparison(Amount(l, le), le, Amount(r, re), re) == if l[i] > r[j] then 1 else -1
  {
    HighStep(l, le, i + le);
    HighStep(r, re, i + le);
    if l[i] > r[j] {
      HighOrder(r, re, l, le, i + le);
    } else {
      HighOrder(l, le, r, re, i + le);
    }
  }

  /** If there is none in the bigits stored for both, the one with more bigits stored counts as larger. */
  lemma NoDifference(l: seq<Bigit>, le: nat, r: seq<Bigit>, re: nat, i: int, j: int)
    requires i + le == j + re && i >= -1 && j >= -1 && (i == -1 || j == -1)
    requires High(l, le, i + 1 + le) == High(r, re, i + 1 + le)
    ensures Comparison(Amount(l, le), le, Amount(r, re), re) == Sign(i - j)
  {
    EqualDownTo(l, le, r, re, i + 1 + le);
  }

  /**
    The sign of lhs1 + lhs2 - rhs, read from the top bigit down; the running difference decides as soon as it is
    negative or above one. The numbers of bigits are looked at first, and a zero that is stored high misleads them.
    */
  method AddCompare(lhs1: Bigint, lhs2: Bigint, rhs: Bigint) returns (c: int)
    requires lhs1.Valid() && lhs2.Valid() && rhs.Valid()
    ensures var most := Max(lhs1.NumBigits(), lhs2.NumBigits());
      c == if rhs.Value() == 0 && most < rhs.exp then -1
           else if most > rhs.NumBigits() then 1
           else Sign(lhs1.Value() + lhs2.Value() - rhs.Value())
    ensures ZeroNotAbove(lhs1, rhs) && ZeroNotAbove(lhs2, rhs) ==>
      (c == Sign(lhs1.Value() + lhs2.Value() - rhs.Value()) <==>
       (rhs.Value() == 0 ==> rhs.exp <= Max(lhs1.NumBigits(), lhs2.NumBigits())))
  {
    var maxLhsBigits := Max(lhs1.NumBigits(), lhs2.NumBigits());
    var numRhsBigits := rhs.NumBigits();
    NumBigitsBound(lhs1, maxLhsBigits);
    NumBigitsBound(lhs2, maxLhsBigits);
    ZeroStored(rhs.bigits, rhs.exp);
    if maxLhsBigits > numRhsBigits {
      MoreThanRhs(lhs1, rhs);
      MoreThanRhs(lhs2, rhs);
    }
    if maxLhsBigits + 1 < numRhsBigits {
      FarBelow(rhs, maxLhsBigits, lhs1.Value() + lhs2.Value());
      return -1;
    }
    if maxLhsBigits > numRhsBigits {
      return 1;
    }
    c := AddCompareColumns(lhs1.bigits, lhs1.exp, lhs2.bigits, lhs2.exp, rhs.bigits, rhs.exp);
  }

  /** Two summands of at most n bigits stay below a number of n + 2. */
  lemma FarBelow(rhs: Bigint, n: nat, sum: nat)
    requires rhs.Valid() && n + 1 < rhs.NumBigits() && sum < 2 * B(n)
    ensures rhs.Value() > 0 ==> sum < rhs.Value()
  {
    AmountPositive(rhs.bigits, rhs.exp);
    if rhs.Value() > 0 {
      AmountReaches(rhs.bigits, rhs.exp);
      BStep(n);
      PowMonotone(BASE, n + 1, rhs.NumBigits() - 1);
    }
  }

  /** How far rhs is ahead of the sum in the bigits of weight B(i) and above. */
  ghost function Lead(s1: seq<Bigit>, e1: nat, s2: seq<Bigit>, e2: nat, r: seq<Bigit>, re: nat, i: nat): int {
    High(r, re, i) - High(s1, e1, i) - High(s2, e2, i)
  }

  lemma LeadStep(s1: seq<Bigit>, e1: nat, s2: seq<Bigit>, e2: nat, r: seq<Bigit>, re: nat, i: nat)
    ensures Lead(s1, e1, s2, e2, r, re, i) == BASE * Lead(s1, e1, s2, e2, r, re, i + 1) +
                                              BigitAt(r, re, i) - BigitAt(s1, e1, i) - BigitAt(s2, e2, i)
  {
    HighStep(s1, e1, i);
    HighStep(s2, e2, i);
    HighStep(r, re, i);
  }

  method AddCompareColumns(s1: seq<Bigit>, e1: nat, s2: seq<Bigit>, e2: nat, r: seq<Bigit>, re: nat)
    returns (c: int)
    requires e1 + |s1| <= re + |r| && e2 + |s2| <= re + |r|
    ensures c == Sign(Amount(s1, e1) + Amount(s2, e2) - Amount(r, re))
  {
    var minExp := Min(Min(e1, e2), re);
    var borrow: nat := 0;
    var i := re + |r|;
    while i > minExp
      invariant minExp <= i <= re + |r|
      invariant borrow == BASE * Lead(s1, e1, s2, e2, r, re, i)
      invariant borrow <= BASE
    {
      i := i - 1;
      LeadStep(s1, e1, s2, e2, r, re, i);
      var sum: DoubleBigit := BigitAt(s1, e1, i) + BigitAt(s2, e2, i);
      var rhsBigit := BigitAt(r, re, i);
      if sum > rhsBigit + borrow {
        SumAbove(s1, e1, s2, e2, r, re, i);
        return 1;
      }
      borrow := rhsBigit + borrow - sum;
      if borrow > 1 {
        SumBelow(s1, e1, s2, e2, r, re, i);
        return -1;
      }
      borrow := borrow * BASE;
    }
    AllRead(s1, e1, s2, e2, r, re, i);
    return if borrow != 0 then -1 else 0;
  }

  /** Below the least exponent there is nothing left to read. */
  lemma AllRead(s1: seq<Bigit>, e1: nat, s2: seq<Bigit>, e2: nat, r: seq<Bigit>, re: nat, i: nat)
    requires i <= e1 && i <= e2 && i <= re
    requires 0 <= Lead(s1, e1, s2, e2, r, re, i) <= 1
    ensures Sign(Amount(s1, e1) + Amount(s2, e2) - Amount(r, re)) == -Lead(s1, e1, s2, e2, r, re, i)
  {
    HighExact(s1, e1, i);
    HighExact(s2, e2, i);
    HighExact(r, re, i);
    BPositive(i);
    ScaledSign(High(s1, e1, i), High(s2, e2, i), High(r, re, i), B(i));
  }

  /** If what is read of the sum exceeds what is read of rhs, nothing below can make up for it. */
  lemma SumAbove(s1: seq<Bigit>, e1: nat, s2: seq<Bigit>, e2: nat, r: seq<Bigit>, re: nat, i: nat)
    requires High(s1, e1, i) + High(s2, e2, i) > High(r, re, i)
    ensures Amount(s1, e1) + Amount(s2, e2) > Amount(r, re)
  {
    HighBounds(s1, e1, i);
    HighBounds(s2, e2, i);
    HighBounds(r, re, i);
    var h1, h2, w := High(s1, e1, i), High(s2, e2, i), B(i);
    MulDistribute(h1, h2, w);
    MulMonotone(High(r, re, i) + 1, h1 + h2, w, w);
  }

  /** If rhs is ahead by two in what is read, the rest of the two summands cannot catch up. */
  lemma SumBelow(s1: seq<Bigit>, e1: nat, s2: seq<Bigit>, e2: nat, r: seq<Bigit>, re: nat, i: nat)
    requires High(s1, e1, i) + High(s2, e2, i) + 2 <= High(r, re, i)
    ensures Amount(s1, e1) + Amount(s2, e2) < Amount(r, re)
  {
    HighBounds(s1, e1, i);
    HighBounds(s2, e2, i);
    HighBounds(r, re, i);
    var h1, h2, w := High(s1, e1, i), High(s2, e2, i), B(i);
    MulDistribute(h1 + 1, h2 + 1, w);
    MulMonotone(h1 + 1 + (h2 + 1), High(r, re, i), w, w);
  }

  lemma HighExact(s: seq<Bigit>, e: nat, i: nat)
    requires i <= e
    ensures Amount(s, e) == High(s, e, i) * B(i)
  {
    if s == [] {
      assert High(s, e, i) == 0;
    } else {
      assert s[0..] == s;
      PowAdd(BASE, e - i, i);
      MulAssoc(Val(s), B(e - i), B(i));
      assert B(0) == 1;
    }
  }

  lemma ScaledSign(x: nat, y: nat, z: nat, w: nat)
    requires z <= x + y + 1 <= z + 1 && w > 0
    ensures Sign(x * w + y * w - z * w) == if x + y == z then 0 else -1
  {
    MulDistribute(x, y, w);
    MulCancel(x + y, z, w);
  }

  lemma NumBigitsBound(x: Bigint, n: nat)
    requires x.NumBigits() <= n
    ensures x.Value() < B(n)
  {
    AmountBound(x.bigits, x.exp);
    PowMonotone(BASE, x.NumBigits(), n);
  }

  lemma MoreThanRhs(x: Bigint, rhs: Bigint)
    requires x.Valid() && rhs.Valid()
    ensures ZeroNotAbove(x, rhs) && x.NumBigits() > rhs.NumBigits() ==> x.Value() > rhs.Value()
  {
    AmountPositive(x.bigits, x.exp);
    CanonicalZero(x.bigits);
    if x.Value() > 0 && x.NumBigits() > rhs.NumBigits() {
      FewerBigits(rhs.bigits, rhs.exp, x.bigits, x.exp);
    }
  }

  lemma FewerBigits(s: seq<Bigit>, e: nat, t: seq<Bigit>, f: nat)
    requires Canonical(t) && Val(t) > 0 && e + |s| < f + |t|
    ensures Amount(s, e) < Amount(t, f)
  {
    if Amount(s, e) >= Amount(t, f) {
      MoreBigits(s, e, t, f);
    }
  }

  /** Numbers with equal bigits from index i up, one of them ending there, differ by what the other has below. */
  lemma EqualDownTo(s: seq<Bigit>, e: nat, t: seq<Bigit>, f: nat, i: nat)
    requires High(s, e, i) == High(t, f, i)
    ensures i == e ==> Amount(s, e) <= Amount(t, f)
    ensures i == f ==> Amount(t, f) <= Amount(s, e)
  {
    HighBounds(s, e, i);
    HighBounds(t, f, i);
    if i == e {
      assert s[0..] == s;
    }
    if i == f {
      assert t[0..] == t;
    }
  }

  lemma QuotientIsSmall(s: seq<Bigit>, e: nat, t: seq<Bigit>, f: nat)
    requires Canonical(s) && Canonical(t) && Val(t) > 0 && e <= f
    requires Amount(t, f) <= Amount(s, e) < BASE * Amount(t, f)
    ensures f + |t| <= e + |s| <= f + |t| + 1
    ensures f - e + |t| < |s| ==> s[f - e + |t|] != 0
  {
    MoreBigits(s, e, t, f);
    AmountPositive(s, e);
    AmountPositive(t, f);
    AmountBound(t, f);
    AmountReaches(s, e);
    BStep(f + |t|);
    if e + |s| > f + |t| + 1 {
      PowMonotone(BASE, f + |t| + 1, e + |s| - 1);
    }
  }

  // ------------------------------------------------------------------ where stored exponents matter

  /**
    For all canonical numbers, compare is the sign of the difference exactly when equal numbers are stored at the same
    exponent and a zero does not reach above the other one.
    */
  lemma ComparisonIsSign(l: seq<Bigit>, le: nat, r: seq<Bigit>, re: nat)
    requires Canonical(l) && Canonical(r)
    ensures StoredComparison(l, le, r, re) == Sign(Amount(l, le) - Amount(r, re)) <==>
            if Amount(l, le) == Amount(r, re) then le == re
            else !ZeroAbove(l, le, r, re) && !ZeroAbove(r, re, l, le)
  {
    ZeroStored(l, le);
    ZeroStored(r, re);
  }

  /** Asking whether it is not negative, as division does, is right exactly under these conditions. */
  lemma ComparisonIsOrder(l: seq<Bigit>, le: nat, r: seq<Bigit>, re: nat)
    requires Canonical(l) && Canonical(r)
    ensures (StoredComparison(l, le, r, re) >= 0 <==> Amount(l, le) >= Amount(r, re)) <==>
            if Amount(l, le) == Amount(r, re) then (if Amount(l, le) == 0 then re <= le else le <= re)
            else !ZeroAbove(l, le, r, re) && !ZeroAbove(r, re, l, le)
  {
    ZeroStored(l, le);
    ZeroStored(r, re);
  }

  lemma ZeroStored(s: seq<Bigit>, e: nat)
    requires Canonical(s)
    ensures Amount(s, e) == 0 ==> |s| == 1
  {
    AmountPositive(s, e);
    CanonicalZero(s);
  }

  /** A zero that reaches above a number counts as larger than it, and division goes on to subtract from the zero. */
  lemma ZeroAboveIsLarger(e: nat, t: seq<Bigit>, f: nat)
    requires Canonical(t) && Val(t) > 0
    ensures StoredComparison([0], e, t, f) >= 0 <==> e >= f + |t|
  {
    CanonicalZero([0]);
    AmountPositive([0], e);
    AmountPositive(t, f);
  }

  /** A zero at exponent 3 compares as larger than one. */
  lemma HighZeroIsLarger()
    ensures Canonical([0]) && Canonical([1]) && Amount([0], 3) == 0 && Amount([1], 0) == 1
    ensures StoredComparison([0], 3, [1], 0) == 1
  {
    ValSingle(0);
    ValSingle(1);
    assert B(0) == 1;
  }

  /** A non-zero lowest bigit rules out a tie with anything stored at a higher exponent. */
  lemma LowBigitSeparates(s: seq<Bigit>, e: nat, t: seq<Bigit>, f: nat)
    requires s != [] && s[0] != 0 && e < f
    ensures Amount(s, e) != Amount(t, f)
  {
    var k := f - e - 1;
    PowAdd(BASE, k + 1, e);
    BPositive(e);
    MulAssoc(Val(t), B(k + 1), B(e));
    MulCancel(Val(s), Val(t) * B(k + 1), B(e));
    MulAssoc(Val(t), BASE, B(k));
    if Val(s) == Val(t) * B(k + 1) {
      MultipleOfBase(Val(t), B(k));
      DivModUnique(Val(s), BASE, Val(s[1..]), s[0]);
      DivModUnique(Val(s), BASE, Val(t) * B(k), 0);
    }
  }

  lemma MultipleOfBase(v: nat, w: nat)
    ensures v * (BASE * w) == (v * w) * BASE
  {
    MulCommutes(BASE, w);
    MulAssoc(v, w, BASE);
  }

  /** 2^32 stored as one bigit at exponent 1 and as two bigits at exponent 0 are told apart. */
  lemma EqualAmountsToldApart()
    ensures Amount([1], 1) == Amount([0, 1], 0) && StoredComparison([0, 1], 0, [1], 1) == 1
  {
    ValSingle(1);
    assert [0, 1][1..] == [1];
    assert Val([0, 1]) == 0 + BASE * Val([1]);
    assert B(0) == 1 && B(1) == BASE;
  }

  /**
    Subtracting 1 from 2^64: after the lowest bigit, a borrow is left for the zero bigit above it, which the loop
    decrements twice. The result is too large by almost 2^64.
    */
  lemma BorrowLoopStays()
    ensures Val([0, 0, 1]) == BASE_SQUARED
    ensures Val([BASE - 1, 0, 1]) - BASE == Val([0, 0, 1]) - 1
    ensures Val(Settled([BASE - 1, 0, 1], 1, 1)) == Val([0, 0, 1]) - 1 + (BASE - 1) * BASE
  {
    ThreeBigits(0, 0);
    ThreeBigits(BASE - 1, 0);
    ThreeBigits(BASE - 1, BASE - 2);
    assert Settled([BASE - 1, 0, 1], 1, 1) == [BASE - 1, BASE - 2, 1];
  }

  lemma ThreeBigits(low: Bigit, middle: Bigit)
    ensures Val([low, middle, 1]) == low + BASE * (middle + BASE)
  {
    ValSingle(1);
    assert [low, middle, 1][1..] == [middle, 1] && [middle, 1][1..] == [1];
    assert Val([middle, 1]) == middle + BASE * Val([1]);
  }
}
