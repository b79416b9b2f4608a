/** The two-word accumulator of column sums: 128-bit addition and shift built from 64-bit words. */
module AccumulatorModel {
  import opened Bigits
  import opened Convolution
  import opened Powers
  import opened Words

  class Accumulator {
    var lower: DoubleBigit
    var upper: DoubleBigit

    ghost function Total(): nat
      reads this
    {
      upper * BASE_SQUARED + lower
    }

    constructor ()
      ensures Total() == 0
    {
      lower, upper := 0, 0;
    }

    /** A wrapped low word carries into the high word; this is addition modulo 2^128. */
    method Add(n: DoubleBigit)
      modifies this
      ensures Total() == (old(Total()) + n) % TWO_128
      ensures old(Total()) + n < TWO_128 ==> Total() == old(Total()) + n
    {
      CarriedSum(upper, lower, n, if (lower + n) % BASE_SQUARED < n then 1 else 0);
      lower := (lower + n) % BASE_SQUARED;
      if lower < n {
        upper := (upper + 1) % BASE_SQUARED;
      }
    }

    method ShiftRight32()
      modifies this
      ensures Total() == old(Total()) / BASE
    {
      lower := (upper * BASE) % BASE_SQUARED + lower / BASE;
      upper := upper / BASE;
    }

    function LowBigit(): (r: Bigit)
      reads this
      ensures r == Total() % BASE
    {
      LowOfPair(upper, lower);
      lower % BASE
    }
  }

  lemma LowOfPair(high: nat, low: nat)
    ensures (high * BASE_SQUARED + low) % BASE == low % BASE
  {
    DivModUnique(high * BASE_SQUARED + low, BASE, high * BASE + low / BASE, low % BASE);
  }

  /** The sum of the low words is less than one of them exactly if it has wrapped around. */
  lemma CarriedSum(high: DoubleBigit, low: DoubleBigit, n: DoubleBigit, carry: nat)
    requires carry == if (low + n) % BASE_SQUARED < n then 1 else 0
    ensures (high + carry) % BASE_SQUARED * BASE_SQUARED + (low + n) % BASE_SQUARED ==
            (high * BASE_SQUARED + low + n) % TWO_128
    ensures high * BASE_SQUARED + low + n < TWO_128 ==>
      (high * BASE_SQUARED + low + n) % TWO_128 == high * BASE_SQUARED + low + n
  {
    AddCarries(high, low, n, carry, (low + n) % BASE_SQUARED);
  }

  /** The terms of column k of a square, k below the number of bigits: i from 0 up, j from k down. */
  method AddLowColumn(n: seq<Bigit>, k: nat, sum: Accumulator)
    requires k < |n|
    requires sum.Total() + Column(n, n, k) < TWO_128
    modifies sum
    ensures sum.Total() == old(sum.Total()) + Column(n, n, k)
  {
    var i, j := 0, k as int;
    assert n[0..] == n;
    while j >= 0
      invariant 0 <= i <= k + 1 && i + j == k
      invariant sum.Total() + Column(n[i..], n, j) == old(sum.Total()) + Column(n, n, k)
      decreases j + 1
    {
      ColumnStep(n, n, i, j);
      sum.Add(Product(n[i], n[j]));
      i, j := i + 1, j - 1;
    }
  }

  /** The terms of column k from the number of bigits on: j from the top bigit down, i up to it. */
  method AddHighColumn(n: seq<Bigit>, k: nat, sum: Accumulator)
    requires |n| <= k < 2 * |n|
    requires sum.Total() + Column(n, n, k) < TWO_128
    modifies sum
    ensures sum.Total() == old(sum.Total()) + Column(n, n, k)
  {
    var j := |n| - 1;
    var i := k - j;
    ColumnSkip(n, n, k, i);
    while i < |n|
      invariant 0 < i <= |n| && i + j == k && k - |n| <= j < |n|
      invariant sum.Total() + Column(n[i..], n, j) == old(sum.Total()) + Column(n, n, k)
    {
      ColumnStep(n, n, i, j);
      sum.Add(Product(n[i], n[j]));
      i, j := i + 1, j - 1;
    }
  }
}
