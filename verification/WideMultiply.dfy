/** Wide products from 64-bit words (src/3rdparty/fmt/format-inl.h and format.h): the portable branches. */
module WideMultiply {
  import opened Powers
  import opened Words

  function Lo(x: nat): (r: nat) ensures r < TWO_32 { x % TWO_32 }

  function Hi(x: nat): nat { x / TWO_32 }

  /** The four half products of two words. */
  datatype Halves = Halves(ac: nat, ad: nat, bc: nat, bd: nat) {
    predicate Fit() {
      var top := (TWO_32 - 1) * (TWO_32 - 1);
      ac <= top && ad <= top && bc <= top && bd <= top
    }

    function Sum(): nat {
      ac * TWO_64 + (ad + bc) * TWO_32 + bd
    }
  }

  function Split(x: Word64, y: Word64): (h: Halves)
    ensures h.Fit() && h.Sum() == x * y
  {
    var a, b, c, d := Hi(x), Lo(x), Hi(y), Lo(y);
    SplitProduct(a, b, c, d);
    HalfFits(a, c);
    HalfFits(a, d);
    HalfFits(b, c);
    HalfFits(b, d);
    var ac: nat, ad: nat, bc: nat, bd: nat := a * c, a * d, b * c, b * d;
    Halves(ac, ad, bc, bd)
  }

  lemma HalfFits(x: nat, y: nat)
    requires x < TWO_32 && y < TWO_32
    ensures 0 <= x * y <= (TWO_32 - 1) * (TWO_32 - 1)
  {
    MulMonotone(0, x, 0, y);
    MulMonotone(x, TWO_32 - 1, y, TWO_32 - 1);
  }

  lemma SplitProduct(a: nat, b: nat, c: nat, d: nat)
    ensures (a * TWO_32 + b) * (c * TWO_32 + d) == a * c * TWO_64 + (a * d + b * c) * TWO_32 + b * d
  {
    ProductOfSums(a * TWO_32, b, c * TWO_32, d);
    CommonFactors(a, c, TWO_32, TWO_32);
    CommonFactors(a, d, TWO_32, 1);
    MulAssoc(b, c, TWO_32);
  }

  lemma ProductOfSums(p: int, b: int, q: int, d: int)
    ensures (p + b) * (q + d) == p * q + p * d + b * q + b * d
  {
    MulDistribute(p, b, q + d);
  }

  lemma CommonFactors(x: int, y: int, s: int, t: int)
    ensures (x * s) * (y * t) == (x * y) * (s * t)
  {
    MulAssoc(x * s, y, t);
    MulAssoc(x, s, y);
    MulAssoc(x, y, s);
    MulAssoc(x * y, s, t);
  }

  /** The upper half of the product, rounded at the bit below it; no intermediate word overflows. */
  function Multiply(x: Word64, y: Word64): (r: Word64)
    ensures r == (x * y + TWO_63) / TWO_64
  {
    var h := Split(x, y);
    var mid: Word64 := Hi(h.bd) + Lo(h.ad) + Lo(h.bc) + TWO_31;
    h.ac + Hi(h.ad) + Hi(h.bc) + Hi(mid)
  }

  /** The branch with a 128-bit product: its upper half, plus one if the bit below is set. */
  lemma MultiplyBranchesAgree(x: Word64, y: Word64)
    ensures Multiply(x, y) == x * y / TWO_64 + (if x * y / TWO_63 % 2 != 0 then 1 else 0)
  {
    MulMonotone(0, x, 0, y);
    RoundAtBit(x * y);
  }

  lemma RoundAtBit(n: nat)
    ensures (n + TWO_63) / TWO_64 == n / TWO_64 + (if n / TWO_63 % 2 != 0 then 1 else 0)
  {
  }

  datatype Uint128 = Uint128(high: Word64, low: Word64) {
    function Value(): nat { high * TWO_64 + low }

    /** operator+=: the carry out of the low word is noticed by the sum being smaller; the high word wraps. */
    function Add(n: Word64): (r: Uint128)
      ensures r.Value() == (Value() + n) % TWO_128
    {
      var sum := (low + n) % TWO_64;
      var carry := if sum < low then 1 else 0;
      AddCarries(high, low, n, carry, sum);
      Uint128((high + carry) % TWO_64, sum)
    }
  }

  function Umul128(x: Word64, y: Word64): (r: Uint128)
    ensures r.Value() == x * y
  {
    var h := Split(x, y);
    JoinHalves(h);
    var intermediate: Word64 := Hi(h.bd) + Lo(h.ad) + Lo(h.bc);
    MulMonotone(x, TWO_64 - 1, y, TWO_64 - 1);
    Uint128(h.ac + Hi(intermediate) + Hi(h.ad) + Hi(h.bc), (intermediate * TWO_32) % TWO_64 + Lo(h.bd))
  }

  /** The half products put together word by word. */
  lemma JoinHalves(h: Halves)
    requires h.Fit()
    ensures var intermediate := Hi(h.bd) + Lo(h.ad) + Lo(h.bc);
      var high, low := h.ac + Hi(intermediate) + Hi(h.ad) + Hi(h.bc), (intermediate * TWO_32) % TWO_64 + Lo(h.bd);
      intermediate < TWO_64 && low < TWO_64 && high < TWO_64 && high * TWO_64 + low == h.Sum()
  {
    hide Hi, Lo;
    HiLo(h.ad);
    HiLo(h.bc);
    HiLo(h.bd);
    var intermediate := Hi(h.bd) + Lo(h.ad) + Lo(h.bc);
    HiLo(intermediate);
    DivModUnique(intermediate * TWO_32, TWO_64, Hi(intermediate), Lo(intermediate) * TWO_32);
  }

  lemma HiLo(x: nat)
    ensures x == Hi(x) * TWO_32 + Lo(x)
  {
  }

  function Umul128Upper64(x: Word64, y: Word64): (r: Word64)
    ensures r == x * y / TWO_64
  {
    Umul128(x, y).high
  }

  /** The top 64 bits of a 192-bit product: nothing is lost in the addition in between. */
  function Umul192Upper64(x: Word64, y: Uint128): (r: Word64)
    ensures r == x * y.Value() / TWO_128
  {
    hide Umul128, Umul128Upper64, Uint128.Add;
    WideProduct(x, y);
    var g0 := Umul128(x, y.high);
    var sum := g0.Add(Umul128Upper64(x, y.low));
    HighOfSum(x * y.Value(), g0.Value(), x * y.low / TWO_64, sum);
    sum.high
  }

  lemma HighOfSum(all: nat, p: nat, q: nat, sum: Uint128)
    requires all / TWO_64 == p + q && sum.Value() == (p + q) % TWO_128 && p + q < TWO_128
    ensures sum.high == all / TWO_128
  {
    assert sum.high == (p + q) / TWO_64;
    assert all / TWO_128 == all / TWO_64 / TWO_64;
  }

  /** The middle 64 bits, in wrapping arithmetic. */
  function Umul192Middle64(x: Word64, y: Uint128): (r: Word64)
    ensures r == x * y.Value() / TWO_64 % TWO_64
  {
    var g01 := LowProduct(x, y.high);
    var g10 := Umul128Upper64(x, y.low);
    MiddleWord(x, y, g01, g10);
    (g01 + g10) % TWO_64
  }

  /** A product of words as a word. */
  function LowProduct(x: Word64, y: Word64): (r: Word64)
    ensures r == x * y % TWO_64
  {
    MulMonotone(0, x, 0, y);
    x * y % TWO_64
  }

  lemma MiddleWord(x: Word64, y: Uint128, g01: Word64, g10: Word64)
    requires g01 == x * y.high % TWO_64 && g10 == x * y.low / TWO_64
    ensures (g01 + g10) % TWO_64 == x * y.Value() / TWO_64 % TWO_64
  {
    WideProduct(x, y);
    WrapOnce(x * y.high, g10, x * y.Value() / TWO_64);
  }

  lemma WrapOnce(p: nat, q: nat, sum: nat)
    requires sum == p + q
    ensures (p % TWO_64 + q) % TWO_64 == sum % TWO_64
  {
  }

  function Umul96Upper32(x: nat, y: Word64): (r: nat)
    requires x < TWO_32
    ensures r == x * y / TWO_64 && r < TWO_32
  {
    MulMonotone(x, TWO_32 - 1, y, TWO_64 - 1);
    QuotientBelow(x * y);
    Umul128Upper64(x, y) % TWO_32
  }

  lemma QuotientBelow(n: nat)
    requires n < TWO_32 * TWO_64
    ensures n / TWO_64 < TWO_32 && n / TWO_64 % TWO_32 == n / TWO_64
  {
  }

  lemma WideProduct(x: Word64, y: Uint128)
    ensures x * y.Value() == x * y.high * TWO_64 + x * y.low
    ensures 0 <= x * y.high && 0 <= x * y.low && x * y.high + x * y.low / TWO_64 < TWO_128
    ensures x * y.Value() / TWO_64 == x * y.high + x * y.low / TWO_64
  {
    MulMonotone(x, TWO_64 - 1, y.high, TWO_64 - 1);
    MulMonotone(x, TWO_64 - 1, y.low, TWO_64 - 1);
    MulAssoc(x, y.high, TWO_64);
  }
}
