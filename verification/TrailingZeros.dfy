/** Exact division by powers of five through modular inverses (src/3rdparty/fmt/format-inl.h). */
module TrailingZeros {
  import opened Powers
  import opened Words

  predicate Divides(d: nat, n: nat)
    requires d > 0
  {
    n % d == 0
  }

  /** A row of a divisibility table: d times the inverse is 1 in w-bit arithmetic, and max is floor((2^w - 1) / d). */
  predicate IsEntry(d: nat, modInv: nat, maxQuotient: nat, word: nat) {
    d > 0 && word > 0 && d * modInv % word == 1 && maxQuotient == (word - 1) / d
  }

  /**
    In w-bit arithmetic the product by the inverse is small exactly for the multiples of d, and for those it is the
    quotient.
    */
  lemma InverseTest(d: nat, modInv: nat, maxQuotient: nat, word: nat, n: nat)
    requires IsEntry(d, modInv, maxQuotient, word) && n < word
    ensures n * modInv % word <= maxQuotient <==> Divides(d, n)
    ensures Divides(d, n) ==> n * modInv % word == n / d
  {
    var q := n * modInv % word;
    var h, k := d * modInv / word, n * modInv / word;
    assert d * modInv == h * word + 1;
    assert n * modInv == k * word + q;
    if q <= maxQuotient {
      SmallIsQuotient(d, modInv, word, n, h, k, q);
    }
    if Divides(d, n) {
      QuotientIsSmall(d, modInv, word, n, h);
    }
  }

  lemma SmallIsQuotient(d: nat, modInv: nat, word: nat, n: nat, h: int, k: int, q: nat)
    requires d > 0 && n < word && q <= (word - 1) / d
    requires d * modInv == h * word + 1 && n * modInv == k * word + q
    ensures n == q * d && Divides(d, n) && n / d == q
  {
    BelowQuotient(q, d, word - 1);
    MulCommutes(d, q);
    Congruent(d, modInv, word, n, h, k, q);
    QuotientUnique(word, 0, d * q, n * h - d * k, n);
    DivModUnique(n, d, q, 0);
  }

  lemma QuotientIsSmall(d: nat, modInv: nat, word: nat, n: nat, h: int)
    requires d > 0 && n < word && Divides(d, n) && d * modInv == h * word + 1
    ensures n * modInv % word == n / d <= (word - 1) / d
  {
    var m := n / d;
    assert n == m * d;
    BelowQuotient(m, d, word - 1);
    ExactProduct(d, modInv, word, m, h);
    MulGrows(m, d);
    DivModUnique(n * modInv, word, m * h, m);
  }

  lemma BelowQuotient(m: nat, d: nat, max: nat)
    requires d > 0
    ensures m * d <= max <==> m <= max / d
  {
    assert max == max / d * d + max % d;
    if m <= max / d {
      MulMonotone(m, max / d, d, d);
    } else {
      MulMonotone(max / d + 1, m, d, d);
      MulDistribute(max / d, 1, d);
    }
  }

  lemma Congruent(d: int, inv: int, word: int, n: int, h: int, k: int, q: int)
    requires d * inv == h * word + 1 && n * inv == k * word + q
    ensures 0 * word + d * q == (n * h - d * k) * word + n
  {
    assert d * (n * inv) == n * (d * inv);
    assert d * (k * word + q) == d * k * word + d * q;
    assert n * (h * word + 1) == n * h * word + n;
    MulDistribute(n * h, -(d * k), word);
    assert (-(d * k)) * word == -(d * k * word);
  }

  lemma ExactProduct(d: int, inv: int, word: int, m: int, h: int)
    requires d * inv == h * word + 1
    ensures m * d * inv == m * h * word + m
  {
    MulAssoc(m, d, inv);
    assert m * (h * word + 1) == m * h * word + m;
  }

  // ------------------------------------------------------------------ the tables

  const POW5_32: seq<(nat, nat)> :=
    [ (0x00000001, 0xffffffff), (0xcccccccd, 0x33333333), (0xc28f5c29, 0x0a3d70a3), (0x26e978d5, 0x020c49ba),
      (0x3afb7e91, 0x0068db8b), (0x0bcbe61d, 0x0014f8b5), (0x68c26139, 0x000431bd), (0xae8d46a5, 0x0000d6bf),
      (0x22e90e21, 0x00002af3), (0x3a2e9c6d, 0x00000897), (0x3ed61f49, 0x000001b7) ]

  const POW5_64: seq<(nat, nat)> :=
    [ (0x0000000000000001, 0xffffffffffffffff), (0xcccccccccccccccd, 0x3333333333333333),
      (0x8f5c28f5c28f5c29, 0x0a3d70a3d70a3d70), (0x1cac083126e978d5, 0x020c49ba5e353f7c),
      (0xd288ce703afb7e91, 0x0068db8bac710cb2), (0x5d4e8fb00bcbe61d, 0x0014f8b588e368f0),
      (0x790fb65668c26139, 0x000431bde82d7b63), (0xe5032477ae8d46a5, 0x0000d6bf94d5e57a),
      (0xc767074b22e90e21, 0x00002af31dc46118), (0x8e47ce423a2e9c6d, 0x0000089705f4136b),
      (0x4fa7f60d3ed61f49, 0x000001b7cdfd9d7b), (0x0fee64690c913975, 0x00000057f5ff85e5),
      (0x3662e0e1cf503eb1, 0x000000119799812d), (0xa47a2cf9f6433fbd, 0x0000000384b84d09),
      (0x54186f653140a659, 0x00000000b424dc35), (0x7738164770402145, 0x0000000024075f3d),
      (0xe4a4d1417cd9a041, 0x000000000734aca5), (0xc75429d9e5c5200d, 0x000000000170ef54),
      (0xc1773b91fac10669, 0x000000000049c977), (0x26b172506559ce15, 0x00000000000ec1e4),
      (0xd489e3a9addec2d1, 0x000000000002f394), (0x90e860bb892c8d5d, 0x000000000000971d),
      (0x502e79bf1b6f4f79, 0x0000000000001e39), (0xdcd618596be30fe5, 0x000000000000060b) ]

  lemma Table32(k: nat)
    requires k <= 10
    ensures |POW5_32| == 11 && IsEntry(Pow(5, k), POW5_32[k].0, POW5_32[k].1, TWO_32)
  {
    assert Pow(5, 0) == 1 && Pow(5, 1) == 5 && Pow(5, 2) == 25 && Pow(5, 3) == 125;
    assert Pow(5, 4) == 625 && Pow(5, 5) == 3125 && Pow(5, 6) == 15625;
    assert Pow(5, 7) == 78125 && Pow(5, 8) == 390625 && Pow(5, 9) == 1953125 && Pow(5, 10) == 9765625;
  }

  lemma Table64(k: nat)
    requires k <= 23
    ensures |POW5_64| == 24 && IsEntry(Pow(5, k), POW5_64[k].0, POW5_64[k].1, TWO_64)
  {
    if k <= 8 {
      Table64Low(k);
    } else if k <= 16 {
      Table64Middle(k);
    } else {
      Table64High(k);
    }
  }

  lemma Table64Low(k: nat)
    requires k <= 8
    ensures IsEntry(Pow(5, k), POW5_64[k].0, POW5_64[k].1, TWO_64)
    ensures Pow(5, 8) == 390625
  {
    assert Pow(5, 0) == 1 && Pow(5, 1) == 5 && Pow(5, 2) == 25 && Pow(5, 3) == 125;
    assert Pow(5, 4) == 625 && Pow(5, 5) == 3125 && Pow(5, 6) == 15625;
    assert Pow(5, 7) == 78125 && Pow(5, 8) == 390625;
  }

  lemma Table64Middle(k: nat)
    requires 9 <= k <= 16
    ensures IsEntry(Pow(5, k), POW5_64[k].0, POW5_64[k].1, TWO_64)
    ensures Pow(5, 16) == 152587890625
  {
    Table64Low(8);
    assert Pow(5, 9) == 1953125 && Pow(5, 10) == 9765625;
    assert Pow(5, 11) == 48828125 && Pow(5, 12) == 244140625 && Pow(5, 13) == 1220703125;
    assert Pow(5, 14) == 6103515625 && Pow(5, 15) == 30517578125 && Pow(5, 16) == 152587890625;
  }

  lemma Table64High(k: nat)
    requires 17 <= k <= 23
    ensures IsEntry(Pow(5, k), POW5_64[k].0, POW5_64[k].1, TWO_64)
  {
    Table64Middle(16);
    assert Pow(5, 17) == 762939453125 && Pow(5, 18) == 3814697265625 && Pow(5, 19) == 19073486328125;
    assert Pow(5, 20) == 95367431640625 && Pow(5, 21) == 476837158203125;
    assert Pow(5, 22) == 2384185791015625 && Pow(5, 23) == 11920928955078125;
  }

  function DivisibleByPowerOf5In32(x: Word32, k: nat): (b: bool)
    requires k <= 10
    ensures b <==> Divides(Power5(k), x)
  {
    Table32(k);
    InverseTest(Pow(5, k), POW5_32[k].0, POW5_32[k].1, TWO_32, x);
    x * POW5_32[k].0 % TWO_32 <= POW5_32[k].1
  }

  function DivisibleByPowerOf5In64(x: Word64, k: nat): (b: bool)
    requires k <= 23
    ensures b <==> Divides(Power5(k), x)
  {
    Table64(k);
    InverseTest(Pow(5, k), POW5_64[k].0, POW5_64[k].1, TWO_64, x);
    x * POW5_64[k].0 % TWO_64 <= POW5_64[k].1
  }

  function Power5(k: nat): (r: nat)
    ensures r > 0
  {
    PowPositive(5, k);
    Pow(5, k)
  }

  // ------------------------------------------------------------------ removing trailing zeros

  /** s is the largest number up to cap for which 10^s divides n, and m the quotient. */
  predicate Stripped(n: nat, cap: nat, s: nat, m: nat) {
    s <= cap && n == m * Pow(10, s) && (s < cap ==> m % 10 != 0)
  }

  /** n >> s. */
  function ShiftRight(n: nat, s: nat): (r: nat)
    ensures r <= n
  {
    BelowQuotient(n / Power2(s), Power2(s), n);
    MulGrows(n / Power2(s), Power2(s));
    n / Power2(s)
  }

  /** ctz, cut off at cap, with what remains above those bits. */
  method CountTrailingBits(n: nat, cap: nat) returns (t: nat, ghost q: nat)
    requires n > 0
    ensures t <= cap && n == q * Pow(2, t) && (t < cap ==> q % 2 == 1)
  {
    t := 0;
    var m := n;
    assert Pow(2, 0) == 1;
    while t < cap && m % 2 == 0
      invariant t <= cap && n == m * Pow(2, t)
      decreases cap - t
    {
      MulAssoc(m / 2, 2, Pow(2, t));
      m := m / 2;
      t := t + 1;
    }
    q := m;
  }

  /** A factor five sits in the part above the trailing zero bits. */
  lemma {:induction false} FiveAboveBits(n: nat, q: nat, t: nat, m: nat) returns (q': nat)
    requires n == q * Pow(2, t) && n == 5 * m
    ensures q == 5 * q' && m == q' * Pow(2, t)
  {
    if t == 0 {
      assert Pow(2, 0) == 1;
      q' := m;
    } else {
      var h, k := Halves(n, m, q, Pow(2, t - 1));
      q' := FiveAboveBits(h, q, t - 1, k);
      HalvedProduct(q', Pow(2, t - 1));
    }
  }

  /** Both a number with a factor two and its fifth are even. */
  lemma Halves(n: nat, m: nat, q: nat, p: nat) returns (h: nat, k: nat)
    requires n == q * (2 * p) && n == 5 * m
    ensures n == 2 * h && m == 2 * k && h == q * p && h == 5 * k
  {
    HalvedProduct(q, p);
    MulMonotone(0, q, 0, p);
    h, k := q * p, m / 2;
  }

  lemma HalvedProduct(q: nat, p: nat)
    ensures q * (2 * p) == 2 * (q * p)
  {
    MulAssoc(q, 2, p);
    MulAssoc(2, q, p);
    MulCommutes(q, 2);
  }

  /** When s factors of five are out, and the next one is missing unless the bits are used up, s bits complete it. */
  lemma StripBits(n: nat, cap: nat, t: nat, s: nat, cur: nat, q: nat)
    requires Stripping(n, t, s, cur, q) && s <= t <= cap
    requires (t < cap ==> q % 2 == 1) && (s < t ==> cur % 5 != 0)
    ensures Stripped(n, cap, s, q * Pow(2, t - s)) && ShiftRight(cur, s) == q * Pow(2, t - s)
  {
    var m := q * Pow(2, t - s);
    PowAdd(2, t - s, s);
    MulAssoc(q, Pow(2, t - s), Pow(2, s));
    PowPositive(2, s);
    DivModUnique(cur, Pow(2, s), m, 0);
    PowOfProduct(2, 5, s);
    MulAssoc(m, Pow(2, s), Pow(5, s));
    if s < t {
      NotTenfold(m, cur, Pow(2, s));
    } else {
      assert Pow(2, 0) == 1 && m == q;
    }
  }

  lemma NotTenfold(m: nat, cur: nat, p: nat)
    requires cur == m * p && cur % 5 != 0
    ensures m % 10 != 0
  {
    if m % 10 == 0 {
      MulTen(m / 10, p);
    }
  }

  lemma MulTen(k: nat, p: nat)
    ensures 10 * k * p % 5 == 0
  {
    assert 10 * k * p == 5 * (2 * k * p);
  }

  /** One exact division by d in 32-bit arithmetic. */
  method DivideIfMultiple32(n: Word32, d: nat, modInv: nat, maxQuotient: nat) returns (ok: bool, q: Word32)
    requires IsEntry(d, modInv, maxQuotient, TWO_32)
    ensures ok <==> n % d == 0
    ensures q == if ok then n / d else n
  {
    InverseTest(d, modInv, maxQuotient, TWO_32, n);
    if n * modInv % TWO_32 > maxQuotient {
      return false, n;
    }
    ok, q := true, n * modInv % TWO_32;
  }

  lemma Entries()
    ensures IsEntry(5, 0xcccccccd, 0x33333333, TWO_32) && IsEntry(25, 0xc28f5c29, 0x0a3d70a3, TWO_32)
    ensures IsEntry(390625, 0xc767074b22e90e21, 0x00002af31dc46118, TWO_64)
  {
  }

  /** Strips up to seven zeros: by hundreds while two may remain, then by one ten. */
  method RemoveTrailingZeros32(nIn: Word32) returns (s: nat, n: Word32)
    requires nIn > 0
    ensures Stripped(nIn, 7, s, n)
  {
    Entries();
    ghost var q: nat;
    var t: nat;
    t, q := CountTrailingBits(nIn, 7);
    n := nIn;
    s := 0;
    StripStart(nIn, t, q);
    s, n, q := StripHundreds(nIn, t, q);
    s, n, q := StripLastFive(nIn, t, s, n, q);
    StripBits(nIn, 7, t, s, n, q);
    n := ShiftRight(n, s);
  }

  method StripLastFive(ghost nIn: nat, t: nat, sIn: nat, cur: Word32, ghost qIn: nat)
    returns (s: nat, n: Word32, ghost q: nat)
    requires sIn <= t && Stripping(nIn, t, sIn, cur, qIn) && (sIn + 1 < t ==> cur % 25 != 0)
    ensures s <= t && Stripping(nIn, t, s, n, q) && q % 2 == qIn % 2 && (s < t ==> n % 5 != 0)
  {
    Entries();
    s, n, q := sIn, cur, qIn;
    if s < t {
      var ok: bool;
      ok, n := DivideIfMultiple32(n, 5, 0xcccccccd, 0x33333333);
      if ok {
        FiveOfTwentyFive(cur, n);
        q := StripFive(nIn, t, s, cur, q, n);
        s := s + 1;
      }
    }
  }

  lemma FiveOfTwentyFive(cur: nat, n: nat)
    requires cur == 5 * n
    ensures cur % 25 != 0 ==> n % 5 != 0
  {
    if n % 5 == 0 {
      DivModUnique(cur, 25, n / 5, 0);
    }
  }

  method StripHundreds(nIn: Word32, t: nat, ghost qIn: nat) returns (s: nat, n: Word32, ghost q: nat)
    requires Stripping(nIn, t, 0, nIn, qIn)
    ensures s <= t && Stripping(nIn, t, s, n, q) && q % 2 == qIn % 2
    ensures s + 1 < t ==> n % 25 != 0
  {
    Entries();
    s, n, q := 0, nIn, qIn;
    var more := true;
    while s + 1 < t && more
      invariant s <= t && Stripping(nIn, t, s, n, q) && q % 2 == qIn % 2
      invariant !more ==> n % 25 != 0 && s + 1 < t
      decreases t - s, more
    {
      ghost var was: nat := n;
      more, n := DivideIfMultiple32(n, 25, 0xc28f5c29, 0x0a3d70a3);
      if more {
        q := StripFive(nIn, t, s, was, q, 5 * n);
        q := StripFive(nIn, t, s + 1, 5 * n, q, n);
        s := s + 2;
      }
    }
  }

  /** s factors of five are out of n, and the bits below q are still in. */
  ghost predicate Stripping(n: nat, t: nat, s: nat, cur: nat, q: nat) {
    n == cur * Pow(5, s) && cur == q * Pow(2, t)
  }

  lemma StripStart(n: nat, t: nat, q: nat)
    requires n == q * Pow(2, t)
    ensures Stripping(n, t, 0, n, q)
  {
    assert Pow(5, 0) == 1;
  }

  lemma StripFive(n: nat, t: nat, s: nat, cur: nat, q: nat, m: nat) returns (q': nat)
    requires Stripping(n, t, s, cur, q) && cur == 5 * m
    ensures Stripping(n, t, s + 1, m, q') && q' % 2 == q % 2
  {
    q' := FiveAboveBits(cur, q, t, m);
    MulAssoc(m, 5, Pow(5, s));
    MulCommutes(m, 5);
  }

  // ------------------------------------------------------------------ the 64-bit version

  /** Strips up to sixteen zeros: eight at once if possible and the rest one by one, all in 32-bit arithmetic. */
  method RemoveTrailingZeros64(nIn: Word64) returns (s: nat, n: Word64)
    requires 0 < nIn < 100000000 * TWO_32
    ensures Stripped(nIn, 16, s, n)
  {
    Entries();
    ghost var q: nat;
    var t: nat;
    t, q := CountTrailingBits(nIn, 16);
    if t >= 8 {
      InverseTest(390625, 0xc767074b22e90e21, 0x00002af31dc46118, TWO_64, nIn);
      var candidate := nIn * 0xc767074b22e90e21 % TWO_64;
      if candidate <= 0x00002af31dc46118 {
        s, n := StripLargeQuotient(nIn, candidate, t, q);
        return;
      }
    }
    s, n := StripRemainder(nIn, t, q);
  }

  /** After a division by 10^8 the quotient fits 32 bits; it is stripped further. */
  method StripLargeQuotient(nIn: Word64, candidate: nat, t: nat, ghost qIn: nat) returns (s: nat, n: Word64)
    requires nIn < 100000000 * TWO_32 && 8 <= t <= 16 && nIn == qIn * Pow(2, t) && (t < 16 ==> qIn % 2 == 1)
    requires nIn == candidate * 390625
    ensures Stripped(nIn, 16, s, n)
  {
    ghost var q := LargeStart(nIn, candidate, t, qIn);
    var quotient: Word32 := candidate / 256;
    s, quotient, q := StripTens(nIn, quotient, t, q);
    StripBits(nIn, 16, t, s, quotient * 256, q);
    ShiftEight(quotient, s);
    n := ShiftRight(quotient, s - 8);
  }

  method StripTens(ghost nIn: nat, quotientIn: Word32, t: nat, ghost qIn: nat)
    returns (s: nat, quotient: Word32, ghost q: nat)
    requires t >= 8 && Stripping(nIn, t, 8, quotientIn * 256, qIn)
    ensures 8 <= s <= t && Stripping(nIn, t, s, quotient * 256, q) && q % 2 == qIn % 2
    ensures s < t ==> (quotient * 256) % 5 != 0
  {
    Entries();
    s, quotient, q := 8, quotientIn, qIn;
    var more := true;
    while s < t && more
      invariant 8 <= s <= t && q % 2 == qIn % 2
      invariant Stripping(nIn, t, s, quotient * 256, q)
      invariant !more ==> quotient % 5 != 0
      decreases t - s, more
    {
      ghost var was: nat := quotient;
      more, quotient := DivideIfMultiple32(quotient, 5, 0xcccccccd, 0x33333333);
      if more {
        q := StripFive(nIn, t, s, was * 256, q, quotient * 256);
        s := s + 1;
      }
    }
  }

  lemma ShiftEight(quotient: nat, s: nat)
    requires s >= 8
    ensures ShiftRight(quotient * 256, s) == ShiftRight(quotient, s - 8)
  {
    PowAdd(2, 8, s - 8);
    assert Pow(2, 8) == 256;
    var p := Power2(s - 8);
    var a, r := quotient / p, quotient % p;
    assert quotient == a * p + r;
    MulAssoc(a, p, 256);
    MulCommutes(p, 256);
    DivModUnique(quotient * 256, 256 * p, a, r * 256);
  }

  lemma LargeStart(n: Word64, candidate: nat, t: nat, q: nat) returns (q': nat)
    requires n < 100000000 * TWO_32 && t >= 8 && n == q * Pow(2, t) && n == candidate * 390625
    ensures candidate % 256 == 0 && candidate / 256 < TWO_32
    ensures Stripping(n, t, 8, candidate / 256 * 256, q') && q' % 2 == q % 2
  {
    StripStart(n, t, q);
    q' := FourFives(n, t, 0, n, q, candidate * 625);
    q' := FourFives(n, t, 4, candidate * 625, q', candidate);
    PowAdd(2, t - 8, 8);
    assert Pow(2, 8) == 256;
    WholeBytes(candidate, q', Pow(2, t - 8));
  }

  lemma FourFives(n: nat, t: nat, s: nat, cur: nat, q: nat, m: nat) returns (q': nat)
    requires Stripping(n, t, s, cur, q) && cur == 625 * m
    ensures Stripping(n, t, s + 4, m, q') && q' % 2 == q % 2
  {
    q' := StripFive(n, t, s, cur, q, 125 * m);
    q' := StripFive(n, t, s + 1, 125 * m, q', 25 * m);
    q' := StripFive(n, t, s + 2, 25 * m, q', 5 * m);
    q' := StripFive(n, t, s + 3, 5 * m, q', m);
  }

  lemma WholeBytes(candidate: nat, q: nat, p: nat)
    requires candidate == q * (p * 256)
    ensures candidate % 256 == 0 && candidate / 256 * 256 == candidate
  {
    MulAssoc(q, p, 256);
    MulMonotone(0, q, 0, p);
    DivModUnique(candidate, 256, q * p, 0);
  }

  /**
    The chain of tests on the low eight decimal digits, one for each zero: the quotient by 10^8 is put back in
    front of what is left of them. It ends at seven without another test.
    */
  method StripRemainder(nIn: Word64, t: nat, ghost qIn: nat) returns (s: nat, n: Word64)
    requires nIn < 100000000 * TWO_32 && t <= 16 && nIn == qIn * Pow(2, t) && (t < 16 ==> qIn % 2 == 1)
    requires t >= 8 ==> nIn % 390625 != 0
    ensures Stripped(nIn, 16, s, n)
  {
    Entries();
    var quotient: Word32 := nIn / 100000000;
    var remainder: Word32 := nIn % 100000000;
    ghost var q := qIn;
    s := 0;
    RemainderStart(nIn, t, q, quotient, remainder);
    var more := true;
    while s < 7 && t != s && more
      invariant s <= 7 && s <= t && q % 2 == qIn % 2
      invariant Stripping(nIn, t, s, WithQuotient(quotient, remainder, s), q)
      invariant remainder < 100000000
      invariant !more ==> remainder % 5 != 0 && s < 7
      decreases 7 - s, more
    {
      ghost var was: nat := remainder;
      more, remainder := DivideIfMultiple32(remainder, 5, 0xcccccccd, 0x33333333);
      if more {
        OneFiveLess(quotient, was, remainder, s);
        q := StripFive(nIn, t, s, WithQuotient(quotient, was, s), q, WithQuotient(quotient, remainder, s + 1));
        s := s + 1;
      }
    }
    LastTest(nIn, t, s, quotient, remainder, q, more);
    StripBits(nIn, 16, t, s, WithQuotient(quotient, remainder, s), q);
    PutBack(quotient, remainder, s);
    n := ShiftRight(remainder, s) + quotient * Pow(10, 8 - s);
  }

  /** The number with s factors of five out, from its quotient by 10^8 and what is left of its remainder. */
  ghost function WithQuotient(quotient: nat, remainder: nat, s: nat): nat
    requires s <= 8
  {
    remainder + quotient * (256 * Pow(5, 8 - s))
  }

  lemma RemainderStart(n: Word64, t: nat, q: nat, quotient: nat, remainder: nat)
    requires n == q * Pow(2, t) && quotient == n / 100000000 && remainder == n % 100000000
    ensures Stripping(n, t, 0, WithQuotient(quotient, remainder, 0), q)
  {
    assert Pow(5, 4) == 625;
    PowAdd(5, 4, 4);
    StripStart(n, t, q);
  }

  lemma OneFiveLess(quotient: nat, was: nat, remainder: nat, s: nat)
    requires s < 8 && was == 5 * remainder
    ensures WithQuotient(quotient, was, s) == 5 * WithQuotient(quotient, remainder, s + 1)
  {
    var p := Pow(5, 7 - s);
    assert quotient * (256 * (5 * p)) == 5 * (quotient * (256 * p)) by {
      HalvedFive(quotient, 256 * p);
    }
  }

  lemma HalvedFive(x: int, y: int)
    ensures x * (5 * y) == 5 * (x * y)
  {
  }

  /** The chain stops at the end of the zero bits, at a digit test that fails, or at seven. */
  lemma LastTest(n: nat, t: nat, s: nat, quotient: nat, remainder: nat, q: nat, more: bool)
    requires s <= 7 && s <= t && Stripping(n, t, s, WithQuotient(quotient, remainder, s), q)
    requires !(s < 7 && t != s && more)
    requires (!more ==> remainder % 5 != 0) && (t >= 8 ==> n % 390625 != 0)
    ensures s < t ==> WithQuotient(quotient, remainder, s) % 5 != 0
  {
    if s < 7 {
      if s < t {
        FivesBehind(quotient, remainder, s);
      }
    } else if s < t {
      SevenFives(n, t, WithQuotient(quotient, remainder, 7), q);
    }
  }

  lemma FivesBehind(quotient: nat, remainder: nat, s: nat)
    requires s < 7 && remainder % 5 != 0
    ensures WithQuotient(quotient, remainder, s) % 5 != 0
  {
    var p := Pow(5, 7 - s);
    HalvedFive(quotient, 256 * p);
    KeepsRemainder(WithQuotient(quotient, remainder, s), remainder, quotient * (256 * p));
  }

  lemma KeepsRemainder(x: nat, r: nat, y: nat)
    requires x == r + 5 * y
    ensures x % 5 == r % 5
  {
  }

  lemma SevenFives(n: nat, t: nat, cur: nat, q: nat)
    requires Stripping(n, t, 7, cur, q) && n % 390625 != 0
    ensures cur % 5 != 0
  {
    FiveToTheSeventh();
    NoEighthFive(n, cur);
  }

  lemma FiveToTheSeventh()
    ensures Pow(5, 7) == 78125
  {
    assert Pow(5, 4) == 625 && Pow(5, 3) == 125;
    PowAdd(5, 4, 3);
  }

  lemma NoEighthFive(n: nat, cur: nat)
    requires n == cur * 78125 && n % 390625 != 0
    ensures cur % 5 != 0
  {
    if cur % 5 == 0 {
      DivModUnique(n, 390625, cur / 5, 0);
    }
  }

  lemma PutBack(quotient: Word32, remainder: nat, s: nat)
    requires s <= 7 && remainder < 100000000
    ensures ShiftRight(WithQuotient(quotient, remainder, s), s) == ShiftRight(remainder, s) + quotient * Pow(10, 8 - s)
    ensures ShiftRight(remainder, s) + quotient * Pow(10, 8 - s) < TWO_64
  {
    ShiftedQuotient(quotient, s);
    ShiftSum(remainder, quotient * Pow(10, 8 - s), Power2(s));
    PowMonotone(10, 8 - s, 8);
    TenToEight();
    MulMonotone(quotient, TWO_32 - 1, Pow(10, 8 - s), 100000000);
  }

  lemma ShiftedQuotient(quotient: nat, s: nat)
    requires s <= 8
    ensures quotient * (256 * Pow(5, 8 - s)) == quotient * Pow(10, 8 - s) * Power2(s)
  {
    PowOfProduct(2, 5, 8 - s);
    PowAdd(2, 8 - s, s);
    assert Pow(2, 8) == 256;
    Regroup(quotient, Pow(2, 8 - s), Pow(2, s), Pow(5, 8 - s));
  }

  lemma Regroup(k: int, a: int, b: int, c: int)
    ensures k * (a * b * c) == k * (a * c) * b
  {
    MulAssoc(a, b, c);
    MulAssoc(a, c, b);
    MulCommutes(b, c);
    MulAssoc(k, a * c, b);
  }

  lemma ShiftSum(remainder: nat, x: nat, p: nat)
    requires p > 0
    ensures (remainder + x * p) / p == remainder / p + x
  {
    var h, r := remainder / p, remainder % p;
    assert remainder == h * p + r;
    MulDistribute(h, x, p);
    DivModUnique(remainder + x * p, p, h + x, r);
  }

  lemma TenToEight()
    ensures Pow(10, 8) == 100000000
  {
    assert Pow(10, 4) == 10000;
    PowAdd(10, 4, 4);
  }
}
