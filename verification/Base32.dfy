/** base32_encode of src/3rdparty/base32/base32.h, against the bit stream of section 6 of RFC 4648. */
module Base32 {
  import opened Powers
  import opened Words

  const ALPHABET: string := "ABCDEFGHIJKLMNOPQRSTUVWXYZ234567"

  // ------------------------------------------------------------------ the bit stream

  /** Bit i of the data, the high bit of each byte first, zeros behind the end. */
  function Bit(data: seq<Byte>, i: nat): (b: nat)
    ensures b <= 1
  {
    if i / 8 < |data| then data[i / 8] / Power2(7 - i % 8) % 2 else 0
  }

  /** The number that n bits from i on spell. */
  function Bits(data: seq<Byte>, i: nat, n: nat): nat {
    if n == 0 then 0 else 2 * Bits(data, i, n - 1) + Bit(data, i + n - 1)
  }

  lemma {:induction false} BitsBound(data: seq<Byte>, i: nat, n: nat)
    ensures Bits(data, i, n) < Pow(2, n)
  {
    if n > 0 {
      BitsBound(data, i, n - 1);
    }
  }

  lemma {:induction false} BitsConcat(data: seq<Byte>, i: nat, m: nat, n: nat)
    ensures Bits(data, i, m + n) == Bits(data, i, m) * Pow(2, n) + Bits(data, i + m, n)
  {
    hide Bit;
    if n > 0 {
      BitsConcat(data, i, m, n - 1);
      DoubleProduct(Bits(data, i, m), Pow(2, n - 1));
    }
  }

  lemma DoubleProduct(x: int, p: int)
    ensures x * (2 * p) == 2 * (x * p)
  {
  }

  /** Eight bits on a byte boundary are that byte. */
  lemma ByteBits(data: seq<Byte>, k: nat)
    requires k < |data|
    ensures Bits(data, 8 * k, 8) == data[k]
  {
    hide Bits, Bit;
    TopBits(data, k, 8);
    PowersOf2();
  }

  lemma {:induction false} TopBits(data: seq<Byte>, k: nat, n: nat)
    requires k < |data| && n <= 8
    ensures Bits(data, 8 * k, n) == data[k] / Power2(8 - n)
  {
    if n == 0 {
      PowersOf2();
    } else {
      TopBits(data, k, n - 1);
      BitOfByte(data, k, n - 1);
      HalfOfQuotient(data[k], Power2(8 - n));
    }
  }

  lemma BitOfByte(data: seq<Byte>, k: nat, j: nat)
    requires k < |data| && j < 8
    ensures Bit(data, 8 * k + j) == data[k] / Power2(7 - j) % 2
  {
  }

  lemma HalfOfQuotient(b: nat, p: nat)
    requires p > 0
    ensures 2 * (b / (2 * p)) + b / p % 2 == b / p
  {
    var x, r := b / p, b % p;
    assert b == x * p + r;
    var h := x / 2;
    assert x * p == h * (2 * p) + (x % 2) * p by { assert x == 2 * h + x % 2; }
    DivModUnique(b, 2 * p, h, (x % 2) * p + r);
  }

  lemma PowersOf2()
    ensures Pow(2, 0) == 1 && Pow(2, 1) == 2 && Pow(2, 2) == 4 && Pow(2, 3) == 8 && Pow(2, 4) == 16
    ensures Pow(2, 5) == 32 && Pow(2, 6) == 64 && Pow(2, 7) == 128 && Pow(2, 8) == 256
  {
  }

  // ------------------------------------------------------------------ encoding

  /** The k-th character: the k-th group of five bits. */
  function Symbol(data: seq<Byte>, k: nat): char {
    BitsBound(data, 5 * k, 5);
    PowersOf2();
    ALPHABET[Bits(data, 5 * k, 5)]
  }

  /** As few symbols as hold all the bits. */
  function SymbolCount(length: nat): (n: nat)
    ensures 8 * length <= 5 * n < 8 * length + 5
  {
    (8 * length + 4) / 5
  }

  function Encoded(data: seq<Byte>): (s: string)
    ensures |s| == SymbolCount(|data|) && forall k :: 0 <= k < |s| ==> s[k] == Symbol(data, k)
  {
    seq(SymbolCount(|data|), k requires 0 <= k => Symbol(data, k))
  }

  /**
    Encodes into a buffer of fixed size, stopping when it is full. The accumulator is a 32-bit word that is never
    masked: bits that were used stay in it and are shifted out at the top.
    */
  method Encode(data: seq<Byte>, result: array<char>) returns (count: int)
    modifies result
    ensures |data| > 0x1000_0000 ==> count == -1 && result[..] == old(result[..])
    ensures |data| <= 0x1000_0000 ==>
      && 0 <= count == (if SymbolCount(|data|) < result.Length then SymbolCount(|data|) else result.Length)
      && (forall k :: 0 <= k < count ==> result[k] == Encoded(data)[k])
      && (count < result.Length ==> result[count] == '\0')
      && (forall k :: count < k < result.Length ==> result[k] == old(result[k]))
  {
    hide Bits, Symbol, Encoded, Power2, InStep;
    var length := |data|;
    if length > 0x1000_0000 {
      return -1;
    }
    count := 0;
    if length > 0 {
      var buffer: Word32 := data[0];
      var next, bitsLeft := 1, 8;
      FirstByte(data);
      while count < result.Length && (bitsLeft > 0 || next < length)
        invariant 1 <= next <= length && 0 <= bitsLeft <= 8 && 0 <= count <= result.Length
        invariant InStep(length, next, bitsLeft, count)
        invariant buffer % Power2(bitsLeft) == Bits(data, 5 * count, bitsLeft)
        invariant forall k :: 0 <= k < count ==> result[k] == Symbol(data, k)
        invariant forall k :: count <= k < result.Length ==> result[k] == old(result[k])
        decreases result.Length - count
      {
        var symbol: char;
        symbol, buffer, next, bitsLeft := NextSymbol(data, buffer, next, bitsLeft, count);
        result[count] := symbol;
        count := count + 1;
      }
      SymbolsTaken(length, next, bitsLeft, count);
    }
    if count < result.Length {
      result[count] := '\0';
    }
  }

  lemma FirstByte(data: seq<Byte>)
    requires data != []
    ensures data[0] % Power2(8) == Bits(data, 0, 8) && InStep(|data|, 1, 8, 0)
  {
    PowersOf2();
    ByteBits(data, 0);
  }

  /** The bits taken and the bits left are those of the bytes read, until padding has completed the last symbol. */
  predicate InStep(length: nat, next: nat, bitsLeft: nat, count: nat) {
    || 5 * count + bitsLeft == 8 * next
    || (next == length && bitsLeft == 0 && 8 * length <= 5 * count < 8 * length + 5)
  }

  lemma SymbolsTaken(length: nat, next: nat, bitsLeft: nat, count: nat)
    requires next <= length && bitsLeft <= 8 && InStep(length, next, bitsLeft, count)
    ensures count <= SymbolCount(length) && (bitsLeft == 0 && next == length ==> count == SymbolCount(length))
  {
    var n := 8 * length + 4;
    assert n == 5 * SymbolCount(length) + n % 5;
  }

  method NextSymbol(data: seq<Byte>, bufferIn: Word32, nextIn: nat, bitsLeftIn: nat, ghost count: nat)
    returns (symbol: char, buffer: Word32, next: nat, bitsLeft: nat)
    requires 1 <= nextIn <= |data| && bitsLeftIn <= 8 && (bitsLeftIn > 0 || nextIn < |data|)
    requires InStep(|data|, nextIn, bitsLeftIn, count)
    requires bufferIn % Power2(bitsLeftIn) == Bits(data, 5 * count, bitsLeftIn)
    ensures nextIn <= next <= |data| && bitsLeft <= 7 && InStep(|data|, next, bitsLeft, count + 1)
    ensures buffer % Power2(bitsLeft) == Bits(data, 5 * (count + 1), bitsLeft)
    ensures symbol == Symbol(data, count)
  {
    hide Bits, Bit, InStep;
    buffer, next, bitsLeft := Refill(data, bufferIn, nextIn, bitsLeftIn, count);
    TakeBits(data, buffer, bitsLeft, 5 * count);
    var index := buffer / Power2(bitsLeft - 5) % 32;
    bitsLeft := bitsLeft - 5;
    symbol := ALPHABET[index];
  }

  /** Makes sure that five bits are there, from the next byte or by padding with zeros. */
  method Refill(data: seq<Byte>, bufferIn: Word32, nextIn: nat, bitsLeftIn: nat, ghost count: nat)
    returns (buffer: Word32, next: nat, bitsLeft: nat)
    requires 1 <= nextIn <= |data| && bitsLeftIn <= 8 && (bitsLeftIn > 0 || nextIn < |data|)
    requires InStep(|data|, nextIn, bitsLeftIn, count)
    requires bufferIn % Power2(bitsLeftIn) == Bits(data, 5 * count, bitsLeftIn)
    ensures nextIn <= next <= |data| && 5 <= bitsLeft <= 12
    ensures InStep(|data|, next, bitsLeft - 5, count + 1)
    ensures buffer % Power2(bitsLeft) == Bits(data, 5 * count, bitsLeft)
  {
    buffer, next, bitsLeft := bufferIn, nextIn, bitsLeftIn;
    if bitsLeft < 5 {
      PowersOf2();
      if next < |data| {
        ShiftIn(data, buffer, next, bitsLeft, 5 * count);
        buffer := buffer * 256 % 0x1_0000_0000 + data[next];
        next := next + 1;
        bitsLeft := bitsLeft + 8;
      } else {
        var pad := 5 - bitsLeft;
        PadZeros(data, buffer, bitsLeft, 5 * count);
        buffer := buffer * Power2(pad) % 0x1_0000_0000;
        bitsLeft := bitsLeft + pad;
      }
    }
  }

  lemma ShiftIn(data: seq<Byte>, buffer: Word32, next: nat, b: nat, start: nat)
    requires b < 5 && next < |data| && start + b == 8 * next
    requires buffer % Power2(b) == Bits(data, start, b)
    ensures buffer * 256 % 0x1_0000_0000 + data[next] < 0x1_0000_0000
    ensures (buffer * 256 % 0x1_0000_0000 + data[next]) % Power2(b + 8) == Bits(data, start, b + 8)
  {
    hide Bits, Bit;
    BitsConcat(data, start, b, 8);
    ByteBits(data, next);
    PowersOf2();
    PowAdd(2, b, 8);
    ShiftInByte(buffer, data[next], Power2(b));
  }

  lemma ShiftInByte(buffer: Word32, byte: Byte, p: nat)
    requires p == 1 || p == 2 || p == 4 || p == 8 || p == 16
    ensures buffer * 256 % 0x1_0000_0000 + byte < 0x1_0000_0000
    ensures (buffer * 256 % 0x1_0000_0000 + byte) % (p * 256) == buffer % p * 256 + byte
  {
    var y := buffer % 0x100_0000;
    HighByteLost(buffer);
    LowOfLow(buffer, 0x100_0000, if p == 1 then 0x100_0000 else if p == 2 then 0x80_0000 else if p == 4 then 0x40_0000
                                 else if p == 8 then 0x20_0000 else 0x10_0000, p);
    ByteBehind(y, byte, p);
  }

  lemma HighByteLost(buffer: nat)
    ensures buffer * 256 % 0x1_0000_0000 == 256 * (buffer % 0x100_0000)
  {
    DivModUnique(buffer * 256, 0x1_0000_0000, buffer / 0x100_0000, 256 * (buffer % 0x100_0000));
  }

  lemma ByteBehind(y: nat, byte: Byte, p: nat)
    requires p > 0
    ensures (256 * y + byte) % (p * 256) == y % p * 256 + byte
  {
    var q, r := y / p, y % p;
    assert y == q * p + r;
    MulAssoc(q, p, 256);
    DivModUnique(256 * y + byte, p * 256, q, r * 256 + byte);
  }

  /** The remainder by a multiple of p has the same remainder by p. */
  lemma LowOfLow(n: nat, m: nat, w: nat, p: nat)
    requires p > 0 && m == w * p && m > 0
    ensures n % m % p == n % p
  {
    assert n == n / m * m + n % m;
    ModOfMod(n, n / m, w, p, n % m);
  }

  lemma ModOfMod(n: nat, z: nat, w: nat, p: nat, y: nat)
    requires p > 0 && n == z * (w * p) + y
    ensures n % p == y % p
  {
    assert y == y / p * p + y % p;
    MulAssoc(z, w, p);
    MulDistribute(z * w, y / p, p);
    DivModUnique(n, p, z * w + y / p, y % p);
  }

  lemma PadZeros(data: seq<Byte>, buffer: Word32, b: nat, start: nat)
    requires 0 < b < 5 && start + b == 8 * |data|
    requires buffer % Power2(b) == Bits(data, start, b)
    ensures buffer * Power2(5 - b) % 0x1_0000_0000 % 32 == Bits(data, start, 5)
  {
    BitsConcat(data, start, b, 5 - b);
    ZerosBehind(data, start + b, 5 - b);
    PowersOf2();
    PadWithZeros(buffer, Power2(b), Power2(5 - b));
  }

  lemma PadWithZeros(buffer: Word32, p: nat, q: nat)
    requires (p == 2 && q == 16) || (p == 4 && q == 8) || (p == 8 && q == 4) || (p == 16 && q == 2)
    ensures buffer * q % 0x1_0000_0000 % 32 == buffer % p * q
  {
    LowOfLow(buffer * q, 0x1_0000_0000, 0x800_0000, 32);
    ZerosBelow(buffer, p, q);
  }

  lemma ZerosBelow(n: nat, p: nat, q: nat)
    requires p > 0 && q > 0
    ensures p * q > 0 && n * q % (p * q) == n % p * q
  {
    var k, r := n / p, n % p;
    assert n == k * p + r;
    MulDistribute(k * p, r, q);
    MulAssoc(k, p, q);
    MulStrict(r, p, q);
    DivModUnique(n * q, p * q, k, r * q);
  }

  lemma {:induction false} ZerosBehind(data: seq<Byte>, i: nat, n: nat)
    requires i >= 8 * |data|
    ensures Bits(data, i, n) == 0
  {
    if n > 0 {
      ZerosBehind(data, i, n - 1);
    }
  }

  /** The five topmost of the bits left are the symbol, and the others stay. */
  lemma TakeBits(data: seq<Byte>, buffer: Word32, bitsLeft: nat, start: nat)
    requires 5 <= bitsLeft <= 12 && buffer % Power2(bitsLeft) == Bits(data, start, bitsLeft)
    ensures buffer / Power2(bitsLeft - 5) % 32 == Bits(data, start, 5)
    ensures buffer % Power2(bitsLeft - 5) == Bits(data, start + 5, bitsLeft - 5)
  {
    hide Bits, Bit;
    var r := bitsLeft - 5;
    BitsConcat(data, start, 5, r);
    BitsBound(data, start, 5);
    BitsBound(data, start + 5, r);
    PowersOf2();
    PowAdd(2, 5, r);
    TakeArithmetic(buffer, Power2(r), Bits(data, start, 5), Bits(data, start + 5, r));
  }

  lemma TakeArithmetic(buffer: nat, p: nat, top: nat, low: nat)
    requires p > 0 && buffer % (32 * p) == top * p + low && low < p && top < 32
    ensures buffer / p % 32 == top && buffer % p == low
  {
    var k := buffer / (32 * p);
    assert buffer == k * (32 * p) + (top * p + low);
    MulAssoc(k, 32, p);
    MulDistribute(k * 32, top, p);
    DivModUnique(buffer, p, k * 32 + top, low);
    DivModUnique(k * 32 + top, 32, k, top);
  }

  // ------------------------------------------------------------------ decoding

  function SymbolValue(c: char): nat {
    if 'A' <= c <= 'Z' then c as nat - 'A' as nat
    else if '2' <= c <= '7' then 26 + (c as nat - '2' as nat)
    else 0
  }

  lemma SymbolValueInverts(v: nat)
    requires v < 32
    ensures SymbolValue(ALPHABET[v]) == v
  {
  }

  /** Bit i of what a string of symbols stands for. */
  function SymbolBit(s: string, i: nat): nat {
    if i / 5 < |s| then SymbolValue(s[i / 5]) / Power2(4 - i % 5) % 2 else 0
  }

  /** The number that n of those bits from i on spell. */
  function SymbolBits(s: string, i: nat, n: nat): nat {
    if n == 0 then 0 else 2 * SymbolBits(s, i, n - 1) + SymbolBit(s, i + n - 1)
  }

  /** Whole bytes only: what is left over in the last symbol is padding. */
  function Decoded(s: string): seq<nat> {
    seq(5 * |s| / 8, k requires 0 <= k => SymbolBits(s, 8 * k, 8))
  }

  /** The j-th bit of the k-th group of five. */
  lemma GroupBit(data: seq<Byte>, k: nat, j: nat)
    requires j < 5
    ensures Bits(data, 5 * k, 5) / Power2(4 - j) % 2 == Bit(data, 5 * k + j)
  {
    hide Bits, Bit;
    BitsConcat(data, 5 * k, j + 1, 4 - j);
    BitsBound(data, 5 * k + j + 1, 4 - j);
    NextBit(data, 5 * k, j);
    LowestOfTop(Bits(data, 5 * k, 5), Power2(4 - j), Bits(data, 5 * k, j), Bit(data, 5 * k + j),
                Bits(data, 5 * k + j + 1, 4 - j));
  }

  lemma NextBit(data: seq<Byte>, i: nat, n: nat)
    ensures Bits(data, i, n + 1) == 2 * Bits(data, i, n) + Bit(data, i + n)
  {
  }

  lemma LowestOfTop(v: nat, p: nat, top: nat, bit: nat, low: nat)
    requires p > 0 && v == (2 * top + bit) * p + low && low < p && bit <= 1
    ensures v / p % 2 == bit
  {
    DivModUnique(v, p, 2 * top + bit, low);
  }

  /** Each bit of a symbol is the bit of the data at that place. */
  lemma SymbolBitIsBit(data: seq<Byte>, s: string, i: nat)
    requires i / 5 < |s| && s[i / 5] == Symbol(data, i / 5)
    ensures SymbolBit(s, i) == Bit(data, i)
  {
    BitsBound(data, 5 * (i / 5), 5);
    PowersOf2();
    SymbolValueInverts(Bits(data, 5 * (i / 5), 5));
    GroupBit(data, i / 5, i % 5);
  }

  lemma {:induction false} SymbolBitsAreBits(data: seq<Byte>, s: string, i: nat, n: nat)
    requires forall j :: i <= j < i + n ==> SymbolBit(s, j) == Bit(data, j)
    ensures SymbolBits(s, i, n) == Bits(data, i, n)
  {
    if n > 0 {
      SymbolBitsAreBits(data, s, i, n - 1);
    }
  }

  /** Decoding what was encoded gives the data back. */
  lemma DecodeEncode(data: seq<Byte>)
    ensures Decoded(Encoded(data)) == data
  {
    var s := Encoded(data);
    forall k | 0 <= k < |data| ensures Decoded(s)[k] == data[k] {
      forall j | 8 * k <= j < 8 * k + 8 ensures SymbolBit(s, j) == Bit(data, j) {
        assert s[j / 5] == Symbol(data, j / 5);
        SymbolBitIsBit(data, s, j);
      }
      SymbolBitsAreBits(data, s, 8 * k, 8);
      ByteBits(data, k);
    }
  }
}
