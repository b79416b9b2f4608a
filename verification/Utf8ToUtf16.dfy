/** The branchless UTF-8 decoder and the transcoder of src/3rdparty/fmt/format-inl.h. */
module Utf8ToUtf16 {
  import opened Powers
  import opened Unicode
  import opened Words
  import opened Wrappers

  const LENGTHS: seq<nat> :=
    [ 1, 1, 1, 1, 1, 1, 1, 1, 1, 1, 1, 1, 1, 1, 1, 1, 0, 0, 0, 0, 0, 0, 0, 0, 2, 2, 2, 2, 3, 3, 4, 0 ]
  const MINS: seq<nat> := [4194304, 0, 128, 2048, 65536]

  /** The masks 0x00, 0x7f, 0x1f, 0x0f, 0x07 as moduli, and the two shift tables as powers of two. */
  const MASKS: seq<nat> := [1, 128, 32, 16, 8]
  const SHIFTC: seq<nat> := [1, 0x40000, 0x1000, 0x40, 1]
  const SHIFTE: seq<nat> := [1, 64, 16, 4, 1]

  /** Exclusive or of a two-bit number with binary 10. */
  function Flip(h: nat): (r: nat)
    requires h < 4
    ensures r < 4 && (r == 0 <==> h == 2)
  {
    if h >= 2 then h - 2 else h + 2
  }

  datatype Decoded = Decoded(c: nat, error: nat, advance: nat)

  /** The length that the lead byte announces, zero if it is none. */
  function SequenceLength(lead: Byte): (len: nat)
    ensures len == if lead < 0x80 then 1 else if lead < 0xC0 then 0 else if lead < 0xE0 then 2
                   else if lead < 0xF0 then 3 else if lead < 0xF8 then 4 else 0
  {
    LENGTHS[lead / 8]
  }

  /** Fields that do not overlap are or-ed together in the source; here they are added. */
  function CodeBits(s0: Byte, s1: Byte, s2: Byte, s3: Byte, len: nat): nat
    requires len <= 4
  {
    (Low(s0, MASKS[len]) * 0x40000 + Low(s1, 64) * 0x1000 + Low(s2, 64) * 0x40 + Low(s3, 64)) / SHIFTC[len]
  }

  /** All checks, accumulated; those of bytes beyond the character are shifted out. */
  function ErrorBits(c: nat, s1: Byte, s2: Byte, s3: Byte, len: nat): nat
    requires len <= 4
  {
    (FlagBits(c, len) + Flip(s1 / 64) * 16 + Flip(s2 / 64) * 4 + Flip(s3 / 64)) / SHIFTE[len]
  }

  function FlagBits(c: nat, len: nat): nat
    requires len <= 4
  {
    (if c < MINS[len] then 0x40 else 0) + (if c / 0x800 == 0x1b then 0x80 else 0) + (if c > 0x10FFFF then 0x100 else 0)
  }

  /** Decodes the character at the start of four bytes. */
  function Utf8Decode(s0: Byte, s1: Byte, s2: Byte, s3: Byte): Decoded {
    var len := SequenceLength(s0);
    var c := CodeBits(s0, s1, s2, s3, len);
    Decoded(c, ErrorBits(c, s1, s2, s3, len), len + if len == 0 then 1 else 0)
  }

  /** A field above others is what division by its place leaves. */
  lemma FieldAbove(a: nat, p: nat, rest: nat)
    requires rest < p
    ensures (a * p + rest) / p == a
  {
    DivModUnique(a * p + rest, p, a, rest);
  }

  lemma CodeOfOne(s0: Byte, s1: Byte, s2: Byte, s3: Byte)
    requires s0 < 0x80
    ensures CodeBits(s0, s1, s2, s3, 1) == s0
  {
    FieldAbove(Low(s0, 128), 0x40000, Low(s1, 64) * 0x1000 + Low(s2, 64) * 0x40 + Low(s3, 64));
  }

  lemma CodeOfTwo(s0: Byte, s1: Byte, s2: Byte, s3: Byte)
    ensures CodeBits(s0, s1, s2, s3, 2) == Low(s0, 32) * 64 + Low(s1, 64)
  {
    FieldAbove(Low(s0, 32) * 64 + Low(s1, 64), 0x1000, Low(s2, 64) * 0x40 + Low(s3, 64));
  }

  lemma CodeOfThree(s0: Byte, s1: Byte, s2: Byte, s3: Byte)
    ensures CodeBits(s0, s1, s2, s3, 3) == (Low(s0, 16) * 64 + Low(s1, 64)) * 64 + Low(s2, 64)
  {
    FieldAbove((Low(s0, 16) * 64 + Low(s1, 64)) * 64 + Low(s2, 64), 0x40, Low(s3, 64));
  }

  lemma CodeOfFour(s0: Byte, s1: Byte, s2: Byte, s3: Byte)
    ensures CodeBits(s0, s1, s2, s3, 4) == ((Low(s0, 8) * 64 + Low(s1, 64)) * 64 + Low(s2, 64)) * 64 + Low(s3, 64)
  {
    FieldAbove(((Low(s0, 8) * 64 + Low(s1, 64)) * 64 + Low(s2, 64)) * 64 + Low(s3, 64), 1, 0);
  }

  /** No error is left exactly if the code is in range and the bytes of the character behind the first are tails. */
  lemma ErrorFree(c: nat, s1: Byte, s2: Byte, s3: Byte, len: nat)
    requires 1 <= len <= 4
    ensures ErrorBits(c, s1, s2, s3, len) == 0 <==>
            && MINS[len] <= c <= 0x10FFFF && !(0xD800 <= c <= 0xDFFF)
            && (len >= 2 ==> Tail(s1)) && (len >= 3 ==> Tail(s2)) && (len == 4 ==> Tail(s3))
  {
    var f1, f2, f3 := Flip(s1 / 64), Flip(s2 / 64), Flip(s3 / 64);
    assert (f1 == 0 <==> Tail(s1)) && (f2 == 0 <==> Tail(s2)) && (f3 == 0 <==> Tail(s3));
    assert c / 0x800 == 0x1b <==> 0xD800 <= c <= 0xDFFF;
    ShiftedOut(FlagBits(c, len), f1, f2, f3, len);
  }

  lemma ShiftedOut(flags: nat, f1: nat, f2: nat, f3: nat, len: nat)
    requires 1 <= len <= 4 && flags % 0x40 == 0 && f1 < 4 && f2 < 4 && f3 < 4
    ensures (flags + f1 * 16 + f2 * 4 + f3) / SHIFTE[len] == 0 <==>
            flags == 0 && (len >= 2 ==> f1 == 0) && (len >= 3 ==> f2 == 0) && (len == 4 ==> f3 == 0)
  {
    ZeroQuotient(flags + f1 * 16 + f2 * 4 + f3, SHIFTE[len]);
  }

  lemma ZeroQuotient(n: nat, d: nat)
    requires d > 0
    ensures n / d == 0 <==> n < d
  {
    if n < d {
      DivModUnique(n, d, 0, n);
    } else {
      assert n == n / d * d + n % d;
    }
  }

  lemma DecodeOne(s0: Byte, s1: Byte, s2: Byte, s3: Byte)
    requires s0 < 0x80
    ensures Utf8Decode(s0, s1, s2, s3) == Decoded(s0, 0, 1)
  {
    CodeOfOne(s0, s1, s2, s3);
    ErrorFree(s0, s1, s2, s3, 1);
  }

  lemma DecodeBadLead(s0: Byte, s1: Byte, s2: Byte, s3: Byte)
    requires 0x80 <= s0 < 0xC0 || 0xF8 <= s0
    ensures Utf8Decode(s0, s1, s2, s3).error != 0
  {
    var c := CodeBits(s0, s1, s2, s3, 0);
    assert SHIFTC[0] == 1 && MASKS[0] == 1 && Low(s0, 1) == 0;
    assert c < 0x40000 && FlagBits(c, 0) >= 0x40;
    ZeroQuotient(FlagBits(c, 0) + Flip(s1 / 64) * 16 + Flip(s2 / 64) * 4 + Flip(s3 / 64), 1);
  }

  lemma DecodeTwo(s0: Byte, s1: Byte, s2: Byte, s3: Byte)
    requires 0xC0 <= s0 < 0xE0
    ensures var d := Utf8Decode(s0, s1, s2, s3);
      && (d.error == 0 <==> IsChar([s0, s1]))
      && (d.error == 0 ==> d == Decoded(CodePoint([s0, s1]), 0, 2))
  {
    hide CodeBits, ErrorBits;
    CodeOfTwo(s0, s1, s2, s3);
    ErrorFree(Low(s0, 32) * 64 + Low(s1, 64), s1, s2, s3, 2);
    FreeBits(s0, 0xC0, 32);
    FreeBits(s1, 0x80, 64);
  }

  lemma DecodeThree(s0: Byte, s1: Byte, s2: Byte, s3: Byte)
    requires 0xE0 <= s0 < 0xF0
    ensures var d := Utf8Decode(s0, s1, s2, s3);
      && (d.error == 0 <==> IsChar([s0, s1, s2]))
      && (d.error == 0 ==> d == Decoded(CodePoint([s0, s1, s2]), 0, 3))
  {
    hide CodeBits, ErrorBits;
    CodeOfThree(s0, s1, s2, s3);
    var c := (Low(s0, 16) * 64 + Low(s1, 64)) * 64 + Low(s2, 64);
    ErrorFree(c, s1, s2, s3, 3);
    FreeBits(s0, 0xE0, 16);
    FreeBits(s1, 0x80, 64);
    FreeBits(s2, 0x80, 64);
    if Tail(s1) && Tail(s2) {
      ThreeByteRange(s0, s1, s2, c);
    }
  }

  lemma FreeBits(x: nat, start: nat, m: nat)
    requires m > 0 && start % m == 0
    ensures start <= x < start + m ==> Low(x, m) == x - start
  {
    if start <= x < start + m {
      DivModUnique(x, m, start / m, x - start);
    }
  }

  lemma ThreeByteRange(s0: Byte, s1: Byte, s2: Byte, c: nat)
    requires 0xE0 <= s0 < 0xF0 && Tail(s1) && Tail(s2)
    requires c == ((s0 - 0xE0) * 64 + (s1 - 0x80)) * 64 + (s2 - 0x80)
    ensures IsChar([s0, s1, s2]) <==> 0x800 <= c <= 0x10FFFF && !(0xD800 <= c <= 0xDFFF)
  {
  }

  lemma FourByteRange(s0: Byte, s1: Byte, s2: Byte, s3: Byte, c: nat)
    requires 0xF0 <= s0 < 0xF8 && Tail(s1) && Tail(s2) && Tail(s3)
    requires c == (((s0 - 0xF0) * 64 + (s1 - 0x80)) * 64 + (s2 - 0x80)) * 64 + (s3 - 0x80)
    ensures IsChar([s0, s1, s2, s3]) <==> 0x10000 <= c <= 0x10FFFF && !(0xD800 <= c <= 0xDFFF)
  {
  }

  lemma DecodeFour(s0: Byte, s1: Byte, s2: Byte, s3: Byte)
    requires 0xF0 <= s0 < 0xF8
    ensures var d := Utf8Decode(s0, s1, s2, s3);
      && (d.error == 0 <==> IsChar([s0, s1, s2, s3]))
      && (d.error == 0 ==> d == Decoded(CodePoint([s0, s1, s2, s3]), 0, 4))
  {
    hide CodeBits, ErrorBits;
    CodeOfFour(s0, s1, s2, s3);
    var c := ((Low(s0, 8) * 64 + Low(s1, 64)) * 64 + Low(s2, 64)) * 64 + Low(s3, 64);
    ErrorFree(c, s1, s2, s3, 4);
    FreeBits(s0, 0xF0, 8);
    FreeBits(s1, 0x80, 64);
    FreeBits(s2, 0x80, 64);
    FreeBits(s3, 0x80, 64);
    if Tail(s1) && Tail(s2) && Tail(s3) {
      FourByteRange(s0, s1, s2, s3, c);
    }
  }

  /** The byte i places into s, or a zero beyond its end. */
  function At(s: seq<Byte>, i: nat): Byte {
    if i < |s| then s[i] else 0
  }

  /** Zeros past the end never complete a character, so four bytes always decide. */
  lemma FourBytesDecide(s: seq<Byte>)
    requires s != []
    ensures var d, n := Utf8Decode(At(s, 0), At(s, 1), At(s, 2), At(s, 3)), CharLength(s);
      && (d.error == 0 <==> n > 0)
      && (d.error == 0 ==> d == Decoded(CodePoint(s[..n]), 0, n))
  {
    var s0, s1, s2, s3 := At(s, 0), At(s, 1), At(s, 2), At(s, 3);
    var n := CharLength(s);
    if s0 < 0x80 {
      DecodeOne(s0, s1, s2, s3);
      assert s[..1] == [s0];
    } else if s0 < 0xC0 || 0xF8 <= s0 {
      DecodeBadLead(s0, s1, s2, s3);
    } else {
      var k := if s0 < 0xE0 then 2 else if s0 < 0xF0 then 3 else 4;
      LengthFromLead(s, k);
      if s0 < 0xE0 {
        DecodeTwo(s0, s1, s2, s3);
      } else if s0 < 0xF0 {
        DecodeThree(s0, s1, s2, s3);
      } else {
        DecodeFour(s0, s1, s2, s3);
      }
    }
  }

  /** The lead byte fixes the length that a character can have. */
  lemma LengthFromLead(s: seq<Byte>, k: nat)
    requires s != [] && 0xC0 <= s[0] < 0xF8
    requires k == if s[0] < 0xE0 then 2 else if s[0] < 0xF0 then 3 else 4
    ensures CharLength(s) == (if IsChar(Window(s, k)) then k else 0)
    ensures IsChar(Window(s, k)) ==> s[..k] == Window(s, k)
  {
    var n := CharLength(s);
    if n > 0 {
      assert s[..n][0] == s[0];
      assert n == k;
      assert s[..k] == Window(s, k);
    } else if k <= |s| {
      assert s[..k] == Window(s, k);
    } else {
      assert Window(s, k)[k - 1] == 0;
    }
  }

  function Window(s: seq<Byte>, k: nat): (w: seq<Byte>)
    requires 2 <= k <= 4
    ensures |w| == k && forall i :: 0 <= i < k ==> w[i] == At(s, i)
  {
    if k == 2 then [At(s, 0), At(s, 1)]
    else if k == 3 then [At(s, 0), At(s, 1), At(s, 2)]
    else [At(s, 0), At(s, 1), At(s, 2), At(s, 3)]
  }

  // ------------------------------------------------------------------ the transcoder

  function Utf16Of(s: seq<Byte>): seq<Word16>
    requires WellFormed(s)
  {
    CodePointsAreScalars(s);
    EncodeAll(CodePoints(s))
  }

  /** The output for a string is the output for its first character and that for the rest. */
  lemma Utf16Step(s: seq<Byte>, n: nat)
    requires s != [] && n == CharLength(s) && n > 0 && WellFormed(s[n..])
    ensures WellFormed(s) && CodePoint(s[..n]) <= 0x10FFFF
    ensures Utf16Of(s) == Encode(CodePoint(s[..n])) + Utf16Of(s[n..])
  {
    CharIsScalar(s[..n]);
    CodePointsAreScalars(s);
    CodePointsAreScalars(s[n..]);
    assert CodePoints(s)[1..] == CodePoints(s[n..]);
  }

  /** Decodes at one position and appends the units; the position it goes on at, or failure. */
  method Transcode(s0: Byte, s1: Byte, s2: Byte, s3: Byte, buffer: seq<Word16>)
    returns (ok: bool, out: seq<Word16>, advance: nat)
    ensures var d := Utf8Decode(s0, s1, s2, s3);
      && (ok <==> d.error == 0)
      && (ok ==> d.c <= 0x10FFFF && out == buffer + Encode(d.c) && advance == d.advance)
  {
    var d := Utf8Decode(s0, s1, s2, s3);
    if d.error != 0 {
      return false, buffer, 0;
    }
    ErrorCoversRange(s0, s1, s2, s3);
    var cp := d.c;
    if cp <= 0xFFFF {
      out := buffer + [cp];
    } else {
      cp := cp - 0x10000;
      out := buffer + [0xD800 + cp / 0x400] + [0xDC00 + cp % 0x400];
    }
    ok, advance := true, d.advance;
  }

  lemma ErrorCoversRange(s0: Byte, s1: Byte, s2: Byte, s3: Byte)
    requires Utf8Decode(s0, s1, s2, s3).error == 0
    ensures Utf8Decode(s0, s1, s2, s3).c <= 0x10FFFF
  {
    var s := [s0, s1, s2, s3];
    FourBytesDecide(s);
    CharIsScalar(s[..CharLength(s)]);
  }

  /** What has been done and what is left make up the conversion of the whole string. */
  ghost predicate Progress(s: seq<Byte>, rest: seq<Byte>, buffer: seq<Word16>) {
    && (WellFormed(s) <==> WellFormed(rest))
    && (WellFormed(s) ==> Utf16Of(s) == buffer + Utf16Of(rest))
  }

  lemma ProgressStep(s: seq<Byte>, r: seq<Byte>, buffer: seq<Word16>, n: nat)
    requires r != [] && Progress(s, r, buffer) && n == CharLength(r) && n > 0
    ensures CodePoint(r[..n]) <= 0x10FFFF
    ensures Progress(s, r[n..], buffer + Encode(CodePoint(r[..n])))
  {
    CharIsScalar(r[..n]);
    assert WellFormed(r) <==> WellFormed(r[n..]);
    if WellFormed(r[n..]) {
      Utf16Step(r, n);
      Regroup(buffer, Encode(CodePoint(r[..n])), Utf16Of(r[n..]));
    }
  }

  lemma NoProgress(s: seq<Byte>, r: seq<Byte>, buffer: seq<Word16>)
    requires r != [] && Progress(s, r, buffer) && CharLength(r) == 0
    ensures !WellFormed(s)
  {
  }

  lemma Regroup(a: seq<Word16>, b: seq<Word16>, c: seq<Word16>)
    ensures a + (b + c) == a + b + c
  {
  }

  /** One character of s, r being left of it, given the four bytes that are read there. */
  method TranscodeAt(ghost s: seq<Byte>, ghost r: seq<Byte>, s0: Byte, s1: Byte, s2: Byte, s3: Byte,
                     buffer: seq<Word16>)
    returns (ok: bool, out: seq<Word16>, advance: nat)
    requires r != [] && Progress(s, r, buffer)
    requires s0 == At(r, 0) && s1 == At(r, 1) && s2 == At(r, 2) && s3 == At(r, 3)
    ensures !ok ==> !WellFormed(s)
    ensures ok ==> 0 < advance <= 4 && advance <= |r| && Progress(s, r[advance..], out)
  {
    ok, out, advance := TranscodeFirst(r, s0, s1, s2, s3, buffer);
    if ok {
      ProgressStep(s, r, buffer, advance);
    } else {
      NoProgress(s, r, buffer);
    }
  }

  /** The first character of r, given its first four bytes. */
  method TranscodeFirst(ghost r: seq<Byte>, s0: Byte, s1: Byte, s2: Byte, s3: Byte, buffer: seq<Word16>)
    returns (ok: bool, out: seq<Word16>, advance: nat)
    requires r != [] && s0 == At(r, 0) && s1 == At(r, 1) && s2 == At(r, 2) && s3 == At(r, 3)
    ensures ok <==> CharLength(r) > 0
    ensures ok ==> advance == CharLength(r) <= 4 && CodePoint(r[..advance]) <= 0x10FFFF
    ensures ok ==> out == buffer + Encode(CodePoint(r[..advance]))
  {
    DecidedAt(r, CharLength(r));
    ok, out, advance := Transcode(s0, s1, s2, s3, buffer);
  }

  lemma DecidedAt(r: seq<Byte>, n: nat)
    requires r != [] && n == CharLength(r)
    ensures var d := Utf8Decode(At(r, 0), At(r, 1), At(r, 2), At(r, 3));
      && n <= 4 && (d.error == 0 <==> n > 0) && (n > 0 ==> d.c == CodePoint(r[..n]) && d.advance == n)
  {
    FourBytesDecide(r);
    AtMostFour(r);
  }

  lemma AtMostFour(s: seq<Byte>)
    ensures CharLength(s) <= 4
  {
  }

  /**
    Converts with reads of four bytes while there are four, and the rest from a copy with zeros behind it. Succeeds
    exactly on well-formed input; the output ends with a null.
  */
  method Convert(s: seq<Byte>) returns (ok: bool, buffer: seq<Word16>)
    ensures ok <==> WellFormed(s)
    ensures ok ==> buffer == Utf16Of(s) + [0]
  {
    var p;
    ok, p, buffer := ConvertBlocks(s);
    if ok && p < |s| {
      ok, buffer := ConvertTail(s, p, buffer);
    }
    if ok {
      AllConverted(s, buffer);
      buffer := buffer + [0];
    }
  }

  lemma AllConverted(s: seq<Byte>, buffer: seq<Word16>)
    requires Progress(s, s[|s|..], buffer)
    ensures WellFormed(s) && buffer == Utf16Of(s)
  {
    assert s[|s|..] == [];
  }

  /** The loop over blocks of four bytes, up to the position where fewer are left. */
  method ConvertBlocks(s: seq<Byte>) returns (ok: bool, p: nat, buffer: seq<Word16>)
    ensures !ok ==> !WellFormed(s)
    ensures ok ==> p <= |s| < p + 4 && Progress(s, s[p..], buffer)
  {
    NothingDone(s);
    ok, p, buffer := true, 0, [];
    while ok && p + 4 <= |s|
      invariant p <= |s| && (if ok then Progress(s, s[p..], buffer) else !WellFormed(s))
      decreases |s| - p, ok
    {
      ok, p, buffer := ConvertBlock(s, p, buffer);
    }
  }

  lemma NothingDone(s: seq<Byte>)
    ensures Progress(s, s[0..], [])
  {
    assert s[0..] == s;
  }

  method ConvertBlock(s: seq<Byte>, p: nat, buffer: seq<Word16>) returns (ok: bool, q: nat, out: seq<Word16>)
    requires p + 4 <= |s| && Progress(s, s[p..], buffer)
    ensures !ok ==> q == p && !WellFormed(s)
    ensures ok ==> p < q <= |s| && Progress(s, s[q..], out)
  {
    hide Progress, At;
    BlockAt(s, p);
    var advance;
    ok, out, advance := TranscodeAt(s, s[p..], s[p], s[p + 1], s[p + 2], s[p + 3], buffer);
    q := p;
    if ok {
      q := p + advance;
      DropTwice(s, p, advance);
    }
  }

  lemma BlockAt(s: seq<Byte>, p: nat)
    requires p + 4 <= |s|
    ensures At(s[p..], 0) == s[p] && At(s[p..], 1) == s[p + 1] && At(s[p..], 2) == s[p + 2] && At(s[p..], 3) == s[p + 3]
  {
  }

  lemma DropTwice(s: seq<Byte>, p: nat, n: nat)
    requires p + n <= |s|
    ensures s[p..][n..] == s[p + n..]
  {
  }

  method ConvertTail(s: seq<Byte>, p: nat, bufferIn: seq<Word16>) returns (ok: bool, buffer: seq<Word16>)
    requires p < |s| < p + 4 && Progress(s, s[p..], bufferIn)
    ensures !ok ==> !WellFormed(s)
    ensures ok ==> Progress(s, s[|s|..], buffer)
  {
    hide Progress;
    var numCharsLeft := |s| - p;
    var buf: seq<Byte> := s[p..] + seq(7 - numCharsLeft, _ => 0);
    var i := 0;
    buffer := bufferIn;
    while true
      invariant 0 <= i < numCharsLeft && Progress(s, s[p + i..], buffer)
      decreases numCharsLeft - i
    {
      ok, i, buffer := ConvertPadded(s, p, i, buf, buffer);
      if !ok || i >= numCharsLeft {
        return;
      }
    }
  }

  /** One character of the padded copy. */
  method ConvertPadded(s: seq<Byte>, ghost p: nat, i: nat, buf: seq<Byte>, buffer: seq<Word16>)
    returns (ok: bool, j: nat, out: seq<Word16>)
    requires p + i < |s| < p + 4 && |buf| == 7 && buf == s[p..] + seq(7 - (|s| - p), _ => 0)
    requires Progress(s, s[p + i..], buffer)
    ensures !ok ==> !WellFormed(s)
    ensures ok ==> i < j <= |s| - p && Progress(s, s[p + j..], out)
  {
    hide Progress;
    TailWindow(s, p, p + i, buf);
    var advance;
    ok, out, advance := TranscodeAt(s, s[p + i..], buf[i], buf[i + 1], buf[i + 2], buf[i + 3], buffer);
    j := i;
    if ok {
      DropTwice(s, p + i, advance);
      j := i + advance;
    }
  }

  lemma TailWindow(s: seq<Byte>, p: nat, q: nat, buf: seq<Byte>)
    requires p <= q < |s| < p + 4 && |buf| == 7
    requires buf == s[p..] + seq(7 - (|s| - p), _ => 0)
    ensures forall i :: 0 <= i < 4 ==> buf[q - p + i] == At(s[q..], i)
  {
  }

  /** Decoding the output as UTF-16 gives back the code points of the input. */
  lemma ConversionKeepsCodePoints(s: seq<Byte>)
    requires WellFormed(s)
    ensures Decode(Utf16Of(s)) == Some(CodePoints(s))
  {
    CodePointsAreScalars(s);
    DecodeEncode(CodePoints(s));
  }
}
