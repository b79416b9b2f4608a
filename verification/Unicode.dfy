/** Well-formed UTF-8 (section 4 of RFC 3629) and UTF-16 (sections 2.1 and 2.2 of RFC 2781). */
module Unicode {
  import opened Powers
  import opened Words
  import opened Wrappers

  predicate Tail(b: Byte) { 0x80 <= b <= 0xBF }

  /** One character in the grammar of RFC 3629. */
  predicate IsChar(s: seq<Byte>) {
    if |s| == 1 then
      s[0] <= 0x7F
    else if |s| == 2 then
      0xC2 <= s[0] <= 0xDF && Tail(s[1])
    else if |s| == 3 then
      && Tail(s[2])
      && (|| (s[0] == 0xE0 && 0xA0 <= s[1] <= 0xBF)
          || (0xE1 <= s[0] <= 0xEC && Tail(s[1]))
          || (s[0] == 0xED && 0x80 <= s[1] <= 0x9F)
          || (0xEE <= s[0] <= 0xEF && Tail(s[1])))
    else if |s| == 4 then
      && Tail(s[2]) && Tail(s[3])
      && (|| (s[0] == 0xF0 && 0x90 <= s[1] <= 0xBF)
          || (0xF1 <= s[0] <= 0xF3 && Tail(s[1]))
          || (s[0] == 0xF4 && 0x80 <= s[1] <= 0x8F))
    else false
  }

  /** The code point of a character: the free bits of its bytes. */
  function CodePoint(s: seq<Byte>): nat
    requires IsChar(s)
  {
    if |s| == 1 then s[0]
    else if |s| == 2 then Low(s[0], 32) * 64 + Low(s[1], 64)
    else if |s| == 3 then (Low(s[0], 16) * 64 + Low(s[1], 64)) * 64 + Low(s[2], 64)
    else ((Low(s[0], 8) * 64 + Low(s[1], 64)) * 64 + Low(s[2], 64)) * 64 + Low(s[3], 64)
  }

  /** The bits of b below the power of two m. */
  function Low(b: nat, m: nat): nat
    requires m > 0
  {
    b % m
  }

  /** The length of the character that s starts with, or 0. */
  function CharLength(s: seq<Byte>): (n: nat)
    ensures n <= |s| && (n > 0 ==> IsChar(s[..n]))
    ensures n == 0 ==> forall k :: 1 <= k <= |s| ==> !IsChar(s[..k])
  {
    if |s| >= 1 && IsChar(s[..1]) then 1
    else if |s| >= 2 && IsChar(s[..2]) then 2
    else if |s| >= 3 && IsChar(s[..3]) then 3
    else if |s| >= 4 && IsChar(s[..4]) then 4
    else 0
  }

  predicate WellFormed(s: seq<Byte>) {
    s == [] || (CharLength(s) > 0 && WellFormed(s[CharLength(s)..]))
  }

  function CodePoints(s: seq<Byte>): seq<nat>
    requires WellFormed(s)
  {
    if s == [] then [] else [CodePoint(s[..CharLength(s)])] + CodePoints(s[CharLength(s)..])
  }

  // ------------------------------------------------------------------ UTF-16

  predicate IsScalar(u: nat) {
    u <= 0x10FFFF && !(0xD800 <= u <= 0xDFFF)
  }

  function Encode(u: nat): (units: seq<Word16>)
    requires u <= 0x10FFFF
    ensures |units| > 0
  {
    if u < 0x10000 then [u] else [0xD800 + (u - 0x10000) / 0x400, 0xDC00 + (u - 0x10000) % 0x400]
  }

  /** Decoding by section 2.2 of RFC 2781; None for an unpaired surrogate. */
  function Decode(s: seq<Word16>): Option<seq<nat>> {
    if s == [] then Some([])
    else if s[0] < 0xD800 || s[0] > 0xDFFF then
      match Decode(s[1..])
      case None => None
      case Some(rest) => Some([s[0]] + rest)
    else if s[0] <= 0xDBFF && |s| > 1 && 0xDC00 <= s[1] <= 0xDFFF then
      match Decode(s[2..])
      case None => None
      case Some(rest) => Some([0x10000 + Low(s[0], 0x400) * 0x400 + Low(s[1], 0x400)] + rest)
    else None
  }

  function EncodeAll(points: seq<nat>): seq<Word16>
    requires forall i :: 0 <= i < |points| ==> IsScalar(points[i])
  {
    if points == [] then [] else assert IsScalar(points[0]); Encode(points[0]) + EncodeAll(points[1..])
  }

  lemma {:induction false} DecodeEncode(points: seq<nat>)
    requires forall i :: 0 <= i < |points| ==> IsScalar(points[i])
    ensures Decode(EncodeAll(points)) == Some(points)
  {
    if points != [] {
      DecodeEncode(points[1..]);
      DecodeFirst(points[0], EncodeAll(points[1..]), points[1..]);
      assert points == [points[0]] + points[1..];
    }
  }

  lemma DecodeFirst(u: nat, units: seq<Word16>, points: seq<nat>)
    requires IsScalar(u) && Decode(units) == Some(points)
    ensures Decode(Encode(u) + units) == Some([u] + points)
  {
    if u < 0x10000 {
      assert ([u] + units)[1..] == units;
    } else {
      var v := u - 0x10000;
      DivModUnique(0xD800 + v / 0x400, 0x400, 54, v / 0x400);
      DivModUnique(0xDC00 + v % 0x400, 0x400, 55, v % 0x400);
      DecodePair(0xD800 + v / 0x400, 0xDC00 + v % 0x400, units, points);
    }
  }

  lemma DecodePair(high: Word16, low: Word16, units: seq<Word16>, points: seq<nat>)
    requires 0xD800 <= high <= 0xDBFF && 0xDC00 <= low <= 0xDFFF && Decode(units) == Some(points)
    ensures Decode([high, low] + units) == Some([0x10000 + Low(high, 0x400) * 0x400 + Low(low, 0x400)] + points)
  {
    assert ([high, low] + units)[2..] == units;
  }

  /** A character's code point is a scalar value; different characters have different ones. */
  lemma CharIsScalar(s: seq<Byte>)
    requires IsChar(s)
    ensures IsScalar(CodePoint(s))
  {
  }

  lemma {:induction false} CodePointsAreScalars(s: seq<Byte>)
    requires WellFormed(s)
    ensures forall i :: 0 <= i < |CodePoints(s)| ==> IsScalar(CodePoints(s)[i])
  {
    if s != [] {
      CharIsScalar(s[..CharLength(s)]);
      CodePointsAreScalars(s[CharLength(s)..]);
    }
  }

  /** Each length has its own range of code points: no character is longer than it need be. */
  lemma CodePointRange(s: seq<Byte>)
    requires IsChar(s)
    ensures |s| == 1 ==> CodePoint(s) < 0x80
    ensures |s| == 2 ==> 0x80 <= CodePoint(s) < 0x800
    ensures |s| == 3 ==> 0x800 <= CodePoint(s) < 0x10000
    ensures |s| == 4 ==> 0x10000 <= CodePoint(s)
  {
  }

  /** No two characters share a code point. */
  lemma CodePointInjective(s: seq<Byte>, t: seq<Byte>)
    requires IsChar(s) && IsChar(t) && CodePoint(s) == CodePoint(t)
    ensures s == t
  {
    CodePointRange(s);
    CodePointRange(t);
    assert |s| == |t|;
    var n := |s|;
    if n == 2 {
      SameParts(Low(s[0], 32), Low(s[1], 64), Low(t[0], 32), Low(t[1], 64));
    } else if n == 3 {
      var a, b := Low(s[0], 16) * 64 + Low(s[1], 64), Low(t[0], 16) * 64 + Low(t[1], 64);
      SameParts(a, Low(s[2], 64), b, Low(t[2], 64));
      SameParts(Low(s[0], 16), Low(s[1], 64), Low(t[0], 16), Low(t[1], 64));
    } else if n == 4 {
      var a, b := Low(s[0], 8) * 64 + Low(s[1], 64), Low(t[0], 8) * 64 + Low(t[1], 64);
      SameParts(a * 64 + Low(s[2], 64), Low(s[3], 64), b * 64 + Low(t[2], 64), Low(t[3], 64));
      SameParts(a, Low(s[2], 64), b, Low(t[2], 64));
      SameParts(Low(s[0], 8), Low(s[1], 64), Low(t[0], 8), Low(t[1], 64));
    }
    forall i | 0 <= i < n ensures s[i] == t[i] {
      SameByte(s, t, i);
    }
  }

  lemma SameParts(a: nat, b: nat, c: nat, d: nat)
    requires b < 64 && d < 64 && a * 64 + b == c * 64 + d
    ensures a == c && b == d
  {
  }

  /** Given the length, the free bits of a byte determine it. */
  lemma SameByte(s: seq<Byte>, t: seq<Byte>, i: nat)
    requires IsChar(s) && IsChar(t) && |s| == |t| && i < |s|
    requires |s| == 1 ==> s[0] == t[0]
    requires |s| == 2 ==> Low(s[0], 32) == Low(t[0], 32)
    requires |s| == 3 ==> Low(s[0], 16) == Low(t[0], 16)
    requires |s| == 4 ==> Low(s[0], 8) == Low(t[0], 8)
    requires i > 0 ==> Low(s[i], 64) == Low(t[i], 64)
    ensures s[i] == t[i]
  {
    if i > 0 {
      SameBlock(s[i], t[i], 0x80, 64);
    } else if |s| == 2 {
      SameBlock(s[0], t[0], 0xC0, 32);
    } else if |s| == 3 {
      SameBlock(s[0], t[0], 0xE0, 16);
    } else if |s| == 4 {
      SameBlock(s[0], t[0], 0xF0, 8);
    }
  }

  lemma SameBlock(x: nat, y: nat, start: nat, m: nat)
    requires m > 0 && start % m == 0 && start <= x < start + m && start <= y < start + m && Low(x, m) == Low(y, m)
    ensures x == y
  {
    DivModUnique(x, m, start / m, x - start);
    DivModUnique(y, m, start / m, y - start);
  }

  // ------------------------------------------------------------------ well-formed means encoded

  /** The bytes of a scalar value by the table in section 3 of RFC 3629. */
  function Utf8Encode(u: nat): (s: seq<Byte>)
    requires IsScalar(u)
    ensures 1 <= |s| <= 4
  {
    if u < 0x80 then [u]
    else if u < 0x800 then [0xC0 + u / 0x40, 0x80 + u % 0x40]
    else if u < 0x10000 then [0xE0 + u / 0x1000, 0x80 + u / 0x40 % 0x40, 0x80 + u % 0x40]
    else [0xF0 + u / 0x40000, 0x80 + u / 0x1000 % 0x40, 0x80 + u / 0x40 % 0x40, 0x80 + u % 0x40]
  }

  function Utf8EncodeAll(points: seq<nat>): seq<Byte>
    requires forall i :: 0 <= i < |points| ==> IsScalar(points[i])
  {
    if points == [] then [] else assert IsScalar(points[0]); Utf8Encode(points[0]) + Utf8EncodeAll(points[1..])
  }

  /** The bits of u in groups of six, highest first. */
  lemma SixBits(u: nat)
    ensures u == u / 0x40 * 0x40 + u % 0x40
    ensures u / 0x40 == u / 0x1000 * 0x40 + u / 0x40 % 0x40
    ensures u / 0x1000 == u / 0x40000 * 0x40 + u / 0x1000 % 0x40
  {
  }

  lemma LowOf(start: nat, bits: nat, m: nat)
    requires m > 0 && start % m == 0 && bits < m
    ensures Low(start + bits, m) == bits
  {
    DivModUnique(start + bits, m, start / m, bits);
  }

  lemma TwoBytes(u: nat, a: nat, b: nat)
    requires 0x80 <= u < 0x800 && u == a * 64 + b && b < 64
    ensures a < 32 && var s := [0xC0 + a, 0x80 + b]; IsChar(s) && CodePoint(s) == u
  {
    hide Low;
    LowOf(0xC0, a, 32);
    LowOf(0x80, b, 64);
  }

  lemma ThreeBytes(u: nat, a: nat, b: nat, c: nat)
    requires IsScalar(u) && 0x800 <= u < 0x10000 && u == (a * 64 + b) * 64 + c && b < 64 && c < 64
    ensures a < 16 && var s := [0xE0 + a, 0x80 + b, 0x80 + c]; IsChar(s) && CodePoint(s) == u
  {
    hide Low;
    LowOf(0xE0, a, 16);
    LowOf(0x80, b, 64);
    LowOf(0x80, c, 64);
  }

  lemma FourBytes(u: nat, a: nat, b: nat, c: nat, d: nat)
    requires 0x10000 <= u <= 0x10FFFF && u == ((a * 64 + b) * 64 + c) * 64 + d && b < 64 && c < 64 && d < 64
    ensures a < 8 && var s := [0xF0 + a, 0x80 + b, 0x80 + c, 0x80 + d]; IsChar(s) && CodePoint(s) == u
  {
    hide Low;
    LowOf(0xF0, a, 8);
    LowOf(0x80, b, 64);
    LowOf(0x80, c, 64);
    LowOf(0x80, d, 64);
  }

  lemma EncodedIsChar(u: nat)
    requires IsScalar(u)
    ensures IsChar(Utf8Encode(u)) && CodePoint(Utf8Encode(u)) == u
  {
    hide IsChar, CodePoint;
    SixBits(u);
    if u < 0x80 {
      OneByte(u);
    } else if u < 0x800 {
      TwoBytes(u, u / 0x40, u % 0x40);
    } else if u < 0x10000 {
      ThreeBytes(u, u / 0x1000, u / 0x40 % 0x40, u % 0x40);
    } else {
      FourBytes(u, u / 0x40000, u / 0x1000 % 0x40, u / 0x40 % 0x40, u % 0x40);
    }
  }

  lemma OneByte(u: nat)
    requires u < 0x80
    ensures IsChar([u]) && CodePoint([u]) == u
  {
  }

  /** The grammar admits exactly the encodings of scalar values. */
  lemma CharIsEncoded(s: seq<Byte>)
    requires IsChar(s)
    ensures IsScalar(CodePoint(s)) && Utf8Encode(CodePoint(s)) == s
  {
    CharIsScalar(s);
    EncodedIsChar(CodePoint(s));
    CodePointInjective(s, Utf8Encode(CodePoint(s)));
  }

  /** No character is the start of another one. */
  lemma CharLengthOf(s: seq<Byte>, n: nat)
    requires n <= |s| && IsChar(s[..n])
    ensures CharLength(s) == n
  {
    var k := CharLength(s);
    assert s[..k][0] == s[0] == s[..n][0];
  }

  lemma {:induction false} EncodedIsWellFormed(points: seq<nat>)
    requires forall i :: 0 <= i < |points| ==> IsScalar(points[i])
    ensures WellFormed(Utf8EncodeAll(points)) && CodePoints(Utf8EncodeAll(points)) == points
  {
    hide IsChar, CodePoint, CharLength, Utf8Encode;
    if points != [] {
      var s, first := Utf8EncodeAll(points), Utf8Encode(points[0]);
      EncodedIsChar(points[0]);
      EncodedIsWellFormed(points[1..]);
      assert s[..|first|] == first && s[|first|..] == Utf8EncodeAll(points[1..]);
      CharLengthOf(s, |first|);
    }
  }

  lemma {:induction false} WellFormedIsEncoded(s: seq<Byte>)
    requires WellFormed(s)
    ensures forall i :: 0 <= i < |CodePoints(s)| ==> IsScalar(CodePoints(s)[i])
    ensures Utf8EncodeAll(CodePoints(s)) == s
  {
    CodePointsAreScalars(s);
    if s != [] {
      hide IsChar, CodePoint, CodePoints, Utf8Encode, Utf8EncodeAll, WellFormed;
      var n := FirstCharacter(s);
      CharIsEncoded(s[..n]);
      WellFormedIsEncoded(s[n..]);
      EncodeFirst(CodePoint(s[..n]), CodePoints(s[n..]));
    }
  }

  lemma FirstCharacter(s: seq<Byte>) returns (n: nat)
    requires WellFormed(s) && s != []
    ensures 0 < n <= |s| && s == s[..n] + s[n..] && IsChar(s[..n]) && WellFormed(s[n..])
    ensures CodePoints(s) == [CodePoint(s[..n])] + CodePoints(s[n..])
  {
    hide IsChar, CodePoint;
    n := CharLength(s);
  }

  lemma EncodeFirst(u: nat, points: seq<nat>)
    requires IsScalar(u) && forall i :: 0 <= i < |points| ==> IsScalar(points[i])
    ensures forall i :: 0 <= i < |[u] + points| ==> IsScalar(([u] + points)[i])
    ensures Utf8EncodeAll([u] + points) == Utf8Encode(u) + Utf8EncodeAll(points)
  {
    assert ([u] + points)[1..] == points;
  }
}
