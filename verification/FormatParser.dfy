/** The format-string parser of src/3rdparty/fmt/format.h: its two scanning strategies and the field parser. */
module FormatParser {
  import opened Powers
  import opened Decimal
  import opened FormatSpec
  import opened Wrappers

  /** The handler: it decides by its oracle and keeps a log of what it has been told. */
  class Handler {
    const oracle: Oracle
    var log: seq<Atom>

    constructor (oracle: Oracle)
      ensures this.oracle == oracle && log == []
    {
      this.oracle, log := oracle, [];
    }

    method OnText(s: string, begin: nat, end: nat)
      requires begin <= end <= |s|
      modifies this
      ensures log == old(log) + Chars(s[begin..end])
    {
      log := log + Chars(s[begin..end]);
    }

    method OnError(problem: Problem)
      modifies this
      ensures log == old(log) + [Error(problem)]
    {
      log := log + [Error(problem)];
    }

    method OnField(arg: ArgRef)
      modifies this
      ensures log == old(log) + [Field(arg)]
    {
      log := log + [Field(arg)];
    }

    /** Parses format specs from begin on; None if that fails. */
    method OnFormatSpecs(arg: ArgRef, s: string, begin: nat) returns (end: Option<nat>)
      requires begin <= |s|
      modifies this
      ensures end == (match oracle.specsEnd(old(log), arg, s, begin)
                      case Some(k) => if begin <= k <= |s| then Some(k) else None
                      case None => None)
      ensures log == old(log) + if end.Some? then [Specs(arg, s[begin..end.value])] else []
    {
      end := oracle.specsEnd(log, arg, s, begin);
      if end.Some? && begin <= end.value <= |s| {
        log := log + [Specs(arg, s[begin..end.value])];
      } else {
        end := None;
      }
    }
  }

  /**
    Reads a number digit by digit in 32-bit unsigned arithmetic. It stops as soon as one more digit could wrap, and
    fails exactly when the digits spell a number above INT_MAX.
    */
  method ParseNonnegativeInt(s: string, begin: nat) returns (value: Option<nat>, next: nat)
    requires begin < |s| && IsDigit(s[begin])
    ensures value == None <==> Spelled(s[begin..DigitsEnd(s, begin)]) > INT_MAX
    ensures value.Some? ==> next == DigitsEnd(s, begin) && value.value == Spelled(s[begin..next])
  {
    var v: nat := 0;
    var big := INT_MAX / 10;
    next := begin;
    assert s[begin..begin] == "";
    while true
      invariant begin <= next < |s| && IsDigit(s[next]) && AllDigits(s[begin..next])
      invariant v == Spelled(s[begin..next]) && v <= INT_MAX + 2
      invariant DigitsEnd(s, next) == DigitsEnd(s, begin)
      decreases |s| - next
    {
      if v > big {
        LongerIsLarger(s, begin, next, DigitsEnd(s, begin));
        return None, next;
      }
      assert v * 10 + 9 < 0x1_0000_0000;
      DigitAppended(s, begin, next);
      v := v * 10 + (s[next] as int - '0' as int);
      next := next + 1;
      if next == |s| || !IsDigit(s[next]) {
        break;
      }
    }
    value := if v > INT_MAX then None else Some(v);
  }

  lemma DigitAppended(s: string, i: nat, j: nat)
    requires i <= j < |s| && IsDigit(s[j]) && AllDigits(s[i..j])
    ensures Spelled(s[i..j + 1]) == 10 * Spelled(s[i..j]) + DigitOf(s[j]) && AllDigits(s[i..j + 1])
  {
    assert s[i..j + 1] == s[i..j] + [s[j]];
    SpelledSnoc(s[i..j], s[j]);
  }

  /** With one digit more, a number above INT_MAX / 10 is above INT_MAX. */
  lemma LongerIsLarger(s: string, i: nat, j: nat, k: nat)
    requires i <= j < k <= |s| && AllDigits(s[i..j]) && AllDigits(s[i..k])
    requires Spelled(s[i..j]) > INT_MAX / 10
    ensures Spelled(s[i..k]) > INT_MAX
  {
    assert s[i..k] == s[i..j] + s[j..k];
    SpelledConcat(s[i..j], s[j..k]);
    forall m | 0 <= m < k - j ensures IsDigit(s[j..k][m]) {
      assert s[j..k][m] == s[i..k][j - i + m];
    }
    SpelledBound(s[j..k]);
    PowMonotone(10, 1, k - j);
    assert Pow(10, 1) == 10;
    MulMonotone(INT_MAX / 10 + 1, Spelled(s[i..j]), 10, Pow(10, k - j));
  }

  method ParseArgId(s: string, begin: nat) returns (r: Parsed<ArgRef>)
    requires begin < |s|
    ensures r == ArgId(s, begin)
  {
    var c := s[begin];
    if c == '}' || c == ':' {
      return Done(begin, Automatic);
    }
    if '0' <= c <= '9' {
      var index, next := Some(0), begin + 1;
      if c != '0' {
        index, next := ParseNonnegativeInt(s, begin);
      }
      if index == None {
        return Failed(NumberTooBig);
      }
      if next == |s| || (s[next] != '}' && s[next] != ':') {
        return Failed(InvalidFormat);
      }
      return Done(next, Index(index.value));
    }
    if !IsNameStart(c) {
      return Failed(InvalidFormat);
    }
    var it := begin + 1;
    while it != |s| && (IsNameStart(s[it]) || IsDigit(s[it]))
      invariant begin < it <= |s| && NameEnd(s, it) == NameEnd(s, begin + 1)
      decreases |s| - it
    {
      it := it + 1;
    }
    r := Done(it, Named(s[begin..it]));
  }

  method ParseReplacementField(s: string, begin: nat, handler: Handler) returns (next: Option<nat>)
    requires begin < |s|
    modifies handler
    ensures After(handler.log, next) == ReplacementField(handler.oracle, s, begin, old(handler.log))
  {
    var i := begin + 1;
    if i == |s| {
      handler.OnError(InvalidFormat);
      return None;
    }
    if s[i] == '{' {
      handler.OnText(s, i, i + 1);
      assert Chars(s[i..i + 1]) == [Char('{')];
      return Some(i + 1);
    }
    var id := ParseArgId(s, i);
    if id.Failed? {
      handler.OnError(id.problem);
      return None;
    }
    if !handler.oracle.takes(handler.log, id.value) {
      handler.OnError(HandlerRefused);
      return None;
    }
    i := id.next;
    if i < |s| && s[i] == '}' {
      handler.OnField(id.value);
    } else if i < |s| && s[i] == ':' {
      var end := handler.OnFormatSpecs(id.value, s, i + 1);
      if end == None {
        handler.OnError(HandlerRefused);
        return None;
      }
      i := end.value;
      if i == |s| || s[i] != '}' {
        handler.OnError(UnknownSpecifier);
        return None;
      }
    } else {
      handler.OnError(MissingBrace);
      return None;
    }
    next := Some(i + 1);
  }

  /** The strategy for strings below 32 characters: one character at a time. */
  method ParseShort(s: string, handler: Handler)
    modifies handler
    ensures handler.log == Parse(handler.oracle, s, 0, 0, old(handler.log))
  {
    var begin, p := 0, 0;
    while p != |s|
      invariant 0 <= begin <= p <= |s|
      invariant Parse(handler.oracle, s, begin, p, handler.log) == Parse(handler.oracle, s, 0, 0, old(handler.log))
      decreases |s| - p
    {
      var c := s[p];
      p := p + 1;
      if c == '{' {
        handler.OnText(s, begin, p - 1);
        var next := ParseReplacementField(s, p - 1, handler);
        if next == None {
          return;
        }
        begin, p := next.value, next.value;
      } else if c == '}' {
        if p == |s| || s[p] != '}' {
          handler.OnError(UnmatchedBrace);
          return;
        }
        handler.OnText(s, begin, p);
        p := p + 1;
        begin := p;
      }
    }
    handler.OnText(s, begin, |s|);
  }

  /** memchr. */
  method Find(s: string, first: nat, last: nat, value: char) returns (found: bool, out: nat)
    requires first <= last <= |s|
    ensures found ==> first <= out < last && s[out] == value && value !in s[first..out]
    ensures !found ==> value !in s[first..last]
  {
    out := first;
    while out < last
      invariant first <= out <= last && value !in s[first..out]
    {
      if s[out] == value {
        return true, out;
      }
      out := out + 1;
    }
    found := false;
  }

  /** Hands over a stretch of text without opening braces, undoing doubled closing braces. */
  method WriteText(s: string, begin: nat, end: nat, handler: Handler) returns (ok: bool)
    requires begin <= end <= |s| && '{' !in s[begin..end] && (end < |s| ==> s[end] == '{')
    modifies handler
    ensures ok ==> Parse(handler.oracle, s, end, end, handler.log) ==
                   Parse(handler.oracle, s, begin, begin, old(handler.log))
    ensures !ok ==> handler.log == Parse(handler.oracle, s, begin, begin, old(handler.log))
  {
    if begin == end {
      return true;
    }
    var pbegin := begin;
    while true
      invariant begin <= pbegin <= end
      invariant Parse(handler.oracle, s, pbegin, pbegin, handler.log) ==
                Parse(handler.oracle, s, begin, begin, old(handler.log))
      decreases end - pbegin
    {
      var found, p := Find(s, pbegin, end, '}');
      if !found {
        NoBracesBetween(s, begin, end, pbegin, end);
        ParseSkips(handler.oracle, s, pbegin, pbegin, end, handler.log);
        ParseFlushes(handler.oracle, s, pbegin, end, handler.log);
        handler.OnText(s, pbegin, end);
        return true;
      }
      NoBracesBetween(s, begin, end, pbegin, p);
      ParseSkips(handler.oracle, s, pbegin, pbegin, p, handler.log);
      p := p + 1;
      if p == end || s[p] != '}' {
        handler.OnError(UnmatchedBrace);
        return false;
      }
      handler.OnText(s, pbegin, p);
      pbegin := p + 1;
    }
  }

  lemma NoBracesBetween(s: string, begin: nat, end: nat, i: nat, j: nat)
    requires begin <= i <= j <= end <= |s| && '{' !in s[begin..end] && '}' !in s[i..j]
    ensures NoBraces(s, i, j)
  {
    forall k | i <= k < j ensures s[k] != '{' && s[k] != '}' {
      assert s[k] == s[begin..end][k - begin] == s[i..j][k - i];
    }
  }

  /** The strategy for longer strings: from one opening brace to the next. */
  method ParseLong(s: string, handler: Handler)
    modifies handler
    ensures handler.log == Parse(handler.oracle, s, 0, 0, old(handler.log))
  {
    var begin := 0;
    while begin != |s|
      invariant 0 <= begin <= |s|
      invariant Parse(handler.oracle, s, begin, begin, handler.log) == Parse(handler.oracle, s, 0, 0, old(handler.log))
      decreases |s| - begin
    {
      var found, p := true, begin;
      if s[begin] != '{' {
        found, p := Find(s, begin + 1, |s|, '{');
        assert s[begin..|s|] == [s[begin]] + s[begin + 1..|s|];
        if !found {
          var ok := WriteText(s, begin, |s|, handler);
          assert s[|s|..|s|] == "" && handler.log + Chars("") == handler.log;
          return;
        }
        assert s[begin..p] == [s[begin]] + s[begin + 1..p];
      }
      var ok := WriteText(s, begin, p, handler);
      if !ok {
        return;
      }
      assert s[p..p] == "" && handler.log + Chars("") == handler.log;
      var next := ParseReplacementField(s, p, handler);
      if next == None {
        return;
      }
      begin := next.value;
    }
    assert s[begin..begin] == "" && handler.log + Chars("") == handler.log;
  }

  method ParseFormatString(s: string, handler: Handler)
    modifies handler
    ensures handler.log == Parse(handler.oracle, s, 0, 0, old(handler.log))
  {
    if |s| < 32 {
      ParseShort(s, handler);
    } else {
      ParseLong(s, handler);
    }
  }
}
