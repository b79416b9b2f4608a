/** What a format string means: literal text, replacement fields and the first error, left to right. */
module FormatSpec {
  import opened Decimal
  import opened Wrappers

  datatype ArgRef = Automatic | Index(n: int) | Named(name: string)

  datatype Problem = InvalidFormat | UnmatchedBrace | UnknownSpecifier | MissingBrace | NumberTooBig | HandlerRefused

  /** What reaches the handler, with text broken up into its characters. */
  datatype Atom =
    | Char(c: char)
    | Field(arg: ArgRef)
    | Specs(arg: ArgRef, spec: string)
    | Error(problem: Problem)

  /**
    The decisions of a handler, which may depend on all it has been told so far: whether it takes an argument
    reference, and where the format specs it parses from a position end, if it accepts them.
    */
  datatype Oracle = Oracle(takes: (seq<Atom>, ArgRef) -> bool,
                           specsEnd: (seq<Atom>, ArgRef, string, nat) -> Option<nat>)

  function Chars(text: string): (atoms: seq<Atom>)
    ensures |atoms| == |text|
  {
    seq(|text|, i requires 0 <= i < |text| => Char(text[i]))
  }

  lemma CharsConcat(s: string, t: string)
    ensures Chars(s + t) == Chars(s) + Chars(t)
  {
  }

  // ------------------------------------------------------------------ argument references

  const INT_MAX: nat := 0x7fff_ffff

  predicate IsNameStart(c: char) {
    'a' <= c <= 'z' || 'A' <= c <= 'Z' || c == '_'
  }

  function DigitsEnd(s: string, i: nat): (j: nat)
    requires i <= |s|
    ensures i <= j <= |s| && AllDigits(s[i..j]) && (j < |s| ==> !IsDigit(s[j]))
    decreases |s| - i
  {
    if i < |s| && IsDigit(s[i]) then
      var j := DigitsEnd(s, i + 1);
      assert s[i..j] == [s[i]] + s[i + 1..j];
      j
    else i
  }

  function NameEnd(s: string, i: nat): (j: nat)
    requires i <= |s|
    ensures i <= j <= |s|
    decreases |s| - i
  {
    if i < |s| && (IsNameStart(s[i]) || IsDigit(s[i])) then NameEnd(s, i + 1) else i
  }

  datatype Parsed<T> = Done(next: nat, value: T) | Failed(problem: Problem)

  function ArgId(s: string, i: nat): (r: Parsed<ArgRef>)
    requires i < |s|
    ensures r.Done? ==> i <= r.next <= |s|
  {
    var c := s[i];
    if c == '}' || c == ':' then Done(i, Automatic)
    else if IsDigit(c) then
      var j := if c == '0' then i + 1 else DigitsEnd(s, i);
      var n := if c == '0' then 0 else Spelled(s[i..j]);
      if n > INT_MAX then Failed(NumberTooBig)
      else if j == |s| || (s[j] != '}' && s[j] != ':') then Failed(InvalidFormat)
      else Done(j, Index(n))
    else if IsNameStart(c) then
      var j := NameEnd(s, i + 1);
      Done(j, Named(s[i..j]))
    else Failed(InvalidFormat)
  }

  // ------------------------------------------------------------------ fields and text

  /** The log after a replacement field or an escaped brace at i, and where the text goes on unless it failed. */
  datatype After = After(log: seq<Atom>, next: Option<nat>)

  function Fail(log: seq<Atom>, problem: Problem): After {
    After(log + [Error(problem)], None)
  }

  function ReplacementField(o: Oracle, s: string, i: nat, log: seq<Atom>): (a: After)
    requires i < |s|
    ensures a.next.Some? ==> i + 1 < a.next.value <= |s|
  {
    if i + 1 == |s| then Fail(log, InvalidFormat)
    else if s[i + 1] == '{' then After(log + [Char('{')], Some(i + 2))
    else
      match ArgId(s, i + 1)
      case Failed(problem) => Fail(log, problem)
      case Done(j, arg) =>
        if !o.takes(log, arg) then Fail(log, HandlerRefused)
        else if j < |s| && s[j] == '}' then After(log + [Field(arg)], Some(j + 1))
        else if j < |s| && s[j] == ':' then
          match o.specsEnd(log, arg, s, j + 1)
          case None => Fail(log, HandlerRefused)
          case Some(k) =>
            if j + 1 <= k < |s| && s[k] == '}' then After(log + [Specs(arg, s[j + 1..k])], Some(k + 1))
            else if j + 1 <= k <= |s| then Fail(log + [Specs(arg, s[j + 1..k])], UnknownSpecifier)
            else Fail(log, HandlerRefused)
        else Fail(log, MissingBrace)
  }

  /** The log after the whole string, when it has been read up to i and the text from begin is still pending. */
  function Parse(o: Oracle, s: string, begin: nat, i: nat, log: seq<Atom>): seq<Atom>
    requires begin <= i <= |s|
    decreases |s| - i
  {
    if i == |s| then log + Chars(s[begin..i])
    else if s[i] == '{' then
      var a := ReplacementField(o, s, i, log + Chars(s[begin..i]));
      if a.next == None then a.log else Parse(o, s, a.next.value, a.next.value, a.log)
    else if s[i] == '}' then
      if i + 1 < |s| && s[i + 1] == '}' then Parse(o, s, i + 2, i + 2, log + Chars(s[begin..i + 1]))
      else log + [Error(UnmatchedBrace)]
    else Parse(o, s, begin, i + 1, log)
  }

  predicate NoBraces(s: string, i: nat, j: nat)
    requires i <= j <= |s|
  {
    forall k :: i <= k < j ==> s[k] != '{' && s[k] != '}'
  }

  /** Text without braces is only read over. */
  lemma {:induction false} ParseSkips(o: Oracle, s: string, begin: nat, i: nat, j: nat, log: seq<Atom>)
    requires begin <= i <= j <= |s| && NoBraces(s, i, j)
    ensures Parse(o, s, begin, i, log) == Parse(o, s, begin, j, log)
    decreases j - i
  {
    if i < j {
      ParseSkips(o, s, begin, i + 1, j, log);
    }
  }

  /** Pending text may be handed over early before an opening brace or the end. */
  lemma ParseFlushes(o: Oracle, s: string, begin: nat, i: nat, log: seq<Atom>)
    requires begin <= i <= |s| && (i < |s| ==> s[i] == '{')
    ensures Parse(o, s, begin, i, log) == Parse(o, s, i, i, log + Chars(s[begin..i]))
  {
    assert s[i..i] == "" && Chars("") == [];
    assert log + Chars(s[begin..i]) + [] == log + Chars(s[begin..i]);
  }

  predicate Clean(log: seq<Atom>) {
    forall k :: 0 <= k < |log| ==> !log[k].Error?
  }

  /** An error, if there is one, comes last in what was added to log. */
  predicate ErrorOnlyLast(log: seq<Atom>, all: seq<Atom>) {
    log <= all && (all == log || Clean(all[..|all| - 1]))
  }

  lemma ErrorOnlyLastFurther(log: seq<Atom>, mid: seq<Atom>, all: seq<Atom>)
    requires log <= mid && ErrorOnlyLast(mid, all) && Clean(mid)
    ensures ErrorOnlyLast(log, all)
  {
    if all != log {
      assert all[..|all| - 1] <= all;
    }
  }

  lemma CleanText(log: seq<Atom>, text: string)
    requires Clean(log)
    ensures Clean(log + Chars(text)) && ErrorOnlyLast(log, log + Chars(text))
  {
  }

  /** Nothing reaches the handler after an error, and what had reached it before stays. */
  lemma {:induction false} ErrorIsLast(o: Oracle, s: string, begin: nat, i: nat, log: seq<Atom>)
    requires begin <= i <= |s| && Clean(log)
    ensures ErrorOnlyLast(log, Parse(o, s, begin, i, log))
    decreases |s| - i
  {
    hide ReplacementField, Spelled;
    CleanText(log, s[begin..i]);
    if i == |s| {
    } else if s[i] == '{' {
      var flushed := log + Chars(s[begin..i]);
      var a := ReplacementField(o, s, i, flushed);
      FieldIsClean(o, s, i, flushed);
      if a.next.Some? {
        ErrorIsLast(o, s, a.next.value, a.next.value, a.log);
        ErrorOnlyLastFurther(log, a.log, Parse(o, s, a.next.value, a.next.value, a.log));
      } else {
        ErrorOnlyLastFurther(log, flushed, a.log);
      }
    } else if s[i] == '}' {
      if i + 1 < |s| && s[i + 1] == '}' {
        var closed := log + Chars(s[begin..i + 1]);
        CleanText(log, s[begin..i + 1]);
        ErrorIsLast(o, s, i + 2, i + 2, closed);
        ErrorOnlyLastFurther(log, closed, Parse(o, s, i + 2, i + 2, closed));
      }
    } else {
      ErrorIsLast(o, s, begin, i + 1, log);
    }
  }

  lemma FieldIsClean(o: Oracle, s: string, i: nat, log: seq<Atom>)
    requires i < |s| && Clean(log)
    ensures var a := ReplacementField(o, s, i, log);
      && ErrorOnlyLast(log, a.log) && (a.next.Some? ==> Clean(a.log))
  {
    var a := ReplacementField(o, s, i, log);
    if a.next == None {
      assert a.log[..|a.log| - 1] + [a.log[|a.log| - 1]] == a.log;
    }
  }

  // ------------------------------------------------------------------ escaping

  function Escape(text: string): string {
    if text == "" then ""
    else (if text[0] == '{' || text[0] == '}' then [text[0], text[0]] else [text[0]]) + Escape(text[1..])
  }

  /** A text with its braces doubled is parsed as exactly that text, without a field or an error. */
  lemma {:induction false} EscapedTextIsText(o: Oracle, pre: string, pending: string, text: string, log: seq<Atom>)
    ensures Parse(o, pre + pending + Escape(text), |pre|, |pre + pending|, log) ==
            log + Chars(pending) + Chars(text)
    decreases |text|
  {
    hide Parse;
    var s := pre + pending + Escape(text);
    var i := |pre + pending|;
    assert s[|pre|..i] == pending;
    if text == "" {
      AtEnd(o, s, |pre|, log);
      assert log + Chars(pending) + [] == log + Chars(pending);
    } else {
      var c, rest := text[0], text[1..];
      CharsConcat([c], rest);
      assert text == [c] + rest && s[i] == c;
      if c == '{' {
        assert s == (pre + pending + "{{") + "" + Escape(rest);
        OpenPair(o, s, |pre|, i, log);
        EscapedTextIsText(o, pre + pending + "{{", "", rest, log + Chars(pending) + [Char('{')]);
        Reassociate(log, pending, "{", rest);
      } else if c == '}' {
        assert s == (pre + pending + "}}") + "" + Escape(rest);
        assert s[|pre|..i + 1] == pending + "}";
        ClosePair(o, s, |pre|, i, log);
        EscapedTextIsText(o, pre + pending + "}}", "", rest, log + Chars(pending + "}"));
        Reassociate(log, pending, "}", rest);
      } else {
        assert s == pre + (pending + [c]) + Escape(rest);
        PlainCharacter(o, s, |pre|, i, log);
        EscapedTextIsText(o, pre, pending + [c], rest, log);
        Reassociate(log, pending, [c], rest);
      }
    }
  }

  /** In particular doubling the braces of a whole format string makes it literal text. */
  lemma EscapeRoundTrip(o: Oracle, text: string)
    ensures Parse(o, Escape(text), 0, 0, []) == Chars(text)
  {
    EscapedTextIsText(o, "", "", text, []);
    assert "" + "" + Escape(text) == Escape(text) && [] + Chars("") + Chars(text) == Chars(text);
  }

  lemma AtEnd(o: Oracle, s: string, begin: nat, log: seq<Atom>)
    requires begin <= |s|
    ensures Parse(o, s, begin, |s|, log) == log + Chars(s[begin..|s|])
  {
  }

  lemma PlainCharacter(o: Oracle, s: string, begin: nat, i: nat, log: seq<Atom>)
    requires begin <= i < |s| && s[i] != '{' && s[i] != '}'
    ensures Parse(o, s, begin, i, log) == Parse(o, s, begin, i + 1, log)
  {
  }

  lemma OpenPair(o: Oracle, s: string, begin: nat, i: nat, log: seq<Atom>)
    requires begin <= i && i + 1 < |s| && s[i] == '{' && s[i + 1] == '{'
    ensures Parse(o, s, begin, i, log) == Parse(o, s, i + 2, i + 2, log + Chars(s[begin..i]) + [Char('{')])
  {
  }

  lemma ClosePair(o: Oracle, s: string, begin: nat, i: nat, log: seq<Atom>)
    requires begin <= i && i + 1 < |s| && s[i] == '}' && s[i + 1] == '}'
    ensures Parse(o, s, begin, i, log) == Parse(o, s, i + 2, i + 2, log + Chars(s[begin..i + 1]))
  {
  }

  lemma Reassociate(log: seq<Atom>, pending: string, c: string, rest: string)
    ensures log + Chars(pending) + Chars(c) + Chars("") + Chars(rest) == log + Chars(pending) + Chars(c + rest)
    ensures log + Chars(pending + c) + Chars(rest) == log + Chars(pending) + Chars(c + rest)
    ensures log + Chars(pending + c) + Chars("") + Chars(rest) == log + Chars(pending) + Chars(c + rest)
    ensures c == "{" ==> Chars(c) == [Char('{')]
  {
    CharsConcat(pending, c);
    CharsConcat(c, rest);
  }
}
