/**
  Format strings written down piece by piece, and the proof that parsing tells the handler exactly those pieces. Every
  string is written in that way, up to its first error.
  */
module FormatPieces {
  import opened Decimal
  import opened FormatSpec
  import opened Powers
  import opened Wrappers

  // ------------------------------------------------------------------ what is written

  /** A run of text without braces, a doubled brace, a field, and a field with format specs. */
  datatype Piece = Run(text: string) | Brace(c: char) | Place(arg: ArgRef) | PlaceWith(arg: ArgRef, spec: string)

  /** How a string goes wrong, with what is left of it. */
  datatype Defect =
    | LoneBrace(text: string, rest: string)
    | OpenAtEnd
    | NoArgument(rest: string)
    | HugeIndex(digits: string, rest: string)
    | IndexGoesOn(n: nat, rest: string)
    | NameGoesOn(name: string, rest: string)
    | Refused(arg: ArgRef, rest: string)
    | RefusedSpecs(arg: ArgRef, rest: string)
    | SpecsGoOn(arg: ArgRef, spec: string, rest: string)

  function DecimalText(n: nat): (s: string)
    ensures s != "" && AllDigits(s)
  {
    if n < 10 then [DigitChar(n)] else DecimalText(n / 10) + [DigitChar(n % 10)]
  }

  function ArgText(arg: ArgRef): string {
    match arg
    case Automatic => ""
    case Index(n) => if n >= 0 then DecimalText(n) else ""
    case Named(name) => name
  }

  function PieceText(piece: Piece): string {
    match piece
    case Run(text) => text
    case Brace(c) => [c, c]
    case Place(arg) => "{" + (ArgText(arg) + "}")
    case PlaceWith(arg, spec) => "{" + (ArgText(arg) + (":" + (spec + "}")))
  }

  function DefectText(defect: Defect): string {
    match defect
    case LoneBrace(text, rest) => text + ("}" + rest)
    case OpenAtEnd => "{"
    case NoArgument(rest) => "{" + rest
    case HugeIndex(digits, rest) => "{" + (digits + rest)
    case IndexGoesOn(n, rest) => "{" + (DecimalText(n) + rest)
    case NameGoesOn(name, rest) => "{" + (name + rest)
    case Refused(arg, rest) => "{" + (ArgText(arg) + rest)
    case RefusedSpecs(arg, rest) => "{" + (ArgText(arg) + (":" + rest))
    case SpecsGoOn(arg, spec, rest) => "{" + (ArgText(arg) + (":" + (spec + rest)))
  }

  function Written(pieces: seq<Piece>, defect: Option<Defect>): string {
    if pieces == [] then if defect.Some? then DefectText(defect.value) else ""
    else PieceText(pieces[0]) + Written(pieces[1..], defect)
  }

  // ------------------------------------------------------------------ what may be written

  predicate IsLetter(c: char) {
    c == '_' || 'A' <= c <= 'Z' || 'a' <= c <= 'z'
  }

  predicate IsName(name: string) {
    name != "" && IsLetter(name[0]) && forall i :: 0 <= i < |name| ==> IsLetter(name[i]) || IsDigit(name[i])
  }

  predicate ArgFits(arg: ArgRef) {
    match arg
    case Automatic => true
    case Index(n) => 0 <= n < 0x8000_0000
    case Named(name) => IsName(name)
  }

  predicate Closes(rest: string) {
    rest != "" && (rest[0] == '}' || rest[0] == ':')
  }

  predicate NameEnds(rest: string) {
    rest == "" || !(IsLetter(rest[0]) || IsDigit(rest[0]))
  }

  predicate Bare(text: string) {
    '{' !in text && '}' !in text
  }

  /** What may come behind an argument reference for the parser to be through with it. */
  predicate ArgEnds(arg: ArgRef, rest: string) {
    if arg.Named? then NameEnds(rest) else Closes(rest)
  }

  /** A piece at position i of a string, for a handler that has been told what is in the log. */
  predicate PieceFits(o: Oracle, s: string, i: nat, log: seq<Atom>, piece: Piece) {
    match piece
    case Run(text) => Bare(text)
    case Brace(c) => c == '{' || c == '}'
    case Place(arg) => ArgFits(arg) && o.takes(log, arg)
    case PlaceWith(arg, spec) =>
      var begin := i + 1 + |ArgText(arg)| + 1;
      ArgFits(arg) && o.takes(log, arg) && o.specsEnd(log, arg, s, begin) == Some(begin + |spec|)
  }

  predicate DefectFits(o: Oracle, s: string, i: nat, log: seq<Atom>, defect: Defect) {
    match defect
    case LoneBrace(text, rest) => Bare(text) && (rest == "" || rest[0] != '}')
    case OpenAtEnd => true
    case NoArgument(rest) =>
      rest != "" && rest[0] != '{' && !Closes(rest) && !IsDigit(rest[0]) && !IsLetter(rest[0])
    case HugeIndex(digits, rest) =>
      && digits != "" && AllDigits(digits) && digits[0] != '0' && Spelled(digits) >= 0x8000_0000
      && (rest == "" || !IsDigit(rest[0]))
    case IndexGoesOn(n, rest) =>
      n < 0x8000_0000 && !Closes(rest) && (rest == "" || n == 0 || !IsDigit(rest[0]))
    case NameGoesOn(name, rest) => IsName(name) && NameEnds(rest) && !Closes(rest) && o.takes(log, Named(name))
    case Refused(arg, rest) => ArgFits(arg) && ArgEnds(arg, rest) && !o.takes(log, arg)
    case RefusedSpecs(arg, rest) =>
      var begin := i + 1 + |ArgText(arg)| + 1;
      && ArgFits(arg) && o.takes(log, arg)
      && (match o.specsEnd(log, arg, s, begin) case None => true case Some(k) => !(begin <= k <= |s|))
    case SpecsGoOn(arg, spec, rest) =>
      var begin := i + 1 + |ArgText(arg)| + 1;
      && ArgFits(arg) && o.takes(log, arg) && o.specsEnd(log, arg, s, begin) == Some(begin + |spec|)
      && (rest == "" || rest[0] != '}')
  }

  /** What the handler is told; text in front of a lone brace is not. */
  function PieceAtoms(piece: Piece): seq<Atom> {
    match piece
    case Run(text) => Chars(text)
    case Brace(c) => [Char(c)]
    case Place(arg) => [Field(arg)]
    case PlaceWith(arg, spec) => [Specs(arg, spec)]
  }

  function DefectAtoms(defect: Defect): seq<Atom> {
    match defect
    case LoneBrace(_, _) => [Error(UnmatchedBrace)]
    case OpenAtEnd => [Error(InvalidFormat)]
    case NoArgument(_) => [Error(InvalidFormat)]
    case HugeIndex(_, _) => [Error(NumberTooBig)]
    case IndexGoesOn(_, _) => [Error(InvalidFormat)]
    case NameGoesOn(_, _) => [Error(MissingBrace)]
    case Refused(_, _) => [Error(HandlerRefused)]
    case RefusedSpecs(_, _) => [Error(HandlerRefused)]
    case SpecsGoOn(arg, spec, _) => [Specs(arg, spec), Error(UnknownSpecifier)]
  }

  function Told(pieces: seq<Piece>, defect: Option<Defect>): seq<Atom> {
    if pieces == [] then if defect.Some? then DefectAtoms(defect.value) else []
    else PieceAtoms(pieces[0]) + Told(pieces[1..], defect)
  }

  /** All pieces fit where they are, and so does the defect. */
  predicate AllFit(o: Oracle, s: string, i: nat, log: seq<Atom>, pieces: seq<Piece>, defect: Option<Defect>)
    decreases |pieces|
  {
    if pieces == [] then defect.Some? ==> DefectFits(o, s, i, log, defect.value)
    else
      && PieceFits(o, s, i, log, pieces[0])
      && AllFit(o, s, i + |PieceText(pieces[0])|, log + PieceAtoms(pieces[0]), pieces[1..], defect)
  }

  /** A lone brace takes the whole run of text in front of it along. */
  predicate RunsTaken(pieces: seq<Piece>, defect: Option<Defect>) {
    defect.Some? && defect.value.LoneBrace? && pieces != [] ==> !pieces[|pieces| - 1].Run?
  }

  // ------------------------------------------------------------------ argument references

  lemma {:induction false} DecimalSpells(n: nat)
    ensures Spelled(DecimalText(n)) == n && (DecimalText(n)[0] == '0' <==> n == 0)
    ensures n == 0 ==> DecimalText(n) == "0"
  {
    if n < 10 {
      assert DecimalText(n)[..0] == [];
    } else {
      DecimalSpells(n / 10);
      SpelledSnoc(DecimalText(n / 10), DigitChar(n % 10));
    }
  }

  /** Digits without a leading zero are the decimal text of their number. */
  lemma {:induction false} DigitsAreDecimal(digits: string)
    requires digits != "" && AllDigits(digits) && digits[0] != '0'
    ensures Spelled(digits) > 0 && DecimalText(Spelled(digits)) == digits
  {
    var n := |digits| - 1;
    var front, last := digits[..n], digits[n];
    assert digits == front + [last];
    SpelledSnoc(front, last);
    if front == "" {
      assert Spelled(front) == 0;
    } else {
      DigitsAreDecimal(front);
    }
  }

  lemma DigitsEndIs(s: string, i: nat, j: nat)
    requires i <= j <= |s| && AllDigits(s[i..j]) && (j < |s| ==> !IsDigit(s[j]))
    ensures DigitsEnd(s, i) == j
  {
    var e := DigitsEnd(s, i);
    assert forall k :: i <= k < j ==> s[i..j][k - i] == s[k];
    assert forall k :: i <= k < e ==> s[i..e][k - i] == s[k];
  }

  lemma {:induction false} NameEndIs(s: string, i: nat, j: nat)
    requires i <= j <= |s| && (forall k :: i <= k < j ==> IsLetter(s[k]) || IsDigit(s[k])) && NameEnds(s[j..])
    ensures NameEnd(s, i) == j
    decreases j - i
  {
    if i < j {
      NameEndIs(s, i + 1, j);
    }
  }

  lemma {:induction false} NameEndStops(s: string, i: nat)
    requires i <= |s|
    ensures forall k :: i <= k < NameEnd(s, i) ==> IsLetter(s[k]) || IsDigit(s[k])
    ensures NameEnds(s[NameEnd(s, i)..])
    decreases |s| - i
  {
    if i < |s| && (IsNameStart(s[i]) || IsDigit(s[i])) {
      NameEndStops(s, i + 1);
    }
  }

  /** t stands at position i of s. */
  predicate At(s: string, i: nat, t: string) {
    i + |t| <= |s| && s[i..i + |t|] == t
  }

  lemma AtConcat(s: string, i: nat, a: string, b: string)
    requires At(s, i, a + b)
    ensures At(s, i, a) && At(s, i + |a|, b)
  {
    assert s[i..i + |a|] == s[i..i + |a + b|][..|a|];
    assert s[i + |a|..i + |a| + |b|] == s[i..i + |a + b|][|a|..];
  }

  lemma AtFirst(s: string, i: nat, t: string)
    requires At(s, i, t)
    ensures forall k :: i <= k < i + |t| ==> s[k] == t[k - i]
  {
    assert forall k :: i <= k < i + |t| ==> s[k] == s[i..i + |t|][k - i];
  }

  lemma AtIs(s: string, i: nat, t: string)
    requires At(s, i, t)
    ensures i + |t| <= |s| && s[i..i + |t|] == t
  {
  }

  /** An argument reference is read as it is written. */
  lemma ArgIsRead(s: string, i: nat, arg: ArgRef)
    requires At(s, i, ArgText(arg)) && ArgFits(arg) && ArgEnds(arg, s[i + |ArgText(arg)|..])
    ensures i < |s| && s[i] != '{' && ArgId(s, i) == Done(i + |ArgText(arg)|, arg)
  {
    match arg
    case Automatic =>
    case Index(n) => IndexIsRead(s, i, n);
    case Named(name) => NameIsRead(s, i, name);
  }

  lemma IndexIsRead(s: string, i: nat, n: nat)
    requires At(s, i, DecimalText(n)) && n < 0x8000_0000 && Closes(s[i + |DecimalText(n)|..])
    ensures i < |s| && s[i] != '{' && ArgId(s, i) == Done(i + |DecimalText(n)|, Index(n))
  {
    hide Spelled, DecimalText, At;
    var j := i + |DecimalText(n)|;
    AtIs(s, i, DecimalText(n));
    AtFirst(s, i, DecimalText(n));
    DecimalSpells(n);
    if n > 0 { DigitsEndIs(s, i, j); }
  }

  lemma NameIsRead(s: string, i: nat, name: string)
    requires At(s, i, name) && IsName(name) && NameEnds(s[i + |name|..])
    ensures i < |s| && s[i] != '{' && ArgId(s, i) == Done(i + |name|, Named(name))
  {
    AtFirst(s, i, name);
    NameEndIs(s, i + 1, i + |name|);
  }

  lemma HugeIsRefused(s: string, i: nat, digits: string)
    requires At(s, i, digits) && digits != "" && AllDigits(digits) && digits[0] != '0'
    requires Spelled(digits) >= 0x8000_0000 && (i + |digits| < |s| ==> !IsDigit(s[i + |digits|]))
    ensures ArgId(s, i) == Failed(NumberTooBig) && s[i] != '{'
  {
    hide Spelled, At;
    AtFirst(s, i, digits);
    AtIs(s, i, digits);
    DigitsEndIs(s, i, i + |digits|);
  }

  lemma IndexIsNotClosed(s: string, i: nat, n: nat)
    requires At(s, i, DecimalText(n)) && n < 0x8000_0000
    requires var rest := s[i + |DecimalText(n)|..]; !Closes(rest) && (rest == "" || n == 0 || !IsDigit(rest[0]))
    ensures ArgId(s, i) == Failed(InvalidFormat) && s[i] != '{'
  {
    hide Spelled, DecimalText, At;
    AtIs(s, i, DecimalText(n));
    AtFirst(s, i, DecimalText(n));
    DecimalSpells(n);
    if n > 0 { DigitsEndIs(s, i, i + |DecimalText(n)|); }
  }

  // ------------------------------------------------------------------ pieces

  /** A field begins: the text in front of it is handed over first. */
  lemma FieldOpens(o: Oracle, s: string, begin: nat, i: nat, log: seq<Atom>, a: After)
    requires begin <= i < |s| && s[i] == '{' && a == ReplacementField(o, s, i, log + Chars(s[begin..i]))
    ensures Parse(o, s, begin, i, log) ==
            if a.next == None then a.log else Parse(o, s, a.next.value, a.next.value, a.log)
  {
  }

  /** A field whose argument reference ends at j. */
  lemma FieldCloses(o: Oracle, s: string, i: nat, log: seq<Atom>, j: nat, arg: ArgRef)
    requires i + 1 < |s| && s[i + 1] != '{' && ArgId(s, i + 1) == Done(j, arg) && j < |s| && s[j] == '}'
    requires o.takes(log, arg)
    ensures ReplacementField(o, s, i, log) == After(log + [Field(arg)], Some(j + 1))
  {
    hide ArgId;
  }

  lemma SpecsClose(o: Oracle, s: string, i: nat, log: seq<Atom>, j: nat, arg: ArgRef, k: nat)
    requires i + 1 < |s| && s[i + 1] != '{' && ArgId(s, i + 1) == Done(j, arg) && j < |s| && s[j] == ':'
    requires o.takes(log, arg) && o.specsEnd(log, arg, s, j + 1) == Some(k) && j + 1 <= k <= |s|
    ensures ReplacementField(o, s, i, log) ==
            if k < |s| && s[k] == '}' then After(log + [Specs(arg, s[j + 1..k])], Some(k + 1))
            else Fail(log + [Specs(arg, s[j + 1..k])], UnknownSpecifier)
  {
    hide ArgId;
  }

  lemma AtPlace(s: string, i: nat, a: string)
    requires At(s, i, "{" + (a + "}"))
    ensures s[i] == '{' && At(s, i + 1, a)
    ensures var j := i + 1 + |a|; j < |s| && s[j] == '}' && Closes(s[j..]) && NameEnds(s[j..])
  {
    AtConcat(s, i, "{", a + "}");
    AtConcat(s, i + 1, a, "}");
    AtFirst(s, i, "{");
    AtFirst(s, i + 1 + |a|, "}");
  }

  lemma PlaceIsRead(o: Oracle, s: string, i: nat, log: seq<Atom>, arg: ArgRef)
    requires At(s, i, PieceText(Place(arg))) && PieceFits(o, s, i, log, Place(arg))
    ensures s[i] == '{'
    ensures ReplacementField(o, s, i, log) == After(log + [Field(arg)], Some(i + |PieceText(Place(arg))|))
  {
    hide ArgId, ArgFits, ArgText, At, ReplacementField, ArgEnds, PieceText;
    var j := PlaceParts(s, i, arg);
    ArgIsRead(s, i + 1, arg);
    FieldCloses(o, s, i, log, j, arg);
  }

  lemma PlaceParts(s: string, i: nat, arg: ArgRef) returns (j: nat)
    requires At(s, i, PieceText(Place(arg)))
    ensures j == i + 1 + |ArgText(arg)| && j + 1 == i + |PieceText(Place(arg))| <= |s|
    ensures s[i] == '{' && At(s, i + 1, ArgText(arg)) && ArgEnds(arg, s[j..]) && s[j] == '}'
  {
    hide ArgText, At, Closes, NameEnds;
    j := i + 1 + |ArgText(arg)|;
    AtPlace(s, i, ArgText(arg));
  }

  lemma PlaceWithIsRead(o: Oracle, s: string, i: nat, log: seq<Atom>, arg: ArgRef, spec: string)
    requires At(s, i, PieceText(PlaceWith(arg, spec))) && PieceFits(o, s, i, log, PlaceWith(arg, spec))
    ensures s[i] == '{'
    ensures ReplacementField(o, s, i, log) ==
            After(log + [Specs(arg, spec)], Some(i + |PieceText(PlaceWith(arg, spec))|))
  {
    hide ArgId, ArgFits, ArgText, At, ReplacementField, ArgEnds, PieceText;
    var j := PlaceWithParts(s, i, arg, spec);
    ArgIsRead(s, i + 1, arg);
    SpecsClose(o, s, i, log, j, arg, j + 1 + |spec|);
  }

  lemma PlaceWithParts(s: string, i: nat, arg: ArgRef, spec: string) returns (j: nat)
    requires At(s, i, PieceText(PlaceWith(arg, spec)))
    ensures var k := j + 1 + |spec|;
      && j == i + 1 + |ArgText(arg)| && k + 1 == i + |PieceText(PlaceWith(arg, spec))| <= |s|
      && s[i] == '{' && At(s, i + 1, ArgText(arg)) && ArgEnds(arg, s[j..]) && s[j] == ':'
      && s[j + 1..k] == spec && s[k] == '}'
  {
    hide ArgText, At, Closes, NameEnds, PieceText;
    PlaceWithText(arg, spec);
    j := i + 1 + |ArgText(arg)|;
    AtSpecs(s, i, ArgText(arg), spec + "}");
    SpecEnds(s, j + 1, spec);
  }

  lemma PlaceWithText(arg: ArgRef, spec: string)
    ensures PieceText(PlaceWith(arg, spec)) == "{" + (ArgText(arg) + (":" + (spec + "}")))
    ensures |PieceText(PlaceWith(arg, spec))| == |ArgText(arg)| + |spec| + 3
  {
  }

  lemma SpecEnds(s: string, i: nat, spec: string)
    requires At(s, i, spec + "}")
    ensures i + |spec| < |s| && s[i..i + |spec|] == spec && s[i + |spec|] == '}'
  {
    AtConcat(s, i, spec, "}");
    AtFirst(s, i + |spec|, "}");
  }

  /** Where the parts of a field with specs are. */
  lemma AtSpecs(s: string, i: nat, a: string, rest: string)
    requires At(s, i, "{" + (a + (":" + rest)))
    ensures s[i] == '{' && At(s, i + 1, a)
    ensures var j := i + 1 + |a|;
      j < |s| && s[j] == ':' && Closes(s[j..]) && NameEnds(s[j..]) && At(s, j + 1, rest)
  {
    var j := i + 1 + |a|;
    AtConcat(s, i, "{", a + (":" + rest));
    AtConcat(s, i + 1, a, ":" + rest);
    AtConcat(s, j, ":", rest);
    AtFirst(s, i, "{");
    AtFirst(s, j, ":");
  }

  /** One piece is read: what is pending then and what has been told make up what they were and the piece. */
  lemma PieceIsRead(o: Oracle, s: string, begin: nat, i: nat, log: seq<Atom>, piece: Piece)
    returns (b: nat, l: seq<Atom>)
    requires begin <= i && At(s, i, PieceText(piece)) && PieceFits(o, s, i, log + Chars(s[begin..i]), piece)
    ensures var j := i + |PieceText(piece)|;
      && b <= j && (!piece.Run? ==> b == j)
      && Parse(o, s, begin, i, log) == Parse(o, s, b, j, l)
      && l + Chars(s[b..j]) == log + Chars(s[begin..i]) + PieceAtoms(piece)
  {
    hide Parse, ReplacementField, ArgText, At, PieceFits;
    AtIs(s, i, PieceText(piece));
    var j, told := i + |PieceText(piece)|, log + Chars(s[begin..i]);
    match piece
    case Run(text) =>
      RunFits(o, s, i, told, text);
      RunIsRead(o, s, begin, i, j, log, text);
      b, l := begin, log;
    case Brace(c) =>
      BraceFits(o, s, i, told, c);
      BraceIsRead(o, s, begin, i, log, c);
      b, l := j, told + [Char(c)];
      NothingPending(l, s, j);
    case Place(arg) =>
      PlaceIsRead(o, s, i, told, arg);
      FieldOpens(o, s, begin, i, log, After(told + [Field(arg)], Some(j)));
      b, l := j, told + [Field(arg)];
      NothingPending(l, s, j);
    case PlaceWith(arg, spec) =>
      PlaceWithIsRead(o, s, i, told, arg, spec);
      FieldOpens(o, s, begin, i, log, After(told + [Specs(arg, spec)], Some(j)));
      b, l := j, told + [Specs(arg, spec)];
      NothingPending(l, s, j);
  }

  lemma RunFits(o: Oracle, s: string, i: nat, log: seq<Atom>, text: string)
    requires PieceFits(o, s, i, log, Run(text))
    ensures Bare(text)
  {
  }

  lemma BraceFits(o: Oracle, s: string, i: nat, log: seq<Atom>, c: char)
    requires PieceFits(o, s, i, log, Brace(c))
    ensures c == '{' || c == '}'
  {
  }

  lemma NothingPending(log: seq<Atom>, s: string, j: nat)
    requires j <= |s|
    ensures log + Chars(s[j..j]) == log
  {
  }

  lemma RunIsRead(o: Oracle, s: string, begin: nat, i: nat, j: nat, log: seq<Atom>, text: string)
    requires begin <= i && At(s, i, text) && Bare(text) && j == i + |text|
    ensures Parse(o, s, begin, i, log) == Parse(o, s, begin, j, log)
    ensures log + Chars(s[begin..j]) == log + Chars(s[begin..i]) + Chars(text)
  {
    AtFirst(s, i, text);
    assert forall k :: i <= k < j ==> s[k] == text[k - i] && text[k - i] in text;
    ParseSkips(o, s, begin, i, j, log);
    assert s[begin..j] == s[begin..i] + text;
    CharsConcat(s[begin..i], text);
  }

  lemma BraceIsRead(o: Oracle, s: string, begin: nat, i: nat, log: seq<Atom>, c: char)
    requires begin <= i && At(s, i, [c, c]) && (c == '{' || c == '}')
    ensures Parse(o, s, begin, i, log) == Parse(o, s, i + 2, i + 2, log + Chars(s[begin..i]) + [Char(c)])
  {
    hide Parse;
    AtFirst(s, i, [c, c]);
    if c == '{' {
      OpenPair(o, s, begin, i, log);
    } else {
      ClosePair(o, s, begin, i, log);
      assert s[begin..i + 1] == s[begin..i] + "}";
      CharsConcat(s[begin..i], "}");
      Regroup(log, Chars(s[begin..i]), Chars("}"));
      assert Chars("}") == [Char(c)];
    }
  }

  // ------------------------------------------------------------------ the first error

  /** At a defect the parse is over, with the text in front of it handed over, but for a lone closing brace. */
  lemma DefectIsRead(o: Oracle, s: string, begin: nat, i: nat, log: seq<Atom>, defect: Defect)
    requires begin <= i && At(s, i, DefectText(defect)) && i + |DefectText(defect)| == |s|
    requires DefectFits(o, s, i, log + Chars(s[begin..i]), defect) && (defect.LoneBrace? ==> begin == i)
    ensures Parse(o, s, begin, i, log) == log + Chars(s[begin..i]) + DefectAtoms(defect)
  {
    hide Parse, ReplacementField, DefectFits;
    var told := log + Chars(s[begin..i]);
    match defect
    case LoneBrace(text, rest) =>
      assert told == log;
      LoneBraceIsRead(o, s, i, log, text, rest);
    case _ =>
      FieldFails(o, s, i, told, defect);
      FieldOpens(o, s, begin, i, log, After(told + DefectAtoms(defect), None));
  }

  lemma LoneBraceIsRead(o: Oracle, s: string, i: nat, log: seq<Atom>, text: string, rest: string)
    requires At(s, i, text + ("}" + rest)) && i + |text| + 1 + |rest| == |s|
    requires DefectFits(o, s, i, log, LoneBrace(text, rest))
    ensures Parse(o, s, i, i, log) == log + [Error(UnmatchedBrace)]
  {
    var j := i + |text|;
    AtConcat(s, i, text, "}" + rest);
    AtConcat(s, j, "}", rest);
    AtFirst(s, j, "}");
    AtFirst(s, j + 1, rest);
    RunIsRead(o, s, i, i, j, log, text);
  }

  lemma FieldFails(o: Oracle, s: string, i: nat, log: seq<Atom>, defect: Defect)
    requires At(s, i, DefectText(defect)) && i + |DefectText(defect)| == |s|
    requires !defect.LoneBrace? && DefectFits(o, s, i, log, defect)
    ensures i < |s| && s[i] == '{' && ReplacementField(o, s, i, log) == After(log + DefectAtoms(defect), None)
  {
    hide ArgId, ArgFits, ArgText, DecimalText, ReplacementField;
    match defect
    case OpenAtEnd => NothingBehind(o, s, i, log);
    case NoArgument(rest) => NoArgumentFails(o, s, i, log, rest);
    case HugeIndex(digits, rest) => HugeIndexFails(o, s, i, log, digits, rest);
    case IndexGoesOn(n, rest) => IndexGoesOnFails(o, s, i, log, n, rest);
    case NameGoesOn(name, rest) => NameGoesOnFails(o, s, i, log, name, rest);
    case Refused(arg, rest) => RefusedFails(o, s, i, log, arg, rest);
    case RefusedSpecs(arg, rest) => RefusedSpecsFail(o, s, i, log, arg, rest);
    case SpecsGoOn(arg, spec, rest) => SpecsGoOnFail(o, s, i, log, arg, spec, rest);
  }

  lemma NothingBehind(o: Oracle, s: string, i: nat, log: seq<Atom>)
    requires At(s, i, "{") && i + 1 == |s|
    ensures s[i] == '{' && ReplacementField(o, s, i, log) == Fail(log, InvalidFormat)
  {
    AtFirst(s, i, "{");
  }

  /** The parts of a text behind an opening brace, up to the end of the string. */
  lemma BehindBrace(s: string, i: nat, a: string, b: string)
    requires At(s, i, "{" + (a + b)) && i + |"{" + (a + b)| == |s|
    ensures s[i] == '{' && At(s, i + 1, a) && s[i + 1 + |a|..] == b
    ensures b != "" ==> i + 1 + |a| < |s| && s[i + 1 + |a|] == b[0]
    ensures b == "" ==> i + 1 + |a| == |s|
  {
    AtFirst(s, i, "{" + (a + b));
    AtConcat(s, i, "{", a + b);
    AtConcat(s, i + 1, a, b);
    AtFirst(s, i + 1 + |a|, b);
  }

  lemma NoArgumentFails(o: Oracle, s: string, i: nat, log: seq<Atom>, rest: string)
    requires At(s, i, "{" + rest) && i + 1 + |rest| == |s| && DefectFits(o, s, i, log, NoArgument(rest))
    ensures s[i] == '{' && ReplacementField(o, s, i, log) == Fail(log, InvalidFormat)
  {
    AtFirst(s, i, "{" + rest);
    assert s[i + 1] == rest[0];
  }

  lemma HugeIndexFails(o: Oracle, s: string, i: nat, log: seq<Atom>, digits: string, rest: string)
    requires At(s, i, "{" + (digits + rest)) && i + |"{" + (digits + rest)| == |s|
    requires DefectFits(o, s, i, log, HugeIndex(digits, rest))
    ensures s[i] == '{' && ReplacementField(o, s, i, log) == Fail(log, NumberTooBig)
  {
    hide ArgId;
    BehindBrace(s, i, digits, rest);
    HugeIsRefused(s, i + 1, digits);
  }

  lemma IndexGoesOnFails(o: Oracle, s: string, i: nat, log: seq<Atom>, n: nat, rest: string)
    requires At(s, i, "{" + (DecimalText(n) + rest)) && i + |"{" + (DecimalText(n) + rest)| == |s|
    requires DefectFits(o, s, i, log, IndexGoesOn(n, rest))
    ensures s[i] == '{' && ReplacementField(o, s, i, log) == Fail(log, InvalidFormat)
  {
    hide ArgId, DecimalText;
    BehindBrace(s, i, DecimalText(n), rest);
    IndexIsNotClosed(s, i + 1, n);
  }

  lemma NameGoesOnFails(o: Oracle, s: string, i: nat, log: seq<Atom>, name: string, rest: string)
    requires At(s, i, "{" + (name + rest)) && i + |"{" + (name + rest)| == |s|
    requires DefectFits(o, s, i, log, NameGoesOn(name, rest))
    ensures s[i] == '{' && ReplacementField(o, s, i, log) == Fail(log, MissingBrace)
  {
    hide ArgId, IsName, NameEnds;
    BehindBrace(s, i, name, rest);
    NameIsRead(s, i + 1, name);
  }

  lemma RefusedFails(o: Oracle, s: string, i: nat, log: seq<Atom>, arg: ArgRef, rest: string)
    requires At(s, i, "{" + (ArgText(arg) + rest)) && i + |"{" + (ArgText(arg) + rest)| == |s|
    requires DefectFits(o, s, i, log, Refused(arg, rest))
    ensures s[i] == '{' && ReplacementField(o, s, i, log) == Fail(log, HandlerRefused)
  {
    hide ArgId, ArgText, ArgFits, ArgEnds;
    BehindBrace(s, i, ArgText(arg), rest);
    ArgIsRead(s, i + 1, arg);
  }

  lemma RefusedSpecsFail(o: Oracle, s: string, i: nat, log: seq<Atom>, arg: ArgRef, rest: string)
    requires At(s, i, "{" + (ArgText(arg) + (":" + rest))) && DefectFits(o, s, i, log, RefusedSpecs(arg, rest))
    ensures s[i] == '{' && ReplacementField(o, s, i, log) == Fail(log, HandlerRefused)
  {
    hide ArgId, ArgText, ArgFits;
    AtSpecs(s, i, ArgText(arg), rest);
    ArgIsRead(s, i + 1, arg);
  }

  lemma SpecGoesOn(s: string, i: nat, spec: string, rest: string)
    requires At(s, i, spec + rest) && i + |spec + rest| == |s|
    ensures var k := i + |spec|;
      k <= |s| && s[i..k] == spec && (if rest == "" then k == |s| else k < |s| && s[k] == rest[0])
  {
    AtConcat(s, i, spec, rest);
    AtFirst(s, i + |spec|, rest);
  }

  lemma SpecsGoOnFail(o: Oracle, s: string, i: nat, log: seq<Atom>, arg: ArgRef, spec: string, rest: string)
    requires At(s, i, "{" + (ArgText(arg) + (":" + (spec + rest))))
    requires i + |"{" + (ArgText(arg) + (":" + (spec + rest)))| == |s|
    requires DefectFits(o, s, i, log, SpecsGoOn(arg, spec, rest))
    ensures s[i] == '{' && ReplacementField(o, s, i, log) == Fail(log + [Specs(arg, spec)], UnknownSpecifier)
  {
    hide ArgId, ArgText, ArgFits, At, ReplacementField;
    var j := i + 1 + |ArgText(arg)|;
    AtSpecs(s, i, ArgText(arg), spec + rest);
    SpecGoesOn(s, j + 1, spec, rest);
    ArgIsRead(s, i + 1, arg);
    SpecsClose(o, s, i, log, j, arg, j + 1 + |spec|);
  }

  // ------------------------------------------------------------------ whole strings

  /** The handler is told what is written. */
  lemma {:induction false} ParseTellsPieces(o: Oracle, s: string, begin: nat, i: nat, log: seq<Atom>,
                                           pieces: seq<Piece>, defect: Option<Defect>)
    requires begin <= i <= |s| && s[i..] == Written(pieces, defect)
    requires AllFit(o, s, i, log + Chars(s[begin..i]), pieces, defect) && RunsTaken(pieces, defect)
    requires pieces == [] && defect.Some? && defect.value.LoneBrace? ==> begin == i
    ensures Parse(o, s, begin, i, log) == log + Chars(s[begin..i]) + Told(pieces, defect)
    decreases |pieces|
  {
    hide Parse, PieceFits, DefectFits, PieceText, DefectText, PieceAtoms, DefectAtoms;
    assert s[i..] == s[i..|s|];
    if pieces != [] {
      var text, rest := PieceText(pieces[0]), Written(pieces[1..], defect);
      AtConcat(s, i, text, rest);
      assert s[i + |text|..] == rest;
      var b, l := PieceIsRead(o, s, begin, i, log, pieces[0]);
      ParseTellsPieces(o, s, b, i + |text|, l, pieces[1..], defect);
      Regroup(log + Chars(s[begin..i]), PieceAtoms(pieces[0]), Told(pieces[1..], defect));
    } else if defect.Some? {
      DefectIsRead(o, s, begin, i, log, defect.value);
    } else {
      AtEnd(o, s, begin, log);
    }
  }

  lemma Regroup(a: seq<Atom>, b: seq<Atom>, c: seq<Atom>)
    ensures a + b + c == a + (b + c)
  {
  }

  /** In particular for a whole format string. */
  lemma FormatTellsPieces(o: Oracle, pieces: seq<Piece>, defect: Option<Defect>)
    requires AllFit(o, Written(pieces, defect), 0, [], pieces, defect) && RunsTaken(pieces, defect)
    ensures Parse(o, Written(pieces, defect), 0, 0, []) == Told(pieces, defect)
  {
    var s := Written(pieces, defect);
    assert s[0..] == s && [] + Chars(s[0..0]) == [];
    ParseTellsPieces(o, s, 0, 0, [], pieces, defect);
  }

  // ------------------------------------------------------------------ every string is written from pieces

  /** What has been read as an argument reference is written as one. */
  lemma ArgIsWritten(s: string, i: nat)
    requires i < |s| && ArgId(s, i).Done?
    ensures var j, arg := ArgId(s, i).next, ArgId(s, i).value;
      j <= |s| && s[i..j] == ArgText(arg) && ArgFits(arg) && ArgEnds(arg, s[j..])
  {
    var j, arg := ArgId(s, i).next, ArgId(s, i).value;
    if IsDigit(s[i]) {
      if s[i] == '0' {
        DecimalSpells(0);
        assert s[i..j] == "0";
      } else {
        assert s[i..j][0] == s[i];
        DigitsAreDecimal(s[i..j]);
      }
    } else if arg.Named? {
      NameEndStops(s, i + 1);
      forall k | 0 <= k < j - i ensures IsLetter(s[i..j][k]) || IsDigit(s[i..j][k]) {
        assert s[i..j][k] == s[i + k];
      }
    }
  }

  /** Why something is not an argument reference. */
  lemma NotAnArgument(o: Oracle, s: string, i: nat, log: seq<Atom>) returns (defect: Defect)
    requires i + 1 < |s| && s[i] == '{' && s[i + 1] != '{' && ArgId(s, i + 1).Failed?
    ensures DefectText(defect) == s[i..] && DefectFits(o, s, i, log, defect) && !defect.LoneBrace?
  {
    var c := s[i + 1];
    if IsDigit(c) {
      defect := NotAnIndex(o, s, i, log);
    } else {
      defect := NoArgument(s[i + 1..]);
      assert s[i..] == "{" + s[i + 1..];
    }
  }

  lemma NotAnIndex(o: Oracle, s: string, i: nat, log: seq<Atom>) returns (defect: Defect)
    requires i + 1 < |s| && s[i] == '{' && IsDigit(s[i + 1]) && ArgId(s, i + 1).Failed?
    ensures DefectText(defect) == s[i..] && DefectFits(o, s, i, log, defect) && !defect.LoneBrace?
  {
    hide Spelled, DecimalText, DigitsEnd;
    var j := if s[i + 1] == '0' then i + 2 else DigitsEnd(s, i + 1);
    var digits, rest := s[i + 1..j], s[j..];
    BehindOpening(s, i, j);
    if s[i + 1] == '0' {
      DecimalSpells(0);
      defect := IndexGoesOn(0, rest);
    } else {
      DigitsAreDecimal(digits);
      defect := if Spelled(digits) >= 0x8000_0000 then HugeIndex(digits, rest)
                else IndexGoesOn(Spelled(digits), rest);
    }
  }

  lemma BehindOpening(s: string, i: nat, j: nat)
    requires i + 1 < j <= |s| && s[i] == '{'
    ensures s[i..] == "{" + (s[i + 1..j] + s[j..]) && s[i + 1..j][0] == s[i + 1]
    ensures j == i + 2 ==> s[i + 1..j] == [s[i + 1]]
  {
  }

  /** What stands at the next position. */
  datatype Found = FoundPiece(piece: Piece) | FoundDefect(defect: Defect)

  predicate IsThere(o: Oracle, s: string, i: nat, log: seq<Atom>, found: Found)
    requires i <= |s|
  {
    match found
    case FoundPiece(piece) => piece != Run("") && At(s, i, PieceText(piece)) && PieceFits(o, s, i, log, piece)
    case FoundDefect(defect) => s[i..] == DefectText(defect) && DefectFits(o, s, i, log, defect)
  }

  lemma SomeField(o: Oracle, s: string, i: nat, log: seq<Atom>) returns (found: Found)
    requires i < |s| && s[i] == '{'
    ensures IsThere(o, s, i, log, found)
    ensures found != FoundPiece(Run("")) && (found.FoundPiece? ==> !found.piece.Run?)
    ensures found.FoundDefect? ==> !found.defect.LoneBrace?
  {
    if i + 1 == |s| {
      found := FoundDefect(OpenAtEnd);
      assert s[i..] == "{";
    } else if s[i + 1] == '{' {
      found := FoundPiece(Brace('{'));
      assert s[i..i + 2] == "{{";
    } else if ArgId(s, i + 1).Failed? {
      var defect := NotAnArgument(o, s, i, log);
      found := FoundDefect(defect);
    } else {
      found := SomePlace(o, s, i, log, ArgId(s, i + 1).next, ArgId(s, i + 1).value);
    }
  }

  lemma SomePlace(o: Oracle, s: string, i: nat, log: seq<Atom>, j: nat, arg: ArgRef) returns (found: Found)
    requires i + 1 < |s| && s[i] == '{' && ArgId(s, i + 1) == Done(j, arg)
    ensures IsThere(o, s, i, log, found)
    ensures found.FoundPiece? ==> !found.piece.Run?
    ensures found.FoundDefect? ==> !found.defect.LoneBrace?
  {
    hide ArgId, ArgText, ArgFits;
    ArgIsWritten(s, i + 1);
    var rest := s[j..];
    assert s[i..] == "{" + (ArgText(arg) + rest);
    if !o.takes(log, arg) {
      found := FoundDefect(Refused(arg, rest));
    } else if j == |s| || (s[j] != '}' && s[j] != ':') {
      found := FoundDefect(NameGoesOn(arg.name, rest));
      ArgTextOfName(arg);
    } else if s[j] == '}' {
      found := FoundPiece(Place(arg));
      assert s[i..j + 1] == "{" + (ArgText(arg) + "}");
    } else {
      found := SomeSpecs(o, s, i, log, j, arg);
    }
  }

  lemma ArgTextOfName(arg: ArgRef)
    requires arg.Named? && ArgFits(arg)
    ensures ArgText(arg) == arg.name && IsName(arg.name)
  {
  }

  lemma BehindColon(s: string, i: nat, j: nat, k: nat, a: string)
    requires i + 1 <= j < k <= |s| && s[i] == '{' && s[i + 1..j] == a && s[j] == ':'
    ensures s[i..] == "{" + (a + (":" + (s[j + 1..k] + s[k..])))
    ensures k < |s| && s[k] == '}' ==> s[i..k + 1] == "{" + (a + (":" + (s[j + 1..k] + "}")))
  {
  }

  lemma SomeSpecs(o: Oracle, s: string, i: nat, log: seq<Atom>, j: nat, arg: ArgRef) returns (found: Found)
    requires i + 1 <= j < |s| && s[i] == '{' && s[i + 1..j] == ArgText(arg) && s[j] == ':'
    requires ArgFits(arg) && o.takes(log, arg)
    ensures IsThere(o, s, i, log, found)
    ensures found.FoundPiece? ==> !found.piece.Run?
    ensures found.FoundDefect? ==> !found.defect.LoneBrace?
  {
    hide ArgText, ArgFits, IsThere;
    var end := o.specsEnd(log, arg, s, j + 1);
    if end == None || end.value < j + 1 || end.value > |s| {
      found := FoundDefect(RefusedSpecs(arg, s[j + 1..]));
      RefusedSpecsThere(o, s, i, log, j, arg);
    } else {
      var k := end.value;
      var spec := s[j + 1..k];
      if k < |s| && s[k] == '}' {
        found := FoundPiece(PlaceWith(arg, spec));
        PlaceWithThere(o, s, i, log, j, arg, k);
      } else {
        found := FoundDefect(SpecsGoOn(arg, spec, s[k..]));
        SpecsGoOnThere(o, s, i, log, j, arg, k);
      }
    }
  }

  lemma RefusedSpecsThere(o: Oracle, s: string, i: nat, log: seq<Atom>, j: nat, arg: ArgRef)
    requires i + 1 <= j < |s| && s[i] == '{' && s[i + 1..j] == ArgText(arg) && s[j] == ':'
    requires ArgFits(arg) && o.takes(log, arg)
    requires match o.specsEnd(log, arg, s, j + 1) case None => true case Some(k) => !(j + 1 <= k <= |s|)
    ensures IsThere(o, s, i, log, FoundDefect(RefusedSpecs(arg, s[j + 1..])))
  {
    hide ArgText, ArgFits;
    ColonBehind(s, i, j, ArgText(arg));
  }

  lemma PlaceWithThere(o: Oracle, s: string, i: nat, log: seq<Atom>, j: nat, arg: ArgRef, k: nat)
    requires i + 1 <= j < k < |s| && s[i] == '{' && s[i + 1..j] == ArgText(arg) && s[j] == ':' && s[k] == '}'
    requires ArgFits(arg) && o.takes(log, arg) && o.specsEnd(log, arg, s, j + 1) == Some(k)
    ensures IsThere(o, s, i, log, FoundPiece(PlaceWith(arg, s[j + 1..k])))
  {
    hide ArgText, ArgFits;
    BehindColon(s, i, j, k, ArgText(arg));
  }

  lemma SpecsGoOnThere(o: Oracle, s: string, i: nat, log: seq<Atom>, j: nat, arg: ArgRef, k: nat)
    requires i + 1 <= j < k <= |s| && s[i] == '{' && s[i + 1..j] == ArgText(arg) && s[j] == ':'
    requires k < |s| ==> s[k] != '}'
    requires ArgFits(arg) && o.takes(log, arg) && o.specsEnd(log, arg, s, j + 1) == Some(k)
    ensures IsThere(o, s, i, log, FoundDefect(SpecsGoOn(arg, s[j + 1..k], s[k..])))
  {
    hide ArgText, ArgFits;
    BehindColon(s, i, j, k, ArgText(arg));
  }

  lemma ColonBehind(s: string, i: nat, j: nat, a: string)
    requires i + 1 <= j < |s| && s[i] == '{' && s[i + 1..j] == a && s[j] == ':'
    ensures s[i..] == "{" + (a + (":" + s[j + 1..]))
  {
  }

  /** How far text without braces goes. */
  lemma {:induction false} RunEnd(s: string, i: nat) returns (j: nat)
    requires i <= |s|
    ensures i <= j <= |s| && Bare(s[i..j]) && (j < |s| ==> s[j] == '{' || s[j] == '}')
    decreases |s| - i
  {
    j := i;
    if i < |s| && s[i] != '{' && s[i] != '}' {
      j := RunEnd(s, i + 1);
      assert s[i..j] == [s[i]] + s[i + 1..j];
    }
  }

  /** A closing brace that is not doubled. */
  predicate LoneAt(s: string, j: nat) {
    j < |s| && s[j] == '}' && (j + 1 == |s| || s[j + 1] != '}')
  }

  lemma SomeText(o: Oracle, s: string, i: nat, log: seq<Atom>) returns (found: Found)
    requires i < |s| && s[i] != '{'
    ensures IsThere(o, s, i, log, found)
    ensures found.FoundPiece? && found.piece.Run? ==>
      var j := i + |PieceText(found.piece)|; j == |s| || s[j] == '{' || (s[j] == '}' && !LoneAt(s, j))
    ensures found.FoundDefect? && s[i] == '}' ==> LoneAt(s, i)
  {
    var j := RunEnd(s, i);
    if LoneAt(s, j) {
      found := FoundDefect(LoneBrace(s[i..j], s[j + 1..]));
      assert s[i..] == s[i..j] + ("}" + s[j + 1..]);
    } else if j > i {
      found := FoundPiece(Run(s[i..j]));
    } else {
      found := FoundPiece(Brace('}'));
      assert s[i..i + 2] == "}}";
    }
  }

  /** Every format string is written from pieces, up to its first defect if it has one. */
  lemma {:induction false} EveryFormatIsWritten(o: Oracle, s: string, i: nat, log: seq<Atom>)
    returns (pieces: seq<Piece>, defect: Option<Defect>)
    requires i <= |s|
    ensures s[i..] == Written(pieces, defect)
    ensures AllFit(o, s, i, log, pieces, defect) && RunsTaken(pieces, defect)
    ensures pieces == [] && defect.Some? && defect.value.LoneBrace? ==>
      i < |s| && s[i] != '{' && (s[i] == '}' ==> LoneAt(s, i))
    decreases |s| - i
  {
    hide PieceText, AllFit, Written, IsThere;
    if i == |s| {
      pieces, defect := [], None;
      NothingThere(o, s, log);
    } else {
      var found := SomethingThere(o, s, i, log);
      match found
      case FoundDefect(d) =>
        pieces, defect := [], Some(d);
        OnlyDefect(o, s, i, log, d);
      case FoundPiece(piece) =>
        var j := BehindPiece(o, s, i, log, piece);
        pieces, defect := EveryFormatIsWritten(o, s, j, log + PieceAtoms(piece));
        OneMorePiece(o, s, i, log, piece, pieces, defect);
        pieces := [piece] + pieces;
    }
  }

  lemma NothingThere(o: Oracle, s: string, log: seq<Atom>)
    ensures s[|s|..] == Written([], None) && AllFit(o, s, |s|, log, [], None)
  {
  }

  lemma OnlyDefect(o: Oracle, s: string, i: nat, log: seq<Atom>, defect: Defect)
    requires i <= |s| && IsThere(o, s, i, log, FoundDefect(defect))
    ensures s[i..] == Written([], Some(defect)) && AllFit(o, s, i, log, [], Some(defect))
  {
  }

  lemma BehindPiece(o: Oracle, s: string, i: nat, log: seq<Atom>, piece: Piece) returns (j: nat)
    requires i <= |s| && IsThere(o, s, i, log, FoundPiece(piece))
    ensures i < j <= |s| && j == i + |PieceText(piece)| && s[i..] == PieceText(piece) + s[j..]
  {
    hide PieceFits;
    AtIs(s, i, PieceText(piece));
    j := i + |PieceText(piece)|;
  }

  lemma OneMorePiece(o: Oracle, s: string, i: nat, log: seq<Atom>, piece: Piece, pieces: seq<Piece>,
                     defect: Option<Defect>)
    requires i <= |s| && IsThere(o, s, i, log, FoundPiece(piece))
    requires var j := i + |PieceText(piece)|;
      && j <= |s| && s[i..] == PieceText(piece) + s[j..] && s[j..] == Written(pieces, defect)
      && AllFit(o, s, j, log + PieceAtoms(piece), pieces, defect)
    requires RunsTaken(pieces, defect)
    requires piece.Run? && pieces == [] ==> defect == None || !defect.value.LoneBrace?
    ensures s[i..] == Written([piece] + pieces, defect) && AllFit(o, s, i, log, [piece] + pieces, defect)
    ensures RunsTaken([piece] + pieces, defect)
  {
    hide PieceFits, DefectFits, At;
    var all := [piece] + pieces;
    assert all[0] == piece && all[1..] == pieces;
  }

  lemma SomethingThere(o: Oracle, s: string, i: nat, log: seq<Atom>) returns (found: Found)
    requires i < |s|
    ensures IsThere(o, s, i, log, found)
    ensures found.FoundPiece? && found.piece.Run? ==>
      var j := i + |PieceText(found.piece)|; j == |s| || s[j] == '{' || (s[j] == '}' && !LoneAt(s, j))
    ensures found.FoundDefect? && found.defect.LoneBrace? ==> s[i] != '{' && (s[i] == '}' ==> LoneAt(s, i))
  {
    hide IsThere;
    if s[i] == '{' {
      found := SomeField(o, s, i, log);
    } else {
      found := SomeText(o, s, i, log);
    }
  }

  /** A string is parsed without an error exactly if it is written from pieces alone. */
  lemma CleanIsWritten(o: Oracle, s: string)
    ensures Clean(Parse(o, s, 0, 0, [])) <==>
            exists pieces :: s == Written(pieces, None) && AllFit(o, s, 0, [], pieces, None)
  {
    var pieces, defect := EveryFormatIsWritten(o, s, 0, []);
    assert s[0..] == s;
    FormatTellsPieces(o, pieces, defect);
    ToldIsClean(pieces, defect);
    forall other | s == Written(other, None) && AllFit(o, s, 0, [], other, None) ensures Clean(Parse(o, s, 0, 0, [])) {
      FormatTellsPieces(o, other, None);
      ToldIsClean(other, None);
    }
  }

  lemma {:induction false} ToldIsClean(pieces: seq<Piece>, defect: Option<Defect>)
    ensures Clean(Told(pieces, defect)) <==> defect == None
  {
    if pieces != [] {
      ToldIsClean(pieces[1..], defect);
      var a, b := PieceAtoms(pieces[0]), Told(pieces[1..], defect);
      assert Clean(a);
      assert forall k :: 0 <= k < |b| ==> (a + b)[|a| + k] == b[k];
    } else if defect.Some? {
      var atoms := DefectAtoms(defect.value);
      assert atoms[|atoms| - 1].Error?;
    }
  }
}
