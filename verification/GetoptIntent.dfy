/**
  Command lines written down from what is meant by them, and the proof that getopt_long understands exactly that. Every
  argument vector is such a command line.
  */
module GetoptIntent {
  import opened GetoptModel
  import opened GetoptSpec
  import opened Wrappers

  // ------------------------------------------------------------------ what is meant

  /** The argument of an option: none, in the same word, in the next word, or wanted behind the last word. */
  datatype Value = Bare | Joined(v: string) | Apart(v: string) | Lacking

  /** How an option word goes on behind its flags. */
  datatype Last =
    | NoMore
    | Short(c: char, value: Value)
    | Long(name: string, index: nat, value: Value)
    | Unknown(name: string, joined: Option<string>)

  /** A word that is no option; "-" and flags and what follows them; "-" as an option of its own. */
  datatype Item = Plain(word: string) | Options(flags: string, last: Last) | Dash(value: Value)

  function ItemValue(item: Item): Value {
    match item
    case Plain(_) => Bare
    case Options(_, NoMore) => Bare
    case Options(_, Short(_, value)) => value
    case Options(_, Long(_, _, value)) => value
    case Options(_, Unknown(_, _)) => Bare
    case Dash(value) => value
  }

  // ------------------------------------------------------------------ how it is written

  function LastText(last: Last): string {
    match last
    case NoMore => ""
    case Short(c, Joined(v)) => [c] + v
    case Short(c, _) => [c]
    case Long(name, _, Joined(v)) => "-" + (name + "=" + v)
    case Long(name, _, _) => "-" + name
    case Unknown(name, Some(v)) => "-" + (name + "=" + v)
    case Unknown(name, None) => "-" + name
  }

  function ItemWords(item: Item): (words: seq<string>)
    ensures 1 <= |words| <= 2
  {
    var word := match item
      case Plain(w) => w
      case Options(flags, last) => "-" + (flags + LastText(last))
      case Dash(_) => "-";
    [word] + match ItemValue(item) case Apart(v) => [v] case _ => []
  }

  function Written(items: seq<Item>, tail: Option<seq<string>>): seq<string> {
    if items == [] then if tail.Some? then ["--"] + tail.value else []
    else ItemWords(items[0]) + Written(items[1..], tail)
  }

  // ------------------------------------------------------------------ what an option table has

  predicate ColonsAt(options: string, k: nat, colons: nat) {
    match colons
    case 0 => k >= |options| || options[k] != ':'
    case 1 => k < |options| && options[k] == ':' && (k + 1 == |options| || options[k + 1] != ':')
    case _ => k + 1 < |options| && options[k] == ':' && options[k + 1] == ':'
  }

  /** The option string has c, with that many colons behind its first place: one for an argument, two if optional. */
  ghost predicate Declared(options: string, c: char, colons: nat) {
    exists k :: 0 <= k < |options| && options[k] == c && c !in options[..k] && ColonsAt(options, k + 1, colons)
  }

  predicate Alike(a: LongOption, b: LongOption) {
    a.hasArg == b.hasArg && a.flag == b.flag && a.val == b.val
  }

  /** The name is that of entry i, the first of that name, or it abbreviates i and others only if they mean the same. */
  ghost predicate Answers(longs: seq<LongOption>, name: string, i: nat) {
    && i < |longs|
    && (|| (longs[i].name == name && forall j :: 0 <= j < i ==> longs[j].name != name)
        || (&& name <= longs[i].name
            && forall j :: 0 <= j < |longs| && name <= longs[j].name ==>
                 longs[j].name != name && Alike(longs[i], longs[j])))
  }

  /** The name is none, and it abbreviates no entry or some that do not mean the same. */
  ghost predicate NoAnswer(longs: seq<LongOption>, name: string) {
    && (forall j :: 0 <= j < |longs| ==> longs[j].name != name)
    && (|| (forall j :: 0 <= j < |longs| ==> !(name <= longs[j].name))
        || exists i, j :: 0 <= i < j < |longs| && name <= longs[i].name && name <= longs[j].name &&
                          !Alike(longs[i], longs[j]))
  }

  // ------------------------------------------------------------------ what can be meant, and what is to come of it

  /** A character that stands for itself in a word: an option without argument, or none at all. */
  ghost predicate FlagFits(t: Table, c: char) {
    c != '-' && (c == ':' || c !in t.options || Declared(t.options, c, 0))
  }

  ghost predicate ShortFits(t: Table, c: char, value: Value) {
    match value
    case Bare => Declared(t.options, c, 2)
    case Joined(v) => v != "" && (Declared(t.options, c, 1) || Declared(t.options, c, 2))
    case Apart(_) => Declared(t.options, c, 1)
    case Lacking => Declared(t.options, c, 1)
  }

  ghost predicate LastFits(t: Table, last: Last) {
    match last
    case NoMore => true
    case Short(c, value) => c != '-' && c != ':' && ShortFits(t, c, value)
    case Long(name, i, value) =>
      && '=' !in name && Answers(t.longs, name, i)
      && (match value
          case Bare => t.longs[i].hasArg != 1
          case Joined(_) => true
          case Apart(_) => t.longs[i].hasArg == 1
          case Lacking => t.longs[i].hasArg == 1)
    case Unknown(name, _) => '=' !in name && NoAnswer(t.longs, name)
  }

  ghost predicate Fits(t: Table, item: Item) {
    match item
    case Plain(w) => Undashed(t, w)
    case Options(flags, last) =>
      && flags + LastText(last) != "" && flags + LastText(last) != "-"
      && (forall c :: c in flags ==> FlagFits(t, c)) && LastFits(t, last)
    case Dash(value) =>
      match value
      case Bare => Declared(t.options, '-', 0) || Declared(t.options, '-', 2)
      case Joined(_) => false
      case Apart(_) => Declared(t.options, '-', 1)
      case Lacking => Declared(t.options, '-', 1)
  }

  /** An argument can only be lacking at the very end. */
  ghost predicate AllFit(t: Table, items: seq<Item>, tail: Option<seq<string>>) {
    && (forall i :: 0 <= i < |items| ==> Fits(t, items[i]))
    && (forall i :: 0 <= i < |items| && ItemValue(items[i]) == Lacking ==> i == |items| - 1 && tail == None)
  }

  /** The complaint about an argument that is lacking or not wanted. */
  function Complaint(t: Table): Event {
    Event(if t.options != "" && t.options[0] == ':' then ':' as int else '?' as int, None)
  }

  function FlagEvent(t: Table, c: char): Event {
    Event(if c == ':' || c !in t.options then '?' as int else c as int, None)
  }

  function FlagEvents(t: Table, flags: string): seq<Event> {
    if flags == "" then [] else [FlagEvent(t, flags[0])] + FlagEvents(t, flags[1..])
  }

  function ShortEvent(t: Table, c: char, value: Value): Event {
    match value
    case Bare => Event(c as int, None)
    case Joined(v) => Event(c as int, Some(v))
    case Apart(v) => Event(c as int, Some(v))
    case Lacking => Complaint(t)
  }

  function LongEvent(t: Table, o: LongOption, value: Value): Event {
    var code := if o.flag.Some? then 0 else o.val;
    match value
    case Bare => Event(code, None)
    case Joined(v) =>
      if o.hasArg == 0 then Complaint(t) else Event(code, if o.hasArg == 1 || o.hasArg == 2 then Some(v) else None)
    case Apart(v) => Event(code, Some(v))
    case Lacking => Complaint(t)
  }

  function LastEvents(t: Table, last: Last): seq<Event> {
    match last
    case NoMore => []
    case Short(c, value) => [ShortEvent(t, c, value)]
    case Long(_, i, value) => if i < |t.longs| then [LongEvent(t, t.longs[i], value)] else []
    case Unknown(_, _) => [Event('?' as int, None)]
  }

  function ItemEvents(t: Table, item: Item): seq<Event> {
    match item
    case Plain(_) => []
    case Options(flags, last) => FlagEvents(t, flags) + LastEvents(t, last)
    case Dash(value) => [ShortEvent(t, '-', value)]
  }

  /** Options and their arguments in front, then plain words, then what follows "--"; an event for every option. */
  function Meant(t: Table, items: seq<Item>, tail: Option<seq<string>>): Parsed {
    if items == [] then
      if tail.Some? then Parsed(["--"], [], tail.value, []) else Parsed([], [], [], [])
    else WithItem(t, items[0], Meant(t, items[1..], tail))
  }

  function WithItem(t: Table, item: Item, rest: Parsed): Parsed {
    if item.Plain? then Parsed(rest.opts, [item.word] + rest.nonopts, rest.rest, rest.events)
    else Parsed(ItemWords(item) + rest.opts, rest.nonopts, rest.rest, ItemEvents(t, item) + rest.events)
  }

  // ------------------------------------------------------------------ short options

  /** What can follow a word with that value. */
  predicate Follows(value: Value, next: Option<string>) {
    (value.Apart? ==> next == Some(value.v)) && (value == Lacking ==> next == None)
  }

  lemma FirstIndexIs(s: string, c: char, k: nat)
    requires k <= |s| && c !in s[..k] && (k < |s| ==> s[k] == c)
    ensures FirstIndex(s, c) == k
  {
    var i := FirstIndex(s, c);
    assert forall j :: 0 <= j < k ==> s[..k][j] != c;
    assert forall j :: 0 <= j < i ==> s[..i][j] != c;
  }

  lemma DeclaredMeans(t: Table, c: char, colons: nat)
    requires Declared(t.options, c, colons) && colons <= 2
    ensures c in t.options && (t.TakesArgument(c) <==> colons > 0)
    ensures colons > 0 ==> (t.ArgumentOptional(c) <==> colons == 2)
  {
    hide FirstIndex, ColonsAt;
    var k :| 0 <= k < |t.options| && t.options[k] == c && c !in t.options[..k] && ColonsAt(t.options, k + 1, colons);
    FirstIndexIs(t.options, c, k);
    ColonsMean(t, k, colons);
  }

  lemma ColonsMean(t: Table, k: nat, colons: nat)
    requires k < |t.options| && ColonsAt(t.options, k + 1, colons) && colons <= 2
    ensures t.ColonAt(k + 1) <==> colons > 0
    ensures colons > 0 ==> (t.ColonAt(k + 2) <==> colons == 2)
  {
  }

  lemma SomehowDeclared(t: Table, c: char) returns (colons: nat)
    requires c in t.options
    ensures colons <= 2 && Declared(t.options, c, colons)
  {
    var k := FirstIndex(t.options, c);
    assert t.options[..|t.options|] == t.options;
    colons := if !t.ColonAt(k + 1) then 0 else if !t.ColonAt(k + 2) then 1 else 2;
    assert ColonsAt(t.options, k + 1, colons);
  }

  /** How many colons there can be behind an option that has its argument in that way, or none. */
  predicate Takes(value: Value, colons: nat) {
    match value
    case Bare => colons == 0 || colons == 2
    case Joined(v) => v != "" && (colons == 1 || colons == 2)
    case Apart(_) => colons == 1
    case Lacking => colons == 1
  }

  /** A word, or what is left of it, that comes to its end with a short option. */
  lemma ShortStep(t: Table, c: char, value: Value, colons: nat, behind: bool, next: Option<string>)
    requires c != ':' && (c == '-' ==> !behind && !value.Joined?)
    requires Declared(t.options, c, colons) && Takes(value, colons) && Follows(value, next)
    ensures t.WordStep(LastText(Short(c, value)), behind, next) ==
            Step(ShortEvent(t, c, value), "", if value.Apart? then 2 else 1)
  {
    hide Declared;
    var p := LastText(Short(c, value));
    assert p[0] == c && p[1..] == if value.Joined? then value.v else "";
    DeclaredMeans(t, c, colons);
  }

  // ------------------------------------------------------------------ long options

  /** An entry that answers to a name means the same as the one found. */
  lemma AnswerIsFound(t: Table, name: string, i: nat)
    requires Answers(t.longs, name, i)
    ensures var m := t.Lookup(name); m.Found? && m.index < |t.longs| && Alike(t.longs[m.index], t.longs[i])
  {
    hide Table.Search;
    LookupIsMatch(t, name);
    assert t.PrefixMatch(name, i);
    assert t.ExactMatch(name, i) <==> t.longs[i].name == name;
    if t.longs[i].name != name {
      forall j | 0 <= j < |t.longs| && t.PrefixMatch(name, j)
        ensures !t.ExactMatch(name, j) && t.Identical(i, j)
      {
        assert Alike(t.longs[i], t.longs[j]);
      }
    }
  }

  lemma NoAnswerIsFound(t: Table, name: string)
    requires NoAnswer(t.longs, name)
    ensures !t.Lookup(name).Found?
  {
    hide Table.Search;
    LookupIsMatch(t, name);
    if i, j :| 0 <= i < j < |t.longs| && name <= t.longs[i].name && name <= t.longs[j].name &&
               !Alike(t.longs[i], t.longs[j]) {
      assert t.PrefixMatch(name, i) && t.PrefixMatch(name, j) && !t.Identical(i, j);
    }
  }

  lemma AnswersOrNot(t: Table, name: string) returns (answer: Option<nat>)
    ensures if answer.Some? then Answers(t.longs, name, answer.value) else NoAnswer(t.longs, name)
  {
    var m := t.Lookup(name);
    LookupIsMatch(t, name);
    forall j | 0 <= j < |t.longs|
      ensures t.PrefixMatch(name, j) <==> name <= t.longs[j].name
      ensures t.ExactMatch(name, j) <==> name == t.longs[j].name
    {
    }
    match m
    case Found(i) =>
      answer := Some(i);
      assert i < |t.longs|;
      if t.longs[i].name != name {
        forall j | 0 <= j < |t.longs| && name <= t.longs[j].name
          ensures t.longs[j].name != name && Alike(t.longs[i], t.longs[j])
        {
          assert t.PrefixMatch(name, j);
        }
      }
    case NotFound => answer := None;
    case Ambiguous =>
      answer := None;
      var a, b :| 0 <= a < b < |t.longs| && t.PrefixMatch(name, a) && t.PrefixMatch(name, b) && !t.Identical(a, b);
      assert !Alike(t.longs[a], t.longs[b]);
  }

  /** What is behind the dash of a long option, taken apart at its first "=". */
  lemma NameAndValue(name: string, value: string)
    requires '=' !in name
    ensures var s := name + "=" + value;
      FirstIndex(s, '=') == |name| && s[..|name|] == name && s[|name| + 1..] == value
    ensures FirstIndex(name, '=') == |name| && name[..|name|] == name
  {
    var s := name + "=" + value;
    assert s[..|name|] == name;
    FirstIndexIs(s, '=', |name|);
    FirstIndexIs(name, '=', |name|);
  }

  lemma LongStepIs(t: Table, name: string, i: nat, value: Value, next: Option<string>)
    requires LastFits(t, Long(name, i, value)) && Follows(value, next)
    ensures t.LongStep(if value.Joined? then name + "=" + value.v else name, next) ==
            Step(LongEvent(t, t.longs[i], value), "", if value.Apart? then 2 else 1)
  {
    hide Table.Lookup, FirstIndex, Answers;
    NameAndValue(name, if value.Joined? then value.v else "");
    AnswerIsFound(t, name, i);
  }

  lemma UnknownStep(t: Table, name: string, joined: Option<string>, next: Option<string>)
    requires LastFits(t, Unknown(name, joined))
    ensures t.LongStep(if joined.Some? then name + "=" + joined.value else name, next) ==
            Step(Event('?' as int, None), "", 1)
  {
    NameAndValue(name, if joined.Some? then joined.value else "");
    NoAnswerIsFound(t, name);
  }

  // ------------------------------------------------------------------ whole words

  function LastValue(last: Last): Value {
    ItemValue(Options("", last))
  }

  lemma LastStep(t: Table, last: Last, next: Option<string>)
    requires LastFits(t, last) && last != NoMore && Follows(LastValue(last), next)
    ensures LastText(last) != "" && |LastEvents(t, last)| == 1
    ensures t.WordStep(LastText(last), true, next) ==
            Step(LastEvents(t, last)[0], "", if LastValue(last).Apart? then 2 else 1)
  {
    match last
    case Short(c, value) =>
      ShortStep(t, c, value, if value == Bare || !Declared(t.options, c, 1) then 2 else 1, true, next);
    case Long(name, i, value) =>
      LongStepIs(t, name, i, value, next);
      assert LastText(last)[1..] == if value.Joined? then name + "=" + value.v else name;
    case Unknown(name, joined) =>
      UnknownStep(t, name, joined, next);
      assert LastText(last)[1..] == if joined.Some? then name + "=" + joined.value else name;
  }

  lemma FlagStep(t: Table, c: char, rest: string, next: Option<string>)
    requires FlagFits(t, c)
    ensures t.WordStep([c] + rest, true, next) == Step(FlagEvent(t, c), rest, if rest == "" then 1 else 0)
  {
    assert ([c] + rest)[1..] == rest;
    if c != ':' && c in t.options {
      DeclaredMeans(t, c, 0);
    }
  }

  /** An option word is taken apart into its flags and what follows them. */
  lemma {:induction false} WordUnderstood(t: Table, flags: string, last: Last, next: Option<string>)
    requires flags + LastText(last) != "" && (forall c :: c in flags ==> FlagFits(t, c))
    requires LastFits(t, last) && Follows(LastValue(last), next)
    ensures t.Words(flags + LastText(last), true, next) == if LastValue(last).Apart? then 2 else 1
    ensures t.Events(flags + LastText(last), true, next) == FlagEvents(t, flags) + LastEvents(t, last)
    decreases |flags|
  {
    hide Table.WordStep, Table.Words, Table.Events, LastFits, FlagFits, LastText, LastEvents, FlagEvent;
    NoMoreText(t, last);
    var p := flags + LastText(last);
    if flags == "" {
      assert p == LastText(last);
      LastStep(t, last, next);
      WordEnds(t, p, next, LastEvents(t, last)[0], if LastValue(last).Apart? then 2 else 1);
    } else {
      var rest := flags[1..] + LastText(last);
      assert p == [flags[0]] + rest;
      FlagStep(t, flags[0], rest, next);
      if rest == "" {
        assert flags[1..] == "";
        WordEnds(t, p, next, FlagEvent(t, flags[0]), 1);
      } else {
        WordUnderstood(t, flags[1..], last, next);
        WordGoesOn(t, p, next, FlagEvent(t, flags[0]), rest);
      }
    }
  }

  lemma NoMoreText(t: Table, last: Last)
    ensures LastText(last) == "" <==> last == NoMore
    ensures last == NoMore ==> LastEvents(t, last) == [] && LastValue(last) == Bare
  {
  }

  lemma WordEnds(t: Table, p: string, next: Option<string>, e: Event, words: nat)
    requires p != "" && t.WordStep(p, true, next) == Step(e, "", words) && words > 0
    ensures t.Words(p, true, next) == words && t.Events(p, true, next) == [e]
  {
    hide Table.WordStep;
  }

  lemma WordGoesOn(t: Table, p: string, next: Option<string>, e: Event, rest: string)
    requires p != "" && rest != "" && t.WordStep(p, true, next) == Step(e, rest, 0)
    ensures t.Words(p, true, next) == t.Words(rest, true, next)
    ensures t.Events(p, true, next) == [e] + t.Events(rest, true, next)
  {
    hide Table.WordStep;
  }

  // ------------------------------------------------------------------ whole command lines

  lemma HeadOf(argv: seq<string>, k: nat, words: seq<string>, rest: seq<string>)
    requires k <= |argv| && argv[k..] == words + rest && words != []
    ensures |argv| == k + |words| + |rest| && argv[k] == words[0]
    ensures argv[k..k + |words|] == words && argv[k + |words|..] == rest
    ensures |words| == 2 ==> argv[k + 1] == words[1]
  {
    assert argv[k..][0] == argv[k];
    assert |words| == 2 ==> argv[k..][1] == argv[k + 1];
  }

  lemma PlainAtBoundary(t: Table, argv: seq<string>, k: nat, w: string, rest: seq<string>)
    requires k <= |argv| && argv[k..] == ItemWords(Plain(w)) + rest && Fits(t, Plain(w))
    ensures k + 1 <= |argv|
    ensures t.Remaining(argv, k, "") == WithItem(t, Plain(w), t.Remaining(argv, k + 1, ""))
  {
    HeadOf(argv, k, ItemWords(Plain(w)), rest);
  }

  lemma EndAtBoundary(t: Table, argv: seq<string>, k: nat)
    requires k <= |argv| && argv[k..] == []
    ensures t.Remaining(argv, k, "") == Parsed([], [], [], [])
  {
    assert |argv[k..]| == |argv| - k;
  }

  lemma DashesAtBoundary(t: Table, argv: seq<string>, k: nat)
    requires k < |argv| && argv[k] == "--"
    ensures t.Remaining(argv, k, "") == Parsed(["--"], [], argv[k + 1..], [])
  {
    assert !t.IsNonOption(argv[k]);
  }

  lemma OptionAtBoundary(t: Table, argv: seq<string>, k: nat)
    requires k < |argv| && argv[k] != "" && argv[k][0] == '-' && argv[k] != "--"
    requires |argv[k]| == 1 ==> '-' in t.options
    ensures t.Remaining(argv, k, "") == t.Remaining(argv, k, if |argv[k]| > 1 then argv[k][1..] else argv[k])
  {
  }

  /** An option word at a word boundary, whatever comes behind it. */
  lemma WordAtBoundary(t: Table, argv: seq<string>, k: nat, flags: string, last: Last, rest: seq<string>)
    requires var item := Options(flags, last); k <= |argv| && argv[k..] == ItemWords(item) + rest && Fits(t, item)
    requires LastValue(last) == Lacking ==> rest == []
    ensures var item := Options(flags, last); var n := |ItemWords(item)|;
      && k + n <= |argv|
      && t.Remaining(argv, k, "") == WithItem(t, item, t.Remaining(argv, k + n, ""))
  {
    hide Table.Remaining, Table.Words, Table.Events, LastFits, FlagFits, LastEvents, FlagEvents;
    var words, p := ItemWords(Options(flags, last)), flags + LastText(last);
    HeadOf(argv, k, words, rest);
    assert argv[k] == "-" + p && argv[k][1..] == p;
    WordUnderstood(t, flags, last, t.Next(argv, k));
    OptionAtBoundary(t, argv, k);
    var n, e := RemainingInWord(t, argv, k, p);
  }

  lemma DashUnderstood(t: Table, value: Value, next: Option<string>)
    requires Fits(t, Dash(value)) && Follows(value, next)
    ensures '-' in t.options
    ensures t.Words("-", false, next) == if value.Apart? then 2 else 1
    ensures t.Events("-", false, next) == [ShortEvent(t, '-', value)]
  {
    hide Table.WordStep, Declared;
    var colons := if Declared(t.options, '-', 1) then 1 else if Declared(t.options, '-', 2) then 2 else 0;
    if value == Bare && colons == 1 {
      colons := if Declared(t.options, '-', 0) then 0 else 2;
    }
    DeclaredMeans(t, '-', colons);
    ShortStep(t, '-', value, colons, false, next);
    assert LastText(Short('-', value)) == "-";
  }

  /** "-" as an option, likewise. */
  lemma DashAtBoundary(t: Table, argv: seq<string>, k: nat, value: Value, rest: seq<string>)
    requires var item := Dash(value); k <= |argv| && argv[k..] == ItemWords(item) + rest && Fits(t, item)
    requires value == Lacking ==> rest == []
    ensures var item := Dash(value); var n := |ItemWords(item)|;
      && k + n <= |argv|
      && t.Remaining(argv, k, "") == WithItem(t, item, t.Remaining(argv, k + n, ""))
  {
    hide Table.Remaining, Table.WordStep, Table.Words, Table.Events, Declared;
    var words := ItemWords(Dash(value));
    HeadOf(argv, k, words, rest);
    DashUnderstood(t, value, t.Next(argv, k));
    OptionAtBoundary(t, argv, k);
    var n, e := RemainingInWord(t, argv, k, "-");
  }

  /** getopt_long does what is meant. */
  lemma {:induction false} ParseIsMeant(t: Table, argv: seq<string>, k: nat, items: seq<Item>,
                                       tail: Option<seq<string>>)
    requires k <= |argv| && argv[k..] == Written(items, tail) && AllFit(t, items, tail)
    ensures t.Remaining(argv, k, "") == Meant(t, items, tail)
    decreases |items|
  {
    hide Fits, AllFit, WithItem, Table.Remaining;
    if items == [] {
      if tail.Some? {
        HeadOf(argv, k, ["--"], tail.value);
        DashesAtBoundary(t, argv, k);
      } else {
        EndAtBoundary(t, argv, k);
      }
    } else {
      var rest := Written(items[1..], tail);
      HeadOf(argv, k, ItemWords(items[0]), rest);
      LackingIsLast(t, items, tail);
      ParseIsMeant(t, argv, k + |ItemWords(items[0])|, items[1..], tail);
      FirstUnderstood(t, argv, k, items[0], rest);
    }
  }

  lemma LackingIsLast(t: Table, items: seq<Item>, tail: Option<seq<string>>)
    requires AllFit(t, items, tail) && items != []
    ensures AllFit(t, items[1..], tail) && Fits(t, items[0])
    ensures ItemValue(items[0]) == Lacking ==> Written(items[1..], tail) == []
  {
    hide Fits;
    forall i | 0 <= i < |items| - 1 ensures items[1..][i] == items[i + 1] {
    }
  }

  lemma FirstUnderstood(t: Table, argv: seq<string>, k: nat, item: Item, rest: seq<string>)
    requires k <= |argv| && argv[k..] == ItemWords(item) + rest && Fits(t, item)
    requires ItemValue(item) == Lacking ==> rest == []
    ensures var n := |ItemWords(item)|;
      && k + n <= |argv|
      && t.Remaining(argv, k, "") == WithItem(t, item, t.Remaining(argv, k + n, ""))
  {
    hide Table.Remaining, Fits, WithItem, ItemEvents;
    match item
    case Plain(w) => PlainAtBoundary(t, argv, k, w, rest);
    case Options(flags, last) => WordAtBoundary(t, argv, k, flags, last, rest);
    case Dash(value) => DashAtBoundary(t, argv, k, value, rest);
  }

  /** A run of calls returns what is meant and arranges the vector for it. */
  lemma RunIsMeant(g: Getopt, items: seq<Item>, tail: Option<seq<string>>)
    requires g.Finished() && g.original[g.first..] == Written(items, tail) && AllFit(g.table, items, tail)
    ensures var m := Meant(g.table, items, tail);
      && g.returned == m.events
      && g.nargv[..] == g.original[..g.first] + m.opts + m.nonopts + m.rest
      && g.optind == g.first + |m.opts|
  {
    ParseIsMeant(g.table, g.original, g.first, items, tail);
    var m := Meant(g.table, items, tail);
    assert g.original[..g.first] + m.opts + m.nonopts + [] == g.original[..g.first] + m.opts + m.nonopts;
  }

  // ------------------------------------------------------------------ every command line means something

  /** What is behind the dash of a long option. */
  lemma SomeLong(t: Table, s: string, next: Option<string>) returns (last: Last)
    ensures LastText(last) == "-" + s && LastFits(t, last) && Follows(LastValue(last), next)
  {
    var eq := FirstIndex(s, '=');
    var name := s[..eq];
    if eq < |s| {
      assert s == name + "=" + s[eq + 1..];
    }
    var answer := AnswersOrNot(t, name);
    match answer
    case None => last := Unknown(name, if eq < |s| then Some(s[eq + 1..]) else None);
    case Some(i) =>
      var value := if eq < |s| then Joined(s[eq + 1..]) else if t.longs[i].hasArg != 1 then Bare
                   else if next.Some? then Apart(next.value) else Lacking;
      last := Long(name, i, value);
  }

  lemma NoMoreFits(t: Table, next: Option<string>)
    ensures LastText(NoMore) == "" && LastFits(t, NoMore) && Follows(LastValue(NoMore), next)
  {
  }

  lemma {:induction false} SomeWord(t: Table, p: string, next: Option<string>) returns (flags: string, last: Last)
    requires p != ""
    ensures p == flags + LastText(last) && (forall c :: c in flags ==> FlagFits(t, c))
    ensures LastFits(t, last) && Follows(LastValue(last), next)
    decreases |p|
  {
    hide LastText, LastFits, FlagFits, Declared, Follows, LastValue;
    var c, rest := p[0], p[1..];
    flags, last := "", NoMore;
    NoMoreFits(t, next);
    if c == '-' {
      last := SomeLong(t, rest, next);
      return;
    }
    var colons := SomeColons(t, c);
    if colons == 0 {
      if rest != "" {
        flags, last := SomeWord(t, rest, next);
      }
      assert p == [c] + flags + LastText(last);
      flags := [c] + flags;
    } else {
      last := SomeShort(t, c, colons, rest, next);
    }
  }

  /** How many colons are behind an option, none behind what is no option. */
  lemma SomeColons(t: Table, c: char) returns (colons: nat)
    requires c != '-'
    ensures colons == 0 ==> FlagFits(t, c)
    ensures colons > 0 ==> c != ':' && colons <= 2 && Declared(t.options, c, colons)
  {
    hide Declared;
    colons := 0;
    if c != ':' && c in t.options {
      colons := SomehowDeclared(t, c);
    }
  }

  lemma SomeShort(t: Table, c: char, colons: nat, rest: string, next: Option<string>) returns (last: Last)
    requires c != '-' && c != ':' && 1 <= colons <= 2 && Declared(t.options, c, colons)
    ensures LastText(last) == [c] + rest && LastFits(t, last) && Follows(LastValue(last), next)
  {
    hide Declared;
    last := Short(c, if rest != "" then Joined(rest) else if colons == 2 then Bare
                     else if next.Some? then Apart(next.value) else Lacking);
  }

  /** The first item of a vector. */
  lemma SomeItem(t: Table, words: seq<string>) returns (item: Item)
    requires words != [] && words[0] != "--"
    ensures Fits(t, item) && ItemWords(item) <= words && (ItemValue(item) == Lacking ==> |words| == 1)
  {
    var w, next := words[0], if |words| > 1 then Some(words[1]) else None;
    if Undashed(t, w) {
      item := Plain(w);
    } else if w == "-" {
      var colons := SomehowDeclared(t, '-');
      item := Dash(if colons != 1 then Bare else if next.Some? then Apart(next.value) else Lacking);
    } else {
      var flags, last := SomeWord(t, w[1..], next);
      item := Options(flags, last);
      assert w == "-" + w[1..];
    }
  }

  /** Every argument vector is written down from something. */
  lemma {:induction false} EveryVectorIsWritten(t: Table, words: seq<string>)
    returns (items: seq<Item>, tail: Option<seq<string>>)
    ensures words == Written(items, tail) && AllFit(t, items, tail)
    decreases |words|
  {
    if words == [] {
      items, tail := [], None;
    } else if words[0] == "--" {
      items, tail := [], Some(words[1..]);
    } else {
      var item := SomeItem(t, words);
      var n := |ItemWords(item)|;
      var others;
      others, tail := EveryVectorIsWritten(t, words[n..]);
      items := [item] + others;
      assert words == ItemWords(item) + words[n..];
    }
  }
}
