/** What getopt_long is to make of an argument vector, word by word, without moving anything. */
module GetoptSpec {
  import opened Wrappers

  /** An entry of the long option table; hasArg is 0, 1 or 2 for none, required and optional. */
  datatype LongOption = LongOption(name: string, hasArg: int, flag: Option<int>, val: int)

  /** What one call returns besides -1, and the argument it sets. */
  datatype Event = Event(code: int, optarg: Option<string>)

  /** The effect of one call inside an option word: words is 0 while the word has characters left. */
  datatype Step = Step(event: Event, rest: string, words: nat)

  datatype Match = Ambiguous | NotFound | Found(index: nat)

  const BADCH := '?' as int

  function FirstIndex(s: string, c: char): (i: nat)
    ensures i <= |s| && c !in s[..i] && (i < |s| ==> s[i] == c)
  {
    if s == "" || s[0] == c then 0 else 1 + FirstIndex(s[1..], c)
  }

  datatype Table = Table(options: string, longs: seq<LongOption>) {
    /** No leading mode character, no "W;", and no long option that returns -1. */
    predicate Plain() {
      && (options != "" ==> options[0] != '+' && options[0] != '-')
      && (forall i :: 0 <= i < |options| - 1 ==> !(options[i] == 'W' && options[i + 1] == ';'))
      && (forall o :: o in longs ==> o.flag == None ==> o.val != -1)
    }

    function BadArg(): int {
      if options != "" && options[0] == ':' then ':' as int else '?' as int
    }

    // ---------------------------------------------------------------- short options

    predicate ColonAt(i: nat) {
      i < |options| && options[i] == ':'
    }

    predicate TakesArgument(c: char) {
      ColonAt(FirstIndex(options, c) + 1)
    }

    predicate ArgumentOptional(c: char) {
      ColonAt(FirstIndex(options, c) + 2)
    }

    // ---------------------------------------------------------------- long options

    predicate PrefixMatch(key: string, i: nat) {
      i < |longs| && key <= longs[i].name
    }

    predicate ExactMatch(key: string, i: nat) {
      i < |longs| && key == longs[i].name
    }

    predicate Identical(i: nat, j: nat)
      requires i < |longs| && j < |longs|
    {
      longs[i].hasArg == longs[j].hasArg && longs[i].flag == longs[j].flag && longs[i].val == longs[j].val
    }

    /**
      The first entry with that name; failing that, the first entry the name abbreviates, unless it abbreviates
      another one that means something else.
      */
    ghost predicate IsMatch(key: string, m: Match) {
      match m
      case Found(i) =>
        || (ExactMatch(key, i) && forall j :: 0 <= j < i ==> !ExactMatch(key, j))
        || (PrefixMatch(key, i) && forall j :: 0 <= j < |longs| && PrefixMatch(key, j) ==>
              i <= j && !ExactMatch(key, j) && Identical(i, j))
      case NotFound => forall j :: 0 <= j < |longs| ==> !PrefixMatch(key, j)
      case Ambiguous =>
        && (forall j :: 0 <= j < |longs| ==> !ExactMatch(key, j))
        && exists i, j :: 0 <= i < j < |longs| && PrefixMatch(key, i) && PrefixMatch(key, j) && !Identical(i, j)
    }

    /** The entry loop from index i on, with what it has found so far. */
    function Search(key: string, i: nat, found: Option<nat>, ambiguous: bool): (m: Match)
      requires i <= |longs|
      decreases |longs| - i
    {
      if i == |longs| then
        if ambiguous then Ambiguous else if found.Some? then Found(found.value) else NotFound
      else if !PrefixMatch(key, i) then Search(key, i + 1, found, ambiguous)
      else if ExactMatch(key, i) then Found(i)
      else if found == None then Search(key, i + 1, Some(i), ambiguous)
      else Search(key, i + 1, found,
                  ambiguous || (found.value < |longs| && !Identical(i, found.value)))
    }

    function Lookup(key: string): Match {
      Search(key, 0, None, false)
    }

    function LongStep(name: string, next: Option<string>): Step {
      var eq := FirstIndex(name, '=');
      var hasEqual := eq < |name|;
      match Lookup(name[..eq])
      case Ambiguous => Step(Event(BADCH, None), "", 1)
      case NotFound => Step(Event(BADCH, None), "", 1)
      case Found(i) =>
        if i >= |longs| then Step(Event(BADCH, None), "", 1)
        else
          var o := longs[i];
          var code := if o.flag.Some? then 0 else o.val;
          if o.hasArg == 0 && hasEqual then Step(Event(BadArg(), None), "", 1)
          else if o.hasArg == 1 && !hasEqual then
            if next.Some? then Step(Event(code, next), "", 2) else Step(Event(BadArg(), None), "", 1)
          else if (o.hasArg == 1 || o.hasArg == 2) && hasEqual then
            Step(Event(code, Some(name[eq + 1..])), "", 1)
          else Step(Event(code, None), "", 1)
    }

    // ---------------------------------------------------------------- one option word

    /** The next option in what is left of a word; behind its first character a dash starts a long option. */
    function WordStep(p: string, behind: bool, next: Option<string>): (s: Step)
      requires p != ""
      ensures s.words == 0 ==> s.rest == p[1..] && s.rest != ""
      ensures s.words > 0 ==> s.rest == ""
      ensures s.words <= 2 && (s.words == 2 ==> next.Some?)
    {
      var c, rest := p[0], p[1..];
      if behind && c == '-' then LongStep(rest, next)
      else if c == ':' || (c == '-' && rest != "") || c !in options then
        Step(Event(BADCH, None), rest, if rest == "" then 1 else 0)
      else if !TakesArgument(c) then Step(Event(c as int, None), rest, if rest == "" then 1 else 0)
      else if rest != "" then Step(Event(c as int, Some(rest)), "", 1)
      else if ArgumentOptional(c) then Step(Event(c as int, None), "", 1)
      else if next.Some? then Step(Event(c as int, next), "", 2)
      else Step(Event(BadArg(), None), "", 1)
    }

    function Words(p: string, behind: bool, next: Option<string>): (n: nat)
      requires p != ""
      ensures 1 <= n <= 2 && (n == 2 ==> next.Some?)
      decreases |p|
    {
      var s := WordStep(p, behind, next);
      if s.words > 0 then s.words else Words(s.rest, true, next)
    }

    function Events(p: string, behind: bool, next: Option<string>): seq<Event>
      requires p != ""
      decreases |p|
    {
      var s := WordStep(p, behind, next);
      [s.event] + if s.words > 0 then [] else Events(s.rest, true, next)
    }

    // ---------------------------------------------------------------- the vector

    predicate IsNonOption(w: string) {
      w == "" || w[0] != '-' || (|w| == 1 && '-' !in options)
    }

    function Next(argv: seq<string>, k: nat): Option<string> {
      if k + 1 < |argv| then Some(argv[k + 1]) else None
    }

    /** What remains to be done from word k on, with p left of that word ("" at a word boundary). */
    function Remaining(argv: seq<string>, k: nat, p: string): Parsed
      requires k <= |argv| && (p != "" ==> k < |argv|)
      decreases |argv| - k, if p != "" then 0 else 1
    {
      if p != "" then
        var behind := |p| < |argv[k]|;
        var n := Words(p, behind, Next(argv, k));
        var after := Remaining(argv, k + n, "");
        after.AfterWords(argv[k..k + n], Events(p, behind, Next(argv, k)))
      else if k == |argv| then Parsed([], [], [], [])
      else
        var w := argv[k];
        if IsNonOption(w) then
          var after := Remaining(argv, k + 1, "");
          after.(nonopts := [w] + after.nonopts)
        else if w == "--" then Parsed([w], [], argv[k + 1..], [])
        else Remaining(argv, k, if |w| > 1 then w[1..] else w)
    }
  }

  /** Option words with their arguments and the "--"; skipped words; what follows "--"; what the calls return. */
  datatype Parsed = Parsed(opts: seq<string>, nonopts: seq<string>, rest: seq<string>, events: seq<Event>) {
    /** How often a word occurs in the three parts. */
    function Count(w: string): nat {
      Copies(opts, w) + Copies(nonopts, w) + Copies(rest, w)
    }

    function AfterWords(words: seq<string>, e: seq<Event>): Parsed {
      Parsed(words + opts, nonopts, rest, e + events)
    }

    function Prepend(o: seq<string>, n: seq<string>, e: seq<Event>): Parsed {
      Parsed(o + opts, n + nonopts, rest, e + events)
    }
  }

  /** The entry loop decides as IsMatch says. */
  lemma {:induction false} SearchIsMatch(t: Table, key: string, i: nat, found: Option<nat>, ambiguous: bool)
    requires i <= |t.longs|
    requires forall j :: 0 <= j < i ==> !t.ExactMatch(key, j)
    requires found == None ==> !ambiguous && forall j :: 0 <= j < i ==> !t.PrefixMatch(key, j)
    requires found.Some? ==> found.value < i && t.PrefixMatch(key, found.value)
    requires found.Some? ==> forall j :: 0 <= j < i && t.PrefixMatch(key, j) ==>
                found.value <= j && (t.Identical(found.value, j) || ambiguous)
    requires ambiguous ==>
      exists a, b :: 0 <= a < b < i && t.PrefixMatch(key, a) && t.PrefixMatch(key, b) && !t.Identical(a, b)
    ensures t.IsMatch(key, t.Search(key, i, found, ambiguous))
    decreases |t.longs| - i
  {
    if i < |t.longs| {
      if !t.PrefixMatch(key, i) {
        SearchIsMatch(t, key, i + 1, found, ambiguous);
      } else if t.ExactMatch(key, i) {
      } else if found == None {
        SearchIsMatch(t, key, i + 1, Some(i), ambiguous);
      } else {
        SearchIsMatch(t, key, i + 1, found, ambiguous || !t.Identical(i, found.value));
      }
    }
  }

  function Copies(s: seq<string>, w: string): nat {
    if s == [] then 0 else Copies(s[..|s| - 1], w) + if s[|s| - 1] == w then 1 else 0
  }

  lemma {:induction false} CopiesConcat(s: seq<string>, t: seq<string>, w: string)
    ensures Copies(s + t, w) == Copies(s, w) + Copies(t, w)
  {
    if t == [] {
      assert s + t == s;
    } else {
      CopiesConcat(s, t[..|t| - 1], w);
      assert (s + t)[..|s + t| - 1] == s + t[..|t| - 1];
    }
  }

  lemma {:induction false} CopiesIsMultiplicity(s: seq<string>, w: string)
    ensures multiset(s)[w] == Copies(s, w)
  {
    if s != [] {
      CopiesIsMultiplicity(s[..|s| - 1], w);
      assert s == s[..|s| - 1] + [s[|s| - 1]];
    }
  }

  lemma CopiesSplit(argv: seq<string>, i: nat, j: nat, w: string)
    requires i <= j <= |argv|
    ensures Copies(argv[i..], w) == Copies(argv[i..j], w) + Copies(argv[j..], w)
    ensures j == i + 1 ==> argv[i..j] == [argv[i]]
  {
    assert argv[i..] == argv[i..j] + argv[j..];
    CopiesConcat(argv[i..j], argv[j..], w);
  }

  /** Nothing is lost or duplicated: what a finished run leaves is a permutation of what it found. */
  lemma ParseIsPermutation(t: Table, argv: seq<string>, k: nat)
    requires k <= |argv|
    ensures var r := t.Remaining(argv, k, "");
      multiset(r.opts) + multiset(r.nonopts) + multiset(r.rest) == multiset(argv[k..])
  {
    var r := t.Remaining(argv, k, "");
    forall w: string
      ensures multiset(r.opts)[w] + multiset(r.nonopts)[w] + multiset(r.rest)[w] == multiset(argv[k..])[w]
    {
      ParseKeepsCopies(t, argv, k, "", w);
      CopiesIsMultiplicity(r.opts, w);
      CopiesIsMultiplicity(r.nonopts, w);
      CopiesIsMultiplicity(r.rest, w);
      CopiesIsMultiplicity(argv[k..], w);
    }
  }

  lemma {:induction false} ParseKeepsCopies(t: Table, argv: seq<string>, k: nat, p: string, w: string)
    requires k <= |argv| && (p != "" ==> k < |argv|)
    ensures t.Remaining(argv, k, p).Count(w) == Copies(argv[k..], w)
    decreases |argv| - k, if p != "" then 0 else 1
  {
    hide Table.WordStep, Table.Words, Table.Events;
    if p != "" {
      var n, e := RemainingInWord(t, argv, k, p);
      ParseKeepsCopies(t, argv, k + n, "", w);
      CopiesSplit(argv, k, k + n, w);
      CopiesConcat(argv[k..k + n], t.Remaining(argv, k + n, "").opts, w);
    } else if k < |argv| {
      CopiesSplit(argv, k, k + 1, w);
      if t.IsNonOption(argv[k]) {
        ParseKeepsCopies(t, argv, k + 1, "", w);
        CopiesConcat([argv[k]], t.Remaining(argv, k + 1, "").nonopts, w);
      } else if argv[k] != "--" {
        ParseKeepsCopies(t, argv, k, if |argv[k]| > 1 then argv[k][1..] else argv[k], w);
      }
    }
  }

  /** all is made of a and b, each in its own order. */
  predicate Interleaves(all: seq<string>, a: seq<string>, b: seq<string>)
    decreases |all|
  {
    if all == [] then a == [] && b == []
    else || (a != [] && a[0] == all[0] && Interleaves(all[1..], a[1..], b))
         || (b != [] && b[0] == all[0] && Interleaves(all[1..], a, b[1..]))
  }

  lemma {:induction false} InterleavesBehind(front: seq<string>, all: seq<string>, a: seq<string>, b: seq<string>)
    requires Interleaves(all, a, b)
    ensures Interleaves(front + all, front + a, b)
    decreases |front|
  {
    if front == [] {
      assert front + all == all && front + a == a;
    } else {
      InterleavesBehind(front[1..], all, a, b);
      assert (front + all)[1..] == front[1..] + all && (front + a)[1..] == front[1..] + a;
    }
  }

  lemma InterleavesSkipped(w: string, all: seq<string>, a: seq<string>, b: seq<string>)
    requires Interleaves(all, a, b)
    ensures Interleaves([w] + all, a, [w] + b)
  {
    assert ([w] + all)[1..] == all && ([w] + b)[1..] == b;
  }

  /** What is made of the words from word k on: the two kinds, each in order, and then the rest as it is. */
  predicate Ordered(argv: seq<string>, k: nat, r: Parsed) {
    && k + |r.rest| <= |argv| && r.rest == argv[|argv| - |r.rest|..]
    && Interleaves(argv[k..|argv| - |r.rest|], r.opts, r.nonopts)
  }

  lemma SliceConcat(argv: seq<string>, i: nat, j: nat, k: nat)
    requires i <= j <= k <= |argv|
    ensures argv[i..k] == argv[i..j] + argv[j..k] && (j == i + 1 ==> argv[i..j] == [argv[i]])
  {
  }

  lemma OrderedBehindWords(argv: seq<string>, k: nat, n: nat, r: Parsed, e: seq<Event>)
    requires k + n <= |argv| && Ordered(argv, k + n, r)
    ensures Ordered(argv, k, r.AfterWords(argv[k..k + n], e))
  {
    var end := |argv| - |r.rest|;
    InterleavesBehind(argv[k..k + n], argv[k + n..end], r.opts, r.nonopts);
    SliceConcat(argv, k, k + n, end);
  }

  lemma OrderedBehindSkipped(argv: seq<string>, k: nat, r: Parsed)
    requires k < |argv| && Ordered(argv, k + 1, r)
    ensures Ordered(argv, k, r.(nonopts := [argv[k]] + r.nonopts))
  {
    var end := |argv| - |r.rest|;
    InterleavesSkipped(argv[k], argv[k + 1..end], r.opts, r.nonopts);
    SliceConcat(argv, k, k + 1, end);
  }

  lemma OrderedAtEnd(argv: seq<string>)
    ensures Ordered(argv, |argv|, Parsed([], [], [], []))
  {
  }

  lemma OrderedAtDashes(argv: seq<string>, k: nat)
    requires k < |argv|
    ensures Ordered(argv, k, Parsed([argv[k]], [], argv[k + 1..], []))
  {
    InterleavesBehind([argv[k]], [], [], []);
    assert argv[k..k + 1] == [argv[k]] + [] == [argv[k]];
  }

  /**
    Option words and skipped words keep their order, whatever lies between them, and what follows "--" is left as it
    is.
    */
  lemma {:induction false} ParseKeepsOrder(t: Table, argv: seq<string>, k: nat, p: string)
    requires k <= |argv| && (p != "" ==> k < |argv|)
    ensures Ordered(argv, k, t.Remaining(argv, k, p))
    decreases |argv| - k, if p != "" then 0 else 1
  {
    hide Table.WordStep, Table.Words, Table.Events, Ordered;
    if p != "" {
      var n, e := RemainingInWord(t, argv, k, p);
      ParseKeepsOrder(t, argv, k + n, "");
      OrderedBehindWords(argv, k, n, t.Remaining(argv, k + n, ""), e);
    } else if k == |argv| {
      OrderedAtEnd(argv);
    } else {
      if t.IsNonOption(argv[k]) {
        ParseKeepsOrder(t, argv, k + 1, "");
        OrderedBehindSkipped(argv, k, t.Remaining(argv, k + 1, ""));
      } else if argv[k] == "--" {
        OrderedAtDashes(argv, k);
      } else {
        ParseKeepsOrder(t, argv, k, if |argv[k]| > 1 then argv[k][1..] else argv[k]);
      }
    }
  }

  /** A word taken apart: n words are consumed and the events e happen before the scan is at a boundary again. */
  lemma RemainingInWord(t: Table, argv: seq<string>, k: nat, p: string) returns (n: nat, e: seq<Event>)
    requires k < |argv| && p != ""
    ensures n == t.Words(p, |p| < |argv[k]|, t.Next(argv, k)) && e == t.Events(p, |p| < |argv[k]|, t.Next(argv, k))
    ensures 1 <= n && k + n <= |argv|
    ensures t.Remaining(argv, k, p) == t.Remaining(argv, k + n, "").AfterWords(argv[k..k + n], e)
  {
    hide Table.WordStep, Table.Words, Table.Events;
    n, e := t.Words(p, |p| < |argv[k]|, t.Next(argv, k)), t.Events(p, |p| < |argv[k]|, t.Next(argv, k));
  }

  /** A word that does not start with a dash, or nothing but a dash that is not an option itself. */
  predicate Undashed(t: Table, w: string) {
    w == "" || w[0] != '-' || (w == "-" && '-' !in t.options)
  }

  lemma NonOptionIsUndashed(t: Table, w: string)
    ensures (t.IsNonOption(w) <==> Undashed(t, w)) && (w == "" ==> t.IsNonOption(w))
  {
  }

  /** The skipped words are those that are no options, and without "--" nothing is left over. */
  lemma {:induction false} SkippedAreNonOptions(t: Table, argv: seq<string>, k: nat, p: string)
    requires k <= |argv| && (p != "" ==> k < |argv|)
    ensures var r := t.Remaining(argv, k, p);
      && (forall w :: w in r.nonopts ==> Undashed(t, w))
      && (r.rest != [] ==> r.opts != [] && r.opts[|r.opts| - 1] == "--")
    decreases |argv| - k, if p != "" then 0 else 1
  {
    hide Table.WordStep, Table.Words, Table.Events, Table.IsNonOption, Undashed;
    if p != "" {
      SkippedAreNonOptions(t, argv, k + t.Words(p, |p| < |argv[k]|, t.Next(argv, k)), "");
    } else if k < |argv| {
      var w := argv[k];
      NonOptionIsUndashed(t, w);
      if t.IsNonOption(w) {
        SkippedAreNonOptions(t, argv, k + 1, "");
      } else if w != "--" {
        SkippedAreNonOptions(t, argv, k, if |w| > 1 then w[1..] else w);
      }
    }
  }

  /** What is left of an option word when it is entered. */
  function Inside(w: string): string {
    if |w| > 1 then w[1..] else w
  }

  /** An option word asks for the next word of the vector, if there is one. */
  predicate AsksForNext(t: Table, w: string)
    requires w != ""
  {
    t.Words(Inside(w), |w| > 1, Some("")) == 2
  }

  /**
    Option words and nothing else: each is an option word, followed by the word it asks for unless it is the last, and
    "--" comes at the end if at all.
    */
  predicate OptionWords(t: Table, words: seq<string>)
    decreases |words|
  {
    if words == [] then true
    else if Undashed(t, words[0]) then false
    else if words[0] == "--" then |words| == 1
    else if AsksForNext(t, words[0]) && |words| > 1 then OptionWords(t, words[2..])
    else OptionWords(t, words[1..])
  }

  /** How many words an option takes does not depend on what the next word is. */
  lemma {:induction false} NextIsNotRead(t: Table, p: string, behind: bool, next: string)
    requires p != ""
    ensures t.Words(p, behind, Some(next)) == t.Words(p, behind, Some(""))
    decreases |p|
  {
    StepsAlike(t, p, behind, next);
    var s := t.WordStep(p, behind, Some(next));
    if s.words == 0 {
      NextIsNotRead(t, s.rest, true, next);
    }
  }

  lemma StepsAlike(t: Table, p: string, behind: bool, next: string)
    requires p != ""
    ensures t.WordStep(p, behind, Some(next)).words == t.WordStep(p, behind, Some("")).words
    ensures t.WordStep(p, behind, Some(next)).rest == t.WordStep(p, behind, Some("")).rest
  {
  }

  /** The words put first are option words with the arguments they ask for, and the "--". */
  lemma {:induction false} TakenAreOptions(t: Table, argv: seq<string>, k: nat)
    requires k <= |argv|
    ensures OptionWords(t, t.Remaining(argv, k, "").opts)
    decreases |argv| - k
  {
    if k < |argv| {
      if t.IsNonOption(argv[k]) {
        TakenAreOptions(t, argv, k + 1);
      } else if argv[k] != "--" {
        var n, e := RemainingInWord(t, argv, k, Inside(argv[k]));
        TakenAreOptions(t, argv, k + n);
        if k + 1 < |argv| {
          NextIsNotRead(t, Inside(argv[k]), |argv[k]| > 1, argv[k + 1]);
        }
        FirstOptionWord(t, argv, k, n, t.Remaining(argv, k + n, "").opts);
      }
    }
  }

  lemma FirstOptionWord(t: Table, argv: seq<string>, k: nat, n: nat, rest: seq<string>)
    requires k < |argv| && !t.IsNonOption(argv[k]) && argv[k] != "--" && 1 <= n <= 2 && k + n <= |argv|
    requires OptionWords(t, rest) && (k + n == |argv| ==> rest == [])
    requires if k + 1 < |argv| then n == 2 <==> AsksForNext(t, argv[k]) else n == 1
    ensures OptionWords(t, argv[k..k + n] + rest)
  {
    var all := argv[k..k + n] + rest;
    assert all[0] == argv[k] && all[n..] == rest;
  }

  lemma LookupIsMatch(t: Table, key: string)
    ensures t.IsMatch(key, t.Lookup(key))
  {
    SearchIsMatch(t, key, 0, None, false);
  }
}
