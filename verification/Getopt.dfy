/** The scanner of src/3rdparty/getopt/getopt.h in permute mode, its state across calls, and whole runs of it. */
module GetoptModel {
  import opened GetoptSpec
  import opened Wrappers
  import Permute

  class Getopt {
    const table: Table
    const nargv: array<string>

    // the static and global variables of the source
    var optind: nat
    var place: string
    var nonoptStart: int
    var nonoptEnd: int
    var optarg: Option<string>

    // the vector and index at the start of the run; what has been consumed and returned since
    ghost const original: seq<string>
    ghost const first: nat
    ghost var optsBefore: seq<string>
    ghost var nonopts: seq<string>
    ghost var optsAfter: seq<string>
    ghost var returned: seq<Event>

    /** The vector: option words, the skipped words if any, the option words since, and what is not yet scanned. */
    ghost predicate Layout()
      reads this, nargv
    {
      && first <= optind <= |original|
      && nargv[..] == Arranged(original[..first], optsBefore, nonopts, optsAfter, original[optind..])
      && (nonoptStart == -1 ==> nonoptEnd == -1 && nonopts == [] && optsAfter == [])
      && (nonoptStart != -1 ==> nonoptStart == first + |optsBefore|)
      && (nonoptEnd == -1 ==> optsAfter == [])
      && (nonoptEnd != -1 ==> nonoptStart != -1 && nonoptEnd == nonoptStart + |nonopts|)
      && optind == first + |optsBefore| + |nonopts| + |optsAfter|
    }

    /** What has been done and what remains add up to the parse of the original vector. */
    ghost predicate OnTrack()
      reads this
    {
      && first <= |original| && optind <= |original| && (place != "" ==> optind < |original|)
      && table.Remaining(original, optind, place).Prepend(optsBefore + optsAfter, nonopts, returned) ==
         table.Remaining(original, first, "")
    }

    ghost predicate Valid()
      reads this, nargv
    {
      && table.Plain() && nargv.Length == |original|
      && Layout() && OnTrack()
      && (nonoptStart != -1 ==> nonopts != [])
      && (nonoptEnd != -1 && place == "" ==> optsAfter != [])
      && (place != "" ==> (nonoptStart != -1 ==> nonoptEnd != -1) && |place| <= |original[optind]|)
      && (place != "" && |place| == |original[optind]| ==> place[0] == '-' && (place == "-" ==> '-' in table.options))
    }

    /** The vector as a finished run leaves it, for the parse of the original one. */
    ghost predicate Finished()
      reads this, nargv
    {
      && first <= |original|
      && var p := table.Remaining(original, first, "");
      && nargv[..] == Arranged(original[..first], p.opts, p.nonopts, [], p.rest)
      && optind == first + |p.opts|
      && returned == p.events
    }

    constructor (table: Table, nargv: array<string>, optind: nat)
      requires table.Plain() && optind <= nargv.Length
      ensures Valid() && this.nargv == nargv && this.table == table && this.optind == optind
      ensures original == nargv[..] && first == optind && returned == []
    {
      this.table, this.nargv := table, nargv;
      this.optind, place := optind, "";
      nonoptStart, nonoptEnd, optarg := -1, -1, None;
      original, first := nargv[..], optind;
      optsBefore, nonopts, optsAfter, returned := [], [], [], [];
      new;
      assert nargv[..] == Arranged(original[..first], [], [], [], original[optind..]);
      NothingDone(table.Remaining(original, first, ""));
    }

    /** Moves the skipped words behind the option words scanned since. */
    method MoveNonOptions()
      requires Layout() && nonoptEnd != -1 && nonopts != [] && optsAfter != [] && nargv.Length == |original|
      modifies nargv
      ensures nargv[..] == Arranged(original[..first], optsBefore, optsAfter, nonopts, original[optind..])
    {
      ghost var was := nargv[..];
      SliceParts(was, original[..first], optsBefore, nonopts, optsAfter, original[optind..],
                 nonoptStart, nonoptEnd, optind);
      Permute.PermuteArgs(nonoptStart, nonoptEnd, optind, nargv);
    }

    /** The end of the run: the skipped words go last and optind points at them. */
    method Finish()
      requires Layout() && nargv.Length == |original|
      requires (nonoptStart != -1 ==> nonopts != []) && (nonoptEnd != -1 ==> optsAfter != [])
      modifies this`optind, this`place, this`nonoptStart, this`nonoptEnd, nargv
      ensures nargv[..] == Arranged(original[..first], optsBefore + optsAfter, nonopts, [], original[old(optind)..])
      ensures optind == first + |optsBefore + optsAfter|
      ensures place == "" && nonoptStart == -1 && nonoptEnd == -1
    {
      place := "";
      if nonoptEnd != -1 {
        ArrangeMoved(original[..first], optsBefore, optsAfter, nonopts, original[optind..]);
        MoveNonOptions();
        optind := optind - (nonoptEnd - nonoptStart);
      } else {
        if nonoptStart != -1 {
          optind := nonoptStart;
        }
      }
      nonoptStart, nonoptEnd := -1, -1;
    }

    // ---------------------------------------------------------------- word boundaries

    ghost function NextWord(): Option<string>
      reads this
    {
      table.Next(original, optind)
    }

    method EndOfArguments()
      requires Valid() && place == "" && optind == |original|
      modifies this`optind, this`place, this`nonoptStart, this`nonoptEnd, nargv
      ensures Finished() && place == ""
    {
      Finish();
    }

    /** Makes the skipped words, if any, end where the scan is. */
    method GatherSkipped()
      requires Layout() && nargv.Length == |original|
      requires (nonoptStart != -1 ==> nonopts != []) && (nonoptEnd != -1 ==> optsAfter != [])
      modifies this`nonoptStart, this`nonoptEnd, this`optsBefore, this`optsAfter, nargv
      ensures Layout() && nonoptEnd == -1 && nonoptStart != -1
      ensures optsBefore == old(optsBefore + optsAfter) && optsAfter == []
    {
      if nonoptStart == -1 {
        nonoptStart := optind;
      } else if nonoptEnd != -1 {
        MoveNonOptions();
        ArrangeMoved(original[..first], optsBefore, optsAfter, nonopts, original[optind..]);
        nonoptStart := optind - (nonoptEnd - nonoptStart);
        nonoptEnd := -1;
        optsBefore, optsAfter := optsBefore + optsAfter, [];
      }
    }

    /** A word that is no option joins the skipped ones, which are first moved up to it. */
    method SkipNonOption()
      requires Valid() && place == "" && optind < |original| && table.IsNonOption(original[optind])
      modifies this, nargv
      ensures Valid() && place == "" && optind == old(optind) + 1
      ensures returned == old(returned) && optarg == old(optarg)
    {
      hide Table.Remaining;
      ghost var w := original[optind];
      SkipPrepend(table, original, optind, optsBefore + optsAfter, nonopts, returned);
      GatherSkipped();
      ArrangeSkipped(original[..first], optsBefore, nonopts, w, original[optind..]);
      optind := optind + 1;
      nonopts := nonopts + [w];
      assert optsBefore + [] == optsBefore;
    }

    /** The block of skipped words, if there is one, ends where the scan is. */
    method CloseSkipped()
      requires Layout()
      modifies this`nonoptEnd
      ensures Layout() && (nonoptStart != -1 ==> nonoptEnd != -1) && (nonoptEnd == -1 ==> old(nonoptEnd) == -1)
    {
      if nonoptStart != -1 && nonoptEnd == -1 {
        nonoptEnd := optind;
      }
    }

    /** The "--" counts as an option word and ends the run. */
    method EndAtDashes()
      requires Valid() && place == "" && optind < |original| && original[optind] == "--"
      modifies this, nargv
      ensures Finished() && place == ""
    {
      hide Table.Remaining, Arranged;
      EndPrepend(table, original, optind, optsBefore + optsAfter, nonopts, returned);
      TakeDashes();
      Finish();
    }

    method TakeDashes()
      requires Layout() && optind < |original| && original[optind] == "--"
      modifies this`optind, this`nonoptEnd, this`optsBefore, this`optsAfter
      ensures Layout() && optind == old(optind) + 1 && (nonoptEnd != -1 ==> optsAfter != [])
      ensures optsBefore + optsAfter == old(optsBefore + optsAfter) + ["--"]
    {
      CloseSkipped();
      assert original[optind..optind + 1] == ["--"];
      ConsumeWords(1);
    }

    /** Words of the vector become option words already scanned. */
    method ConsumeWords(n: nat)
      requires Layout() && optind + n <= |original| && (nonoptStart != -1 ==> nonoptEnd != -1)
      modifies this`optind, this`optsBefore, this`optsAfter
      ensures Layout() && optind == old(optind) + n
      ensures optsBefore + optsAfter == old(optsBefore + optsAfter) + original[old(optind)..optind]
      ensures nonoptEnd != -1 && n > 0 ==> optsAfter != []
    {
      ghost var words := original[optind..optind + n];
      ghost var pre, rest := original[..first], original[optind + n..];
      assert original[optind..] == words + rest;
      ArrangeConsumed(pre, optsBefore, nonopts, optsAfter, words, rest);
      assert (optsBefore + optsAfter) + words == optsBefore + (optsAfter + words);
      if nonoptEnd != -1 {
        optsAfter := optsAfter + words;
      } else {
        optsBefore := optsBefore + words;
        assert optsBefore + [] == optsBefore;
      }
      optind := optind + n;
    }

    /** Enters an option word: place is behind its dash, unless the dash is all there is. */
    method EnterWord()
      requires Valid() && place == "" && optind < |original|
      requires !table.IsNonOption(original[optind]) && original[optind] != "--"
      modifies this`place, this`nonoptEnd
      ensures Valid() && place != ""
    {
      CloseSkipped();
      assert nargv[..][optind] == original[optind..][0];
      place := nargv[optind];
      if |place| > 1 {
        place := place[1..];
      }
    }

    // ---------------------------------------------------------------- inside a word

    /** The table loop of parse_long_options. */
    method FindLong(key: string) returns (m: Match)
      ensures m == table.Lookup(key)
    {
      var longs := table.longs;
      var found: Option<nat> := None;
      var ambiguous := false;
      var i := 0;
      while i < |longs|
        invariant 0 <= i <= |longs| && longs == table.longs
        invariant found.Some? ==> found.value < i
        invariant table.Search(key, i, found, ambiguous) == table.Lookup(key)
      {
        if key <= longs[i].name {
          if |longs[i].name| == |key| {
            return Found(i);
          }
          if found == None {
            found := Some(i);
          } else if !table.Identical(i, found.value) {
            ambiguous := true;
          }
        }
        i := i + 1;
      }
      m := if ambiguous then Ambiguous else if found.Some? then Found(found.value) else NotFound;
    }

    method ParseLongOptions(current: string) returns (code: int, words: nat)
      requires Layout() && nargv.Length == |original| && optind < |original|
      modifies this`optarg
      ensures table.LongStep(current, NextWord()) == Step(Event(code, optarg), "", words)
    {
      optarg := None;
      words := 1;
      var eq := FirstIndex(current, '=');
      var hasEqual := eq < |current|;
      var m := FindLong(current[..eq]);
      if m == Ambiguous || m == NotFound || m.index >= |table.longs| {
        return BADCH, words;
      }
      var o := table.longs[m.index];
      if o.hasArg == 0 && hasEqual {
        return table.BadArg(), words;
      }
      if o.hasArg == 1 || o.hasArg == 2 {
        if hasEqual {
          optarg := Some(current[eq + 1..]);
        } else if o.hasArg == 1 {
          optarg := WordAt(optind + 1);
          words := 2;
        }
      }
      if o.hasArg == 1 && optarg == None {
        return table.BadArg(), words - 1;
      }
      code := if o.flag.Some? then 0 else o.val;
    }

    /** A word not yet scanned, or the null pointer behind the last one. */
    method WordAt(k: nat) returns (w: Option<string>)
      requires Layout() && nargv.Length == |original| && optind < k
      ensures w == if k < |original| then Some(original[k]) else None
    {
      if k < nargv.Length {
        assert nargv[..][k] == original[optind..][k - optind];
        return Some(nargv[k]);
      }
      return None;
    }

    /** The next option of the word being scanned; words says how many words of the vector are done with. */
    method TakeOption() returns (code: int, words: nat)
      requires Valid() && place != ""
      modifies this`place, this`optarg
      ensures table.WordStep(old(place), |old(place)| < |original[optind]|, NextWord()) ==
              Step(Event(code, optarg), place, words)
    {
      hide Table.Remaining, Table.LongStep, FirstIndex;
      optarg := None;
      assert nargv[..][optind] == original[optind..][0];
      if |place| < |nargv[optind]| && place[0] == '-' {
        code, words := ParseLongOptions(place[1..]);
        place := "";
        return;
      }
      var optchar := place[0];
      place := place[1..];
      words := 0;
      var oli := FirstIndex(table.options, optchar);
      if optchar == ':' || (optchar == '-' && place != "") || oli == |table.options| {
        if optchar == '-' && place == "" {
          assert false;
        }
        if place == "" {
          words := 1;
        }
        return BADCH, words;
      }
      code := optchar as int;
      if !table.ColonAt(oli + 1) {
        if place == "" {
          words := 1;
        }
      } else {
        if place != "" {
          optarg := Some(place);
        } else if !table.ColonAt(oli + 2) {
          words := 1;
          optarg := WordAt(optind + 1);
          if optarg == None {
            return table.BadArg(), words;
          }
        }
        place := "";
        words := words + 1;
      }
    }

    // ---------------------------------------------------------------- one call, and whole runs

    /** One call of getopt_long. */
    method Next() returns (code: int)
      requires Valid()
      modifies this, nargv
      ensures code == -1 ==> Finished() && place == "" && returned == old(returned)
      ensures code != -1 ==> Valid() && returned == old(returned) + [Event(code, optarg)]
    {
      optarg := None;
      var ended := FindOption();
      if ended {
        return -1;
      }
      code := ReturnOption();
    }

    /** At a word boundary, goes on to the next option word; there may be none. */
    method FindOption() returns (ended: bool)
      requires Valid()
      modifies this, nargv
      ensures returned == old(returned)
      ensures ended ==> Finished() && place == ""
      ensures !ended ==> Valid() && place != ""
    {
      while place == ""
        invariant Valid() && returned == old(returned)
        decreases |original| - optind, if place == "" then 1 else 0
      {
        if optind >= nargv.Length {
          EndOfArguments();
          return true;
        }
        assert nargv[..][optind] == original[optind..][0];
        if table.IsNonOption(nargv[optind]) {
          SkipNonOption();
        } else if nargv[optind] == "--" {
          EndAtDashes();
          return true;
        } else {
          EnterWord();
        }
      }
      ended := false;
    }

    method ReturnOption() returns (code: int)
      requires Valid() && place != ""
      modifies this
      ensures Valid() && code != -1 && returned == old(returned) + [Event(code, optarg)]
    {
      hide Table.Remaining, Table.WordStep;
      ghost var p := place;
      CodeIsNoEnd(table, p, |p| < |original[optind]|, NextWord());
      var words: nat;
      code, words := TakeOption();
      StepPrepend(table, original, optind, p, place, Event(code, optarg), words, optsBefore + optsAfter, nonopts,
                  returned);
      GoOn(Event(code, optarg), words, table.Remaining(original, optind + words, place));
    }

    /** Accounts for an event, and for the words of the vector it is done with; what remains after it is given. */
    method GoOn(ghost e: Event, words: nat, ghost after: Parsed)
      requires table.Plain() && nargv.Length == |original| && Layout() && optind + words <= |original|
      requires nonoptStart != -1 ==> nonopts != [] && nonoptEnd != -1
      requires if words == 0 then place != "" && optind < |original| && |place| < |original[optind]| else place == ""
      requires after == table.Remaining(original, optind + words, place)
      requires after.Prepend(optsBefore + optsAfter + original[optind..optind + words], nonopts, returned + [e]) ==
               table.Remaining(original, first, "")
      modifies this`optind, this`optsBefore, this`optsAfter, this`returned
      ensures Valid() && returned == old(returned) + [e]
    {
      hide Table.Remaining;
      ConsumeWords(words);
      returned := returned + [e];
    }

    /** Calls until -1, as a program does; gives back what the calls returned. */
    method Run() returns (events: seq<Event>)
      requires Valid() && returned == []
      modifies this, nargv
      ensures Finished() && events == returned
    {
      events := [];
      ghost var total := |table.Remaining(original, first, "").events|;
      var code := Next();
      while code != -1
        invariant code == -1 ==> Finished() && events == returned
        invariant code != -1 ==> Valid() && returned == events + [Event(code, optarg)]
        decreases total - |events|, code != -1
      {
        assert |returned| <= total;
        events := events + [Event(code, optarg)];
        code := Next();
      }
    }
  }

  /** A finished run has permuted the vector. */
  lemma FinishedPermutes(g: Getopt)
    requires g.Finished()
    ensures multiset(g.nargv[..]) == multiset(g.original)
  {
    var pre, p := g.original[..g.first], g.table.Remaining(g.original, g.first, "");
    ParseIsPermutation(g.table, g.original, g.first);
    ArrangedWords(pre, p.opts, p.nonopts, p.rest);
    assert g.original == pre + g.original[g.first..];
  }

  lemma ArrangedWords(a: seq<string>, b: seq<string>, c: seq<string>, e: seq<string>)
    ensures multiset(Arranged(a, b, c, [], e)) == multiset(a) + (multiset(b) + multiset(c) + multiset(e))
  {
  }

  function Arranged(a: seq<string>, b: seq<string>, c: seq<string>, d: seq<string>, e: seq<string>): seq<string> {
    a + b + c + d + e
  }

  lemma ArrangeMoved(a: seq<string>, b: seq<string>, c: seq<string>, d: seq<string>, e: seq<string>)
    ensures Arranged(a, b, c, d, e) == Arranged(a, b + c, d, [], e)
  {
    assert a + b + c == a + (b + c);
    assert a + (b + c) + d + [] == a + (b + c) + d;
  }

  lemma ArrangeSkipped(a: seq<string>, b: seq<string>, n: seq<string>, w: string, e: seq<string>)
    requires e != [] && e[0] == w
    ensures Arranged(a, b, n, [], e) == Arranged(a, b, n + [w], [], e[1..])
  {
    assert e == [w] + e[1..];
  }

  lemma ArrangeConsumed(a: seq<string>, b: seq<string>, c: seq<string>, d: seq<string>, w: seq<string>,
                        e: seq<string>)
    ensures Arranged(a, b, c, d, w + e) == Arranged(a, b, c, d + w, e)
    ensures c == [] && d == [] ==> Arranged(a, b, c, d, w + e) == Arranged(a, b + w, c, d, e)
  {
    assert a + b + c + d + (w + e) == a + b + c + (d + w) + e;
    if c == [] && d == [] {
      assert a + b + [] + [] + (w + e) == a + (b + w) + [] + [] + e;
    }
  }

  lemma NothingDone(p: Parsed)
    ensures p.Prepend([] + [], [], []) == p
  {
  }

  lemma SkipPrepend(t: Table, argv: seq<string>, k: nat, o: seq<string>, n: seq<string>, e: seq<Event>)
    requires k < |argv| && t.IsNonOption(argv[k])
    ensures t.Remaining(argv, k, "").Prepend(o, n, e) == t.Remaining(argv, k + 1, "").Prepend(o, n + [argv[k]], e)
  {
    var w, after := argv[k], t.Remaining(argv, k + 1, "");
    assert n + ([w] + after.nonopts) == n + [w] + after.nonopts;
  }

  lemma EndPrepend(t: Table, argv: seq<string>, k: nat, o: seq<string>, n: seq<string>, e: seq<Event>)
    requires k < |argv| && argv[k] == "--"
    ensures t.Remaining(argv, k, "").Prepend(o, n, e) == Parsed(o + ["--"], n, argv[k + 1..], e)
  {
    assert !t.IsNonOption(argv[k]);
  }

  /** One call inside a word moves one event, and the words it finishes, from what remains to what is done. */
  lemma StepPrepend(t: Table, argv: seq<string>, k: nat, p: string, rest: string, e: Event, words: nat,
                    o: seq<string>, n: seq<string>, done: seq<Event>)
    requires k < |argv| && p != "" && |p| <= |argv[k]|
    requires t.WordStep(p, |p| < |argv[k]|, t.Next(argv, k)) == Step(e, rest, words)
    ensures k + words <= |argv| && (words == 0 ==> rest != "") && (words > 0 ==> rest == "")
    ensures t.Remaining(argv, k, p).Prepend(o, n, done) ==
            t.Remaining(argv, k + words, rest).Prepend(o + argv[k..k + words], n, done + [e])
  {
    hide Table.Remaining, Table.LongStep, Table.TakesArgument, Table.ArgumentOptional;
    if words == 0 {
      StepInside(t, argv, k, p, rest, e, o, n, done);
      assert o + argv[k..k] == o;
    } else {
      StepOver(t, argv, k, p, e, words, o, n, done);
    }
  }

  lemma StepInside(t: Table, argv: seq<string>, k: nat, p: string, rest: string, e: Event,
                   o: seq<string>, n: seq<string>, done: seq<Event>)
    requires k < |argv| && p != "" && |p| <= |argv[k]| && rest != ""
    requires t.WordStep(p, |p| < |argv[k]|, t.Next(argv, k)) == Step(e, rest, 0)
    ensures t.Remaining(argv, k, p).Prepend(o, n, done) == t.Remaining(argv, k, rest).Prepend(o, n, done + [e])
  {
    var after, taken, more := RemainingInside(t, argv, k, p, rest, e);
    InWord(after, taken, more, e, o, n, done);
  }

  lemma RemainingInside(t: Table, argv: seq<string>, k: nat, p: string, rest: string, e: Event)
    returns (after: Parsed, taken: seq<string>, more: seq<Event>)
    requires k < |argv| && p != "" && |p| <= |argv[k]| && rest != ""
    requires t.WordStep(p, |p| < |argv[k]|, t.Next(argv, k)) == Step(e, rest, 0)
    ensures t.Remaining(argv, k, p) == after.AfterWords(taken, [e] + more)
    ensures t.Remaining(argv, k, rest) == after.AfterWords(taken, more)
  {
    hide Table.Remaining, Table.WordStep, Table.Words, Table.Events;
    WordsInside(t, p, |p| < |argv[k]|, t.Next(argv, k), e, rest);
    var n, events := RemainingInWord(t, argv, k, p);
    n, more := RemainingInWord(t, argv, k, rest);
    after, taken := t.Remaining(argv, k + n, ""), argv[k..k + n];
  }

  lemma WordsInside(t: Table, p: string, behind: bool, next: Option<string>, e: Event, rest: string)
    requires p != "" && rest != "" && t.WordStep(p, behind, next) == Step(e, rest, 0)
    ensures t.Words(p, behind, next) == t.Words(rest, true, next)
    ensures t.Events(p, behind, next) == [e] + t.Events(rest, true, next)
  {
  }

  lemma WordsOver(t: Table, p: string, behind: bool, next: Option<string>, e: Event, words: nat)
    requires p != "" && words > 0 && t.WordStep(p, behind, next) == Step(e, "", words)
    ensures t.Words(p, behind, next) == words && t.Events(p, behind, next) == [e]
  {
  }

  lemma StepOver(t: Table, argv: seq<string>, k: nat, p: string, e: Event, words: nat,
                 o: seq<string>, n: seq<string>, done: seq<Event>)
    requires k < |argv| && p != "" && |p| <= |argv[k]| && words > 0
    requires t.WordStep(p, |p| < |argv[k]|, t.Next(argv, k)) == Step(e, "", words)
    ensures k + words <= |argv|
    ensures t.Remaining(argv, k, p).Prepend(o, n, done) ==
            t.Remaining(argv, k + words, "").Prepend(o + argv[k..k + words], n, done + [e])
  {
    hide Table.Remaining, Table.WordStep, Table.Words, Table.Events;
    var len, events := RemainingInWord(t, argv, k, p);
    WordsOver(t, p, |p| < |argv[k]|, t.Next(argv, k), e, words);
    WordDone(t.Remaining(argv, k + words, ""), argv[k..k + words], e, o, n, done);
  }

  lemma InWord(after: Parsed, taken: seq<string>, more: seq<Event>, e: Event, o: seq<string>, n: seq<string>,
               done: seq<Event>)
    ensures after.AfterWords(taken, [e] + more).Prepend(o, n, done) ==
            after.AfterWords(taken, more).Prepend(o, n, done + [e])
  {
    AppendEvent(done, e, more, after.events);
  }

  lemma WordDone(after: Parsed, taken: seq<string>, e: Event, o: seq<string>, n: seq<string>, done: seq<Event>)
    ensures after.AfterWords(taken, [e]).Prepend(o, n, done) == after.Prepend(o + taken, n, done + [e])
  {
    assert o + (taken + after.opts) == o + taken + after.opts;
    assert done + ([e] + after.events) == done + [e] + after.events;
  }

  lemma AppendEvent(done: seq<Event>, e: Event, more: seq<Event>, last: seq<Event>)
    ensures done + ([e] + more + last) == done + [e] + (more + last)
  {
  }

  lemma CodeIsNoEnd(t: Table, p: string, behind: bool, next: Option<string>)
    requires t.Plain() && p != ""
    ensures t.WordStep(p, behind, next).event.code != -1
  {
  }

  lemma SliceParts(all: seq<string>, a: seq<string>, b: seq<string>, c: seq<string>, d: seq<string>, e: seq<string>,
                   i: nat, j: nat, k: nat)
    requires all == Arranged(a, b, c, d, e)
    requires i == |a| + |b| && j == i + |c| && k == j + |d|
    ensures k <= |all| && all[..i] + all[j..k] + all[i..j] + all[k..] == Arranged(a, b, d, c, e)
  {
    assert all[..i] == a + b && all[i..j] == c && all[j..k] == d && all[k..] == e;
  }
}
