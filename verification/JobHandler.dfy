/** The handler object of src/net/JobResults.cpp, its methods being runs of the protocol. */
module JobHandler {
  import opened JobResults
  import opened JobQueue

  function Repeat(step: Step, n: nat): (steps: seq<Step>)
    ensures |steps| == n
    ensures n > 0 ==> steps == Repeat(step, n - 1) + [step]
  {
    if n == 0 then [] else Repeat(step, n - 1) + [step]
  }

  function DrainSteps(results: nat): seq<Step> {
    [Swap] + Repeat(Show, results) + [EndDrain]
  }

  function CompletionSteps(i: nat, shares: nat): seq<Step> {
    [Complete(i)] + Repeat(ShowFound, shares) + [EndCompletion]
  }

  function BatonSteps(i: nat, bundles: nat, shares: nat): seq<Step> {
    Repeat(Work(i), bundles) + CompletionSteps(i, shares)
  }

  /** The two lists the mutex guards, the coalescing wake-up, and what the listener has seen. */
  class JobResultsPrivate {
    const env: Env
    var results: seq<Result>
    var bundles: seq<Bundle>
    var pending: bool
    var seen: seq<Result>

    // the run of the protocol so far, and where it is
    ghost var run: seq<State>
    ghost var history: seq<Step>
    ghost var state: State

    ghost predicate OnCourse()
      reads this`run, this`history, this`state
    {
      IsRun(env, run, history) && run[|history|] == state
    }

    ghost predicate Valid()
      reads this
    {
      && OnCourse()
      && results == state.results && bundles == state.bundles && pending == state.pending && seen == state.seen
    }

    constructor (env: Env)
      ensures Valid() && this.env == env && state == INITIAL && history == []
    {
      this.env := env;
      results, bundles, pending, seen := [], [], false, [];
      run, history, state := [INITIAL], [], INITIAL;
    }

    ghost method Take(step: Step)
      requires OnCourse() && Enabled(state, step)
      modifies this`run, this`history, this`state
      ensures OnCourse()
      ensures state == Apply(env, old(state), step) && history == old(history) + [step]
    {
      RunGoesOn(env, run, history, step);
      state := Apply(env, state, step);
      run, history := run + [state], history + [step];
    }

    ghost method TakeSwap()
      requires OnCourse() && state.loop == Woken && !state.sending
      modifies this`run, this`history, this`state
      ensures OnCourse() && history == old(history) + [Swap]
      ensures state == old(state).(results := [], bundles := [],
                                   loop := Draining(old(state).results, old(state).bundles))
    {
      Take(Swap);
    }

    ghost method TakeShow()
      requires OnCourse() && state.loop.Draining? && state.loop.left != []
      modifies this`run, this`history, this`state
      ensures OnCourse() && history == old(history) + [Show]
      ensures var r := old(state).loop.left[0];
        state == old(state).(seen := old(state).seen + [r], shown := old(state).shown + [r],
                             loop := Draining(old(state).loop.left[1..], old(state).loop.taken))
    {
      Take(Show);
    }

    ghost method TakeEndDrain()
      requires OnCourse() && state.loop.Draining? && state.loop.left == []
      modifies this`run, this`history, this`state
      ensures OnCourse() && history == old(history) + [EndDrain]
      ensures var taken := old(state).loop.taken;
        state == old(state).(loop := Idle,
                             batons := old(state).batons + if taken == [] then [] else [Baton(taken, [], 0)])
    {
      Take(EndDrain);
    }

    ghost method TakeWork(at: nat)
      requires OnCourse() && at < |state.batons| && state.batons[at].todo != []
      modifies this`run, this`history, this`state
      ensures OnCourse() && history == old(history) + [Work(at)]
      ensures state == old(state).(batons := old(state).batons[at := WorkOn(env, old(state).batons[at])])
    {
      Take(Work(at));
    }

    ghost method TakeComplete(at: nat)
      requires OnCourse() && state.loop == Idle && at < |state.batons| && state.batons[at].todo == []
      modifies this`run, this`history, this`state
      ensures OnCourse() && history == old(history) + [Complete(at)]
      ensures var b := old(state).batons[at];
        state == old(state).(loop := Completing(b.found), errors := old(state).errors + b.errors,
                             batons := old(state).batons[..at] + old(state).batons[at + 1..])
    {
      Take(Complete(at));
    }

    ghost method TakeShowFound()
      requires OnCourse() && state.loop.Completing? && state.loop.left != []
      modifies this`run, this`history, this`state
      ensures OnCourse() && history == old(history) + [ShowFound]
      ensures var r := old(state).loop.left[0];
        state == old(state).(seen := old(state).seen + [r], found := old(state).found + [r],
                             loop := Completing(old(state).loop.left[1..]))
    {
      Take(ShowFound);
    }

    ghost method TakeEndCompletion()
      requires OnCourse() && state.loop.Completing? && state.loop.left == []
      modifies this`run, this`history, this`state
      ensures OnCourse() && history == old(history) + [EndCompletion]
      ensures state == old(state).(loop := Idle)
    {
      Take(EndCompletion);
    }

    method Submit(result: Result)
      requires Valid() && !state.sending
      modifies this
      ensures Valid() && history == old(history) + [SubmitResult(result), Send]
      ensures state == old(state).(results := old(results) + [result], pending := true,
                                   submitted := old(state).submitted + [result])
    {
      results := results + [result];
      Take(SubmitResult(result));
      pending := true;
      Take(Send);
      assert history == old(history) + [SubmitResult(result), Send];
    }

    method SubmitBundle(job: Job, nonces: seq<nat>)
      requires Valid() && !state.sending
      modifies this
      ensures Valid() && history == old(history) + [JobQueue.SubmitBundle(Bundle(job, nonces)), Send]
      ensures state == old(state).(bundles := old(bundles) + [Bundle(job, nonces)], pending := true,
                                   submittedBundles := old(state).submittedBundles + [Bundle(job, nonces)])
    {
      bundles := bundles + [Bundle(job, nonces)];
      Take(JobQueue.SubmitBundle(Bundle(job, nonces)));
      pending := true;
      Take(Send);
      assert history == old(history) + [JobQueue.SubmitBundle(Bundle(job, nonces)), Send];
    }

    /** The event loop takes up the pending wake-up. */
    method WakeUp()
      requires Valid() && pending && state.loop == Idle
      modifies this
      ensures Valid() && history == old(history) + [Wake]
      ensures state == old(state).(pending := false, loop := Woken)
    {
      pending := false;
      Take(Wake);
    }

    /** onAsync: swaps the lists out, shows the results to the listener, and hands the bundles on if there are any. */
    method Drain() returns (baton: seq<Bundle>)
      requires Valid() && state.loop == Woken && !state.sending
      modifies this
      ensures Valid() && history == old(history) + DrainSteps(|old(results)|)
      ensures results == [] && bundles == [] && pending == old(pending)
      ensures seen == old(seen) + old(results)
      ensures baton == old(bundles)
      ensures state.loop == Idle && state.shown == old(state).shown + old(results)
      ensures state.batons == old(state).batons + if baton == [] then [] else [Baton(baton, [], 0)]
    {
      var taken := results;
      baton := bundles;
      TakeSwap();
      results, bundles := [], [];
      ShowTaken(taken);
      TakeEndDrain();
      Behind(old(history), [Swap], Repeat(Show, |taken|), [EndDrain]);
    }

    method ShowNext(r: Result)
      requires Valid() && state.loop.Draining? && state.loop.left != [] && state.loop.left[0] == r
      modifies this`seen, this`run, this`history, this`state
      ensures Valid() && history == old(history) + [Show] && seen == old(seen) + [r]
      ensures state == old(state).(seen := seen, shown := old(state).shown + [r],
                                   loop := Draining(old(state).loop.left[1..], old(state).loop.taken))
    {
      TakeShow();
      seen := seen + [r];
    }

    method ShowTaken(taken: seq<Result>)
      requires Valid() && state.loop.Draining? && state.loop.left == taken
      modifies this`seen, this`run, this`history, this`state
      ensures Valid() && history == old(history) + Repeat(Show, |taken|)
      ensures seen == old(seen) + taken
      ensures state == old(state).(seen := old(seen) + taken, shown := old(state).shown + taken,
                                   loop := Draining([], old(state).loop.taken))
    {
      hide OnCourse;
      var i := 0;
      while i < |taken|
        invariant 0 <= i <= |taken| && Valid() && history == old(history) + Repeat(Show, i)
        invariant seen == old(seen) + taken[..i]
        invariant state == old(state).(seen := seen, shown := old(state).shown + taken[..i],
                                       loop := Draining(taken[i..], old(state).loop.taken))
      {
        OneMore(taken, i);
        ShowNext(taken[i]);
        i := i + 1;
      }
      assert taken[..i] == taken && taken[i..] == [];
    }

    /**
      The work of a baton and its completion: the shares of all its bundles reach the listener in order, and every
      nonce is a result or an error.
      */
    method FinishBaton(ghost at: nat, baton: seq<Bundle>) returns (errors: nat)
      requires Valid() && state.loop == Idle && at < |state.batons| && state.batons[at] == Baton(baton, [], 0)
      modifies this
      ensures Valid() && history == old(history) + BatonSteps(at, |baton|, |AllShares(env, baton)|)
      ensures results == old(results) && bundles == old(bundles) && pending == old(pending)
      ensures seen == old(seen) + AllShares(env, baton)
      ensures |AllShares(env, baton)| + errors == CountNonces(baton)
      ensures state.loop == Idle && state.batons == old(state).batons[..at] + old(state).batons[at + 1..]
      ensures state.found == old(state).found + AllShares(env, baton) && state.errors == old(state).errors + errors
    {
      var found;
      found, errors := DoWork(at, baton);
      Removed(old(state).batons, at, state.batons);
      CompleteBaton(at, found, errors);
      AssociateSteps(old(history), Repeat(Work(at), |baton|), CompletionSteps(at, |found|));
    }

    method CompleteBaton(ghost at: nat, found: seq<Result>, ghost errors: nat)
      requires Valid() && state.loop == Idle && at < |state.batons| && state.batons[at] == Baton([], found, errors)
      modifies this`seen, this`run, this`history, this`state
      ensures Valid() && history == old(history) + CompletionSteps(at, |found|)
      ensures seen == old(seen) + found
      ensures state == old(state).(seen := seen, found := old(state).found + found,
                                   errors := old(state).errors + errors,
                                   batons := old(state).batons[..at] + old(state).batons[at + 1..])
    {
      TakeComplete(at);
      ShowFoundShares(found);
      TakeEndCompletion();
      Behind(old(history), [Complete(at)], Repeat(ShowFound, |found|), [EndCompletion]);
    }

    method ShowNextFound(r: Result)
      requires Valid() && state.loop.Completing? && state.loop.left != [] && state.loop.left[0] == r
      modifies this`seen, this`run, this`history, this`state
      ensures Valid() && history == old(history) + [ShowFound] && seen == old(seen) + [r]
      ensures state == old(state).(seen := seen, found := old(state).found + [r],
                                   loop := Completing(old(state).loop.left[1..]))
    {
      TakeShowFound();
      seen := seen + [r];
    }

    method ShowFoundShares(found: seq<Result>)
      requires Valid() && state.loop == Completing(found)
      modifies this`seen, this`run, this`history, this`state
      ensures Valid() && history == old(history) + Repeat(ShowFound, |found|)
      ensures seen == old(seen) + found
      ensures state == old(state).(seen := old(seen) + found, found := old(state).found + found, loop := Completing([]))
    {
      hide OnCourse;
      var i := 0;
      while i < |found|
        invariant 0 <= i <= |found| && Valid() && history == old(history) + Repeat(ShowFound, i)
        invariant seen == old(seen) + found[..i]
        invariant state == old(state).(seen := seen, found := old(state).found + found[..i],
                                       loop := Completing(found[i..]))
      {
        OneMore(found, i);
        ShowNextFound(found[i]);
        i := i + 1;
      }
      assert found[..i] == found && found[i..] == [];
    }

    /** The worker thread: one bundle of the baton after the other. */
    method DoWork(ghost at: nat, baton: seq<Bundle>) returns (found: seq<Result>, errors: nat)
      requires Valid() && at < |state.batons| && state.batons[at] == Baton(baton, [], 0)
      modifies this`run, this`history, this`state
      ensures Valid() && history == old(history) + Repeat(Work(at), |baton|)
      ensures found == AllShares(env, baton) && |found| + errors == CountNonces(baton)
      ensures state == old(state).(batons := old(state).batons[at := Baton([], found, errors)])
    {
      hide OnCourse;
      found, errors := [], 0;
      var i := 0;
      NothingWorked(state, history, at, baton);
      while i < |baton|
        invariant i <= |baton| && Worked(old(state), old(history), at, baton, i, found, errors)
      {
        found, errors := WorkNext(old(state), old(history), at, baton, i, found, errors);
        i := i + 1;
      }
      assert baton[..i] == baton && baton[i..] == [];
    }

    /** The first i bundles of a baton are done, from a given state on. */
    ghost predicate Worked(before: State, past: seq<Step>, at: nat, baton: seq<Bundle>, i: nat, found: seq<Result>,
                           errors: nat)
      requires at < |before.batons| && i <= |baton|
      reads this
    {
      && Valid() && history == past + Repeat(Work(at), i)
      && found == AllShares(env, baton[..i]) && |found| + errors == CountNonces(baton[..i])
      && state == before.(batons := before.batons[at := Baton(baton[i..], found, errors)])
    }

    lemma NothingWorked(before: State, past: seq<Step>, at: nat, baton: seq<Bundle>)
      requires Valid() && state == before && history == past
      requires at < |before.batons| && before.batons[at] == Baton(baton, [], 0)
      ensures Worked(before, past, at, baton, 0, [], 0)
    {
      assert baton[0..] == baton;
      assert before.batons == before.batons[at := Baton(baton[0..], [], 0)];
    }

    method WorkNext(ghost before: State, ghost past: seq<Step>, ghost at: nat, baton: seq<Bundle>, i: nat,
                    foundIn: seq<Result>, errorsIn: nat)
      returns (found: seq<Result>, errors: nat)
      requires at < |before.batons| && i < |baton| && Worked(before, past, at, baton, i, foundIn, errorsIn)
      modifies this`run, this`history, this`state
      ensures Worked(before, past, at, baton, i + 1, found, errors)
    {
      SharesOfOneMore(env, baton, i);
      found, errors := DoBundle(at, baton[i], foundIn, errorsIn);
      assert baton[i..][1..] == baton[i + 1..];
      UpdateTwice(before.batons, at, Baton(baton[i..], foundIn, errorsIn), Baton(baton[i + 1..], found, errors));
    }

    method DoBundle(ghost at: nat, bundle: Bundle, foundIn: seq<Result>, errorsIn: nat)
      returns (found: seq<Result>, errors: nat)
      requires Valid() && at < |state.batons|
      requires var b := state.batons[at];
        b.todo != [] && b.todo[0] == bundle && b.found == foundIn && b.errors == errorsIn
      modifies this`run, this`history, this`state
      ensures Valid() && history == old(history) + [Work(at)]
      ensures found == foundIn + Shares(env, bundle.job, bundle.nonces)
      ensures |found| + errors == |foundIn| + errorsIn + |bundle.nonces|
      ensures state == old(state).(batons :=
                old(state).batons[at := Baton(old(state).batons[at].todo[1..], found, errors)])
    {
      found, errors := GetResults(env, bundle, foundIn, errorsIn);
      TakeWork(at);
    }
  }

  lemma UpdateTwice(batons: seq<Baton>, at: nat, was: Baton, now: Baton)
    requires at < |batons|
    ensures batons[at := was][at := now] == batons[at := now]
  {
  }

  lemma Removed(batons: seq<Baton>, at: nat, changed: seq<Baton>)
    requires at < |batons| && |changed| == |batons|
    requires forall k :: 0 <= k < |batons| && k != at ==> changed[k] == batons[k]
    ensures changed[..at] + changed[at + 1..] == batons[..at] + batons[at + 1..]
  {
  }

  lemma AssociateSteps(a: seq<Step>, b: seq<Step>, c: seq<Step>)
    ensures a + b + c == a + (b + c)
  {
  }

  lemma Behind(before: seq<Step>, a: seq<Step>, b: seq<Step>, c: seq<Step>)
    ensures before + a + b + c == before + (a + b + c)
  {
  }

  lemma OneMore(s: seq<Result>, i: nat)
    requires i < |s|
    ensures s[..i] + [s[i]] == s[..i + 1] && s[i..][0] == s[i] && s[i..][1..] == s[i + 1..]
  {
  }

  lemma SharesOfOneMore(env: Env, bundles: seq<Bundle>, i: nat)
    requires i < |bundles|
    ensures AllShares(env, bundles[..i + 1]) ==
            AllShares(env, bundles[..i]) + Shares(env, bundles[i].job, bundles[i].nonces)
    ensures CountNonces(bundles[..i + 1]) == CountNonces(bundles[..i]) + |bundles[i].nonces|
  {
    var done := bundles[..i + 1];
    assert done[..i] == bundles[..i] && done[i] == bundles[i];
  }

  /** Whatever has been called on the handler, the invariant of the protocol holds of it. */
  lemma HandlerKeepsInv(h: JobResultsPrivate)
    requires h.Valid()
    ensures Inv(h.env, h.state)
  {
    RunsKeepInv(h.env, h.run, h.history, |h.history|);
  }

  /** At rest the listener has seen every result and every share that was submitted, each as often. */
  lemma HandlerDelivers(h: JobResultsPrivate)
    requires h.Valid() && Quiescent(h.state)
    ensures multiset(h.seen) ==
            multiset(h.state.submitted) + multiset(AllShares(h.env, h.state.submittedBundles))
    ensures forall r :: r in h.seen <==> r in h.state.submitted || Earned(h.env, h.state.submittedBundles, r)
    ensures h.results == [] && h.bundles == []
  {
    HandlerKeepsInv(h);
    QuiescentIsComplete(h.env, h.state);
    forall r ensures r in h.seen <==> r in h.state.submitted || Earned(h.env, h.state.submittedBundles, r) {
      EarnedIsFound(h.env, h.state, r);
      SeenFrom(h.state, r);
    }
  }

  lemma SeenFrom(s: State, r: Result)
    requires SeenIsShown(s)
    ensures r in s.seen <==> r in s.shown || r in s.found
  {
    assert r in multiset(s.seen) <==> r in multiset(s.shown) + multiset(s.found);
  }
}
