/**
  The submission protocol of src/net/JobResults.cpp under every interleaving: producers that append under the mutex
  and send, a loop thread that wakes up, swaps and drains, and worker threads that check the bundles.
  */
module JobQueue {
  import opened JobResults

  /** A work request: bundles not yet checked, and the shares and errors found in the others. */
  datatype Baton = Baton(todo: seq<Bundle>, found: seq<Result>, errors: nat)

  /** The loop thread: between callbacks, woken but before the swap, draining, or showing what a baton found. */
  datatype Loop =
    | Idle
    | Woken
    | Draining(left: seq<Result>, taken: seq<Bundle>)
    | Completing(left: seq<Result>)

  datatype State = State(
    // the lists under the mutex; sending: a producer is inside it, between its append and its send
    results: seq<Result>, bundles: seq<Bundle>, sending: bool,
    pending: bool, loop: Loop, batons: seq<Baton>,
    // history: submissions in lock order, and what the listener has seen, in all and by where it came from
    submitted: seq<Result>, submittedBundles: seq<Bundle>,
    seen: seq<Result>, shown: seq<Result>, found: seq<Result>, errors: nat)

  datatype Step =
    | SubmitResult(r: Result) | SubmitBundle(b: Bundle) | Send
    | Wake | Swap | Show | EndDrain
    | Work(i: nat) | Complete(i: nat) | ShowFound | EndCompletion

  const INITIAL := State([], [], false, false, Idle, [], [], [], [], [], [], 0)

  predicate Enabled(s: State, step: Step) {
    match step
    case SubmitResult(_) => !s.sending
    case SubmitBundle(_) => !s.sending
    case Send => s.sending
    case Wake => s.pending && s.loop == Idle
    case Swap => s.loop == Woken && !s.sending
    case Show => s.loop.Draining? && s.loop.left != []
    case EndDrain => s.loop.Draining? && s.loop.left == []
    case Work(i) => i < |s.batons| && s.batons[i].todo != []
    case Complete(i) => s.loop == Idle && i < |s.batons| && s.batons[i].todo == []
    case ShowFound => s.loop.Completing? && s.loop.left != []
    case EndCompletion => s.loop.Completing? && s.loop.left == []
  }

  function WorkOn(env: Env, b: Baton): Baton
    requires b.todo != []
  {
    var shares := Shares(env, b.todo[0].job, b.todo[0].nonces);
    SharesBound(env, b.todo[0].job, b.todo[0].nonces);
    Baton(b.todo[1..], b.found + shares, b.errors + |b.todo[0].nonces| - |shares|)
  }

  function Apply(env: Env, s: State, step: Step): State
    requires Enabled(s, step)
  {
    match step
    case SubmitResult(r) => s.(results := s.results + [r], submitted := s.submitted + [r], sending := true)
    case SubmitBundle(b) =>
      s.(bundles := s.bundles + [b], submittedBundles := s.submittedBundles + [b], sending := true)
    case Send => s.(sending := false, pending := true)
    case Wake => s.(pending := false, loop := Woken)
    case Swap => s.(results := [], bundles := [], loop := Draining(s.results, s.bundles))
    case Show =>
      var r := s.loop.left[0];
      s.(seen := s.seen + [r], shown := s.shown + [r], loop := Draining(s.loop.left[1..], s.loop.taken))
    case EndDrain =>
      s.(loop := Idle, batons := if s.loop.taken == [] then s.batons else s.batons + [Baton(s.loop.taken, [], 0)])
    case Work(i) => s.(batons := s.batons[i := WorkOn(env, s.batons[i])])
    case Complete(i) =>
      s.(loop := Completing(s.batons[i].found), errors := s.errors + s.batons[i].errors,
         batons := s.batons[..i] + s.batons[i + 1..])
    case ShowFound =>
      var r := s.loop.left[0];
      s.(seen := s.seen + [r], found := s.found + [r], loop := Completing(s.loop.left[1..]))
    case EndCompletion => s.(loop := Idle)
  }

  // ------------------------------------------------------------------ what is under way

  /** The shares a baton has found or will find, and the nonces it stands for. */
  ghost function BatonShares(env: Env, batons: seq<Baton>): multiset<Result> {
    if batons == [] then multiset{}
    else multiset(batons[0].found) + multiset(AllShares(env, batons[0].todo)) + BatonShares(env, batons[1..])
  }

  function BatonCount(batons: seq<Baton>): nat {
    if batons == [] then 0
    else |batons[0].found| + batons[0].errors + CountNonces(batons[0].todo) + BatonCount(batons[1..])
  }

  function DrainLeft(loop: Loop): seq<Result> {
    if loop.Draining? then loop.left else []
  }

  function Taken(loop: Loop): seq<Bundle> {
    if loop.Draining? then loop.taken else []
  }

  function FoundLeft(loop: Loop): seq<Result> {
    if loop.Completing? then loop.left else []
  }

  /** Every result is shown, about to be, or waiting, in the order of submission. */
  predicate InOrder(s: State) {
    s.shown + DrainLeft(s.loop) + s.results == s.submitted
  }

  /** Nothing waits without a wake-up that has still to come to its swap. */
  predicate Awake(s: State) {
    s.results != [] || s.bundles != [] ==> s.pending || s.loop == Woken || s.sending
  }

  /** The shares that have been shown, found, or will be. */
  ghost function SharesUnderWay(env: Env, s: State): multiset<Result> {
    multiset(s.found) + multiset(FoundLeft(s.loop)) + BatonShares(env, s.batons) +
    multiset(AllShares(env, Taken(s.loop))) + multiset(AllShares(env, s.bundles))
  }

  /** The nonces that have become a result or an error, or will. */
  function NoncesUnderWay(s: State): nat {
    |s.found| + |FoundLeft(s.loop)| + s.errors + BatonCount(s.batons) +
    CountNonces(Taken(s.loop)) + CountNonces(s.bundles)
  }

  /** What the listener has seen is what it was shown by drains and by completions. */
  ghost predicate SeenIsShown(s: State) {
    multiset(s.seen) == multiset(s.shown) + multiset(s.found)
  }

  ghost predicate Inv(env: Env, s: State) {
    && InOrder(s) && Awake(s) && SeenIsShown(s)
    && SharesUnderWay(env, s) == multiset(AllShares(env, s.submittedBundles))
    && NoncesUnderWay(s) == CountNonces(s.submittedBundles)
  }

  lemma InitialInv(env: Env)
    ensures Inv(env, INITIAL)
  {
  }

  lemma {:induction false} BatonsConcat(env: Env, a: seq<Baton>, b: seq<Baton>)
    ensures BatonShares(env, a + b) == BatonShares(env, a) + BatonShares(env, b)
    ensures BatonCount(a + b) == BatonCount(a) + BatonCount(b)
  {
    if a == [] {
      assert a + b == b;
    } else {
      assert (a + b)[1..] == a[1..] + b;
      BatonsConcat(env, a[1..], b);
    }
  }

  /** Singling out baton i. */
  lemma BatonsAt(env: Env, batons: seq<Baton>, i: nat)
    requires i < |batons|
    ensures BatonShares(env, batons) ==
            BatonShares(env, [batons[i]]) + BatonShares(env, batons[..i] + batons[i + 1..])
    ensures BatonCount(batons) == BatonCount([batons[i]]) + BatonCount(batons[..i] + batons[i + 1..])
  {
    assert batons == batons[..i] + ([batons[i]] + batons[i + 1..]);
    BatonsConcat(env, batons[..i], [batons[i]] + batons[i + 1..]);
    BatonsConcat(env, [batons[i]], batons[i + 1..]);
    BatonsConcat(env, batons[..i], batons[i + 1..]);
  }

  lemma OneBaton(env: Env, b: Baton)
    ensures BatonShares(env, [b]) == multiset(b.found) + multiset(AllShares(env, b.todo))
    ensures BatonCount([b]) == |b.found| + b.errors + CountNonces(b.todo)
  {
    assert [b][1..] == [];
  }

  lemma WorkKeeps(env: Env, b: Baton)
    requires b.todo != []
    ensures BatonShares(env, [WorkOn(env, b)]) == BatonShares(env, [b])
    ensures BatonCount([WorkOn(env, b)]) == BatonCount([b])
  {
    hide BatonShares, BatonCount, AllShares, CountNonces, Shares;
    OneBaton(env, b);
    OneBaton(env, WorkOn(env, b));
    FirstBundle(env, b.todo);
    SharesBound(env, b.todo[0].job, b.todo[0].nonces);
  }

  lemma FirstBundle(env: Env, todo: seq<Bundle>)
    requires todo != []
    ensures AllShares(env, todo) == Shares(env, todo[0].job, todo[0].nonces) + AllShares(env, todo[1..])
    ensures CountNonces(todo) == |todo[0].nonces| + CountNonces(todo[1..])
  {
    assert todo == [todo[0]] + todo[1..];
    AllSharesConcat(env, [todo[0]], todo[1..]);
    OneBundle(env, todo[0]);
  }

  lemma OneBundle(env: Env, b: Bundle)
    ensures AllShares(env, [b]) == Shares(env, b.job, b.nonces) && CountNonces([b]) == |b.nonces|
  {
    assert [b][..0] == [];
  }

  // ------------------------------------------------------------------ every step keeps it

  lemma StepKeepsInv(env: Env, s: State, step: Step)
    requires Inv(env, s) && Enabled(s, step)
    ensures Inv(env, Apply(env, s, step))
  {
    StepKeepsOrder(env, s, step);
    StepKeepsAwake(env, s, step);
    StepKeepsSeen(env, s, step);
    StepKeepsShares(env, s, step);
    StepKeepsNonces(env, s, step);
    SubmissionsGrow(env, s, step);
  }

  lemma SubmissionsGrow(env: Env, s: State, step: Step)
    requires Enabled(s, step)
    ensures var now := Apply(env, s, step).submittedBundles;
      && AllShares(env, now) == AllShares(env, s.submittedBundles) + AllShares(env, NewBundles(step))
      && CountNonces(now) == CountNonces(s.submittedBundles) + CountNonces(NewBundles(step))
  {
    AllSharesConcat(env, s.submittedBundles, NewBundles(step));
    assert s.submittedBundles + [] == s.submittedBundles;
  }

  lemma StepKeepsOrder(env: Env, s: State, step: Step)
    requires InOrder(s) && Enabled(s, step)
    ensures InOrder(Apply(env, s, step))
  {
    match step
    case SubmitResult(r) => assert s.shown + DrainLeft(s.loop) + (s.results + [r]) == s.submitted + [r];
    case SubmitBundle(_) =>
    case Send =>
    case Wake =>
    case Swap => assert s.shown + [] + s.results == s.shown + s.results + [];
    case Show =>
      var x, rest := s.loop.left[0], s.loop.left[1..];
      assert s.shown + s.loop.left + s.results == s.shown + [x] + rest + s.results;
    case EndDrain =>
    case Work(_) =>
    case Complete(_) =>
    case ShowFound =>
    case EndCompletion =>
  }

  lemma StepKeepsAwake(env: Env, s: State, step: Step)
    requires Awake(s) && Enabled(s, step)
    ensures Awake(Apply(env, s, step))
  {
  }

  lemma StepKeepsSeen(env: Env, s: State, step: Step)
    requires SeenIsShown(s) && Enabled(s, step)
    ensures SeenIsShown(Apply(env, s, step))
  {
  }

  function NewBundles(step: Step): seq<Bundle> {
    if step.SubmitBundle? then [step.b] else []
  }

  lemma StepKeepsShares(env: Env, s: State, step: Step)
    requires Enabled(s, step)
    ensures SharesUnderWay(env, Apply(env, s, step)) ==
            SharesUnderWay(env, s) + multiset(AllShares(env, NewBundles(step)))
  {
    hide SharesUnderWay, Apply, Enabled;
    match step
    case SubmitBundle(b) => SubmitBundleAddsShares(env, s, b);
    case EndDrain => EndDrainKeepsShares(env, s);
    case Work(i) => WorkKeepsShares(env, s, i);
    case Complete(i) => CompleteKeepsShares(env, s, i);
    case ShowFound => ShowFoundKeepsShares(env, s);
    case _ => OtherStepsKeepShares(env, s, step);
  }

  /** The steps that touch neither bundles under way nor shares. */
  lemma OtherStepsKeepShares(env: Env, s: State, step: Step)
    requires Enabled(s, step) && !step.SubmitBundle? && !step.EndDrain? && !step.Work? && !step.Complete?
    requires !step.ShowFound?
    ensures SharesUnderWay(env, Apply(env, s, step)) == SharesUnderWay(env, s)
  {
  }

  lemma WorkKeepsShares(env: Env, s: State, i: nat)
    requires Enabled(s, Work(i))
    ensures SharesUnderWay(env, Apply(env, s, Work(i))) == SharesUnderWay(env, s)
  {
    WorkKeepsBatons(env, s.batons, i);
  }

  lemma SubmitBundleAddsShares(env: Env, s: State, b: Bundle)
    requires Enabled(s, SubmitBundle(b))
    ensures SharesUnderWay(env, Apply(env, s, SubmitBundle(b))) ==
            SharesUnderWay(env, s) + multiset(AllShares(env, [b]))
  {
    AllSharesConcat(env, s.bundles, [b]);
  }

  lemma EndDrainKeepsShares(env: Env, s: State)
    requires Enabled(s, EndDrain)
    ensures SharesUnderWay(env, Apply(env, s, EndDrain)) == SharesUnderWay(env, s)
  {
    hide BatonShares, AllShares;
    NoBundles(env);
    NewBaton(env, s.batons, s.loop.taken);
    Regroup(multiset(s.found) + multiset(FoundLeft(s.loop)), BatonShares(env, s.batons),
            multiset(AllShares(env, s.loop.taken)), multiset(AllShares(env, s.bundles)));
  }

  lemma Regroup(a: multiset<Result>, b: multiset<Result>, c: multiset<Result>, d: multiset<Result>)
    ensures a + (b + c) + multiset{} + d == a + b + c + d
  {
  }

  lemma NoBundles(env: Env)
    ensures AllShares(env, []) == [] && CountNonces([]) == 0
  {
  }

  /** The baton made of what a drain took, if it took anything. */
  lemma NewBaton(env: Env, batons: seq<Baton>, taken: seq<Bundle>)
    ensures var now := batons + if taken == [] then [] else [Baton(taken, [], 0)];
      && BatonShares(env, now) == BatonShares(env, batons) + multiset(AllShares(env, taken))
      && BatonCount(now) == BatonCount(batons) + CountNonces(taken)
  {
    if taken == [] {
      assert batons + [] == batons;
    } else {
      BatonsConcat(env, batons, [Baton(taken, [], 0)]);
      OneBaton(env, Baton(taken, [], 0));
    }
  }

  lemma CompleteKeepsShares(env: Env, s: State, i: nat)
    requires Enabled(s, Complete(i))
    ensures SharesUnderWay(env, Apply(env, s, Complete(i))) == SharesUnderWay(env, s)
  {
    BatonsAt(env, s.batons, i);
    OneBaton(env, s.batons[i]);
  }

  lemma ShowFoundKeepsShares(env: Env, s: State)
    requires Enabled(s, ShowFound)
    ensures SharesUnderWay(env, Apply(env, s, ShowFound)) == SharesUnderWay(env, s)
  {
    var left := s.loop.left;
    FirstOut(left);
    LastIn(s.found, left[0]);
    MoveOver(multiset(s.found), multiset{left[0]}, multiset(left[1..]), BatonShares(env, s.batons),
             multiset(AllShares(env, Taken(s.loop))), multiset(AllShares(env, s.bundles)));
    var t := Apply(env, s, ShowFound);
    assert t.found == s.found + [left[0]] && FoundLeft(t.loop) == left[1..] && Taken(t.loop) == Taken(s.loop);
  }

  lemma MoveOver(a: multiset<Result>, x: multiset<Result>, b: multiset<Result>, c: multiset<Result>,
                 d: multiset<Result>, e: multiset<Result>)
    ensures a + x + b + c + d + e == a + (x + b) + c + d + e
  {
  }

  lemma FirstOut(s: seq<Result>)
    requires s != []
    ensures multiset(s) == multiset{s[0]} + multiset(s[1..])
  {
    assert s == [s[0]] + s[1..];
  }

  lemma LastIn(s: seq<Result>, r: Result)
    ensures multiset(s + [r]) == multiset(s) + multiset{r}
  {
  }

  lemma StepKeepsNonces(env: Env, s: State, step: Step)
    requires Enabled(s, step)
    ensures NoncesUnderWay(Apply(env, s, step)) == NoncesUnderWay(s) + CountNonces(NewBundles(step))
  {
    hide BatonShares, BatonCount, AllShares;
    match step
    case SubmitBundle(b) => AllSharesConcat(env, s.bundles, [b]);
    case EndDrain => EndDrainKeepsNonces(env, s);
    case Work(i) => WorkKeepsBatons(env, s.batons, i);
    case Complete(i) => CompleteKeepsNonces(env, s, i);
    case _ =>
  }

  lemma EndDrainKeepsNonces(env: Env, s: State)
    requires Enabled(s, EndDrain)
    ensures NoncesUnderWay(Apply(env, s, EndDrain)) == NoncesUnderWay(s)
  {
    hide BatonCount, AllShares;
    NewBaton(env, s.batons, s.loop.taken);
  }

  lemma CompleteKeepsNonces(env: Env, s: State, i: nat)
    requires Enabled(s, Complete(i))
    ensures NoncesUnderWay(Apply(env, s, Complete(i))) == NoncesUnderWay(s)
  {
    BatonsAt(env, s.batons, i);
    OneBaton(env, s.batons[i]);
  }

  lemma WorkKeepsBatons(env: Env, batons: seq<Baton>, i: nat)
    requires i < |batons| && batons[i].todo != []
    ensures BatonShares(env, batons[i := WorkOn(env, batons[i])]) == BatonShares(env, batons)
    ensures BatonCount(batons[i := WorkOn(env, batons[i])]) == BatonCount(batons)
  {
    var after := batons[i := WorkOn(env, batons[i])];
    BatonsAt(env, batons, i);
    BatonsAt(env, after, i);
    assert after[..i] == batons[..i] && after[i + 1..] == batons[i + 1..];
    WorkKeeps(env, batons[i]);
  }

  // ------------------------------------------------------------------ whole runs

  /** A run: the states from the initial one on, each reached from the one before by an enabled step. */
  ghost predicate IsRun(env: Env, states: seq<State>, steps: seq<Step>) {
    && |states| == |steps| + 1 && states[0] == INITIAL
    && forall k :: 0 <= k < |steps| ==> Enabled(states[k], steps[k]) && states[k + 1] == Apply(env, states[k], steps[k])
  }

  lemma {:induction false} RunsKeepInv(env: Env, states: seq<State>, steps: seq<Step>, k: nat)
    requires IsRun(env, states, steps) && k < |states|
    ensures Inv(env, states[k])
  {
    if k == 0 {
      InitialInv(env);
    } else {
      RunsKeepInv(env, states, steps, k - 1);
      StepKeepsInv(env, states[k - 1], steps[k - 1]);
    }
  }

  lemma RunGoesOn(env: Env, states: seq<State>, steps: seq<Step>, step: Step)
    requires IsRun(env, states, steps) && Enabled(states[|steps|], step)
    ensures IsRun(env, states + [Apply(env, states[|steps|], step)], steps + [step])
  {
  }

  predicate IsSubmission(step: Step) {
    step.SubmitResult? || step.SubmitBundle?
  }

  /** No step is left that is not a new submission. */
  ghost predicate Quiescent(s: State) {
    forall step :: Enabled(s, step) ==> IsSubmission(step)
  }

  /** Then all is delivered: results once each and in order, shares as often as submitted, every nonce accounted for. */
  lemma QuiescentIsComplete(env: Env, s: State)
    requires Inv(env, s) && Quiescent(s)
    ensures s.results == [] && s.bundles == [] && s.batons == []
    ensures s.shown == s.submitted
    ensures multiset(s.found) == multiset(AllShares(env, s.submittedBundles))
    ensures |s.found| + s.errors == CountNonces(s.submittedBundles)
  {
    NothingLeftToDo(s);
    assert s.shown + [] + [] == s.shown;
  }

  /** ... which are the results that the nonces of the submitted bundles earn, and no others. */
  lemma EarnedIsFound(env: Env, s: State, r: Result)
    requires Inv(env, s) && Quiescent(s)
    ensures r in s.found <==> Earned(env, s.submittedBundles, r)
  {
    hide Inv, Quiescent, AllShares, Earned;
    QuiescentIsComplete(env, s);
    assert r in multiset(s.found) <==> r in multiset(AllShares(env, s.submittedBundles));
    AllSharesAreEarned(env, s.submittedBundles, r);
  }

  lemma NothingLeftToDo(s: State)
    requires Quiescent(s)
    ensures s.loop == Idle && !s.pending && !s.sending && s.batons == []
  {
    assert !Enabled(s, Send) && !Enabled(s, Wake) && !Enabled(s, Swap);
    assert !Enabled(s, Show) && !Enabled(s, EndDrain) && !Enabled(s, ShowFound) && !Enabled(s, EndCompletion);
    assert !Enabled(s, Work(0)) && !Enabled(s, Complete(0));
  }

  // ------------------------------------------------------------------ progress

  function BundleWeight(bundles: seq<Bundle>): nat {
    if bundles == [] then 0 else |bundles[0].nonces| + 1 + BundleWeight(bundles[1..])
  }

  function BatonWeight(batons: seq<Baton>): nat {
    if batons == [] then 0 else 5 + |batons[0].found| + BundleWeight(batons[0].todo) + BatonWeight(batons[1..])
  }

  function LoopWeight(loop: Loop): nat {
    match loop
    case Idle => 0
    case Woken => 7
    case Draining(left, taken) => 6 + |left| + BundleWeight(taken)
    case Completing(left) => 4 + |left|
  }

  /** How much is left to do without new submissions. */
  function Weight(s: State): nat {
    (if s.sending then 10 else 0) + (if s.pending then 8 else 0) + 2 * |s.results| + BundleWeight(s.bundles)
    + LoopWeight(s.loop) + BatonWeight(s.batons)
  }

  lemma {:induction false} BatonWeightConcat(a: seq<Baton>, b: seq<Baton>)
    ensures BatonWeight(a + b) == BatonWeight(a) + BatonWeight(b)
  {
    if a == [] {
      assert a + b == b;
    } else {
      assert (a + b)[1..] == a[1..] + b;
      BatonWeightConcat(a[1..], b);
    }
  }

  lemma BatonWeightAt(batons: seq<Baton>, i: nat)
    requires i < |batons|
    ensures BatonWeight(batons) == 5 + |batons[i].found| + BundleWeight(batons[i].todo)
                                   + BatonWeight(batons[..i] + batons[i + 1..])
  {
    assert batons == batons[..i] + ([batons[i]] + batons[i + 1..]);
    BatonWeightConcat(batons[..i], [batons[i]] + batons[i + 1..]);
    BatonWeightConcat([batons[i]], batons[i + 1..]);
    BatonWeightConcat(batons[..i], batons[i + 1..]);
    assert [batons[i]][1..] == [];
  }

  /** Every step but a submission brings the end nearer: nothing is forgotten by looping for ever. */
  lemma StepLightens(env: Env, s: State, step: Step)
    requires Enabled(s, step) && !IsSubmission(step)
    ensures Weight(Apply(env, s, step)) < Weight(s)
  {
    match step
    case Send =>
    case Wake =>
    case Swap =>
    case Show =>
    case EndDrain => EndDrainLightens(env, s);
    case Work(i) => WorkLightens(env, s.batons, i);
    case Complete(i) => CompleteLightens(env, s, i);
    case ShowFound =>
    case EndCompletion =>
  }

  lemma EndDrainLightens(env: Env, s: State)
    requires Enabled(s, EndDrain)
    ensures Weight(Apply(env, s, EndDrain)) < Weight(s)
  {
    NewBatonWeight(s.batons, s.loop.taken);
  }

  lemma CompleteLightens(env: Env, s: State, i: nat)
    requires Enabled(s, Complete(i))
    ensures Weight(Apply(env, s, Complete(i))) < Weight(s)
  {
    BatonWeightAt(s.batons, i);
  }

  lemma NewBatonWeight(batons: seq<Baton>, taken: seq<Bundle>)
    ensures BatonWeight(batons + [Baton(taken, [], 0)]) == BatonWeight(batons) + 5 + BundleWeight(taken)
  {
    BatonWeightConcat(batons, [Baton(taken, [], 0)]);
    assert [Baton(taken, [], 0)][1..] == [];
  }

  lemma WorkLightens(env: Env, batons: seq<Baton>, i: nat)
    requires i < |batons| && batons[i].todo != []
    ensures BatonWeight(batons[i := WorkOn(env, batons[i])]) < BatonWeight(batons)
  {
    var b, after := batons[i], batons[i := WorkOn(env, batons[i])];
    BatonWeightAt(batons, i);
    BatonWeightAt(after, i);
    assert after[..i] == batons[..i] && after[i + 1..] == batons[i + 1..];
    SharesBound(env, b.todo[0].job, b.todo[0].nonces);
  }

  /** Without submissions no run goes on for longer than what was left to do. */
  lemma {:induction false} QuietRunsEnd(env: Env, states: seq<State>, steps: seq<Step>)
    requires |states| == |steps| + 1
    requires forall k :: 0 <= k < |steps| ==>
               Enabled(states[k], steps[k]) && states[k + 1] == Apply(env, states[k], steps[k])
    requires forall k :: 0 <= k < |steps| ==> !IsSubmission(steps[k])
    ensures |steps| + Weight(states[|steps|]) <= Weight(states[0])
  {
    if steps != [] {
      var n := |steps| - 1;
      QuietRunsEnd(env, states[..n + 1], steps[..n]);
      StepLightens(env, states[n], steps[n]);
    }
  }

  /** A run that has come to rest has delivered everything; one that has not has delivered a prefix. */
  lemma RunDelivers(env: Env, states: seq<State>, steps: seq<Step>)
    requires IsRun(env, states, steps)
    ensures var s := states[|steps|];
      && s.shown <= s.submitted
      && (Quiescent(s) ==>
            && s.shown == s.submitted
            && multiset(s.found) == multiset(AllShares(env, s.submittedBundles))
            && |s.found| + s.errors == CountNonces(s.submittedBundles))
  {
    RunsKeepInv(env, states, steps, |steps|);
    DeliveredSoFar(env, states[|steps|]);
  }

  lemma DeliveredSoFar(env: Env, s: State)
    requires Inv(env, s)
    ensures s.shown <= s.submitted
    ensures Quiescent(s) ==>
      && s.shown == s.submitted
      && multiset(s.found) == multiset(AllShares(env, s.submittedBundles))
      && |s.found| + s.errors == CountNonces(s.submittedBundles)
  {
    ShownIsPrefix(s);
    if Quiescent(s) {
      QuiescentIsComplete(env, s);
    }
  }

  lemma ShownIsPrefix(s: State)
    requires InOrder(s)
    ensures s.shown <= s.submitted
  {
    assert s.shown + DrainLeft(s.loop) + s.results == s.shown + (DrainLeft(s.loop) + s.results);
  }
}
