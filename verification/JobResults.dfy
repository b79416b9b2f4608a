/** Share submission of src/net/JobResults.cpp: the locked lists, the drain, and the checking of GPU bundles. */
module JobResults {
  datatype Family = RandomX | Argon2 | KawPow | Other

  datatype Job = Job(id: nat, family: Family, target: nat)

  datatype Result = Result(job: Job, nonce: nat, hash: nat)

  datatype Bundle = Bundle(job: Job, nonces: seq<nat>)

  /** The hash functions, the nonce that KawPow reads back from the blob, and whether a RandomX dataset is there. */
  datatype Env = Env(hash: (Job, nat) -> nat, fullNonce: (Job, nat) -> nat, hasDataset: Job -> bool)

  // ------------------------------------------------------------------ checking

  predicate Hashes(env: Env, job: Job) {
    job.family != Argon2 && (job.family == RandomX ==> env.hasDataset(job))
  }

  function ResultOf(env: Env, job: Job, nonce: nat): Result {
    Result(job, if job.family == KawPow then env.fullNonce(job, nonce) else nonce, env.hash(job, nonce))
  }

  /** The shares among the nonces of a job: those whose hash is below the target, in order. */
  function Shares(env: Env, job: Job, nonces: seq<nat>): seq<Result> {
    if nonces == [] || !Hashes(env, job) then []
    else
      var last := nonces[|nonces| - 1];
      Shares(env, job, nonces[..|nonces| - 1]) +
      if env.hash(job, last) < job.target then [ResultOf(env, job, last)] else []
  }

  lemma {:induction false} SharesBound(env: Env, job: Job, nonces: seq<nat>)
    ensures |Shares(env, job, nonces)| <= |nonces|
  {
    if nonces != [] {
      SharesBound(env, job, nonces[..|nonces| - 1]);
    }
  }

  // ------------------------------------------------------------------ which nonces are shares

  /** There is a hash for the job: no GPU bundle is checked with Argon2, and RandomX needs its dataset. */
  predicate Checked(env: Env, job: Job) {
    match job.family
    case RandomX => env.hasDataset(job)
    case Argon2 => false
    case KawPow => true
    case Other => true
  }

  /**
    The results are, in order, one for each nonce whose hash is below the target, at says which, and there are no
    others; a KawPow result has the full nonce of its blob.
    */
  ghost predicate Hits(env: Env, job: Job, nonces: seq<nat>, at: seq<nat>, results: seq<Result>) {
    && |results| == |at|
    && (forall k :: 0 <= k < |at| ==> at[k] < |nonces|)
    && (forall j, k :: 0 <= j < k < |at| ==> at[j] < at[k])
    && (forall i :: 0 <= i < |nonces| ==> (i in at <==> env.hash(job, nonces[i]) < job.target))
    && (forall k :: 0 <= k < |at| ==>
          && results[k].job == job && results[k].hash == env.hash(job, nonces[at[k]])
          && results[k].nonce == match job.family
                                 case KawPow => env.fullNonce(job, nonces[at[k]])
                                 case _ => nonces[at[k]])
  }

  lemma {:induction false} SharesAreHits(env: Env, job: Job, nonces: seq<nat>) returns (at: seq<nat>)
    ensures Checked(env, job) ==> Hits(env, job, nonces, at, Shares(env, job, nonces))
    ensures !Checked(env, job) ==> Shares(env, job, nonces) == []
  {
    at := [];
    if Checked(env, job) && nonces != [] {
      var n := |nonces| - 1;
      at := SharesAreHits(env, job, nonces[..n]);
      OneMoreNonce(env, job, nonces, at, Shares(env, job, nonces[..n]));
      if env.hash(job, nonces[n]) < job.target {
        at := at + [n];
      }
    }
  }

  lemma OneMoreNonce(env: Env, job: Job, nonces: seq<nat>, at: seq<nat>, results: seq<Result>)
    requires nonces != [] && Hits(env, job, nonces[..|nonces| - 1], at, results)
    ensures var n := |nonces| - 1;
      if env.hash(job, nonces[n]) < job.target then
        Hits(env, job, nonces, at + [n], results + [ResultOf(env, job, nonces[n])])
      else Hits(env, job, nonces, at, results)
  {
    var n := |nonces| - 1;
    assert forall i :: 0 <= i < n ==> nonces[..n][i] == nonces[i];
    assert n !in at;
    assert forall i :: i in at + [n] <==> i in at || i == n;
  }

  // ------------------------------------------------------------------ the methods

  /** checkHash. */
  method CheckHash(env: Env, job: Job, nonce: nat, resultsIn: seq<Result>, errorsIn: nat)
    returns (results: seq<Result>, errors: nat)
    ensures results == resultsIn + if env.hash(job, nonce) < job.target then [ResultOf(env, job, nonce)] else []
    ensures |results| + errors == |resultsIn| + errorsIn + 1
  {
    results, errors := resultsIn, errorsIn;
    if env.hash(job, nonce) < job.target {
      results := results + [ResultOf(env, job, nonce)];
    } else {
      errors := errors + 1;
    }
  }

  /** getResults: appends the shares of a bundle; every nonce becomes a result or an error, never both. */
  method GetResults(env: Env, bundle: Bundle, resultsIn: seq<Result>, errorsIn: nat)
    returns (results: seq<Result>, errors: nat)
    ensures results == resultsIn + Shares(env, bundle.job, bundle.nonces)
    ensures |results| + errors == |resultsIn| + errorsIn + |bundle.nonces|
    ensures if Checked(env, bundle.job) then
              exists at :: Hits(env, bundle.job, bundle.nonces, at, results[|resultsIn|..])
            else results == resultsIn && errors == errorsIn + |bundle.nonces|
  {
    ghost var at := SharesAreHits(env, bundle.job, bundle.nonces);
    assert (resultsIn + Shares(env, bundle.job, bundle.nonces))[|resultsIn|..] ==
           Shares(env, bundle.job, bundle.nonces);
    results, errors := resultsIn, errorsIn;
    match bundle.job.family
    case RandomX =>
      if !env.hasDataset(bundle.job) {
        errors := errors + |bundle.nonces|;
        return;
      }
      results, errors := CheckAll(env, bundle, results, errors);
    case Argon2 =>
      errors := errors + |bundle.nonces|;
    case KawPow =>
      results, errors := CheckAll(env, bundle, results, errors);
    case Other =>
      results, errors := CheckAll(env, bundle, results, errors);
  }

  method CheckAll(env: Env, bundle: Bundle, resultsIn: seq<Result>, errorsIn: nat)
    returns (results: seq<Result>, errors: nat)
    requires Hashes(env, bundle.job)
    ensures results == resultsIn + Shares(env, bundle.job, bundle.nonces)
    ensures |results| + errors == |resultsIn| + errorsIn + |bundle.nonces|
  {
    results, errors := resultsIn, errorsIn;
    var i := 0;
    while i < |bundle.nonces|
      invariant 0 <= i <= |bundle.nonces|
      invariant results == resultsIn + Shares(env, bundle.job, bundle.nonces[..i])
      invariant |results| + errors == |resultsIn| + errorsIn + i
    {
      ghost var done := bundle.nonces[..i + 1];
      assert done[..i] == bundle.nonces[..i] && done[i] == bundle.nonces[i];
      results, errors := CheckHash(env, bundle.job, bundle.nonces[i], results, errors);
      i := i + 1;
    }
    assert bundle.nonces[..i] == bundle.nonces;
  }

  function AllShares(env: Env, bundles: seq<Bundle>): seq<Result> {
    if bundles == [] then []
    else
      var b := bundles[|bundles| - 1];
      AllShares(env, bundles[..|bundles| - 1]) + Shares(env, b.job, b.nonces)
  }

  function CountNonces(bundles: seq<Bundle>): nat {
    if bundles == [] then 0 else CountNonces(bundles[..|bundles| - 1]) + |bundles[|bundles| - 1].nonces|
  }

  lemma {:induction false} AllSharesConcat(env: Env, a: seq<Bundle>, b: seq<Bundle>)
    ensures AllShares(env, a + b) == AllShares(env, a) + AllShares(env, b)
    ensures CountNonces(a + b) == CountNonces(a) + CountNonces(b)
  {
    if b == [] {
      assert a + b == a;
    } else {
      var c := b[..|b| - 1];
      AllSharesConcat(env, a, c);
      DropLast(a, b);
      var last := b[|b| - 1];
      Reassociate(AllShares(env, a), AllShares(env, c), Shares(env, last.job, last.nonces));
    }
  }

  lemma DropLast(a: seq<Bundle>, b: seq<Bundle>)
    requires b != []
    ensures a + b != [] && (a + b)[..|a + b| - 1] == a + b[..|b| - 1] && (a + b)[|a + b| - 1] == b[|b| - 1]
  {
  }

  lemma Reassociate(a: seq<Result>, b: seq<Result>, c: seq<Result>)
    ensures a + b + c == a + (b + c)
  {
  }

  /** A result that one of the nonces of one of the bundles earns. */
  ghost predicate Earned(env: Env, bundles: seq<Bundle>, r: Result) {
    exists b, i :: 0 <= b < |bundles| && 0 <= i < |bundles[b].nonces| &&
                   EarnedBy(env, bundles[b].job, bundles[b].nonces[i], r)
  }

  ghost predicate EarnedBy(env: Env, job: Job, nonce: nat, r: Result) {
    && Checked(env, job) && env.hash(job, nonce) < job.target
    && r == Result(job, match job.family case KawPow => env.fullNonce(job, nonce) case _ => nonce, env.hash(job, nonce))
  }

  /** The shares of a list of bundles are exactly the results that their nonces earn. */
  lemma {:induction false} AllSharesAreEarned(env: Env, bundles: seq<Bundle>, r: Result)
    ensures r in AllShares(env, bundles) <==> Earned(env, bundles, r)
  {
    if bundles != [] {
      var n := |bundles| - 1;
      var last := bundles[n];
      AllSharesAreEarned(env, bundles[..n], r);
      SharesAreEarned(env, last.job, last.nonces, r);
      EarnedByLast(env, bundles, r);
    }
  }

  lemma SharesAreEarned(env: Env, job: Job, nonces: seq<nat>, r: Result)
    ensures r in Shares(env, job, nonces) <==> exists i :: 0 <= i < |nonces| && EarnedBy(env, job, nonces[i], r)
  {
    hide Shares;
    var at := SharesAreHits(env, job, nonces);
    var shares := Shares(env, job, nonces);
    if Checked(env, job) {
      forall k | 0 <= k < |at| ensures EarnedBy(env, job, nonces[at[k]], shares[k]) {
        assert at[k] in at;
      }
      forall i | 0 <= i < |nonces| && EarnedBy(env, job, nonces[i], r) ensures r in shares {
        assert i in at;
        var k :| 0 <= k < |at| && at[k] == i;
        assert shares[k] == r;
      }
    }
  }

  lemma EarnedByLast(env: Env, bundles: seq<Bundle>, r: Result)
    requires bundles != []
    ensures var n := |bundles| - 1; var last := bundles[n];
      Earned(env, bundles, r) <==>
      Earned(env, bundles[..n], r) || exists i :: 0 <= i < |last.nonces| && EarnedBy(env, last.job, last.nonces[i], r)
  {
    hide EarnedBy;
    var n := |bundles| - 1;
    assert forall b :: 0 <= b < n ==> bundles[..n][b] == bundles[b];
  }
}
