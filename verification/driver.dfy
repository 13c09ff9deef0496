/** The body of `main` after startup (main.go lines 23-31 and 49-67): validate
    the flags, list the namespaces, clean up every namespace in list order
    whatever happened to the earlier ones, and fail the run exactly when some
    namespace failed. */
module Driver {
  import opened Basics
  import opened Ordering
  import opened Startup
  import opened Events
  import opened Cleanup

  /** `fmt.Errorf("error cleaning up events in namespace %s: %w", ...)`. */
  datatype NamespaceFailure = NamespaceFailure(namespace: string, cause: CleanupError)

  datatype RunError =
    | StartupFailed(reason: StartupError)
    | NamespaceListError
    | CleanupFailed(failures: seq<NamespaceFailure>)

  /** The cluster as the run sees it: the namespace list answer, and for the
      i-th listed namespace the oracle its cleanup talks to. */
  datatype Cluster = Cluster(namespaces: Listing<string>, events: seq<EventsOracle>)

  /** Every listed namespace has an oracle that answers its delete calls. */
  predicate Covers(cluster: Cluster) {
    cluster.namespaces.Listed? ==>
      && |cluster.events| == |cluster.namespaces.items|
      && forall i :: 0 <= i < |cluster.events| ==> Answers(cluster.events[i])
  }

  /** The positions, in increasing order, of the namespaces whose cleanup failed. */
  ghost function FailedPositions(results: seq<NamespaceCleanup>): (idx: seq<nat>)
    ensures StrictlyIncreasing(idx)
    ensures forall k :: 0 <= k < |idx| ==> idx[k] < |results|
    ensures forall i :: 0 <= i < |results| ==> (i in idx <==> results[i].result.Fail?)
    decreases |results|
  {
    if results == [] then []
    else
      var n := |results| - 1;
      FailedPositions(results[..n]) + (if results[n].result.Fail? then [n] else [])
  }

  /** The recorded errors match the failed positions of the results so far. */
  ghost predicate ErrorsRecorded(namespaces: seq<string>, results: seq<NamespaceCleanup>, errs: seq<NamespaceFailure>)
    requires |results| <= |namespaces|
  {
    var fp := FailedPositions(results);
    && |errs| == |fp|
    && forall k :: 0 <= k < |errs| ==> errs[k] == NamespaceFailure(namespaces[fp[k]], results[fp[k]].result.error)
  }

  /** One more namespace keeps the recorded errors in step with the results. */
  lemma ErrorsRecordedStep(namespaces: seq<string>, results: seq<NamespaceCleanup>, errs: seq<NamespaceFailure>, c: NamespaceCleanup)
    requires |results| < |namespaces|
    requires ErrorsRecorded(namespaces, results, errs)
    ensures ErrorsRecorded(namespaces, results + [c],
              if c.result.Fail? then errs + [NamespaceFailure(namespaces[|results|], c.result.error)] else errs)
  {
  }

  /** No error is recorded exactly when every namespace's cleanup succeeded. */
  lemma NoErrorsIffAllPass(namespaces: seq<string>, results: seq<NamespaceCleanup>, errs: seq<NamespaceFailure>)
    requires |results| <= |namespaces|
    requires ErrorsRecorded(namespaces, results, errs)
    ensures errs == [] <==> forall i :: 0 <= i < |results| ==> results[i].result.Pass?
  {
    var fp := FailedPositions(results);
    if errs == [] {
      forall i | 0 <= i < |results|
        ensures results[i].result.Pass?
      {
        assert i !in fp;
      }
    } else {
      assert fp[0] in fp;
      assert results[fp[0]].result.Fail?;
    }
  }

  /** What the namespace loop has produced: each namespace's cleanup, and the
      `errs` slice. */
  datatype LoopState = LoopState(results: seq<NamespaceCleanup>, errs: seq<NamespaceFailure>)

  /** The `for _, ns := range namespaceList.Items` loop after its first `n`
      iterations: namespace `n - 1` is cleaned up with its own oracle whatever
      happened before it, and its error, if any, is appended to `errs`. */
  function CleanupPrefix(namespaces: seq<string>, oracles: seq<EventsOracle>, duration: Duration, n: nat): (p: LoopState)
    requires n <= |namespaces| == |oracles|
    requires forall i :: 0 <= i < |oracles| ==> Answers(oracles[i])
    ensures |p.results| == n
    ensures |p.errs| <= n
    decreases n
  {
    if n == 0 then
      LoopState([], [])
    else
      var prev := CleanupPrefix(namespaces, oracles, duration, n - 1);
      var c := CleanupEvents(oracles[n - 1], duration);
      var errs := if c.result.Fail? then prev.errs + [NamespaceFailure(namespaces[n - 1], c.result.error)] else prev.errs;
      LoopState(prev.results + [c], errs)
  }

  /** The loop records one error per failed namespace, in namespace order. */
  lemma {:induction false} LoopRecordsFailures(namespaces: seq<string>, oracles: seq<EventsOracle>, duration: Duration, n: nat)
    requires n <= |namespaces| == |oracles|
    requires forall i :: 0 <= i < |oracles| ==> Answers(oracles[i])
    ensures ErrorsRecorded(namespaces, CleanupPrefix(namespaces, oracles, duration, n).results, CleanupPrefix(namespaces, oracles, duration, n).errs)
    decreases n
  {
    if n > 0 {
      LoopRecordsFailures(namespaces, oracles, duration, n - 1);
      var prev := CleanupPrefix(namespaces, oracles, duration, n - 1);
      ErrorsRecordedStep(namespaces, prev.results, prev.errs, CleanupEvents(oracles[n - 1], duration));
    }
  }

  /** Each iteration appends exactly its namespace's cleanup to the results. */
  lemma ResultsGrowByOne(namespaces: seq<string>, oracles: seq<EventsOracle>, duration: Duration, n: nat)
    requires 0 < n <= |namespaces| == |oracles|
    requires forall j :: 0 <= j < |oracles| ==> Answers(oracles[j])
    ensures CleanupPrefix(namespaces, oracles, duration, n).results
            == CleanupPrefix(namespaces, oracles, duration, n - 1).results + [CleanupEvents(oracles[n - 1], duration)]
  {
  }

  /** The i-th result of the loop is exactly the cleanup of the i-th namespace
      with its own oracle: no namespace is skipped, and none is affected by
      the failure of an earlier one. */
  lemma {:induction false} NamespaceCleanedUp(namespaces: seq<string>, oracles: seq<EventsOracle>, duration: Duration, n: nat, i: nat)
    requires i < n <= |namespaces| == |oracles|
    requires forall j :: 0 <= j < |oracles| ==> Answers(oracles[j])
    ensures CleanupPrefix(namespaces, oracles, duration, n).results[i] == CleanupEvents(oracles[i], duration)
    decreases n
  {
    var prev := CleanupPrefix(namespaces, oracles, duration, n - 1).results;
    var c := CleanupEvents(oracles[n - 1], duration);
    ResultsGrowByOne(namespaces, oracles, duration, n);
    if i < n - 1 {
      NamespaceCleanedUp(namespaces, oracles, duration, n - 1, i);
      assert (prev + [c])[i] == prev[i];
    }
  }

  /** The whole namespace loop of `main`. Every namespace is cleaned up with
      its own oracle whatever happened to the earlier ones; one error is
      recorded per failed namespace, in namespace order, and none exactly when
      every namespace succeeded. */
  function CleanupNamespaces(namespaces: seq<string>, oracles: seq<EventsOracle>, duration: Duration): (p: LoopState)
    requires |namespaces| == |oracles|
    requires forall i :: 0 <= i < |oracles| ==> Answers(oracles[i])
    ensures |p.results| == |namespaces|
    ensures forall i :: 0 <= i < |namespaces| ==> p.results[i] == CleanupEvents(oracles[i], duration)
    ensures ErrorsRecorded(namespaces, p.results, p.errs)
    ensures p.errs == [] <==> forall i :: 0 <= i < |p.results| ==> p.results[i].result.Pass?
  {
    var p := CleanupPrefix(namespaces, oracles, duration, |namespaces|);
    forall i | 0 <= i < |namespaces|
      ensures p.results[i] == CleanupEvents(oracles[i], duration)
    {
      NamespaceCleanedUp(namespaces, oracles, duration, |namespaces|, i);
    }
    LoopRecordsFailures(namespaces, oracles, duration, |namespaces|);
    NoErrorsIffAllPass(namespaces, p.results, p.errs);
    p
  }

  /** What one run of `main` produced: the cleanups it performed and its verdict. */
  datatype RunReport = RunReport(results: seq<NamespaceCleanup>, outcome: Outcome<RunError>)

  /** `main` from flag validation to the final verdict. A rejected startup or a
      failed namespace listing aborts before any namespace is cleaned up;
      otherwise every namespace is cleaned up and the run fails exactly when
      one of them failed, carrying one error per failed namespace. */
  function Run(durationFlag: Duration, kubeconfigFlag: string, env: map<string, string>, cluster: Cluster): (r: RunReport)
    requires Covers(cluster)
    ensures Validate(durationFlag, kubeconfigFlag, env).Err? ==>
              r == RunReport([], Fail(StartupFailed(Validate(durationFlag, kubeconfigFlag, env).error)))
    ensures Validate(durationFlag, kubeconfigFlag, env).Ok? && cluster.namespaces.ListFailed? ==>
              r == RunReport([], Fail(NamespaceListError))
    ensures Validate(durationFlag, kubeconfigFlag, env).Ok? && cluster.namespaces.Listed? ==>
              && |r.results| == |cluster.namespaces.items|
              && (r.outcome.Pass? <==> forall i :: 0 <= i < |r.results| ==> r.results[i].result.Pass?)
              && (r.outcome.Fail? ==>
                    && r.outcome.error.CleanupFailed?
                    && 0 < |r.outcome.error.failures|
                    && ErrorsRecorded(cluster.namespaces.items, r.results, r.outcome.error.failures))
  {
    match Validate(durationFlag, kubeconfigFlag, env)
    case Err(reason) =>
      RunReport([], Fail(StartupFailed(reason)))
    case Ok(settings) =>
      match cluster.namespaces
      case ListFailed =>
        RunReport([], Fail(NamespaceListError))
      case Listed(namespaces) =>
        var p := CleanupNamespaces(namespaces, cluster.events, settings.duration);
        RunReport(p.results, if p.errs == [] then Pass else Fail(CleanupFailed(p.errs)))
  }

  /** An accepted run with a namespace list cleans up every listed namespace
      with its own oracle and the validated duration. */
  lemma RunCleansEveryNamespace(durationFlag: Duration, kubeconfigFlag: string, env: map<string, string>, cluster: Cluster)
    requires Covers(cluster)
    requires Validate(durationFlag, kubeconfigFlag, env).Ok? && cluster.namespaces.Listed?
    ensures forall i :: 0 <= i < |cluster.namespaces.items| ==>
              Run(durationFlag, kubeconfigFlag, env, cluster).results[i] == CleanupEvents(cluster.events[i], durationFlag)
  {
  }
}
