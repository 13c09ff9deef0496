/** `cleanupEvents` (main.go lines 70-99): list the events of one namespace,
    select the stale ones, and delete them one by one, stopping at the first
    failed delete and reporting progress every 500 deletions. The cluster
    client is an oracle: its list answer, its clock reading and the answers to
    the delete calls are inputs. */
module Cleanup {
  import opened Basics
  import opened Ordering
  import opened Events

  /** Progress is reported after every this many successful deletions. */
  const ProgressInterval: nat := 500

  /** The server's answer to one delete call. */
  datatype DeleteResponse = Deleted | DeleteFailed

  datatype CleanupError = ListEventsError | DeleteEventError(name: string)

  /** What one namespace's cleanup did: the names it sent delete calls for, in
      order, the deletion counts at which it reported progress, and its result. */
  datatype NamespaceCleanup = NamespaceCleanup(issued: seq<string>, ticks: seq<nat>, result: Outcome<CleanupError>)

  /** The number of delete calls that succeeded: all of them, except a last
      one that failed. */
  function Successes(c: NamespaceCleanup): nat {
    if c.result.Fail? && c.result.error.DeleteEventError? && |c.issued| > 0 then |c.issued| - 1 else |c.issued|
  }

  /** The delete calls a loop over `toDelete` issues when the server answers
      the k-th call with `responses[k]`, and the result it returns. */
  ghost predicate CallsInOrder(toDelete: seq<string>, responses: seq<DeleteResponse>, c: NamespaceCleanup)
    requires |toDelete| <= |responses|
  {
    // the calls are a prefix of the selection, in order
    && |c.issued| <= |toDelete|
    && c.issued == toDelete[..|c.issued|]
    // success exactly when every delete succeeds, and then every name is sent once
    && (c.result.Pass? <==> forall k :: 0 <= k < |toDelete| ==> responses[k] == Deleted)
    && (c.result.Pass? ==> c.issued == toDelete)
    // a failure is the first failed delete, and nothing after it is sent
    && (c.result.Fail? ==>
          && 0 < |c.issued|
          && responses[|c.issued| - 1] == DeleteFailed
          && (forall k :: 0 <= k < |c.issued| - 1 ==> responses[k] == Deleted)
          && c.result.error == DeleteEventError(c.issued[|c.issued| - 1]))
  }

  /** Progress is reported after the m-th deletion of the namespace exactly
      when m is a multiple of the interval, where the loop starts after `done`
      deletions. */
  ghost predicate ProgressReported(done: nat, c: NamespaceCleanup) {
    && StrictlyIncreasing(c.ticks)
    && (forall m :: m in c.ticks <==> done < m <= done + Successes(c) && m % ProgressInterval == 0)
    && |c.ticks| == (done + Successes(c)) / ProgressInterval - done / ProgressInterval
  }

  /** Counting multiples of the interval one number at a time. */
  lemma MultipleStep(n: nat)
    ensures (n + 1) / ProgressInterval - n / ProgressInterval == if (n + 1) % ProgressInterval == 0 then 1 else 0
  {
  }

  /** One successful delete in front of the rest of the loop. */
  lemma CallsAfterSuccess(toDelete: seq<string>, responses: seq<DeleteResponse>, rest: NamespaceCleanup, c: NamespaceCleanup)
    requires 0 < |toDelete| <= |responses| && responses[0] == Deleted
    requires CallsInOrder(toDelete[1..], responses[1..], rest)
    requires c.issued == [toDelete[0]] + rest.issued && c.result == rest.result
    ensures CallsInOrder(toDelete, responses, c)
  {
  }

  /** The progress report of one successful delete in front of the rest. */
  lemma ProgressAfterSuccess(done: nat, rest: NamespaceCleanup, c: NamespaceCleanup)
    requires ProgressReported(done + 1, rest)
    requires Successes(c) == Successes(rest) + 1
    requires c.ticks == (if (done + 1) % ProgressInterval == 0 then [done + 1] else []) + rest.ticks
    ensures ProgressReported(done, c)
  {
    var tick := if (done + 1) % ProgressInterval == 0 then [done + 1] else [];
    forall k | 0 <= k < |rest.ticks|
      ensures done + 1 < rest.ticks[k]
    {
      assert rest.ticks[k] in rest.ticks;
    }
    forall j, k | 0 <= j < k < |c.ticks|
      ensures c.ticks[j] < c.ticks[k]
    {
      if j < |tick| {
        assert c.ticks[k] == rest.ticks[k - |tick|];
      } else {
        assert c.ticks[j] == rest.ticks[j - |tick|] && c.ticks[k] == rest.ticks[k - |tick|];
      }
    }
    forall m
      ensures m in c.ticks <==> done < m <= done + Successes(c) && m % ProgressInterval == 0
    {
      assert m in c.ticks <==> m in tick || m in rest.ticks;
    }
    MultipleStep(done);
  }

  /** The `for i, eventName := range toDelete` loop, over the names that remain
      after `done` successful deletions. `DeleteLoopBehaviour` states what it
      does; the contract here keeps only the facts that need no quantifier. */
  function DeleteLoop(toDelete: seq<string>, responses: seq<DeleteResponse>, done: nat): (c: NamespaceCleanup)
    requires |toDelete| <= |responses|
    ensures |c.issued| <= |toDelete|
    ensures c.result.Pass? ==> c.issued == toDelete
    ensures c.result.Fail? ==> 0 < |c.issued| && c.result.error == DeleteEventError(c.issued[|c.issued| - 1])
    decreases |toDelete|
  {
    if toDelete == [] then
      NamespaceCleanup([], [], Pass)
    else if responses[0] == DeleteFailed then
      NamespaceCleanup([toDelete[0]], [], Fail(DeleteEventError(toDelete[0])))
    else
      var rest := DeleteLoop(toDelete[1..], responses[1..], done + 1);
      var tick := if (done + 1) % ProgressInterval == 0 then [done + 1] else [];
      NamespaceCleanup([toDelete[0]] + rest.issued, tick + rest.ticks, rest.result)
  }

  /** The delete loop sends a prefix of the names in order, stops at the first
      failed delete, succeeds exactly when every delete succeeds, and reports
      progress after every 500th deletion. */
  lemma {:induction false} DeleteLoopBehaviour(toDelete: seq<string>, responses: seq<DeleteResponse>, done: nat)
    requires |toDelete| <= |responses|
    ensures CallsInOrder(toDelete, responses, DeleteLoop(toDelete, responses, done))
    ensures ProgressReported(done, DeleteLoop(toDelete, responses, done))
    decreases |toDelete|
  {
    if toDelete != [] && responses[0] == Deleted {
      DeleteLoopBehaviour(toDelete[1..], responses[1..], done + 1);
      var rest := DeleteLoop(toDelete[1..], responses[1..], done + 1);
      var c := DeleteLoop(toDelete, responses, done);
      CallsAfterSuccess(toDelete, responses, rest, c);
      ProgressAfterSuccess(done, rest, c);
    }
  }

  /** The cluster as seen by one namespace's cleanup: the answer to the event
      list call, the clock reading taken after it (the cutoff is recomputed
      for every namespace), and the answer to each delete call in turn. */
  datatype EventsOracle = EventsOracle(listing: Listing<Event>, now: Time, responses: seq<DeleteResponse>)

  /** The oracle answers every delete call the cleanup can make: at most one
      per listed event. */
  predicate Answers(o: EventsOracle) {
    o.listing.Listed? ==> |o.listing.items| <= |o.responses|
  }

  /** The names selected for deletion from a successful listing: one per
      listed event older than the cutoff taken from the oracle's clock, in
      listing order. */
  function Selected(o: EventsOracle, duration: Duration): (names: seq<string>)
    requires o.listing.Listed?
    ensures |names| == |StalePositions(o.listing.items, Cutoff(o.now, duration))| <= |o.listing.items|
    ensures forall k :: 0 <= k < |names| ==>
              var i := StalePositions(o.listing.items, Cutoff(o.now, duration))[k];
              i < |o.listing.items| && names[k] == o.listing.items[i].name
              && IsStale(o.listing.items[i], Cutoff(o.now, duration))
  {
    Select(o.listing.items, Cutoff(o.now, duration))
  }

  /** `cleanupEvents` for one namespace. A failed listing returns an error
      before anything is selected or deleted; an empty selection returns
      success without a delete call; otherwise the delete loop runs over the
      selection (`ListedCleanup` states what it then does). */
  function CleanupEvents(o: EventsOracle, duration: Duration): (c: NamespaceCleanup)
    requires Answers(o)
    ensures o.listing.ListFailed? ==> c.issued == [] && c.ticks == [] && c.result == Fail(ListEventsError)
  {
    match o.listing
    case ListFailed =>
      NamespaceCleanup([], [], Fail(ListEventsError))
    case Listed(events) =>
      var toDelete := Select(events, Cutoff(o.now, duration));
      if |toDelete| == 0 then NamespaceCleanup([], [], Pass) else DeleteLoop(toDelete, o.responses, 0)
  }

  /** After a successful listing, an empty selection succeeds without a
      delete call; otherwise the cleanup issues its delete calls and reports
      progress as the delete loop does over the selected names. */
  lemma ListedCleanup(o: EventsOracle, duration: Duration)
    requires Answers(o) && o.listing.Listed?
    ensures Selected(o, duration) == [] ==> CleanupEvents(o, duration) == NamespaceCleanup([], [], Pass)
    ensures CallsInOrder(Selected(o, duration), o.responses, CleanupEvents(o, duration))
    ensures ProgressReported(0, CleanupEvents(o, duration))
  {
    var toDelete := Selected(o, duration);
    if toDelete != [] {
      DeleteLoopBehaviour(toDelete, o.responses, 0);
    }
  }

  /** Every delete call goes to a listed event that is stale, and they are sent
      in listing order. */
  lemma IssuedAreStale(o: EventsOracle, duration: Duration)
    requires Answers(o) && o.listing.Listed?
    ensures var c := CleanupEvents(o, duration);
            var sp := StalePositions(o.listing.items, Cutoff(o.now, duration));
            && |c.issued| <= |sp|
            && forall k :: 0 <= k < |c.issued| ==>
                 && c.issued[k] == o.listing.items[sp[k]].name
                 && IsStale(o.listing.items[sp[k]], Cutoff(o.now, duration))
  {
    ListedCleanup(o, duration);
  }

  /** When every delete succeeds, each selected name is sent exactly once and
      progress is reported `len(toDelete) / 500` times. */
  lemma FullSuccessProgress(o: EventsOracle, duration: Duration)
    requires Answers(o)
    requires CleanupEvents(o, duration).result.Pass?
    ensures o.listing.Listed?
    ensures CleanupEvents(o, duration).issued == Selected(o, duration)
    ensures |CleanupEvents(o, duration).ticks| == |Selected(o, duration)| / ProgressInterval
  {
    ListedCleanup(o, duration);
  }

  /** The multiples of the interval between 1 and 1200. */
  lemma MultiplesUpTo1200(m: int)
    requires 0 < m <= 1200 && m % ProgressInterval == 0
    ensures m == 500 || m == 1000
  {
  }

  /** 1200 successful deletions report progress at 500 and at 1000, and only
      there. */
  lemma TwelveHundredDeletions(toDelete: seq<string>, responses: seq<DeleteResponse>)
    requires |toDelete| == 1200 <= |responses|
    requires forall k :: 0 <= k < 1200 ==> responses[k] == Deleted
    ensures DeleteLoop(toDelete, responses, 0).issued == toDelete
    ensures DeleteLoop(toDelete, responses, 0).ticks == [500, 1000]
  {
    var c := DeleteLoop(toDelete, responses, 0);
    DeleteLoopBehaviour(toDelete, responses, 0);
    assert Successes(c) == 1200;
    forall m
      ensures m in c.ticks <==> m in [500, 1000]
    {
      if 0 < m <= 1200 && m % ProgressInterval == 0 {
        MultiplesUpTo1200(m);
      }
    }
    SameElementsSameSequence(c.ticks, [500, 1000]);
  }
}
