/** Event selection in `cleanupEvents` (main.go lines 77-83): the names of the
    listed events whose last timestamp is strictly before the cutoff, kept in
    listing order. */
module Events {
  import opened Basics
  import opened Ordering

  /** The two fields of a listed event that the selection reads. An event whose
      last timestamp was never set carries `ZeroTime`. */
  datatype Event = Event(name: string, lastTimestamp: Time)

  /** `event.LastTimestamp.Time.Before(cutoffTime)`. There is no fallback to
      the creation timestamp: an event whose last timestamp was never set is
      stale for every cutoff after the zero time, and an event stamped exactly
      at the cutoff is not stale, while one stamped any earlier is. */
  function IsStale(e: Event, cutoff: Time): (stale: bool)
    ensures e.lastTimestamp == ZeroTime && ZeroTime < cutoff ==> stale
    ensures e.lastTimestamp == cutoff ==> !stale
    ensures e.lastTimestamp < cutoff ==> stale
    ensures stale ==> e.lastTimestamp != cutoff && e.lastTimestamp < cutoff
  {
    Before(e.lastTimestamp, cutoff)
  }

  /** The positions, in increasing order, of the listed events that are stale. */
  ghost function StalePositions(events: seq<Event>, cutoff: Time): (idx: seq<nat>)
    ensures StrictlyIncreasing(idx)
    ensures forall k :: 0 <= k < |idx| ==> idx[k] < |events|
    ensures forall i :: 0 <= i < |events| ==> (i in idx <==> IsStale(events[i], cutoff))
    decreases |events|
  {
    if events == [] then []
    else
      var n := |events| - 1;
      StalePositions(events[..n], cutoff) + (if IsStale(events[n], cutoff) then [n] else [])
  }

  /** The `toDelete` slice: the loop appends the name of each stale event in
      turn, so the result is built from the last event backwards here. */
  function Select(events: seq<Event>, cutoff: Time): (names: seq<string>)
    ensures |names| == |StalePositions(events, cutoff)| <= |events|
    ensures forall k :: 0 <= k < |names| ==> names[k] == events[StalePositions(events, cutoff)[k]].name
    decreases |events|
  {
    if events == [] then []
    else
      var n := |events| - 1;
      var names := Select(events[..n], cutoff);
      if IsStale(events[n], cutoff) then names + [events[n].name] else names
  }

  /** `StalePositions` is exactly the increasing enumeration of the stale
      positions: any other sequence with that description equals it. */
  lemma StalePositionsUnique(events: seq<Event>, cutoff: Time, idx: seq<nat>)
    requires StrictlyIncreasing(idx)
    requires forall k :: 0 <= k < |idx| ==> idx[k] < |events|
    requires forall i :: 0 <= i < |events| ==> (i in idx <==> IsStale(events[i], cutoff))
    ensures idx == StalePositions(events, cutoff)
  {
    var sp := StalePositions(events, cutoff);
    forall x
      ensures x in idx <==> x in sp
    {
      if x in idx {
        var k :| 0 <= k < |idx| && idx[k] == x;
      }
      if x in sp {
        var k :| 0 <= k < |sp| && sp[k] == x;
      }
    }
    SameElementsSameSequence(idx, sp);
  }

  /** Selection is strict: an event stamped exactly at the cutoff is not
      selected, and one stamped earlier is selected. */
  lemma SelectionBoundary(events: seq<Event>, cutoff: Time, i: nat)
    requires i < |events|
    ensures events[i].lastTimestamp == cutoff ==> i !in StalePositions(events, cutoff)
    ensures events[i].lastTimestamp < cutoff ==> i in StalePositions(events, cutoff)
  {
  }

  /** An event whose last timestamp was never set is selected whenever the
      cutoff lies after the zero time. */
  lemma UnsetTimestampSelected(events: seq<Event>, cutoff: Time, i: nat)
    requires i < |events| && events[i].lastTimestamp == ZeroTime
    requires ZeroTime < cutoff
    ensures events[i].name in Select(events, cutoff)
  {
  }

  /** Selection on a concatenation: the listing can be split anywhere. */
  lemma {:induction false} SelectAppend(a: seq<Event>, b: seq<Event>, cutoff: Time)
    ensures Select(a + b, cutoff) == Select(a, cutoff) + Select(b, cutoff)
    decreases |b|
  {
    if b == [] {
      assert a + b == a;
    } else {
      var n := |b| - 1;
      assert (a + b)[..|a + b| - 1] == a + b[..n];
      SelectAppend(a, b[..n], cutoff);
    }
  }
}
