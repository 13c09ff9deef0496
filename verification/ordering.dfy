/** Strictly increasing sequences of positions, used to state "these items, in
    this order" about filtered sequences. */
module Ordering {

  ghost predicate StrictlyIncreasing(s: seq<int>) {
    forall j, k :: 0 <= j < k < |s| ==> s[j] < s[k]
  }

  /** A strictly increasing sequence is determined by the set of its elements:
      two of them with the same elements are equal. */
  lemma {:induction false} SameElementsSameSequence(a: seq<int>, b: seq<int>)
    requires StrictlyIncreasing(a) && StrictlyIncreasing(b)
    requires forall x :: x in a <==> x in b
    ensures a == b
    decreases |a|
  {
    if a == [] {
      // b has no elements either, so its multiset, and hence b, is empty
      forall x
        ensures x !in multiset(b)
      {
        assert x in b <==> x in a;
      }
      assert multiset(b) == multiset{};
      assert |b| == |multiset(b)| == 0;
    } else {
      assert a[0] in a;
      assert b != [];
      assert b[0] in b;
      var i :| 0 <= i < |a| && a[i] == b[0];
      var j :| 0 <= j < |b| && b[j] == a[0];
      assert a[0] <= a[i] && b[0] <= b[j];
      assert a[0] == b[0];
      forall x
        ensures x in a[1..] <==> x in b[1..]
      {
        if x in a[1..] {
          var k :| 1 <= k < |a| && a[k] == x;
          assert x in a && x != b[0];
        }
        if x in b[1..] {
          var k :| 1 <= k < |b| && b[k] == x;
          assert x in b && x != a[0];
        }
      }
      SameElementsSameSequence(a[1..], b[1..]);
      assert a == [a[0]] + a[1..] && b == [b[0]] + b[1..];
    }
  }
}
