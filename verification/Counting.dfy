/** Counting the numbers below a bound. */
module Counting {
  ghost function Below(max: nat): (all: set<nat>)
    ensures |all| == max && forall x: nat :: x in all <==> x < max
  {
    if max == 0 then {} else Below(max - 1) + {max - 1}
  }

  /** A set of numbers below `max` has at most `max` members, and that many only with all of them. */
  lemma FullByCount(some: set<nat>, max: nat)
    requires forall x :: x in some ==> x < max
    ensures |some| <= max
    ensures |some| == max <==> forall x: nat :: x < max ==> x in some
  {
    var all := Below(max);
    assert all == some + (all - some);
    if x :| x in all - some {
      assert |all - some| > 0;
    } else {
      assert some == all;
    }
  }

  /** So has a sequence without repeats. */
  lemma {:induction false} DistinctBelow(ts: seq<nat>, max: nat) returns (some: set<nat>)
    requires forall i, j :: 0 <= i < j < |ts| ==> ts[i] != ts[j]
    requires forall i :: 0 <= i < |ts| ==> ts[i] < max
    ensures |some| == |ts| <= max && forall t :: t in some <==> t in ts
  {
    if ts == [] {
      some := {};
    } else {
      var n := |ts| - 1;
      var rest := DistinctBelow(ts[..n], max);
      assert ts == ts[..n] + [ts[n]];
      some := rest + {ts[n]};
    }
    FullByCount(some, max);
  }
}
