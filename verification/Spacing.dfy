/** Sequences of clock readings in which far-apart positions are far apart in time, and what that means
    for any interval. Both rate limiters are bounded this way. */
module Spacing {
  import opened Graphs
  import opened Clock

  ghost predicate NonDecreasing(times: seq<Time>) {
    forall i, j :: 0 <= i < j < |times| ==> times[i] <= times[j]
  }

  /** Any `k + 1` consecutive readings span at least `width`. */
  ghost predicate Spaced(times: seq<Time>, k: nat, width: Time) {
    forall i :: 0 <= i && i + k < |times| ==> times[i + k] - times[i] >= width
  }

  /** The positions whose reading falls in the half-open interval of that width. */
  ghost function Within(times: seq<Time>, from: Time, width: Time): set<int> {
    set i | 0 <= i < |times| && from <= times[i] < from + width
  }

  lemma {:induction false} LeastPosition(times: seq<Time>, from: Time, width: Time, n: nat) returns (m: int)
    requires n <= |times| && exists i :: i in Within(times, from, width) && i < n
    ensures m in Within(times, from, width) && forall i :: i in Within(times, from, width) ==> m <= i
    decreases n
  {
    if exists i :: i in Within(times, from, width) && i < n - 1 {
      m := LeastPosition(times, from, width, n - 1);
    } else {
      m := n - 1;
    }
  }

  /** The `k` positions from `m` on. */
  ghost function Range(m: int, k: nat): (r: set<int>)
    ensures |r| == k && forall i :: i in r <==> m <= i < m + k
  {
    if k == 0 then {} else Range(m, k - 1) + {m + k - 1}
  }

  lemma FarPositions(times: seq<Time>, k: nat, width: Time, m: nat, i: nat)
    requires NonDecreasing(times) && Spaced(times, k, width) && m + k <= i < |times|
    ensures times[i] - times[m] >= width
  {
    assert times[m + k] - times[m] >= width;
  }

  /** Spaced readings put at most `k` of themselves into any half-open interval of that width. */
  lemma SpacedBoundsIntervals(times: seq<Time>, k: nat, width: Time, from: Time)
    requires NonDecreasing(times) && Spaced(times, k, width)
    ensures |Within(times, from, width)| <= k
  {
    var hits := Within(times, from, width);
    if hits != {} {
      var some :| some in hits;
      assert some < |times|;
      var m := LeastPosition(times, from, width, |times|);
      forall i | i in hits ensures m <= i < m + k {
        if i >= m + k {
          FarPositions(times, k, width, m, i);
          assert false;
        }
      }
      SubsetCardinality(hits, Range(m, k));
    }
  }

  /** One more reading keeps the spacing if it is far enough from the one `k` back. */
  lemma SpacedAppend(times: seq<Time>, k: nat, width: Time, t: Time)
    requires k > 0 && NonDecreasing(times) && Spaced(times, k, width)
    requires times != [] ==> times[|times| - 1] <= t
    requires |times| >= k ==> t - times[|times| - k] >= width
    ensures NonDecreasing(times + [t]) && Spaced(times + [t], k, width)
  {
    var more := times + [t];
    forall i, j | 0 <= i < j < |more| ensures more[i] <= more[j] {
      if j == |times| {
        assert times[i] <= times[|times| - 1];
      }
    }
    forall i | 0 <= i && i + k < |more| ensures more[i + k] - more[i] >= width {
      if i + k == |times| {
        assert more[i] == times[|times| - k];
      } else {
        assert more[i + k] == times[i + k];
      }
    }
  }
}
