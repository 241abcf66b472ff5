/** Finite sets of positions and their sizes. */
module Counting {
  /** The n numbers from a on. */
  ghost function Range(a: nat, n: nat): (r: set<nat>)
    ensures forall x: nat :: x in r <==> a <= x < a + n
    ensures |r| == n
  {
    if n == 0 then {} else Range(a, n - 1) + {a + (n - 1)}
  }

  ghost function Elements(s: seq<nat>): (r: set<nat>)
    ensures forall x :: x in r <==> x in s
  {
    set x | x in s
  }

  lemma SubsetSize(a: set<nat>, b: set<nat>)
    requires a <= b
    ensures |a| <= |b|
  {
    assert b == a + (b - a);
    assert |b| == |a| + |b - a|;
  }

  lemma SubsetOfSameSize(a: set<nat>, b: set<nat>)
    requires a <= b && |a| >= |b|
    ensures a == b
  {
    assert |b - a| == |b| - |a|;
  }

  lemma {:induction false} DistinctCount(s: seq<nat>)
    requires forall i, j :: 0 <= i < j < |s| ==> s[i] != s[j]
    ensures |Elements(s)| == |s|
  {
    if s == [] {
      assert Elements(s) == {};
    } else {
      var t := s[..|s| - 1];
      DistinctCount(t);
      assert Elements(s) == Elements(t) + {s[|s| - 1]};
    }
  }

  /** n distinct numbers from 1 to n are all of them. */
  lemma Pigeonhole(s: seq<nat>, n: nat, v: nat)
    requires |s| == n && 1 <= v <= n
    requires forall i :: 0 <= i < n ==> 1 <= s[i] <= n
    requires forall i, j :: 0 <= i < j < n ==> s[i] != s[j]
    ensures v in s
  {
    DistinctCount(s);
    SubsetOfSameSize(Elements(s), Range(1, n));
  }
}
