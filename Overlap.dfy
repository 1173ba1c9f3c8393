/** `overlap` of checker/HierarchicalGraph.cpp: the longest suffix of one
    string that is also a prefix of another. */
module Overlaps {

  /** The last `k` characters of `a` are the first `k` characters of `b`. */
  predicate IsOverlap(a: string, b: string, k: nat)
  {
    k <= |a| && k <= |b| && a[|a| - k..] == b[..k]
  }

  /** `k` is the longest overlap of `a` and `b`. */
  ghost predicate IsLongestOverlap(a: string, b: string, k: nat)
  {
    IsOverlap(a, b, k) && forall j :: k < j ==> !IsOverlap(a, b, j)
  }

  /** The longest overlap of at most `i` characters. */
  function OverlapUpTo(a: string, b: string, i: nat): (k: nat)
    requires i <= |a| && i <= |b|
    ensures k <= i && IsOverlap(a, b, k)
    ensures forall j :: k < j <= i ==> !IsOverlap(a, b, j)
    decreases i
  {
    if i == 0 then 0
    else if a[|a| - i..] == b[..i] then i
    else OverlapUpTo(a, b, i - 1)
  }

  /** The length of the longest overlap of `a` and `b`. */
  function LongestOverlap(a: string, b: string): (k: nat)
    ensures IsLongestOverlap(a, b, k)
  {
    var m := if |a| <= |b| then |a| else |b|;
    OverlapUpTo(a, b, m)
  }

  /** There is only one longest overlap. */
  lemma LongestOverlapUnique(a: string, b: string, k: nat)
    requires IsLongestOverlap(a, b, k)
    ensures k == LongestOverlap(a, b)
  {
  }

  /** A string overlaps itself completely. */
  lemma LongestOverlapSelf(a: string)
    ensures LongestOverlap(a, a) == |a|
  {
    assert IsOverlap(a, a, |a|);
  }

  /** `overlap(a, b)`: try every length from the shorter string's length
      down to 1 and return the first that matches as a prefix of `b`;
      the empty string when none does. */
  method Overlap(a: string, b: string) returns (o: string)
    ensures IsLongestOverlap(a, b, |o|) && o == b[..|o|]
    ensures |o| == LongestOverlap(a, b)
  {
    var maxLen := if |a| <= |b| then |a| else |b|;
    var i := maxLen;
    while i > 0
      invariant 0 <= i <= maxLen
      invariant forall j :: i < j ==> !IsOverlap(a, b, j)
      decreases i
    {
      if a[|a| - i..] == b[..i] {
        o := b[..i];
        LongestOverlapUnique(a, b, i);
        return;
      }
      i := i - 1;
    }
    o := "";
    assert IsOverlap(a, b, 0);
    LongestOverlapUnique(a, b, 0);
  }
}
