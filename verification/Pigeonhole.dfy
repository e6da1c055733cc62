/** Counting distinct things. */
module Pigeonhole {
  ghost predicate Distinct(s: seq<int>) {
    forall i, j | 0 <= i < j < |s| :: s[i] != s[j]
  }

  ghost function Below(n: nat): (s: set<int>)
    ensures |s| == n && forall i :: i in s <==> 0 <= i < n
  {
    if n == 0 then {} else Below(n - 1) + {n - 1}
  }

  lemma {:induction false} DistinctFit(s: seq<int>, t: set<int>)
    requires Distinct(s) && forall i | 0 <= i < |s| :: s[i] in t
    ensures |s| <= |t|
    decreases |s|
  {
    if s != [] {
      var x := s[|s| - 1];
      DistinctFit(s[..|s| - 1], t - {x});
    }
  }

  lemma {:induction false} SetOfSeq(s: seq<int>)
    ensures |set x | x in s| <= |s|
  {
    if s != [] {
      var tail := s[1..];
      SetOfSeq(tail);
      assert (set x | x in s) == {s[0]} + set x | x in tail;
    }
  }

  lemma DistinctBelow(s: seq<int>, n: nat)
    requires Distinct(s) && forall i | 0 <= i < |s| :: 0 <= s[i] < n
    ensures |s| <= n
  {
    DistinctFit(s, Below(n));
  }
}
