/** Initial segments of the naturals, and the pigeonhole principle for sequences over a finite set. */
module Pigeonhole {

  ghost function FirstNumbers(k: nat): (s: set<nat>)
    ensures |s| == k && forall n: nat :: n in s <==> n < k
  {
    if k == 0 then {} else FirstNumbers(k - 1) + {k - 1}
  }

  lemma {:induction false} TwoInOneHole<N(!new)>(p: seq<N>, s: set<N>) returns (i: nat, j: nat)
    requires forall x :: x in p ==> x in s
    requires |p| > |s|
    ensures i < j < |p| && p[i] == p[j]
  {
    var x := p[|p| - 1];
    var front := p[..|p| - 1];
    if x in front {
      i :| 0 <= i < |front| && front[i] == x;
      j := |p| - 1;
    } else {
      forall y | y in front
        ensures y in s - {x}
      {
      }
      assert |s - {x}| == |s| - 1;
      i, j := TwoInOneHole(front, s - {x});
    }
  }
}
