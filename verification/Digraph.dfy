/** Finite directed graphs given by their edge set: paths, reachability and cycles.
    Every graph algorithm of the model is judged against these definitions. */
module Digraph {
  import opened Pigeonhole

  ghost predicate IsPath<N(!new)>(e: set<(N, N)>, p: seq<N>) {
    && p != []
    && forall i {:trigger p[i]} :: 0 <= i < |p| - 1 ==> (p[i], p[i + 1]) in e
  }

  ghost predicate Joins<N(!new)>(e: set<(N, N)>, p: seq<N>, a: N, b: N) {
    IsPath(e, p) && p[0] == a && p[|p| - 1] == b
  }

  /** Reachability in zero or more steps. */
  ghost predicate Reaches<N(!new)>(e: set<(N, N)>, a: N, b: N) {
    exists p :: Joins(e, p, a, b)
  }

  ghost predicate OnCycle<N(!new)>(e: set<(N, N)>, a: N) {
    exists p :: Joins(e, p, a, a) && |p| >= 2
  }

  /** Self-loops count as cycles. */
  ghost predicate Cyclic<N(!new)>(e: set<(N, N)>) {
    exists a :: OnCycle(e, a)
  }

  ghost predicate Closed<N(!new)>(e: set<(N, N)>, s: set<N>) {
    forall a, b :: (a, b) in e && a in s ==> b in s
  }

  ghost predicate IsSink<N(!new)>(e: set<(N, N)>, a: N) {
    forall b :: (a, b) !in e
  }

  lemma ReachesSelf<N(!new)>(e: set<(N, N)>, a: N)
    ensures Reaches(e, a, a)
  {
    assert Joins(e, [a], a, a);
  }

  lemma ReachesEdge<N(!new)>(e: set<(N, N)>, a: N, b: N)
    requires (a, b) in e
    ensures Reaches(e, a, b)
  {
    assert Joins(e, [a, b], a, b);
  }

  lemma PathConcat<N(!new)>(e: set<(N, N)>, p: seq<N>, q: seq<N>)
    requires IsPath(e, p) && IsPath(e, q) && p[|p| - 1] == q[0]
    ensures Joins(e, p + q[1..], p[0], q[|q| - 1])
  {
    var r := p + q[1..];
    forall i | 0 <= i < |r| - 1
      ensures (r[i], r[i + 1]) in e
    {
      if i < |p| - 1 {
        assert r[i] == p[i] && r[i + 1] == p[i + 1];
      } else {
        var k := i - (|p| - 1);
        assert r[i] == q[k] && r[i + 1] == q[k + 1];
      }
    }
  }

  lemma ReachesTrans<N(!new)>(e: set<(N, N)>, a: N, b: N, c: N)
    requires Reaches(e, a, b) && Reaches(e, b, c)
    ensures Reaches(e, a, c)
  {
    var p :| Joins(e, p, a, b);
    var q :| Joins(e, q, b, c);
    PathConcat(e, p, q);
  }

  lemma ReachesStep<N(!new)>(e: set<(N, N)>, a: N, b: N, c: N)
    requires Reaches(e, a, b) && (b, c) in e
    ensures Reaches(e, a, c)
  {
    ReachesEdge(e, b, c);
    ReachesTrans(e, a, b, c);
  }

  /** An edge whose head leads back to its tail closes a cycle. */
  lemma BackEdgeCycle<N(!new)>(e: set<(N, N)>, a: N, b: N)
    requires (a, b) in e && Reaches(e, b, a)
    ensures OnCycle(e, a)
  {
    var q :| Joins(e, q, b, a);
    assert IsPath(e, [a, b]);
    PathConcat(e, [a, b], q);
    assert Joins(e, [a, b] + q[1..], a, a);
  }

  /** A node on a cycle has a successor that leads back to it. */
  lemma CycleBackEdge<N(!new)>(e: set<(N, N)>, a: N) returns (b: N)
    requires OnCycle(e, a)
    ensures (a, b) in e && Reaches(e, b, a)
  {
    var p :| Joins(e, p, a, a) && |p| >= 2;
    b := p[1];
    assert (p[0], p[1]) in e;
    assert forall i {:trigger p[1..][i]} :: 0 <= i < |p[1..]| ==> p[1..][i] == p[i + 1];
    assert Joins(e, p[1..], b, a);
  }

  lemma {:induction false} PathStaysIn<N(!new)>(e: set<(N, N)>, s: set<N>, p: seq<N>, k: nat)
    requires Closed(e, s) && IsPath(e, p) && p[0] in s && k < |p|
    ensures p[k] in s
  {
    if k > 0 {
      PathStaysIn(e, s, p, k - 1);
      assert (p[k - 1], p[k - 1 + 1]) in e;
    }
  }

  lemma ClosedHoldsReachable<N(!new)>(e: set<(N, N)>, s: set<N>, a: N, b: N)
    requires Closed(e, s) && a in s && Reaches(e, a, b)
    ensures b in s
  {
    var p :| Joins(e, p, a, b);
    PathStaysIn(e, s, p, |p| - 1);
  }

  lemma FewerEdges<N(!new)>(small: set<(N, N)>, big: set<(N, N)>, a: N, b: N)
    requires small <= big
    ensures Reaches(small, a, b) ==> Reaches(big, a, b)
    ensures OnCycle(small, a) ==> OnCycle(big, a)
    ensures Cyclic(small) ==> Cyclic(big)
  {
    forall p, c | Joins(small, p, a, c)
      ensures Joins(big, p, a, c)
    {
    }
    forall c | OnCycle(small, c)
      ensures OnCycle(big, c)
    {
      var p :| Joins(small, p, c, c) && |p| >= 2;
      assert Joins(big, p, c, c);
    }
  }

  lemma {:induction false} RankRises<N(!new)>(e: set<(N, N)>, rank: map<N, int>, p: seq<N>, k: nat)
    requires forall a, b :: (a, b) in e ==> a in rank && b in rank && rank[a] < rank[b]
    requires IsPath(e, p) && 1 <= k < |p|
    ensures p[0] in rank && p[k] in rank && rank[p[0]] < rank[p[k]]
  {
    assert (p[k - 1], p[k - 1 + 1]) in e;
    if k > 1 {
      RankRises(e, rank, p, k - 1);
    }
  }

  /** A ranking that rises along every edge rules out cycles. */
  lemma RankedIsAcyclic<N(!new)>(e: set<(N, N)>, rank: map<N, int>)
    requires forall a, b :: (a, b) in e ==> a in rank && b in rank && rank[a] < rank[b]
    ensures !Cyclic(e)
  {
    forall a | OnCycle(e, a)
      ensures false
    {
      var p :| Joins(e, p, a, a) && |p| >= 2;
      RankRises(e, rank, p, |p| - 1);
    }
  }

  /** A path that visits a node twice contains a cycle. */
  lemma RepeatIsCycle<N(!new)>(e: set<(N, N)>, p: seq<N>, i: nat, j: nat)
    requires IsPath(e, p) && i < j < |p| && p[i] == p[j]
    ensures OnCycle(e, p[i])
  {
    var q := p[i..j + 1];
    forall k | 0 <= k < |q| - 1
      ensures (q[k], q[k + 1]) in e
    {
      assert q[k] == p[i + k] && q[k + 1] == p[i + k + 1];
    }
    assert Joins(e, q, p[i], p[i]);
  }

  /** Paths of an acyclic graph are no longer than the node set they stay in. */
  lemma AcyclicPathsAreShort<N(!new)>(e: set<(N, N)>, s: set<N>, p: seq<N>)
    requires !Cyclic(e) && IsPath(e, p)
    requires forall x :: x in p ==> x in s
    ensures |p| <= |s|
  {
    if |p| > |s| {
      var i, j := TwoInOneHole(p, s);
      RepeatIsCycle(e, p, i, j);
    }
  }

  lemma PrependStep<N(!new)>(e: set<(N, N)>, y: N, p: seq<N>)
    requires IsPath(e, p) && (y, p[0]) in e
    ensures IsPath(e, [y] + p)
  {
    var q := [y] + p;
    forall i | 0 <= i < |q| - 1
      ensures (q[i], q[i + 1]) in e
    {
      if i > 0 {
        assert q[i] == p[i - 1] && q[i + 1] == p[i - 1 + 1];
      }
    }
  }

  ghost predicate HasPredecessorIn<N(!new)>(e: set<(N, N)>, s: set<N>, x: N) {
    exists y :: y in s && (y, x) in e
  }

  /** Following predecessors inside a finite set for ever must repeat a node. */
  lemma {:induction false} BackwardWalk<N(!new)>(e: set<(N, N)>, s: set<N>, p: seq<N>)
    requires forall x :: x in s ==> HasPredecessorIn(e, s, x)
    requires IsPath(e, p) && forall x :: x in p ==> x in s
    ensures Cyclic(e)
    decreases |s| + 1 - |p|
  {
    if |p| > |s| {
      var i, j := TwoInOneHole(p, s);
      RepeatIsCycle(e, p, i, j);
    } else {
      assert HasPredecessorIn(e, s, p[0]);
      var y :| y in s && (y, p[0]) in e;
      PrependStep(e, y, p);
      BackwardWalk(e, s, [y] + p);
    }
  }

  /** A nonempty finite set in which everything has a predecessor contains a cycle. */
  lemma NoSourceMeansCycle<N(!new)>(e: set<(N, N)>, s: set<N>, x: N)
    requires x in s
    requires forall z :: z in s ==> HasPredecessorIn(e, s, z)
    ensures Cyclic(e)
  {
    BackwardWalk(e, s, [x]);
  }

  lemma AppendStep<N(!new)>(e: set<(N, N)>, p: seq<N>, y: N)
    requires IsPath(e, p) && (p[|p| - 1], y) in e
    ensures Joins(e, p + [y], p[0], y)
  {
    var q := p + [y];
    forall i | 0 <= i < |q| - 1
      ensures (q[i], q[i + 1]) in e
    {
      if i < |p| - 1 {
        assert q[i] == p[i] && q[i + 1] == p[i + 1];
      }
    }
  }

  ghost predicate HasSuccessorIn<N(!new)>(e: set<(N, N)>, s: set<N>, x: N) {
    exists y :: y in s && (x, y) in e
  }

  lemma {:induction false} ForwardWalk<N(!new)>(e: set<(N, N)>, s: set<N>, p: seq<N>)
    requires forall x :: x in s ==> HasSuccessorIn(e, s, x)
    requires IsPath(e, p) && forall x :: x in p ==> x in s
    ensures Cyclic(e)
    decreases |s| + 1 - |p|
  {
    if |p| > |s| {
      var i, j := TwoInOneHole(p, s);
      RepeatIsCycle(e, p, i, j);
    } else {
      assert HasSuccessorIn(e, s, p[|p| - 1]);
      var y :| y in s && (p[|p| - 1], y) in e;
      AppendStep(e, p, y);
      ForwardWalk(e, s, p + [y]);
    }
  }

  /** A nonempty finite set in which everything has a successor contains a cycle. */
  lemma NoSinkMeansCycle<N(!new)>(e: set<(N, N)>, s: set<N>, x: N)
    requires x in s
    requires forall z :: z in s ==> HasSuccessorIn(e, s, z)
    ensures Cyclic(e)
  {
    ForwardWalk(e, s, [x]);
  }

  lemma PathTail<N(!new)>(e: set<(N, N)>, p: seq<N>)
    requires IsPath(e, p) && |p| > 1
    ensures IsPath(e, p[1..]) && (p[0], p[1]) in e
  {
    var q := p[1..];
    assert (p[0], p[0 + 1]) in e;
    forall i | 0 <= i < |q| - 1
      ensures (q[i], q[i + 1]) in e
    {
      assert q[i] == p[i + 1] && q[i + 1] == p[i + 1 + 1];
    }
  }

  ghost predicate SymmetricEdges<N(!new)>(e: set<(N, N)>) {
    forall a, b :: (a, b) in e ==> (b, a) in e
  }

  lemma {:induction false} ReversePath<N(!new)>(e: set<(N, N)>, p: seq<N>)
    requires SymmetricEdges(e) && IsPath(e, p)
    ensures Reaches(e, p[|p| - 1], p[0])
  {
    if |p| == 1 {
      ReachesSelf(e, p[0]);
    } else {
      PathTail(e, p);
      ReversePath(e, p[1..]);
      ReachesStep(e, p[|p| - 1], p[1], p[0]);
    }
  }

  lemma ReachesSymmetric<N(!new)>(e: set<(N, N)>, a: N, b: N)
    requires SymmetricEdges(e) && Reaches(e, a, b)
    ensures Reaches(e, b, a)
  {
    var p :| Joins(e, p, a, b);
    ReversePath(e, p);
  }
}
