/** Depth-limited traversal with one shared visited set (src/knowledge/knowledge_graph.cpp). */
module KnowledgeTraversal {
  import opened Digraph
  import opened Pigeonhole

  type NodeId = nat

  datatype KnowledgeNode = KnowledgeNode(id: NodeId, kind: string)

  datatype EdgeRow = EdgeRow(source: NodeId, target: NodeId, relationship: string)

  /** The two tables; `edges` lists the rows in the order a query yields them. */
  datatype Store = Store(nodes: map<NodeId, KnowledgeNode>, edges: seq<EdgeRow>)

  datatype GraphPath = GraphPath(source: NodeId, relationship: string, targets: seq<KnowledgeNode>)

  // ---- The queries as relations ----

  /** Targets of the edges leaving `from`; the join drops edges to unknown nodes. */
  function Targets(store: Store, rel: string, from: NodeId, upTo: nat): (ids: seq<NodeId>)
    requires upTo <= |store.edges|
    ensures forall n :: n in ids ==> n in store.nodes
  {
    if upTo == 0 then []
    else
      var row := store.edges[upTo - 1];
      Targets(store, rel, from, upTo - 1)
      + if row.source == from && row.relationship == rel && row.target in store.nodes then [row.target] else []
  }

  ghost function Forward(store: Store, rel: string): NodeId -> seq<NodeId> {
    n => Targets(store, rel, n, |store.edges|)
  }

  /** The same store with every edge turned round. */
  ghost function Reversed(store: Store): Store {
    Store(store.nodes, seq(|store.edges|, i requires 0 <= i < |store.edges| =>
                             EdgeRow(store.edges[i].target, store.edges[i].source, store.edges[i].relationship)))
  }

  function Records(nodes: map<NodeId, KnowledgeNode>, ids: seq<NodeId>): seq<KnowledgeNode>
    requires forall n :: n in ids ==> n in nodes
  {
    seq(|ids|, i requires 0 <= i < |ids| => nodes[ids[i]])
  }

  // ---- The walk ----

  /** Nodes in the order they are expanded, and the visited set afterwards. */
  datatype Walk = Walk(order: seq<NodeId>, visited: set<NodeId>)

  ghost function Expand(succ: NodeId -> seq<NodeId>, from: NodeId, depth: nat, visited: set<NodeId>): Walk
    decreases depth, 0
  {
    if depth == 0 then Walk([], visited)
    else if depth == 1 then Walk([from], visited + {from})
    else
      var deeper := ExpandEach(succ, succ(from), depth - 1, visited + {from});
      Walk([from] + deeper.order, deeper.visited)
  }

  ghost function ExpandEach(succ: NodeId -> seq<NodeId>, ids: seq<NodeId>, depth: nat, visited: set<NodeId>): Walk
    decreases depth, 1 + |ids|
  {
    if ids == [] then Walk([], visited)
    else
      var front := ExpandEach(succ, ids[..|ids| - 1], depth, visited);
      var last := ids[|ids| - 1];
      if last in front.visited then front
      else
        var w := Expand(succ, last, depth, front.visited);
        Walk(front.order + w.order, w.visited)
  }

  /** One result per expanded node that has targets. */
  ghost function Paths(nodes: map<NodeId, KnowledgeNode>, rel: string, succ: NodeId -> seq<NodeId>, order: seq<NodeId>): seq<GraphPath>
    requires forall n, m :: m in succ(n) ==> m in nodes
  {
    if order == [] then []
    else
      var last := order[|order| - 1];
      Paths(nodes, rel, succ, order[..|order| - 1])
      + if succ(last) == [] then [] else [GraphPath(last, rel, Records(nodes, succ(last)))]
  }

  lemma {:induction false} PathsConcat(nodes: map<NodeId, KnowledgeNode>, rel: string, succ: NodeId -> seq<NodeId>, a: seq<NodeId>, b: seq<NodeId>)
    requires forall n, m :: m in succ(n) ==> m in nodes
    ensures Paths(nodes, rel, succ, a + b) == Paths(nodes, rel, succ, a) + Paths(nodes, rel, succ, b)
  {
    if b == [] {
      assert a + b == a;
    } else {
      assert (a + b)[..|a + b| - 1] == a + b[..|b| - 1];
      PathsConcat(nodes, rel, succ, a, b[..|b| - 1]);
    }
  }

  lemma EachStep(nodes: map<NodeId, KnowledgeNode>, rel: string, succ: NodeId -> seq<NodeId>, from: NodeId, ids: seq<NodeId>, i: nat,
                 depth: nat, start: set<NodeId>)
    requires forall n, m :: m in succ(n) ==> m in nodes
    requires i < |ids|
    ensures var before, after := ExpandEach(succ, ids[..i], depth, start), ExpandEach(succ, ids[..i + 1], depth, start);
            var w := Expand(succ, ids[i], depth, before.visited);
            if ids[i] in before.visited then after == before
            else
              && after.visited == w.visited
              && Paths(nodes, rel, succ, [from] + after.order)
                 == Paths(nodes, rel, succ, [from] + before.order) + Paths(nodes, rel, succ, w.order)
  {
    var before := ExpandEach(succ, ids[..i], depth, start);
    var w := Expand(succ, ids[i], depth, before.visited);
    assert ids[..i + 1][..i] == ids[..i];
    PathsConcat(nodes, rel, succ, [from] + before.order, w.order);
    assert [from] + before.order + w.order == [from] + (before.order + w.order);
  }

  // ---- The traversals ----

  /** The visited set shared by all levels of one traversal. */
  class Traversal {
    const store: Store
    const rel: string
    var visited: set<NodeId>

    constructor (store: Store, rel: string)
      ensures this.store == store && this.rel == rel && visited == {}
    {
      this.store, this.rel, visited := store, rel, {};
    }

    method QueryTargets(from: NodeId) returns (targets: seq<KnowledgeNode>, ids: seq<NodeId>)
      ensures ids == Forward(store, rel)(from) && targets == Records(store.nodes, ids)
    {
      targets, ids := [], [];
      for i := 0 to |store.edges|
        invariant ids == Targets(store, rel, from, i) && targets == Records(store.nodes, ids)
      {
        var row := store.edges[i];
        if row.source == from && row.relationship == rel && row.target in store.nodes {
          ids := ids + [row.target];
          targets := targets + [store.nodes[row.target]];
        }
      }
    }

    method TraverseImpl(from: NodeId, depth: nat) returns (results: seq<GraphPath>)
      modifies this
      ensures results == Paths(store.nodes, rel, Forward(store, rel), Expand(Forward(store, rel), from, depth, old(visited)).order)
      ensures visited == Expand(Forward(store, rel), from, depth, old(visited)).visited
      decreases depth
    {
      if depth == 0 {
        return [];
      }
      ghost var succ := Forward(store, rel);
      visited := visited + {from};
      ghost var start := visited;
      var targets, ids := QueryTargets(from);
      results := if targets == [] then [] else [GraphPath(from, rel, targets)];
      assert [from][..0] == [];
      assert results == Paths(store.nodes, rel, succ, [from]);
      if depth > 1 {
        for i := 0 to |ids|
          invariant visited == ExpandEach(succ, ids[..i], depth - 1, start).visited
          invariant results == Paths(store.nodes, rel, succ, [from] + ExpandEach(succ, ids[..i], depth - 1, start).order)
        {
          EachStep(store.nodes, rel, succ, from, ids, i, depth - 1, start);
          if ids[i] in visited {
            continue;
          }
          var deeper := TraverseImpl(ids[i], depth - 1);
          results := results + deeper;
        }
        assert ids[..|ids|] == ids;
      }
    }

    method QuerySources(to: NodeId) returns (sources: seq<KnowledgeNode>, ids: seq<NodeId>)
      ensures ids == Forward(Reversed(store), rel)(to) && sources == Records(store.nodes, ids)
    {
      sources, ids := [], [];
      for i := 0 to |store.edges|
        invariant ids == Targets(Reversed(store), rel, to, i) && sources == Records(store.nodes, ids)
      {
        var row := store.edges[i];
        if row.target == to && row.relationship == rel && row.source in store.nodes {
          ids := ids + [row.source];
          sources := sources + [store.nodes[row.source]];
        }
      }
    }

    method ReverseTraverseImpl(to: NodeId, depth: nat) returns (results: seq<GraphPath>)
      modifies this
      ensures results == Paths(store.nodes, rel, Forward(Reversed(store), rel), Expand(Forward(Reversed(store), rel), to, depth, old(visited)).order)
      ensures visited == Expand(Forward(Reversed(store), rel), to, depth, old(visited)).visited
      decreases depth
    {
      if depth == 0 {
        return [];
      }
      ghost var succ := Forward(Reversed(store), rel);
      visited := visited + {to};
      ghost var start := visited;
      var sources, ids := QuerySources(to);
      results := if sources == [] then [] else [GraphPath(to, rel, sources)];
      assert [to][..0] == [];
      assert results == Paths(store.nodes, rel, succ, [to]);
      if depth > 1 {
        for i := 0 to |ids|
          invariant visited == ExpandEach(succ, ids[..i], depth - 1, start).visited
          invariant results == Paths(store.nodes, rel, succ, [to] + ExpandEach(succ, ids[..i], depth - 1, start).order)
        {
          EachStep(store.nodes, rel, succ, to, ids, i, depth - 1, start);
          if ids[i] in visited {
            continue;
          }
          var deeper := ReverseTraverseImpl(ids[i], depth - 1);
          results := results + deeper;
        }
        assert ids[..|ids|] == ids;
      }
    }
  }

  /** The paths of the walk that starts with nothing visited. */
  ghost function Results(store: Store, from: NodeId, rel: string, depth: nat): seq<GraphPath> {
    Paths(store.nodes, rel, Forward(store, rel), Expand(Forward(store, rel), from, depth, {}).order)
  }

  // ---- What a walk visits ----

  ghost predicate NoRepeats(s: seq<NodeId>) {
    forall i, j :: 0 <= i < j < |s| ==> s[i] != s[j]
  }

  /** A walk adds to the visited set exactly the nodes it expands, each once and none visited before. */
  ghost predicate Fresh(w: Walk, visited: set<NodeId>) {
    && w.visited == visited + (set n | n in w.order)
    && NoRepeats(w.order)
    && forall n :: n in w.order ==> n !in visited
  }

  lemma {:induction false} ExpandIsFresh(succ: NodeId -> seq<NodeId>, from: NodeId, depth: nat, visited: set<NodeId>)
    requires from !in visited
    ensures Fresh(Expand(succ, from, depth, visited), visited)
    ensures depth > 0 ==> from in Expand(succ, from, depth, visited).order
    decreases depth, 0
  {
    if depth > 1 {
      EachIsFresh(succ, succ(from), depth - 1, visited + {from});
    }
  }

  lemma {:induction false} EachIsFresh(succ: NodeId -> seq<NodeId>, ids: seq<NodeId>, depth: nat, visited: set<NodeId>)
    ensures Fresh(ExpandEach(succ, ids, depth, visited), visited)
    decreases depth, 1 + |ids|
  {
    if ids != [] {
      var front := ExpandEach(succ, ids[..|ids| - 1], depth, visited);
      var last := ids[|ids| - 1];
      EachIsFresh(succ, ids[..|ids| - 1], depth, visited);
      if last !in front.visited {
        ExpandIsFresh(succ, last, depth, front.visited);
        var w := Expand(succ, last, depth, front.visited);
        FreshConcat(front, w, visited);
      }
    }
  }

  lemma FreshConcat(a: Walk, b: Walk, visited: set<NodeId>)
    requires Fresh(a, visited) && Fresh(b, a.visited)
    ensures Fresh(Walk(a.order + b.order, b.visited), visited)
  {
    forall i, j | 0 <= i < j < |a.order + b.order|
      ensures (a.order + b.order)[i] != (a.order + b.order)[j]
    {
      if i < |a.order| <= j {
        assert b.order[j - |a.order|] in b.order;
        assert a.order[i] in a.order;
      }
    }
  }

  // ---- Nothing too far is expanded ----

  ghost predicate ClosedUnder(succ: NodeId -> seq<NodeId>, universe: set<NodeId>) {
    forall n, m :: n in universe && m in succ(n) ==> m in universe
  }

  ghost function Edges(succ: NodeId -> seq<NodeId>, universe: set<NodeId>): set<(NodeId, NodeId)> {
    set n, m | n in universe && m in succ(n) :: (n, m)
  }

  /** n can be reached from a in fewer than `depth` hops. */
  ghost predicate Within(e: set<(NodeId, NodeId)>, a: NodeId, n: NodeId, depth: nat) {
    exists p :: Joins(e, p, a, n) && |p| <= depth
  }

  lemma OneHopFurther(e: set<(NodeId, NodeId)>, a: NodeId, b: NodeId, n: NodeId, depth: nat)
    requires (a, b) in e && Within(e, b, n, depth)
    ensures Within(e, a, n, depth + 1)
  {
    var p :| Joins(e, p, b, n) && |p| <= depth;
    PrependStep(e, a, p);
    assert Joins(e, [a] + p, a, n);
  }

  lemma {:induction false} ExpandStaysNear(succ: NodeId -> seq<NodeId>, universe: set<NodeId>, from: NodeId, depth: nat, visited: set<NodeId>, n: NodeId)
    requires ClosedUnder(succ, universe) && from in universe
    requires n in Expand(succ, from, depth, visited).order
    ensures Within(Edges(succ, universe), from, n, depth)
    decreases depth, 0
  {
    var e := Edges(succ, universe);
    if n == from {
      assert Joins(e, [from], from, n);
    } else {
      var m := EachStaysNear(succ, universe, succ(from), depth - 1, visited + {from}, n);
      assert (from, m) in e;
      OneHopFurther(e, from, m, n, depth - 1);
    }
  }

  lemma {:induction false} EachStaysNear(succ: NodeId -> seq<NodeId>, universe: set<NodeId>, ids: seq<NodeId>, depth: nat, visited: set<NodeId>, n: NodeId)
    returns (m: NodeId)
    requires ClosedUnder(succ, universe) && forall k :: k in ids ==> k in universe
    requires n in ExpandEach(succ, ids, depth, visited).order
    ensures m in ids && Within(Edges(succ, universe), m, n, depth)
    decreases depth, 1 + |ids|
  {
    var front := ExpandEach(succ, ids[..|ids| - 1], depth, visited);
    if n in front.order {
      m := EachStaysNear(succ, universe, ids[..|ids| - 1], depth, visited, n);
    } else {
      m := ids[|ids| - 1];
      ExpandStaysNear(succ, universe, m, depth, front.visited, n);
    }
  }

  // ---- With enough depth nothing reachable is missed ----

  /** Every newly visited node has all its successors visited. */
  ghost predicate Exhausted(succ: NodeId -> seq<NodeId>, before: set<NodeId>, after: set<NodeId>) {
    forall n, m :: n in after && n !in before && m in succ(n) ==> m in after
  }

  lemma {:induction false} ExpandExhausts(succ: NodeId -> seq<NodeId>, universe: set<NodeId>, from: NodeId, depth: nat, visited: set<NodeId>)
    requires ClosedUnder(succ, universe) && visited <= universe && from in universe && from !in visited
    requires |universe - visited| <= depth
    ensures Exhausted(succ, visited, Expand(succ, from, depth, visited).visited)
    ensures visited + {from} <= Expand(succ, from, depth, visited).visited <= universe
    decreases depth, 0
  {
    assert universe - visited == (universe - (visited + {from})) + {from};
    if depth == 1 {
      assert universe - (visited + {from}) == {};
    } else {
      EachExhausts(succ, universe, succ(from), depth - 1, visited + {from});
    }
  }

  lemma {:induction false} EachExhausts(succ: NodeId -> seq<NodeId>, universe: set<NodeId>, ids: seq<NodeId>, depth: nat, visited: set<NodeId>)
    requires ClosedUnder(succ, universe) && visited <= universe && forall k :: k in ids ==> k in universe
    requires |universe - visited| <= depth
    ensures Exhausted(succ, visited, ExpandEach(succ, ids, depth, visited).visited)
    ensures visited <= ExpandEach(succ, ids, depth, visited).visited <= universe
    ensures forall k :: k in ids ==> k in ExpandEach(succ, ids, depth, visited).visited
    decreases depth, 1 + |ids|
  {
    if ids != [] {
      var front, last := ExpandEach(succ, ids[..|ids| - 1], depth, visited), ids[|ids| - 1];
      EachExhausts(succ, universe, ids[..|ids| - 1], depth, visited);
      assert ids == ids[..|ids| - 1] + [last];
      if last !in front.visited {
        assert universe - visited == (universe - front.visited) + (front.visited - visited);
        ExpandExhausts(succ, universe, last, depth, front.visited);
      }
    }
  }

  /** Depth at least the node count: the expanded nodes are exactly the reachable ones. */
  lemma DeepWalkReachesAll(succ: NodeId -> seq<NodeId>, universe: set<NodeId>, from: NodeId, depth: nat)
    requires ClosedUnder(succ, universe) && from in universe && |universe| <= depth
    ensures forall n :: n in Expand(succ, from, depth, {}).order <==> Reaches(Edges(succ, universe), from, n)
  {
    var e, w := Edges(succ, universe), Expand(succ, from, depth, {});
    ExpandIsFresh(succ, from, depth, {});
    assert universe - {} == universe;
    ExpandExhausts(succ, universe, from, depth, {});
    forall n
      ensures n in w.order <==> Reaches(e, from, n)
    {
      if n in w.order {
        ExpandStaysNear(succ, universe, from, depth, {}, n);
      }
      if Reaches(e, from, n) {
        ClosedHoldsReachable(e, w.visited, from, n);
      }
    }
  }

  /** Everything fewer than `depth` hops away is expanded. */
  ghost predicate CompleteAt(succ: NodeId -> seq<NodeId>, universe: set<NodeId>, from: NodeId, depth: nat) {
    forall n :: Within(Edges(succ, universe), from, n, depth) ==> n in Expand(succ, from, depth, {}).order
  }

  lemma {:induction false} EachVisitsIds(succ: NodeId -> seq<NodeId>, ids: seq<NodeId>, depth: nat, visited: set<NodeId>, k: NodeId)
    requires depth > 0 && k in ids
    ensures k in ExpandEach(succ, ids, depth, visited).visited
  {
    var front, last := ExpandEach(succ, ids[..|ids| - 1], depth, visited), ids[|ids| - 1];
    if k in ids[..|ids| - 1] {
      EachVisitsIds(succ, ids[..|ids| - 1], depth, visited, k);
    }
    if last !in front.visited {
      ExpandIsFresh(succ, last, depth, front.visited);
    }
  }

  /** Two levels never miss anything. */
  lemma ShallowWalkIsComplete(succ: NodeId -> seq<NodeId>, universe: set<NodeId>, from: NodeId, depth: nat)
    requires depth <= 2
    ensures CompleteAt(succ, universe, from, depth)
  {
    var e, w := Edges(succ, universe), Expand(succ, from, depth, {});
    ExpandIsFresh(succ, from, depth, {});
    forall n | Within(e, from, n, depth)
      ensures n in w.order
    {
      var p :| Joins(e, p, from, n) && |p| <= depth;
      if |p| == 2 {
        assert (p[0], p[0 + 1]) in e;
        EachVisitsIds(succ, succ(from), depth - 1, {} + {from}, n);
      }
    }
  }

  lemma OnlyChild(succ: NodeId -> seq<NodeId>, k: NodeId, child: NodeId, depth: nat, before: set<NodeId>, after: set<NodeId>)
    requires depth > 1 && succ(k) == [child] && after == before + {k} && child !in after
    ensures Expand(succ, k, depth, before).visited == Expand(succ, child, depth - 1, after).visited
  {
    assert [child][..0] == [];
    assert ExpandEach(succ, [], depth - 1, after) == Walk([], after);
  }

  lemma FirstNumbersNext(k: nat)
    ensures FirstNumbers(k + 1) == FirstNumbers(k) + {k}
  {
  }

  ghost predicate LeadsOn(succ: NodeId -> seq<NodeId>, j: nat) {
    succ(j) == [j + 1]
  }

  /** The chain is walked first and uses up the depth exactly at d-1. */
  lemma {:induction false} ChainUsesUpDepth(succ: NodeId -> seq<NodeId>, k: nat, depth: nat)
    requires depth > 0 && forall j :: k <= j < k + depth - 1 ==> LeadsOn(succ, j)
    ensures Expand(succ, k, depth, FirstNumbers(k)).visited == FirstNumbers(k + depth)
    decreases depth
  {
    if depth == 1 {
      ChainEnd(succ, k);
    } else {
      ChainStep(succ, k, depth);
      ChainUsesUpDepth(succ, k + 1, depth - 1);
    }
  }

  lemma ChainEnd(succ: NodeId -> seq<NodeId>, k: nat)
    ensures Expand(succ, k, 1, FirstNumbers(k)).visited == FirstNumbers(k + 1)
  {
    FirstNumbersNext(k);
  }

  lemma ChainStep(succ: NodeId -> seq<NodeId>, k: nat, depth: nat)
    requires depth > 1 && LeadsOn(succ, k)
    ensures Expand(succ, k, depth, FirstNumbers(k)).visited == Expand(succ, k + 1, depth - 1, FirstNumbers(k + 1)).visited
  {
    FirstNumbersNext(k);
    OnlyChild(succ, k, k + 1, depth, FirstNumbers(k), FirstNumbers(k + 1));
  }

  /** The walk from 0 visits the chain only: its second neighbour d-1 has been visited by then. */
  lemma ShortcutWalk(succ: NodeId -> seq<NodeId>, d: nat)
    requires d >= 3 && succ(0) == [1, d - 1]
    requires forall j :: 1 <= j < d - 1 ==> LeadsOn(succ, j)
    ensures Expand(succ, 0, d, {}).visited == FirstNumbers(d)
  {
    var ids := [1, d - 1];
    assert {} + {0} == FirstNumbers(1);
    ChainUsesUpDepth(succ, 1, d - 1);
    assert ids[..1] == [1] && ids[..1][..0] == [];
    assert ExpandEach(succ, [], d - 1, FirstNumbers(1)) == Walk([], FirstNumbers(1));
    assert ExpandEach(succ, [1], d - 1, FirstNumbers(1)).visited == FirstNumbers(d);
  }

  lemma ReachInTwo(e: set<(NodeId, NodeId)>, a: NodeId, b: NodeId, c: NodeId)
    requires (a, b) in e && (b, c) in e
    ensures Joins(e, [a, b, c], a, c)
  {
  }

  // ---- What the results say ----

  lemma {:induction false} PathsAre(nodes: map<NodeId, KnowledgeNode>, rel: string, succ: NodeId -> seq<NodeId>, order: seq<NodeId>)
    requires forall n, m :: m in succ(n) ==> m in nodes
    ensures forall r :: r in Paths(nodes, rel, succ, order) <==>
                        r.source in order && succ(r.source) != [] && r == GraphPath(r.source, rel, Records(nodes, succ(r.source)))
    ensures NoRepeats(order) ==>
              forall i, j :: 0 <= i < j < |Paths(nodes, rel, succ, order)| ==>
                               Paths(nodes, rel, succ, order)[i].source != Paths(nodes, rel, succ, order)[j].source
  {
    if order != [] {
      PathsAre(nodes, rel, succ, order[..|order| - 1]);
      assert order == order[..|order| - 1] + [order[|order| - 1]];
    }
  }

  // ---- Exactly when the traversal is complete ----

  ghost function Universe(store: Store, from: NodeId): set<NodeId> {
    store.nodes.Keys + {from}
  }

  ghost function PathOf(store: Store, rel: string, n: NodeId): GraphPath {
    GraphPath(n, rel, Records(store.nodes, Forward(store, rel)(n)))
  }

  /** Every node fewer than `depth` hops away that has out-neighbours appears with them in the results. */
  ghost predicate CompleteIn(store: Store, from: NodeId, rel: string, depth: nat) {
    forall n :: Within(Edges(Forward(store, rel), Universe(store, from)), from, n, depth) && Forward(store, rel)(n) != [] ==>
      PathOf(store, rel, n) in Results(store, from, rel, depth)
  }

  ghost predicate CompleteUpTo(size: nat, depth: nat) {
    forall store, from, rel {:trigger CompleteIn(store, from, rel, depth)} ::
      |Universe(store, from)| <= size ==> CompleteIn(store, from, rel, depth)
  }

  lemma InResultsExactlyWhen(store: Store, from: NodeId, rel: string, depth: nat, n: NodeId)
    requires Forward(store, rel)(n) != []
    ensures PathOf(store, rel, n) in Results(store, from, rel, depth) <==> n in Expand(Forward(store, rel), from, depth, {}).order
  {
    PathsAre(store.nodes, rel, Forward(store, rel), Expand(Forward(store, rel), from, depth, {}).order);
  }

  /** Shallow walks and walks as deep as the store has nodes are complete. */
  lemma CompleteWhen(store: Store, from: NodeId, rel: string, depth: nat)
    requires depth <= 2 || |Universe(store, from)| <= depth
    ensures CompleteIn(store, from, rel, depth)
  {
    var succ, universe := Forward(store, rel), Universe(store, from);
    if depth <= 2 {
      ShallowWalkIsComplete(succ, universe, from, depth);
    } else {
      DeepWalkReachesAll(succ, universe, from, depth);
    }
    forall n | Within(Edges(succ, universe), from, n, depth) && succ(n) != []
      ensures PathOf(store, rel, n) in Results(store, from, rel, depth)
    {
      InResultsExactlyWhen(store, from, rel, depth, n);
    }
  }

  /** A chain 0 -> 1 -> ... -> d, an edge back from d to 0, and a shortcut from 0 to d-1 stored last. */
  ghost function ShortcutStore(d: nat, rel: string): Store
    requires d >= 3
  {
    Store(map n | n in FirstNumbers(d + 1) :: KnowledgeNode(n, "part"),
          seq(d, i requires 0 <= i < d => EdgeRow(i, i + 1, rel)) + [EdgeRow(d, 0, rel), EdgeRow(0, d - 1, rel)])
  }

  /** The first k rows hold the chain only. */
  lemma {:induction false} ChainTargets(d: nat, rel: string, n: NodeId, k: nat)
    requires d >= 3 && k <= d
    ensures Targets(ShortcutStore(d, rel), rel, n, k) == if n < k then [n + 1] else []
  {
    if k > 0 {
      ChainTargets(d, rel, n, k - 1);
      assert ShortcutStore(d, rel).edges[k - 1] == EdgeRow(k - 1, k, rel);
    }
  }

  lemma ShortcutTargets(d: nat, rel: string, n: NodeId)
    requires d >= 3
    ensures Forward(ShortcutStore(d, rel), rel)(n) ==
            if n == 0 then [1, d - 1] else if n < d then [n + 1] else if n == d then [0] else []
  {
    var store := ShortcutStore(d, rel);
    ChainTargets(d, rel, n, d);
    assert store.edges[d] == EdgeRow(d, 0, rel) && store.edges[d + 1] == EdgeRow(0, d - 1, rel);
    assert Targets(store, rel, n, d + 1) == Targets(store, rel, n, d) + if n == d then [0] else [];
    assert Targets(store, rel, n, d + 2) == Targets(store, rel, n, d + 1) + if n == 0 then [d - 1] else [];
  }

  lemma ShortcutUniverse(d: nat, rel: string)
    requires d >= 3
    ensures Universe(ShortcutStore(d, rel), 0) == FirstNumbers(d + 1)
  {
  }

  lemma ShortcutInTwoHops(d: nat, rel: string)
    requires d >= 3
    ensures Within(Edges(Forward(ShortcutStore(d, rel), rel), Universe(ShortcutStore(d, rel), 0)), 0, d, 3)
  {
    var succ, universe := Forward(ShortcutStore(d, rel), rel), Universe(ShortcutStore(d, rel), 0);
    ShortcutUniverse(d, rel);
    ShortcutTargets(d, rel, 0);
    ShortcutTargets(d, rel, d - 1);
    assert [1, d - 1][1] in succ(0) && [d][0] in succ(d - 1);
    ReachInTwo(Edges(succ, universe), 0, d - 1, d);
  }

  /** The walk from 0 does not expand d. */
  lemma ShortcutSkips(d: nat, rel: string)
    requires d >= 3
    ensures d !in Expand(Forward(ShortcutStore(d, rel), rel), 0, d, {}).order
  {
    var succ := Forward(ShortcutStore(d, rel), rel);
    ShortcutTargets(d, rel, 0);
    forall j: nat | 1 <= j < d - 1
      ensures LeadsOn(succ, j)
    {
      ShortcutTargets(d, rel, j);
    }
    ShortcutWalk(succ, d);
    ExpandIsFresh(succ, 0, d, {});
  }

  /** From depth 3 on, a store with one node more than the depth suffices to miss a node two hops away. */
  lemma ShortcutMissesNode(d: nat, rel: string)
    requires d >= 3
    ensures var store := ShortcutStore(d, rel);
            && |Universe(store, 0)| == d + 1
            && Within(Edges(Forward(store, rel), Universe(store, 0)), 0, d, 3)
            && Forward(store, rel)(d) != [] && PathOf(store, rel, d) !in Results(store, 0, rel, d)
            && !CompleteIn(store, 0, rel, d)
  {
    var store := ShortcutStore(d, rel);
    ShortcutUniverse(d, rel);
    ShortcutInTwoHops(d, rel);
    ShortcutSkips(d, rel);
    ShortcutTargets(d, rel, d);
    InResultsExactlyWhen(store, 0, rel, d, d);
    CloserStill(Edges(Forward(store, rel), Universe(store, 0)), 0, d, 3, d);
  }

  lemma CloserStill(e: set<(NodeId, NodeId)>, a: NodeId, b: NodeId, near: nat, far: nat)
    requires Within(e, a, b, near) && near <= far
    ensures Within(e, a, b, far)
  {
  }

  /** The traversal finds everything within its depth, in all stores with at most `size` nodes,
      exactly when the depth is at most 2 or at least the number of nodes. */
  lemma CompleteExactlyWhen(size: nat, depth: nat)
    ensures CompleteUpTo(size, depth) <==> depth <= 2 || size <= depth
  {
    if depth <= 2 || size <= depth {
      forall store, from, rel | |Universe(store, from)| <= size
        ensures CompleteIn(store, from, rel, depth)
      {
        CompleteWhen(store, from, rel, depth);
      }
    } else {
      ShortcutMissesNode(depth, "next");
      assert !CompleteIn(ShortcutStore(depth, "next"), 0, "next", depth);
    }
  }

  lemma ResultsAreWalk(store: Store, from: NodeId, rel: string, depth: nat)
    ensures var succ, universe := Forward(store, rel), Universe(store, from);
            var results := Results(store, from, rel, depth);
            && (forall i, j :: 0 <= i < j < |results| ==> results[i].source != results[j].source)
            && (forall r :: r in results ==> Within(Edges(succ, universe), from, r.source, depth)
                                             && succ(r.source) != [] && r.relationship == rel && r.targets == Records(store.nodes, succ(r.source)))
            && (|universe| <= depth ==>
                  forall n :: Reaches(Edges(succ, universe), from, n) && succ(n) != [] ==>
                    GraphPath(n, rel, Records(store.nodes, succ(n))) in results)
  {
    var succ, universe := Forward(store, rel), Universe(store, from);
    var order := Expand(succ, from, depth, {}).order;
    var results := Results(store, from, rel, depth);
    ExpandIsFresh(succ, from, depth, {});
    PathsAre(store.nodes, rel, succ, order);
    forall r | r in results
      ensures Within(Edges(succ, universe), from, r.source, depth)
    {
      ExpandStaysNear(succ, universe, from, depth, {}, r.source);
    }
    if |universe| <= depth {
      DeepWalkReachesAll(succ, universe, from, depth);
    }
  }

  // ---- What the results say about the table ----

  /** An edge row as it is walked: from source to target, or from target to source. */
  function Ends(row: EdgeRow, backward: bool): (NodeId, NodeId) {
    if backward then (row.target, row.source) else (row.source, row.target)
  }

  /** Row i leads from that node, with that relationship, to a known node. */
  ghost predicate Leads(store: Store, rel: string, backward: bool, from: NodeId, i: nat) {
    && i < |store.edges| && store.edges[i].relationship == rel
    && Ends(store.edges[i], backward).0 == from && Ends(store.edges[i], backward).1 in store.nodes
  }

  ghost predicate Ascending(rows: seq<nat>) {
    forall i, j :: 0 <= i < j < |rows| ==> rows[i] < rows[j]
  }

  /** The targets are read from all rows leading from that node: one target per row, in the order of the rows. */
  ghost predicate ReadFrom(store: Store, rel: string, backward: bool, from: NodeId, targets: seq<KnowledgeNode>, rows: seq<nat>) {
    && |rows| == |targets| && Ascending(rows)
    && (forall k :: 0 <= k < |rows| ==> Leads(store, rel, backward, from, rows[k]) && targets[k] == store.nodes[Ends(store.edges[rows[k]], backward).1])
    && (forall i: nat :: Leads(store, rel, backward, from, i) ==> i in rows)
  }

  /** The hops a table allows among the known nodes and the start. */
  ghost function Hops(store: Store, rel: string, backward: bool, start: NodeId): set<(NodeId, NodeId)> {
    set row | row in store.edges && row.relationship == rel && Ends(row, backward).0 in Universe(store, start)
              && Ends(row, backward).1 in store.nodes :: Ends(row, backward)
  }

  ghost function Walked(store: Store, backward: bool): Store {
    if backward then Reversed(store) else store
  }

  /** The results of the traversal in one direction or the other. */
  ghost function Found(store: Store, from: NodeId, rel: string, depth: nat, backward: bool): seq<GraphPath> {
    Results(Walked(store, backward), from, rel, depth)
  }

  lemma WalkedRows(store: Store, backward: bool)
    ensures Walked(store, backward).nodes == store.nodes && |Walked(store, backward).edges| == |store.edges|
    ensures forall i :: 0 <= i < |store.edges| ==>
              Walked(store, backward).edges[i].relationship == store.edges[i].relationship
              && (Walked(store, backward).edges[i].source, Walked(store, backward).edges[i].target) == Ends(store.edges[i], backward)
  {
  }

  /** The rows below `upTo` that lead from that node. */
  lemma {:induction false} TargetsRead(store: Store, rel: string, backward: bool, from: NodeId, upTo: nat) returns (rows: seq<nat>)
    requires upTo <= |store.edges|
    ensures upTo <= |Walked(store, backward).edges|
    ensures var ids := Targets(Walked(store, backward), rel, from, upTo);
            && |rows| == |ids| && Ascending(rows)
            && (forall k :: 0 <= k < |rows| ==> rows[k] < upTo && Leads(store, rel, backward, from, rows[k]) && ids[k] == Ends(store.edges[rows[k]], backward).1)
            && (forall i: nat :: i < upTo && Leads(store, rel, backward, from, i) ==> i in rows)
  {
    WalkedRows(store, backward);
    rows := [];
    if upTo > 0 {
      rows := TargetsRead(store, rel, backward, from, upTo - 1);
      if Leads(store, rel, backward, from, upTo - 1) {
        rows := rows + [upTo - 1];
        assert rows[|rows| - 1] == upTo - 1;
      }
    }
  }

  lemma PathReadsRows(store: Store, rel: string, backward: bool, from: NodeId) returns (rows: seq<nat>)
    ensures var walked := Walked(store, backward);
            ReadFrom(store, rel, backward, from, Records(walked.nodes, Forward(walked, rel)(from)), rows)
  {
    WalkedRows(store, backward);
    rows := TargetsRead(store, rel, backward, from, |store.edges|);
  }

  lemma TargetsAreHops(store: Store, rel: string, backward: bool, n: NodeId, m: NodeId)
    ensures m in Forward(Walked(store, backward), rel)(n) <==> exists i: nat :: Leads(store, rel, backward, n, i) && Ends(store.edges[i], backward).1 == m
  {
    WalkedRows(store, backward);
    var rows := TargetsRead(store, rel, backward, n, |store.edges|);
    var ids := Forward(Walked(store, backward), rel)(n);
    if m in ids {
      var k :| 0 <= k < |ids| && ids[k] == m;
      assert Leads(store, rel, backward, n, rows[k]);
    }
    if i: nat :| Leads(store, rel, backward, n, i) && Ends(store.edges[i], backward).1 == m {
      var k :| 0 <= k < |rows| && rows[k] == i;
      assert ids[k] == m;
    }
  }

  lemma EdgesAreHops(store: Store, rel: string, backward: bool, start: NodeId)
    ensures Edges(Forward(Walked(store, backward), rel), Universe(store, start)) == Hops(store, rel, backward, start)
  {
    var succ, universe := Forward(Walked(store, backward), rel), Universe(store, start);
    forall n: NodeId, m: NodeId
      ensures (n, m) in Edges(succ, universe) <==> (n, m) in Hops(store, rel, backward, start)
    {
      TargetsAreHops(store, rel, backward, n, m);
      if (n, m) in Hops(store, rel, backward, start) {
        var row :| row in store.edges && row.relationship == rel && Ends(row, backward) == (n, m) && m in store.nodes;
        var i :| 0 <= i < |store.edges| && store.edges[i] == row;
        assert Leads(store, rel, backward, n, i);
      }
    }
  }

  /** A result: its source is fewer than `depth` hops away and leads somewhere, and its targets are read from the table. */
  ghost predicate Reported(store: Store, start: NodeId, rel: string, depth: nat, backward: bool, r: GraphPath) {
    && r.relationship == rel && r.targets != [] && Within(Hops(store, rel, backward, start), start, r.source, depth)
    && exists rows :: ReadFrom(store, rel, backward, r.source, r.targets, rows)
  }

  lemma EachIsReported(store: Store, start: NodeId, rel: string, depth: nat, backward: bool, r: GraphPath)
    requires r in Found(store, start, rel, depth, backward)
    ensures Reported(store, start, rel, depth, backward, r)
  {
    WalkedRows(store, backward);
    ResultsAreWalk(Walked(store, backward), start, rel, depth);
    EdgesAreHops(store, rel, backward, start);
    var rows := PathReadsRows(store, rel, backward, r.source);
  }

  lemma ReachableAreFound(store: Store, start: NodeId, rel: string, depth: nat, backward: bool, n: NodeId, i: nat)
    requires |Universe(store, start)| <= depth
    requires Reaches(Hops(store, rel, backward, start), start, n) && Leads(store, rel, backward, n, i)
    ensures exists r :: r in Found(store, start, rel, depth, backward) && r.source == n
  {
    var walked := Walked(store, backward);
    WalkedRows(store, backward);
    ResultsAreWalk(walked, start, rel, depth);
    EdgesAreHops(store, rel, backward, start);
    TargetsAreHops(store, rel, backward, n, Ends(store.edges[i], backward).1);
    assert GraphPath(n, rel, Records(walked.nodes, Forward(walked, rel)(n))) in Found(store, start, rel, depth, backward);
  }

  /** The sources of the results are distinct and fewer than `depth` hops away. Each is listed with the ends of all its rows of the
      queried relationship, once per row and in row order. With depth at least the node count they are all the reachable nodes that
      have such a row. */
  lemma TraversalMeaning(store: Store, start: NodeId, rel: string, depth: nat, backward: bool)
    ensures var results := Found(store, start, rel, depth, backward);
            && (forall i, j :: 0 <= i < j < |results| ==> results[i].source != results[j].source)
            && (forall r :: r in results ==> Reported(store, start, rel, depth, backward, r))
            && (|Universe(store, start)| <= depth ==>
                  forall n: NodeId, i: nat :: Reaches(Hops(store, rel, backward, start), start, n) && Leads(store, rel, backward, n, i) ==>
                    exists r :: r in results && r.source == n)
  {
    var results := Found(store, start, rel, depth, backward);
    ResultsAreWalk(Walked(store, backward), start, rel, depth);
    forall r | r in results
      ensures Reported(store, start, rel, depth, backward, r)
    {
      EachIsReported(store, start, rel, depth, backward, r);
    }
    if |Universe(store, start)| <= depth {
      forall n: NodeId, i: nat | Reaches(Hops(store, rel, backward, start), start, n) && Leads(store, rel, backward, n, i)
        ensures exists r :: r in results && r.source == n
      {
        ReachableAreFound(store, start, rel, depth, backward, n, i);
      }
    }
  }

  method Traverse(store: Store, from: NodeId, rel: string, depth: nat) returns (results: seq<GraphPath>)
    ensures results == Found(store, from, rel, depth, false)
    ensures forall r :: r in results ==> Reported(store, from, rel, depth, false, r)
  {
    var t := new Traversal(store, rel);
    results := t.TraverseImpl(from, depth);
    TraversalMeaning(store, from, rel, depth, false);
  }

  method ReverseTraverse(store: Store, to: NodeId, rel: string, depth: nat) returns (results: seq<GraphPath>)
    ensures results == Found(store, to, rel, depth, true)
    ensures forall r :: r in results ==> Reported(store, to, rel, depth, true, r)
  {
    var t := new Traversal(store, rel);
    results := t.ReverseTraverseImpl(to, depth);
    TraversalMeaning(store, to, rel, depth, true);
  }

  // ---- Other relationships do not matter ----

  lemma {:induction false} ExpandAgrees(f: NodeId -> seq<NodeId>, g: NodeId -> seq<NodeId>, from: NodeId, depth: nat, visited: set<NodeId>)
    requires forall n :: f(n) == g(n)
    ensures Expand(f, from, depth, visited) == Expand(g, from, depth, visited)
    decreases depth, 0
  {
    if depth > 1 {
      EachAgrees(f, g, f(from), depth - 1, visited + {from});
    }
  }

  lemma {:induction false} EachAgrees(f: NodeId -> seq<NodeId>, g: NodeId -> seq<NodeId>, ids: seq<NodeId>, depth: nat, visited: set<NodeId>)
    requires forall n :: f(n) == g(n)
    ensures ExpandEach(f, ids, depth, visited) == ExpandEach(g, ids, depth, visited)
    decreases depth, 1 + |ids|
  {
    if ids != [] {
      EachAgrees(f, g, ids[..|ids| - 1], depth, visited);
      ExpandAgrees(f, g, ids[|ids| - 1], depth, ExpandEach(f, ids[..|ids| - 1], depth, visited).visited);
    }
  }

  lemma {:induction false} PathsAgree(nodes: map<NodeId, KnowledgeNode>, rel: string, f: NodeId -> seq<NodeId>, g: NodeId -> seq<NodeId>,
                                      order: seq<NodeId>)
    requires forall n :: f(n) == g(n)
    requires forall n, m :: m in f(n) ==> m in nodes
    ensures Paths(nodes, rel, f, order) == Paths(nodes, rel, g, order)
  {
    if order != [] {
      PathsAgree(nodes, rel, f, g, order[..|order| - 1]);
    }
  }

  /** The store with one more row, before row i. */
  function WithRow(store: Store, i: nat, row: EdgeRow): Store
    requires i <= |store.edges|
  {
    store.(edges := store.edges[..i] + [row] + store.edges[i..])
  }

  lemma {:induction false} TargetsWithRow(store: Store, i: nat, row: EdgeRow, rel: string, n: NodeId, upTo: nat)
    requires i <= |store.edges| && row.relationship != rel && upTo <= |store.edges| + 1
    ensures Targets(WithRow(store, i, row), rel, n, upTo) == Targets(store, rel, n, if upTo <= i then upTo else upTo - 1)
  {
    if upTo > 0 {
      TargetsWithRow(store, i, row, rel, n, upTo - 1);
    }
  }

  lemma ResultsWithRow(store: Store, i: nat, row: EdgeRow, start: NodeId, rel: string, depth: nat)
    requires i <= |store.edges| && row.relationship != rel
    ensures Results(WithRow(store, i, row), start, rel, depth) == Results(store, start, rel, depth)
  {
    var f, g := Forward(WithRow(store, i, row), rel), Forward(store, rel);
    forall n: NodeId
      ensures f(n) == g(n)
    {
      TargetsWithRow(store, i, row, rel, n, |store.edges| + 1);
    }
    ExpandAgrees(f, g, start, depth, {});
    PathsAgree(store.nodes, rel, f, g, Expand(f, start, depth, {}).order);
  }

  /** Adding a row of another relationship anywhere, or removing one, changes no result in either direction. */
  lemma OtherRelationshipsDoNotMatter(store: Store, i: nat, row: EdgeRow, start: NodeId, rel: string, depth: nat, backward: bool)
    requires i <= |store.edges| && row.relationship != rel
    ensures Found(WithRow(store, i, row), start, rel, depth, backward) == Found(store, start, rel, depth, backward)
  {
    if backward {
      var turned := EdgeRow(row.target, row.source, row.relationship);
      assert Reversed(WithRow(store, i, row)).edges == WithRow(Reversed(store), i, turned).edges;
      ResultsWithRow(Reversed(store), i, turned, start, rel, depth);
    } else {
      ResultsWithRow(store, i, row, start, rel, depth);
    }
  }
}
