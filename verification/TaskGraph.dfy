/** Memoised depth-first execution of a task graph (src/runtime/task_graph.cpp). */
module TaskGraph {
  import opened Digraph

  newtype TaskId = x: int | 0 <= x < 0x1_0000_0000_0000_0000

  datatype ErrorCode = AlreadyRegistered | NodeNotFound | Cancelled | DispatchFailure(code: int)

  datatype Status = Success | Failed(error: ErrorCode)

  datatype TaskNode = TaskNode(id: TaskId, stageId: int, dependencies: seq<TaskId>)

  /** Edge (d, n): node n depends on d. */
  ghost function DependencyEdges(nodes: map<TaskId, TaskNode>): set<(TaskId, TaskId)> {
    set n, d | n in nodes && d in nodes[n].dependencies :: (d, n)
  }

  ghost predicate DependenciesExist(nodes: map<TaskId, TaskNode>) {
    forall n, d :: n in nodes && d in nodes[n].dependencies ==> d in nodes
  }

  /** a is at least one dependency step above n. */
  ghost predicate Above(e: set<(TaskId, TaskId)>, n: TaskId, a: TaskId) {
    exists m :: (n, m) in e && Reaches(e, m, a)
  }

  ghost predicate AllAbove(e: set<(TaskId, TaskId)>, ids: seq<TaskId>, anc: set<TaskId>) {
    forall n, a :: n in ids && a in anc ==> Above(e, n, a)
  }

  lemma DependenciesBelow(nodes: map<TaskId, TaskNode>, n: TaskId, anc: set<TaskId>)
    requires n in nodes && AllAbove(DependencyEdges(nodes), [n], anc)
    ensures AllAbove(DependencyEdges(nodes), nodes[n].dependencies, anc + {n})
  {
    var e := DependencyEdges(nodes);
    forall d, a | d in nodes[n].dependencies && a in anc + {n}
      ensures Above(e, d, a)
    {
      assert (d, n) in e;
      ReachesSelf(e, n);
      if a in anc {
        assert n in [n];
        assert Above(e, n, a);
        var m :| (n, m) in e && Reaches(e, m, a);
        ReachesEdge(e, n, m);
        ReachesTrans(e, n, m, a);
      }
    }
  }

  lemma NotAboveItself(e: set<(TaskId, TaskId)>, n: TaskId)
    requires !Cyclic(e)
    ensures !Above(e, n, n)
  {
    if Above(e, n, n) {
      var m :| (n, m) in e && Reaches(e, m, n);
      BackEdgeCycle(e, n, m);
    }
  }

  /** Going down from n: n is a new ancestor of its dependencies. */
  lemma Descend(nodes: map<TaskId, TaskNode>, n: TaskId, anc: set<TaskId>)
    requires n in nodes && anc <= nodes.Keys && !Cyclic(DependencyEdges(nodes))
    requires AllAbove(DependencyEdges(nodes), [n], anc)
    ensures n !in anc && AllAbove(DependencyEdges(nodes), nodes[n].dependencies, anc + {n})
    ensures |nodes.Keys - (anc + {n})| < |nodes.Keys - anc|
  {
    NotAboveItself(DependencyEdges(nodes), n);
    DependenciesBelow(nodes, n, anc);
    assert n in [n];
    assert nodes.Keys - anc == (nodes.Keys - (anc + {n})) + {n};
  }

  /** The k-th dispatched node exists and all its dependencies were dispatched before it. */
  ghost predicate InOrder(nodes: map<TaskId, TaskNode>, dispatched: seq<TaskId>, k: nat)
    requires k < |dispatched|
  {
    && dispatched[k] in nodes
    && forall d :: d in nodes[dispatched[k]].dependencies ==> d in dispatched[..k]
  }

  /** Holds at all times: nothing twice, nothing before its dependencies, nothing after a failure. */
  ghost predicate SoundLog(nodes: map<TaskId, TaskNode>, outcome: nat -> Status, dispatched: seq<TaskId>) {
    && (forall i, j :: 0 <= i < j < |dispatched| ==> dispatched[i] != dispatched[j])
    && (forall k :: 0 <= k < |dispatched| - 1 ==> outcome(k) == Success)
    && forall k :: 0 <= k < |dispatched| ==> InOrder(nodes, dispatched, k)
  }

  /** Holds until something fails: the finished nodes are exactly the dispatched ones, all successful. */
  ghost predicate AllSucceeded(outcome: nat -> Status, dispatched: seq<TaskId>, completed: map<TaskId, Status>) {
    && (forall k :: 0 <= k < |dispatched| ==> outcome(k) == Success)
    && (forall n :: n in completed <==> n in dispatched)
    && forall n :: n in completed ==> completed[n] == Success
  }

  /** Every way a run can fail. */
  ghost predicate Explains(nodes: map<TaskId, TaskNode>, stopped: nat -> bool, outcome: nat -> Status, polls: nat,
                           dispatched: seq<TaskId>, error: ErrorCode)
  {
    || (error == NodeNotFound && !DependenciesExist(nodes))
    || (error == Cancelled && exists k :: 0 <= k < polls && stopped(k))
    || (dispatched != [] && outcome(|dispatched| - 1) == Failed(error))
  }

  lemma AppendDispatch(nodes: map<TaskId, TaskNode>, outcome: nat -> Status, dispatched: seq<TaskId>, completed: map<TaskId, Status>, id: TaskId)
    requires SoundLog(nodes, outcome, dispatched) && AllSucceeded(outcome, dispatched, completed)
    requires id in nodes && id !in completed && forall d :: d in nodes[id].dependencies ==> d in completed
    ensures SoundLog(nodes, outcome, dispatched + [id])
    ensures outcome(|dispatched|) == Success ==> AllSucceeded(outcome, dispatched + [id], completed[id := Success])
  {
    var longer := dispatched + [id];
    forall k | 0 <= k < |longer|
      ensures InOrder(nodes, longer, k)
    {
      assert longer[..k] == dispatched[..k];
      if k < |dispatched| {
        assert InOrder(nodes, dispatched, k);
      }
    }
  }

  /** One run: the map of finished nodes shared by the recursive walk, and the log of dispatches.
      stopped(k) is what the k-th look at the stop token sees; outcome(k) is the result of the k-th dispatch. */
  class Execution {
    const nodes: map<TaskId, TaskNode>
    const stopped: nat -> bool
    const outcome: nat -> Status
    var completed: map<TaskId, Status>
    var polls: nat
    var dispatched: seq<TaskId>

    constructor (nodes: map<TaskId, TaskNode>, stopped: nat -> bool, outcome: nat -> Status)
      ensures this.nodes == nodes && this.stopped == stopped && this.outcome == outcome
      ensures completed == map[] && dispatched == [] && polls == 0
    {
      this.nodes, this.stopped, this.outcome := nodes, stopped, outcome;
      completed, dispatched, polls := map[], [], 0;
    }

    ghost predicate Sound()
      reads this
    {
      SoundLog(nodes, outcome, dispatched)
    }

    ghost predicate Healthy()
      reads this
    {
      Sound() && AllSucceeded(outcome, dispatched, completed)
    }

    ghost predicate Explained(error: ErrorCode)
      reads this
    {
      Explains(nodes, stopped, outcome, polls, dispatched, error)
    }

    method EnsureCompleted(id: TaskId, ghost anc: set<TaskId>) returns (result: Status)
      requires Healthy() && !Cyclic(DependencyEdges(nodes))
      requires AllAbove(DependencyEdges(nodes), [id], anc) && anc <= nodes.Keys
      requires id in nodes || (id !in anc && !DependenciesExist(nodes))
      modifies this
      ensures Sound() && old(dispatched) <= dispatched && old(polls) <= polls
      ensures result == Success ==> Healthy() && id in completed && completed.Keys >= old(completed.Keys)
      ensures result.Failed? ==> Explained(result.error)
      ensures forall a :: a in anc ==> (a in completed <==> a in old(completed))
      decreases |nodes.Keys - anc|, 0, 0
    {
      if id in completed {
        return completed[id];
      }
      polls := polls + 1;
      if stopped(polls - 1) {
        return Failed(Cancelled);
      }
      if id !in nodes {
        result := Failed(NodeNotFound);
        completed := completed[id := result];
        return;
      }
      Descend(nodes, id, anc);
      var deps := EnsureEach(nodes[id].dependencies, anc + {id});
      if deps.Failed? {
        if id !in completed {
          completed := completed[id := deps];
        }
        return deps;
      }
      result := DispatchAndRecord(id);
    }

    /** The executor runs the node's work; its answer is the next outcome. */
    method DispatchAndRecord(id: TaskId) returns (result: Status)
      requires Healthy() && id in nodes && id !in completed
      requires forall d :: d in nodes[id].dependencies ==> d in completed
      modifies this`dispatched, this`completed
      ensures Sound() && dispatched == old(dispatched) + [id] && completed == old(completed)[id := result]
      ensures result == outcome(|dispatched| - 1)
      ensures result == Success ==> Healthy()
    {
      AppendDispatch(nodes, outcome, dispatched, completed, id);
      dispatched := dispatched + [id];
      result := outcome(|dispatched| - 1);
      completed := completed[id := result];
    }

    method EnsureEach(ids: seq<TaskId>, ghost anc: set<TaskId>) returns (result: Status)
      requires Healthy() && !Cyclic(DependencyEdges(nodes))
      requires AllAbove(DependencyEdges(nodes), ids, anc) && anc <= nodes.Keys
      requires forall n :: n in ids ==> n in nodes || !DependenciesExist(nodes)
      modifies this
      ensures Sound() && old(dispatched) <= dispatched && old(polls) <= polls
      ensures result == Success ==> Healthy() && completed.Keys >= old(completed.Keys) && forall n :: n in ids ==> n in completed
      ensures result.Failed? ==> Explained(result.error)
      ensures forall a :: a in anc ==> (a in completed <==> a in old(completed))
      decreases |nodes.Keys - anc|, 1, |ids|
    {
      if ids == [] {
        return Success;
      }
      var head := EnsureCompleted(ids[0], anc);
      if head.Failed? {
        return head;
      }
      result := EnsureEach(ids[1..], anc);
      assert ids == [ids[0]] + ids[1..];
    }
  }

  /** Lists a set in some order; the unordered map promises no more. */
  method ListIds(all: set<TaskId>) returns (ids: seq<TaskId>)
    ensures forall n :: n in ids <==> n in all
  {
    ids := [];
    var todo := all;
    while todo != {}
      invariant todo <= all && forall n :: n in ids <==> n in all && n !in todo
    {
      var id :| id in todo;
      ids := ids + [id];
      todo := todo - {id};
    }
  }

  class Graph {
    var nodes: map<TaskId, TaskNode>

    constructor ()
      ensures nodes == map[]
    {
      nodes := map[];
    }

    /** A second node with the same id is refused and leaves the graph as it was. */
    method AddNode(node: TaskNode) returns (result: Status)
      modifies this
      ensures result == if node.id in old(nodes) then Failed(AlreadyRegistered) else Success
      ensures nodes == if node.id in old(nodes) then old(nodes) else old(nodes)[node.id := node]
    {
      if node.id in nodes {
        return Failed(AlreadyRegistered);
      }
      nodes := nodes[node.id := node];
      result := Success;
    }

    /** Runs every node, in whatever order the node map is listed. */
    method RunToCompletion(stopped: nat -> bool, outcome: nat -> Status)
      returns (result: Status, dispatched: seq<TaskId>, polls: nat)
      requires !Cyclic(DependencyEdges(nodes))
      ensures SoundLog(nodes, outcome, dispatched)
      ensures result == Success ==> forall n :: n in nodes <==> n in dispatched
      ensures result == Success ==> |dispatched| == |nodes| && forall k :: 0 <= k < |dispatched| ==> outcome(k) == Success
      ensures result.Failed? ==> Explains(nodes, stopped, outcome, polls, dispatched, result.error)
    {
      var ids := ListIds(nodes.Keys);
      var run := new Execution(nodes, stopped, outcome);
      result := run.EnsureEach(ids, {});
      dispatched, polls := run.dispatched, run.polls;
      if result == Success {
        forall n
          ensures n in dispatched <==> n in nodes.Keys
        {
          if n in dispatched {
            var k :| 0 <= k < |dispatched| && dispatched[k] == n;
            assert InOrder(nodes, dispatched, k);
          }
        }
        DistinctLength(dispatched, nodes.Keys);
      }
    }
  }

  lemma {:induction false} DistinctLength(s: seq<TaskId>, all: set<TaskId>)
    requires forall i, j :: 0 <= i < j < |s| ==> s[i] != s[j]
    requires forall n :: n in s <==> n in all
    ensures |s| == |all|
  {
    if s == [] {
      assert forall n :: n in all ==> n in s;
      assert all == {};
    } else {
      var last := s[|s| - 1];
      forall n
        ensures n in s[..|s| - 1] <==> n in all - {last}
      {
        assert s == s[..|s| - 1] + [last];
      }
      DistinctLength(s[..|s| - 1], all - {last});
    }
  }
}
