/** Pipeline configuration checks (src/pipeline/pipeline_builder.cpp): Kahn's algorithm and Validate. */
module PipelineValidator {
  import opened Digraph

  datatype StageType = Capture | Preprocess | Inference | Detect | RuleEval | Reason | Export | Custom

  datatype StageConfig = StageConfig(id: string, kind: StageType, dependsOn: seq<string>)

  datatype PipelineConfig = PipelineConfig(name: string, version: string, stages: seq<StageConfig>)

  // ---- The dependency relation ----

  ghost function Ids(stages: seq<StageConfig>): set<string> {
    set i | 0 <= i < |stages| :: stages[i].id
  }

  ghost predicate UniqueIds(stages: seq<StageConfig>) {
    forall i, j :: 0 <= i < j < |stages| ==> stages[i].id != stages[j].id
  }

  ghost predicate DependenciesExist(stages: seq<StageConfig>) {
    forall i, d :: 0 <= i < |stages| && d in stages[i].dependsOn ==> d in Ids(stages)
  }

  /** Edge (d, s): stage s depends on stage d. */
  ghost function DependsEdges(stages: seq<StageConfig>): set<(string, string)> {
    set i, d | 0 <= i < |stages| && d in stages[i].dependsOn :: (d, stages[i].id)
  }

  lemma {:induction false} IdCount(stages: seq<StageConfig>)
    requires UniqueIds(stages)
    ensures |Ids(stages)| == |stages|
  {
    if stages != [] {
      var front, last := stages[..|stages| - 1], stages[|stages| - 1];
      IdCount(front);
      assert Ids(stages) == Ids(front) + {last.id} by {
        assert stages == front + [last];
      }
      assert last.id !in Ids(front);
    } else {
      assert Ids(stages) == {};
    }
  }

  // ---- Kahn's algorithm ----

  /** How many entries of `deps` have not been visited yet. */
  ghost function Pending(deps: seq<string>, visited: set<string>): nat {
    if deps == [] then 0
    else Pending(deps[..|deps| - 1], visited) + if deps[|deps| - 1] in visited then 0 else 1
  }

  lemma {:induction false} PendingZero(deps: seq<string>, visited: set<string>)
    ensures Pending(deps, visited) == 0 <==> forall d :: d in deps ==> d in visited
  {
    if deps != [] {
      var front := deps[..|deps| - 1];
      assert deps == front + [deps[|deps| - 1]];
      PendingZero(front, visited);
    }
  }

  lemma {:induction false} PendingNone(deps: seq<string>)
    ensures Pending(deps, {}) == |deps|
  {
    if deps != [] {
      PendingNone(deps[..|deps| - 1]);
    }
  }

  lemma {:induction false} PendingVisit(deps: seq<string>, visited: set<string>, id: string)
    requires id !in visited
    ensures Pending(deps, visited) == Pending(deps, visited + {id}) + multiset(deps)[id]
  {
    if deps != [] {
      var front := deps[..|deps| - 1];
      assert deps == front + [deps[|deps| - 1]];
      PendingVisit(front, visited, id);
    }
  }

  function Consumers(adj: map<string, seq<string>>, id: string): seq<string> {
    if id in adj then adj[id] else []
  }

  ghost function DepsOf(stages: seq<StageConfig>): map<string, seq<string>> {
    if stages == [] then map[]
    else var last := stages[|stages| - 1]; DepsOf(stages[..|stages| - 1])[last.id := last.dependsOn]
  }

  lemma {:induction false} DepsOfStage(stages: seq<StageConfig>)
    requires UniqueIds(stages)
    ensures DepsOf(stages).Keys == Ids(stages)
    ensures forall i :: 0 <= i < |stages| ==> DepsOf(stages)[stages[i].id] == stages[i].dependsOn
  {
    if stages != [] {
      var front, last := stages[..|stages| - 1], stages[|stages| - 1];
      DepsOfStage(front);
      assert stages == front + [last];
      assert Ids(stages) == Ids(front) + {last.id};
      forall i | 0 <= i < |stages|
        ensures DepsOf(stages)[stages[i].id] == stages[i].dependsOn
      {
        if i < |front| {
          assert stages[i] == front[i];
        }
      }
    }
  }

  lemma IdsStep(stages: seq<StageConfig>, i: nat)
    requires i < |stages|
    ensures Ids(stages[..i + 1]) == Ids(stages[..i]) + {stages[i].id}
    ensures DepsOf(stages[..i + 1]) == DepsOf(stages[..i])[stages[i].id := stages[i].dependsOn]
  {
    assert stages[..i + 1] == stages[..i] + [stages[i]];
    assert stages[..i + 1][..i] == stages[..i];
  }

  /** adj lists every consumer as often as it names the dependency. */
  ghost predicate Mirrors(adj: map<string, seq<string>>, deps: map<string, seq<string>>) {
    forall d, x :: multiset(Consumers(adj, d))[x] == if x in deps then multiset(deps[x])[d] else 0
  }

  method AddConsumer(adj: map<string, seq<string>>, deps: seq<string>, id: string) returns (grown: map<string, seq<string>>)
    ensures forall d, x :: multiset(Consumers(grown, d))[x] ==
                           multiset(Consumers(adj, d))[x] + if x == id then multiset(deps)[d] else 0
  {
    grown := adj;
    for j := 0 to |deps|
      invariant forall d, x :: multiset(Consumers(grown, d))[x] ==
                               multiset(Consumers(adj, d))[x] + if x == id then multiset(deps[..j])[d] else 0
    {
      assert deps[..j + 1] == deps[..j] + [deps[j]];
      grown := grown[deps[j] := Consumers(grown, deps[j]) + [id]];
    }
    assert deps[..|deps|] == deps;
  }

  method ZeroDegrees(stages: seq<StageConfig>) returns (inDegree: map<string, int>)
    ensures inDegree.Keys == Ids(stages) && forall x :: x in inDegree ==> inDegree[x] == 0
  {
    inDegree := map[];
    for i := 0 to |stages|
      invariant forall x :: x in inDegree ==> inDegree[x] == 0
      invariant inDegree.Keys == Ids(stages[..i])
    {
      IdsStep(stages, i);
      inDegree := inDegree[stages[i].id := 0];
    }
    assert stages[..|stages|] == stages;
  }

  method AddStage(inDegree: map<string, int>, adj: map<string, seq<string>>, ghost deps: map<string, seq<string>>, s: StageConfig)
    returns (inDegree': map<string, int>, adj': map<string, seq<string>>)
    requires s.id in inDegree && s.id !in deps && Mirrors(adj, deps) && DegreesMatch(inDegree, deps)
    ensures inDegree'.Keys == inDegree.Keys
    ensures Mirrors(adj', deps[s.id := s.dependsOn]) && DegreesMatch(inDegree', deps[s.id := s.dependsOn])
  {
    adj' := AddConsumer(adj, s.dependsOn, s.id);
    MirrorsStep(adj, adj', deps, s.id, s.dependsOn);
    DegreesStep(inDegree, deps, s.id, s.dependsOn);
    inDegree' := inDegree[s.id := inDegree[s.id] + |s.dependsOn|];
  }

  method BuildAdjacency(stages: seq<StageConfig>) returns (inDegree: map<string, int>, adj: map<string, seq<string>>)
    requires UniqueIds(stages)
    ensures Mirrors(adj, DepsOf(stages)) && inDegree.Keys == DepsOf(stages).Keys == Ids(stages)
    ensures forall x :: x in inDegree ==> inDegree[x] == |DepsOf(stages)[x]|
  {
    inDegree := ZeroDegrees(stages);
    adj := map[];
    ghost var deps: map<string, seq<string>> := map[];
    for i := 0 to |stages|
      invariant deps == DepsOf(stages[..i]) && deps.Keys == Ids(stages[..i]) && inDegree.Keys == Ids(stages)
      invariant Mirrors(adj, deps) && DegreesMatch(inDegree, deps)
    {
      IdsStep(stages, i);
      assert stages[i].id !in deps && stages[i].id in inDegree;
      inDegree, adj := AddStage(inDegree, adj, deps, stages[i]);
      deps := deps[stages[i].id := stages[i].dependsOn];
    }
    assert stages[..|stages|] == stages;
    DepsOfStage(stages);
  }

  /** The in-degrees of the stages read so far; zero for the others. */
  ghost predicate DegreesMatch(inDegree: map<string, int>, deps: map<string, seq<string>>) {
    forall x :: x in inDegree ==> inDegree[x] == if x in deps then |deps[x]| else 0
  }

  lemma DegreesStep(inDegree: map<string, int>, deps: map<string, seq<string>>, id: string, dependsOn: seq<string>)
    requires DegreesMatch(inDegree, deps) && id in inDegree && id !in deps
    ensures DegreesMatch(inDegree[id := inDegree[id] + |dependsOn|], deps[id := dependsOn])
  {
  }

  lemma MirrorsStep(adj: map<string, seq<string>>, grown: map<string, seq<string>>, deps: map<string, seq<string>>,
                    id: string, dependsOn: seq<string>)
    requires Mirrors(adj, deps) && id !in deps
    requires forall d, x :: multiset(Consumers(grown, d))[x] ==
                            multiset(Consumers(adj, d))[x] + if x == id then multiset(dependsOn)[d] else 0
    ensures Mirrors(grown, deps[id := dependsOn])
  {
  }

  /** Remaining in-degrees: unvisited dependencies, plus decrements of the current stage still to come. */
  ghost predicate Counted(deps: map<string, seq<string>>, inDegree: map<string, int>, visited: set<string>, rest: seq<string>) {
    && inDegree.Keys == deps.Keys
    && forall x :: x in deps ==> inDegree[x] == Pending(deps[x], visited) + multiset(rest)[x]
  }

  /** The queue and the visited set together hold exactly the stages of in-degree zero, each once. */
  ghost predicate Queued(inDegree: map<string, int>, visited: set<string>, q: seq<string>) {
    && (forall i, j :: 0 <= i < j < |q| ==> q[i] != q[j])
    && (forall x :: x in q ==> x !in visited)
    && (forall x :: x in q || x in visited ==> x in inDegree && inDegree[x] == 0)
    && (forall x :: x in inDegree && inDegree[x] == 0 ==> x in q || x in visited)
  }

  /** Visiting order: every visited stage comes after all its dependencies. */
  ghost predicate Ordered(deps: map<string, seq<string>>, visited: set<string>, rank: map<string, int>) {
    && rank.Keys == visited
    && (forall x :: x in visited ==> rank[x] < |visited|)
    && forall x, d :: x in visited && x in deps && d in deps[x] ==> d in visited && rank[d] < rank[x]
  }

  method InitialQueue(inDegree: map<string, int>) returns (q: seq<string>)
    ensures Queued(inDegree, {}, q)
  {
    q := [];
    var todo := inDegree.Keys;
    while todo != {}
      invariant todo <= inDegree.Keys
      invariant forall i, j :: 0 <= i < j < |q| ==> q[i] != q[j]
      invariant forall x :: x in q <==> x in inDegree && x !in todo && inDegree[x] == 0
    {
      var id :| id in todo;
      if inDegree[id] == 0 {
        q := q + [id];
      }
      todo := todo - {id};
    }
  }

  method Relax(inDegree: map<string, int>, q: seq<string>, consumers: seq<string>,
               ghost deps: map<string, seq<string>>, ghost visited: set<string>)
    returns (inDegree': map<string, int>, q': seq<string>)
    requires Counted(deps, inDegree, visited, consumers) && Queued(inDegree, visited, q)
    requires forall x :: x in consumers ==> x in deps
    ensures Counted(deps, inDegree', visited, []) && Queued(inDegree', visited, q')
  {
    inDegree', q' := inDegree, q;
    assert consumers[0..] == consumers;
    for t := 0 to |consumers|
      invariant Counted(deps, inDegree', visited, consumers[t..]) && Queued(inDegree', visited, q')
    {
      var next := consumers[t];
      assert consumers[t..] == [next] + consumers[t + 1..];
      inDegree' := inDegree'[next := inDegree'[next] - 1];
      if inDegree'[next] == 0 {
        q' := q' + [next];
      }
    }
    assert consumers[|consumers|..] == [];
  }

  /** Takes the front stage off the queue and relaxes its consumers. */
  method VisitFront(inDegree: map<string, int>, q: seq<string>, adj: map<string, seq<string>>,
                    ghost deps: map<string, seq<string>>, ghost visited: set<string>, ghost rank: map<string, int>)
    returns (inDegree': map<string, int>, q': seq<string>, ghost rank': map<string, int>)
    requires q != [] && Mirrors(adj, deps)
    requires Counted(deps, inDegree, visited, []) && Queued(inDegree, visited, q) && Ordered(deps, visited, rank)
    ensures q[0] in deps && q[0] !in visited
    ensures Counted(deps, inDegree', visited + {q[0]}, []) && Queued(inDegree', visited + {q[0]}, q')
    ensures Ordered(deps, visited + {q[0]}, rank')
  {
    var id := q[0];
    PendingZero(deps[id], visited);
    OrderedStep(deps, visited, rank, id);
    rank' := rank[id := |visited|];
    PendingVisitAll(deps, adj, visited, id);
    QueuedStep(inDegree, visited, q);
    assert Counted(deps, inDegree, visited + {id}, Consumers(adj, id));
    inDegree', q' := Relax(inDegree, q[1..], Consumers(adj, id), deps, visited + {id});
  }

  lemma InitialCounts(deps: map<string, seq<string>>, inDegree: map<string, int>)
    requires inDegree.Keys == deps.Keys && forall x :: x in inDegree ==> inDegree[x] == |deps[x]|
    ensures Counted(deps, inDegree, {}, [])
  {
    forall x | x in deps
      ensures Pending(deps[x], {}) == inDegree[x]
    {
      PendingNone(deps[x]);
    }
  }

  /** Kahn's algorithm answers exactly whether the dependency relation has a cycle. */
  method IsAcyclic(stages: seq<StageConfig>) returns (acyclic: bool)
    requires UniqueIds(stages) && DependenciesExist(stages)
    ensures acyclic <==> !Cyclic(DependsEdges(stages))
  {
    ghost var deps := DepsOf(stages);
    var inDegree, adj := BuildAdjacency(stages);
    InitialCounts(deps, inDegree);
    var q := InitialQueue(inDegree);
    var count := 0;
    ghost var visited: set<string>, rank: map<string, int> := {}, map[];
    while q != []
      invariant Counted(deps, inDegree, visited, []) && Queued(inDegree, visited, q)
      invariant Ordered(deps, visited, rank) && count == |visited|
      decreases |deps.Keys - visited|
    {
      ghost var id := q[0];
      inDegree, q, rank := VisitFront(inDegree, q, adj, deps, visited, rank);
      OneMore(deps.Keys, visited, id);
      visited := visited + {id};
      count := count + 1;
    }
    acyclic := count == |stages|;
    KahnVerdict(stages, inDegree, visited, rank);
  }

  lemma QueuedStep(inDegree: map<string, int>, visited: set<string>, q: seq<string>)
    requires q != [] && Queued(inDegree, visited, q)
    ensures Queued(inDegree, visited + {q[0]}, q[1..])
  {
  }

  lemma OrderedStep(deps: map<string, seq<string>>, visited: set<string>, rank: map<string, int>, id: string)
    requires Ordered(deps, visited, rank) && id in deps && id !in visited
    requires forall d :: d in deps[id] ==> d in visited
    ensures Ordered(deps, visited + {id}, rank[id := |visited|])
  {
  }

  lemma PendingVisitAll(deps: map<string, seq<string>>, adj: map<string, seq<string>>, visited: set<string>, id: string)
    requires Mirrors(adj, deps) && id !in visited
    ensures forall x :: x in deps ==>
              Pending(deps[x], visited) == Pending(deps[x], visited + {id}) + multiset(Consumers(adj, id))[x]
    ensures forall x :: x in Consumers(adj, id) ==> x in deps
  {
    forall x | x in deps
      ensures Pending(deps[x], visited) == Pending(deps[x], visited + {id}) + multiset(Consumers(adj, id))[x]
    {
      PendingVisit(deps[x], visited, id);
    }
    forall x | x in Consumers(adj, id)
      ensures x in deps
    {
      assert x in multiset(Consumers(adj, id));
    }
  }

  lemma VisitedOrderIsAcyclic(stages: seq<StageConfig>, visited: set<string>, rank: map<string, int>)
    requires UniqueIds(stages) && Ordered(DepsOf(stages), visited, rank) && visited == Ids(stages)
    ensures !Cyclic(DependsEdges(stages))
  {
    var e := DependsEdges(stages);
    forall d, x | (d, x) in e
      ensures d in rank && x in rank && rank[d] < rank[x]
    {
      DependencyRanksLower(stages, visited, rank, d, x);
    }
    RankedIsAcyclic(e, rank);
  }

  lemma DependencyRanksLower(stages: seq<StageConfig>, visited: set<string>, rank: map<string, int>, d: string, x: string)
    requires UniqueIds(stages) && Ordered(DepsOf(stages), visited, rank) && visited == Ids(stages) && (d, x) in DependsEdges(stages)
    ensures d in rank && x in rank && rank[d] < rank[x]
  {
    DependencyListed(stages, d, x);
  }

  lemma DependencyListed(stages: seq<StageConfig>, d: string, x: string)
    requires UniqueIds(stages) && (d, x) in DependsEdges(stages)
    ensures x in DepsOf(stages) && d in DepsOf(stages)[x] && x in Ids(stages)
  {
    DepsOfStage(stages);
    var i :| 0 <= i < |stages| && stages[i].id == x && d in stages[i].dependsOn;
    assert DepsOf(stages)[x] == stages[i].dependsOn;
  }

  lemma StuckStagesAreCyclic(stages: seq<StageConfig>, inDegree: map<string, int>, visited: set<string>, x: string)
    requires UniqueIds(stages) && DependenciesExist(stages)
    requires Counted(DepsOf(stages), inDegree, visited, []) && Queued(inDegree, visited, [])
    requires x in Ids(stages) && x !in visited
    ensures Cyclic(DependsEdges(stages))
  {
    var deps, e, left := DepsOf(stages), DependsEdges(stages), Ids(stages) - visited;
    DepsOfStage(stages);
    forall y | y in left
      ensures HasPredecessorIn(e, left, y)
    {
      var i :| 0 <= i < |stages| && stages[i].id == y;
      assert deps[y] == stages[i].dependsOn;
      assert inDegree[y] != 0;
      PendingZero(deps[y], visited);
      var d :| d in deps[y] && d !in visited;
      assert (d, y) in e && d in left;
    }
    NoSourceMeansCycle(e, left, x);
  }

  lemma VisitedAll(stages: seq<StageConfig>, visited: set<string>, inDegree: map<string, int>)
    requires UniqueIds(stages) && inDegree.Keys == DepsOf(stages).Keys
    requires forall x :: x in visited ==> x in inDegree
    ensures visited <= Ids(stages) && (|visited| == |stages| <==> visited == Ids(stages))
  {
    DepsOfStage(stages);
    IdCount(stages);
    SubsetCardinality(visited, Ids(stages));
  }

  /** With an empty queue, the visited stages are all stages exactly when there is no cycle. */
  lemma KahnVerdict(stages: seq<StageConfig>, inDegree: map<string, int>, visited: set<string>, rank: map<string, int>)
    requires UniqueIds(stages) && DependenciesExist(stages)
    requires Counted(DepsOf(stages), inDegree, visited, []) && Queued(inDegree, visited, [])
    requires Ordered(DepsOf(stages), visited, rank)
    ensures |visited| == |stages| <==> !Cyclic(DependsEdges(stages))
  {
    VisitedAll(stages, visited, inDegree);
    if visited == Ids(stages) {
      VisitedOrderIsAcyclic(stages, visited, rank);
    } else {
      var x := MissingElement(visited, Ids(stages));
      StuckStagesAreCyclic(stages, inDegree, visited, x);
    }
  }

  lemma OneMore<T>(all: set<T>, visited: set<T>, x: T)
    requires x in all && x !in visited
    ensures |visited + {x}| == |visited| + 1
    ensures |all - (visited + {x})| < |all - visited|
  {
    assert all - visited == (all - (visited + {x})) + {x};
  }

  lemma MissingElement<T>(a: set<T>, b: set<T>) returns (x: T)
    requires a <= b && a != b
    ensures x in b && x !in a
  {
    assert b == a + (b - a);
    x :| x in b - a;
  }

  lemma SubsetCardinality<T>(a: set<T>, b: set<T>)
    requires a <= b
    ensures |a| <= |b| && (|a| == |b| <==> a == b)
  {
    assert b == a + (b - a);
  }

  // ---- Validate ----

  datatype Verdict =
    | Accepted
    | NameMissing | BadVersion | NoStages | EmptyId | DuplicateId | UnknownDependency
    | CyclicDependency | NoEntry | NoExit | EntryNotCapture | ExitNotExport | FanOut | TypeMismatch

  predicate AllDigits(s: string) {
    s != "" && forall i :: 0 <= i < |s| ==> '0' <= s[i] <= '9'
  }

  /** Digits, a dot, digits. */
  predicate IsVersion(v: string) {
    exists k :: 0 <= k < |v| && v[k] == '.' && AllDigits(v[..k]) && AllDigits(v[k + 1..])
  }

  ghost predicate Digit(c: char) {
    '0' <= c <= '9'
  }

  /** Digits around a single dot that is at neither end. */
  ghost predicate OneInnerDot(v: string) {
    && (forall i :: 0 <= i < |v| ==> Digit(v[i]) || v[i] == '.')
    && (exists k :: 0 < k < |v| - 1 && v[k] == '.')
    && (forall i, j :: 0 <= i < j < |v| ==> v[i] != '.' || v[j] != '.')
  }

  /** So a second dot or a letter is refused. */
  lemma VersionShape(v: string)
    ensures IsVersion(v) <==> OneInnerDot(v)
  {
    if IsVersion(v) {
      var k :| 0 <= k < |v| && v[k] == '.' && AllDigits(v[..k]) && AllDigits(v[k + 1..]);
      forall i | 0 <= i < |v| && i != k
        ensures Digit(v[i])
      {
        if i < k {
          assert v[..k][i] == v[i];
        } else {
          assert v[k + 1..][i - k - 1] == v[i];
        }
      }
    }
    if OneInnerDot(v) {
      var k :| 0 < k < |v| - 1 && v[k] == '.';
      assert AllDigits(v[..k]) && AllDigits(v[k + 1..]);
    }
  }

  function OutputTypeIndex(t: StageType): nat {
    match t
    case Capture => 0
    case Preprocess => 1
    case Inference => 2
    case Detect => 3
    case RuleEval => 4
    case Reason => 6
    case Export => 6
    case Custom => 0
  }

  function InputTypeIndex(t: StageType): nat {
    match t
    case Capture => 0
    case Preprocess => 0
    case Inference => 1
    case Detect => 2
    case RuleEval => 3
    case Reason => 4
    case Export => 6
    case Custom => 0
  }

  /** The first stage whose id is empty or already taken decides. */
  ghost function IdVerdict(stages: seq<StageConfig>): Verdict {
    if stages == [] then Accepted
    else
      var front, last := stages[..|stages| - 1], stages[|stages| - 1];
      if IdVerdict(front) != Accepted then IdVerdict(front)
      else if last.id == "" then EmptyId
      else if last.id in Ids(front) then DuplicateId
      else Accepted
  }

  ghost predicate IsEntry(s: StageConfig) {
    s.dependsOn == []
  }

  ghost predicate IsExit(stages: seq<StageConfig>, s: StageConfig) {
    forall i :: 0 <= i < |stages| ==> s.id !in stages[i].dependsOn
  }

  ghost predicate HasEntry(stages: seq<StageConfig>, captureOnly: bool) {
    exists i {:trigger IsEntry(stages[i])} :: 0 <= i < |stages| && IsEntry(stages[i]) && (captureOnly ==> stages[i].kind == Capture)
  }

  ghost predicate HasExit(stages: seq<StageConfig>, exportOnly: bool) {
    exists i {:trigger IsExit(stages, stages[i])} :: 0 <= i < |stages| && IsExit(stages, stages[i]) && (exportOnly ==> stages[i].kind == Export)
  }

  /** How many depends_on entries name stage d, repeats included. */
  ghost function TimesNamed(stages: seq<StageConfig>, d: string): nat {
    if stages == [] then 0
    else TimesNamed(stages[..|stages| - 1], d) + multiset(stages[|stages| - 1].dependsOn)[d]
  }

  ghost predicate FansOut(stages: seq<StageConfig>) {
    exists d :: TimesNamed(stages, d) > 1
  }

  ghost predicate TypesMatch(stages: seq<StageConfig>) {
    forall i, j :: 0 <= i < |stages| && 0 <= j < |stages| && stages[j].id in stages[i].dependsOn ==>
                     OutputTypeIndex(stages[j].kind) == InputTypeIndex(stages[i].kind)
  }

  /** The checks that follow the cycle test. */
  ghost function ShapeVerdict(stages: seq<StageConfig>): Verdict {
    if !HasEntry(stages, false) then NoEntry
    else if !HasExit(stages, false) then NoExit
    else if !HasEntry(stages, true) then EntryNotCapture
    else if !HasExit(stages, true) then ExitNotExport
    else if FansOut(stages) then FanOut
    else if !TypesMatch(stages) then TypeMismatch
    else Accepted
  }

  /** The verdict in the order the checks are made. */
  ghost function Judge(c: PipelineConfig): Verdict {
    if c.name == "" then NameMissing
    else if !IsVersion(c.version) then BadVersion
    else if c.stages == [] then NoStages
    else if IdVerdict(c.stages) != Accepted then IdVerdict(c.stages)
    else if !DependenciesExist(c.stages) then UnknownDependency
    else if Cyclic(DependsEdges(c.stages)) then CyclicDependency
    else ShapeVerdict(c.stages)
  }

  lemma {:induction false} IdVerdictMeans(stages: seq<StageConfig>)
    ensures IdVerdict(stages) == Accepted <==> UniqueIds(stages) && "" !in Ids(stages)
  {
    if stages != [] {
      var front, last := stages[..|stages| - 1], stages[|stages| - 1];
      IdVerdictMeans(front);
      assert stages == front + [last];
      assert Ids(stages) == Ids(front) + {last.id};
      if UniqueIds(stages) {
        assert forall i, j :: 0 <= i < j < |front| ==> front[i].id == stages[i].id && front[j].id == stages[j].id;
      }
    }
  }

  method CheckIds(stages: seq<StageConfig>) returns (verdict: Verdict, ids: set<string>)
    ensures verdict == IdVerdict(stages)
    ensures verdict == Accepted ==> ids == Ids(stages)
  {
    ids := {};
    for i := 0 to |stages|
      invariant ids == Ids(stages[..i]) && IdVerdict(stages[..i]) == Accepted
      invariant forall k :: 0 <= k <= i ==> IdVerdict(stages[..k]) == Accepted
    {
      IdsStep(stages, i);
      assert stages[..i + 1][..i] == stages[..i];
      if stages[i].id == "" || stages[i].id in ids {
        verdict := if stages[i].id == "" then EmptyId else DuplicateId;
        FirstProblemDecides(stages, i + 1);
        return;
      }
      ids := ids + {stages[i].id};
    }
    assert stages[..|stages|] == stages;
    verdict := Accepted;
  }

  lemma {:induction false} FirstProblemDecides(stages: seq<StageConfig>, k: nat)
    requires k <= |stages| && IdVerdict(stages[..k]) != Accepted
    ensures IdVerdict(stages) == IdVerdict(stages[..k])
  {
    if k < |stages| {
      assert stages[..|stages| - 1][..k] == stages[..k];
      FirstProblemDecides(stages[..|stages| - 1], k);
    } else {
      assert stages[..k] == stages;
    }
  }

  method CheckDependencies(stages: seq<StageConfig>, ids: set<string>) returns (exist: bool)
    requires ids == Ids(stages)
    ensures exist <==> DependenciesExist(stages)
  {
    for i := 0 to |stages|
      invariant forall k, d :: 0 <= k < i && d in stages[k].dependsOn ==> d in ids
    {
      for j := 0 to |stages[i].dependsOn|
        invariant forall m :: 0 <= m < j ==> stages[i].dependsOn[m] in ids
      {
        if stages[i].dependsOn[j] !in ids {
          return false;
        }
      }
    }
    exist := true;
  }

  method CollectDependedOn(stages: seq<StageConfig>) returns (dependedOn: set<string>)
    ensures forall d :: d in dependedOn <==> exists i :: 0 <= i < |stages| && d in stages[i].dependsOn
  {
    dependedOn := {};
    for i := 0 to |stages|
      invariant forall d :: d in dependedOn <==> exists k :: 0 <= k < i && d in stages[k].dependsOn
    {
      dependedOn := dependedOn + set d | d in stages[i].dependsOn;
    }
  }

  method CountConsumers(stages: seq<StageConfig>) returns (count: map<string, int>)
    ensures forall d :: (if d in count then count[d] else 0) == TimesNamed(stages, d)
  {
    count := map[];
    for i := 0 to |stages|
      invariant forall d :: (if d in count then count[d] else 0) == TimesNamed(stages[..i], d)
    {
      ghost var before := count;
      var deps := stages[i].dependsOn;
      for j := 0 to |deps|
        invariant forall d :: (if d in count then count[d] else 0) ==
                              (if d in before then before[d] else 0) + multiset(deps[..j])[d]
      {
        assert deps[..j + 1] == deps[..j] + [deps[j]];
        count := count[deps[j] := (if deps[j] in count then count[deps[j]] else 0) + 1];
      }
      assert deps[..|deps|] == deps;
      assert stages[..i + 1][..i] == stages[..i];
    }
    assert stages[..|stages|] == stages;
  }

  method CheckFanOut(stages: seq<StageConfig>) returns (fanOut: bool)
    ensures fanOut <==> FansOut(stages)
  {
    var count := CountConsumers(stages);
    if d :| d in count && count[d] > 1 {
      assert TimesNamed(stages, d) > 1;
      return true;
    }
    fanOut := false;
  }

  method CheckTypes(stages: seq<StageConfig>) returns (compatible: bool)
    requires UniqueIds(stages)
    ensures compatible <==> TypesMatch(stages)
  {
    for i := 0 to |stages|
      invariant forall k, j :: 0 <= k < i && 0 <= j < |stages| && stages[j].id in stages[k].dependsOn ==>
                                 OutputTypeIndex(stages[j].kind) == InputTypeIndex(stages[k].kind)
    {
      for m := 0 to |stages[i].dependsOn|
        invariant forall j, q :: 0 <= q < m && 0 <= j < |stages| && stages[j].id == stages[i].dependsOn[q] ==>
                                   OutputTypeIndex(stages[j].kind) == InputTypeIndex(stages[i].kind)
      {
        var found, upstream := FindStage(stages, stages[i].dependsOn[m]);
        if found && OutputTypeIndex(stages[upstream].kind) != InputTypeIndex(stages[i].kind) {
          return false;
        }
      }
    }
    compatible := true;
  }

  method FindStage(stages: seq<StageConfig>, id: string) returns (found: bool, at: nat)
    ensures found <==> id in Ids(stages)
    ensures found ==> at < |stages| && stages[at].id == id && forall j :: 0 <= j < at ==> stages[j].id != id
  {
    at := 0;
    while at < |stages|
      invariant at <= |stages| && forall j :: 0 <= j < at ==> stages[j].id != id
    {
      if stages[at].id == id {
        return true, at;
      }
      at := at + 1;
    }
    found := false;
  }

  method Validate(c: PipelineConfig) returns (verdict: Verdict)
    ensures verdict == Judge(c)
  {
    if c.name == "" {
      return NameMissing;
    }
    if !IsVersion(c.version) {
      return BadVersion;
    }
    if c.stages == [] {
      return NoStages;
    }
    var idVerdict, ids := CheckIds(c.stages);
    if idVerdict != Accepted {
      return idVerdict;
    }
    IdVerdictMeans(c.stages);
    var exist := CheckDependencies(c.stages, ids);
    if !exist {
      return UnknownDependency;
    }
    var acyclic := IsAcyclic(c.stages);
    if !acyclic {
      return CyclicDependency;
    }
    verdict := ValidateShape(c.stages);
  }

  method FindEntry(stages: seq<StageConfig>, captureOnly: bool) returns (found: bool)
    ensures found <==> HasEntry(stages, captureOnly)
  {
    for i := 0 to |stages|
      invariant forall k :: 0 <= k < i ==> !(IsEntry(stages[k]) && (captureOnly ==> stages[k].kind == Capture))
    {
      assert IsEntry(stages[i]) <==> stages[i].dependsOn == [];
      if stages[i].dependsOn == [] && (!captureOnly || stages[i].kind == Capture) {
        return true;
      }
    }
    found := false;
  }

  method FindExit(stages: seq<StageConfig>, dependedOn: set<string>, exportOnly: bool) returns (found: bool)
    requires forall d :: d in dependedOn <==> exists i :: 0 <= i < |stages| && d in stages[i].dependsOn
    ensures found <==> HasExit(stages, exportOnly)
  {
    for i := 0 to |stages|
      invariant forall k :: 0 <= k < i ==> !(IsExit(stages, stages[k]) && (exportOnly ==> stages[k].kind == Export))
    {
      assert IsExit(stages, stages[i]) <==> stages[i].id !in dependedOn;
      if stages[i].id !in dependedOn && (!exportOnly || stages[i].kind == Export) {
        return true;
      }
    }
    found := false;
  }

  method ValidateShape(stages: seq<StageConfig>) returns (verdict: Verdict)
    requires UniqueIds(stages)
    ensures verdict == ShapeVerdict(stages)
  {
    var entry := FindEntry(stages, false);
    if !entry {
      return NoEntry;
    }
    var dependedOn := CollectDependedOn(stages);
    var exit := FindExit(stages, dependedOn, false);
    if !exit {
      return NoExit;
    }
    var captureEntry := FindEntry(stages, true);
    if !captureEntry {
      return EntryNotCapture;
    }
    var exportExit := FindExit(stages, dependedOn, true);
    if !exportExit {
      return ExitNotExport;
    }
    var fanOut := CheckFanOut(stages);
    if fanOut {
      return FanOut;
    }
    var compatible := CheckTypes(stages);
    verdict := if compatible then Accepted else TypeMismatch;
  }

  // ---- Consequences ----

  lemma NoEntryMeansCycle(stages: seq<StageConfig>)
    requires stages != [] && DependenciesExist(stages) && !HasEntry(stages, false)
    ensures Cyclic(DependsEdges(stages))
  {
    var e, ids := DependsEdges(stages), Ids(stages);
    forall x | x in ids
      ensures HasPredecessorIn(e, ids, x)
    {
      var i :| 0 <= i < |stages| && stages[i].id == x;
      assert !IsEntry(stages[i]);
      var d := stages[i].dependsOn[0];
      assert (d, x) in e && d in ids;
    }
    assert stages[0].id in ids;
    NoSourceMeansCycle(e, ids, stages[0].id);
  }

  lemma NamedBy(stages: seq<StageConfig>, i: nat) returns (k: nat)
    requires i < |stages| && !HasExit(stages, false)
    ensures k < |stages| && stages[i].id in stages[k].dependsOn
  {
    assert !IsExit(stages, stages[i]);
    k :| 0 <= k < |stages| && stages[i].id in stages[k].dependsOn;
  }

  lemma NoExitMeansCycle(stages: seq<StageConfig>)
    requires stages != [] && !HasExit(stages, false)
    ensures Cyclic(DependsEdges(stages))
  {
    var e, ids := DependsEdges(stages), Ids(stages);
    forall x | x in ids
      ensures HasSuccessorIn(e, ids, x)
    {
      var i :| 0 <= i < |stages| && stages[i].id == x;
      var k := NamedBy(stages, i);
      assert (x, stages[k].id) in e && stages[k].id in ids;
    }
    assert stages[0].id in ids;
    NoSinkMeansCycle(e, ids, stages[0].id);
  }

  /** The "no entry" and "no exit" rejections can never fire. */
  lemma EntryAndExitChecksAreDead(c: PipelineConfig)
    ensures Judge(c) != NoEntry && Judge(c) != NoExit
  {
    IdVerdictMeans(c.stages);
    NoEntryFromIds(c.stages);
    if c.stages != [] && DependenciesExist(c.stages) {
      if !HasEntry(c.stages, false) {
        NoEntryMeansCycle(c.stages);
      }
      if !HasExit(c.stages, false) {
        NoExitMeansCycle(c.stages);
      }
    }
  }

  lemma {:induction false} NoEntryFromIds(stages: seq<StageConfig>)
    ensures IdVerdict(stages) in {Accepted, EmptyId, DuplicateId}
  {
    if stages != [] {
      NoEntryFromIds(stages[..|stages| - 1]);
    }
  }

  lemma {:induction false} NamedTwice(stages: seq<StageConfig>, i: nat, j: nat, d: string)
    requires i < j < |stages| && d in stages[i].dependsOn && d in stages[j].dependsOn
    ensures TimesNamed(stages, d) >= 2
  {
    var front := stages[..|stages| - 1];
    if j < |front| {
      NamedTwice(front, i, j, d);
    } else {
      NamedOnce(front, i, d);
    }
  }

  lemma {:induction false} NamedOnce(stages: seq<StageConfig>, i: nat, d: string)
    requires i < |stages| && d in stages[i].dependsOn
    ensures TimesNamed(stages, d) >= 1
  {
    if i < |stages| - 1 {
      NamedOnce(stages[..|stages| - 1], i, d);
    }
  }

  /** An accepted stage has at most one consumer. */
  lemma AcceptedHasOneConsumer(c: PipelineConfig, d: string, x: string, y: string)
    requires Judge(c) == Accepted && (d, x) in DependsEdges(c.stages) && (d, y) in DependsEdges(c.stages)
    ensures x == y
  {
    var i :| 0 <= i < |c.stages| && d in c.stages[i].dependsOn && c.stages[i].id == x;
    var j :| 0 <= j < |c.stages| && d in c.stages[j].dependsOn && c.stages[j].id == y;
    assert TimesNamed(c.stages, d) <= 1;
    if i < j {
      NamedTwice(c.stages, i, j, d);
    } else if j < i {
      NamedTwice(c.stages, j, i, d);
    }
  }

  /** The chain of consumers that starts with p ends at a stage nobody depends on. */
  lemma {:induction false} ChainEnds(c: PipelineConfig, p: seq<string>) returns (exit: string)
    requires Judge(c) == Accepted && IsPath(DependsEdges(c.stages), p)
    requires forall x :: x in p ==> x in Ids(c.stages)
    ensures Reaches(DependsEdges(c.stages), p[0], exit) && exit in Ids(c.stages)
    ensures IsSink(DependsEdges(c.stages), exit)
    decreases |Ids(c.stages)| - |p|
  {
    var e, ids := DependsEdges(c.stages), Ids(c.stages);
    IdVerdictMeans(c.stages);
    AcyclicPathsAreShort(e, ids, p);
    exit := p[|p| - 1];
    assert Joins(e, p, p[0], exit);
    if y :| (exit, y) in e {
      AppendStep(e, p, y);
      AcyclicPathsAreShort(e, ids, p + [y]);
      exit := ChainEnds(c, p + [y]);
    }
  }

  lemma {:induction false} SameEnd(c: PipelineConfig, p: seq<string>, q: seq<string>)
    requires Judge(c) == Accepted && IsPath(DependsEdges(c.stages), p) && IsPath(DependsEdges(c.stages), q)
    requires p[0] == q[0]
    requires IsSink(DependsEdges(c.stages), p[|p| - 1]) && IsSink(DependsEdges(c.stages), q[|q| - 1])
    ensures p == q
  {
    var e := DependsEdges(c.stages);
    if |p| > 1 {
      PathTail(e, p);
    }
    if |q| > 1 {
      PathTail(e, q);
    }
    if |p| > 1 && |q| > 1 {
      AcceptedHasOneConsumer(c, p[0], p[1], q[1]);
      SameEnd(c, p[1..], q[1..]);
      assert p == [p[0]] + p[1..] && q == [q[0]] + q[1..];
    }
  }

  /** Linear flow: from every stage of an accepted pipeline there is exactly one chain of consumers
      to an exit stage. */
  lemma ExactlyOneChain(c: PipelineConfig, start: string)
    requires Judge(c) == Accepted && start in Ids(c.stages)
    ensures exists p :: IsChain(c, start, p)
    ensures forall p, q :: IsChain(c, start, p) && IsChain(c, start, q) ==> p == q
  {
    ReachesSelf(DependsEdges(c.stages), start);
    var exit := ChainEnds(c, [start]);
    var p :| Joins(DependsEdges(c.stages), p, start, exit);
    assert IsChain(c, start, p);
    forall p, q | IsChain(c, start, p) && IsChain(c, start, q)
      ensures p == q
    {
      SameEnd(c, p, q);
    }
  }

  ghost predicate IsChain(c: PipelineConfig, start: string, p: seq<string>) {
    && IsPath(DependsEdges(c.stages), p) && p[0] == start
    && IsSink(DependsEdges(c.stages), p[|p| - 1])
  }

  // ---- When an accepted pipeline is linear ----

  /** The pipeline is one chain: a path that visits every stage once and contains every dependency. */
  ghost predicate IsLinear(stages: seq<StageConfig>) {
    exists p :: IsWholeChain(stages, p)
  }

  ghost predicate IsWholeChain(stages: seq<StageConfig>, p: seq<string>) {
    && IsPath(DependsEdges(stages), p)
    && (forall x :: x in p <==> x in Ids(stages))
    && (forall i, j :: 0 <= i < j < |p| ==> p[i] != p[j])
    && (forall a, b :: (a, b) in DependsEdges(stages) ==> Follows(p, a, b))
  }

  ghost predicate Follows(p: seq<string>, a: string, b: string) {
    exists i :: 0 <= i < |p| - 1 && p[i] == a && p[i + 1] == b
  }

  /** No two stages have an empty depends_on. */
  ghost predicate AtMostOneEntry(stages: seq<StageConfig>) {
    forall i, j :: 0 <= i < |stages| && 0 <= j < |stages| && stages[i].dependsOn == [] && stages[j].dependsOn == [] ==> i == j
  }

  lemma AcceptedMeans(c: PipelineConfig)
    requires Judge(c) == Accepted
    ensures c.stages != [] && UniqueIds(c.stages) && DependenciesExist(c.stages)
    ensures !Cyclic(DependsEdges(c.stages)) && HasEntry(c.stages, false)
  {
    IdVerdictMeans(c.stages);
  }

  /** Walking dependencies back from any stage ends at an entry that leads to it. */
  lemma {:induction false} ReachedFromEntry(stages: seq<StageConfig>, p: seq<string>) returns (i: nat)
    requires DependenciesExist(stages) && !Cyclic(DependsEdges(stages))
    requires IsPath(DependsEdges(stages), p) && forall x :: x in p ==> x in Ids(stages)
    ensures i < |stages| && stages[i].dependsOn == [] && Reaches(DependsEdges(stages), stages[i].id, p[|p| - 1])
    decreases |Ids(stages)| - |p|
  {
    var e := DependsEdges(stages);
    assert p[0] in Ids(stages);
    i :| 0 <= i < |stages| && stages[i].id == p[0];
    if stages[i].dependsOn == [] {
      assert Joins(e, p, p[0], p[|p| - 1]);
    } else {
      var d := stages[i].dependsOn[0];
      assert (d, p[0]) in e && d in Ids(stages);
      PrependStep(e, d, p);
      AcyclicPathsAreShort(e, Ids(stages), [d] + p);
      i := ReachedFromEntry(stages, [d] + p);
      assert ([d] + p)[|p|] == p[|p| - 1];
    }
  }

  /** Where every stage has at most one consumer, whatever a chain to an exit leads to lies on it. */
  lemma ChainHoldsReachable(c: PipelineConfig, start: string, p: seq<string>, x: string)
    requires Judge(c) == Accepted && IsChain(c, start, p) && Reaches(DependsEdges(c.stages), start, x)
    ensures x in p
  {
    var e := DependsEdges(c.stages);
    var onChain := set y | y in p;
    forall a, b | (a, b) in e && a in onChain
      ensures b in onChain
    {
      EdgeOnChain(c, start, p, a, b);
    }
    ClosedHoldsReachable(e, onChain, start, x);
  }

  lemma EdgeOnChain(c: PipelineConfig, start: string, p: seq<string>, a: string, b: string)
    requires Judge(c) == Accepted && IsChain(c, start, p) && a in p && (a, b) in DependsEdges(c.stages)
    ensures Follows(p, a, b) && b in p
  {
    var i :| 0 <= i < |p| && p[i] == a;
    SinkEndsPath(DependsEdges(c.stages), p, i, b);
    AcceptedHasOneConsumer(c, a, p[i + 1], b);
  }

  /** A position of a path from which an edge leaves is not its end. */
  lemma SinkEndsPath(e: set<(string, string)>, p: seq<string>, i: nat, b: string)
    requires IsPath(e, p) && IsSink(e, p[|p| - 1]) && i < |p| && (p[i], b) in e
    ensures i < |p| - 1 && (p[i], p[i + 1]) in e
  {
  }

  lemma OneEntryIsLinear(c: PipelineConfig)
    requires Judge(c) == Accepted && AtMostOneEntry(c.stages)
    ensures IsLinear(c.stages)
  {
    var e, ids := DependsEdges(c.stages), Ids(c.stages);
    AcceptedMeans(c);
    var k :| 0 <= k < |c.stages| && IsEntry(c.stages[k]);
    var start := c.stages[k].id;
    ExactlyOneChain(c, start);
    var p :| IsChain(c, start, p);
    forall x | x in ids
      ensures x in p
    {
      var i := ReachedFromEntry(c.stages, [x]);
      assert i == k;
      ChainHoldsReachable(c, start, p, x);
    }
    forall j | 0 <= j < |p|
      ensures p[j] in ids
    {
      PathInside(c.stages, p, j);
    }
    forall i, j | 0 <= i < j < |p|
      ensures p[i] != p[j]
    {
      if p[i] == p[j] {
        RepeatIsCycle(e, p, i, j);
      }
    }
    forall a, b | (a, b) in e
      ensures Follows(p, a, b)
    {
      EdgeOnChain(c, start, p, a, b);
    }
    assert IsWholeChain(c.stages, p);
  }

  lemma PathInside(stages: seq<StageConfig>, p: seq<string>, j: nat)
    requires DependenciesExist(stages) && IsPath(DependsEdges(stages), p) && p[0] in Ids(stages) && j < |p|
    ensures p[j] in Ids(stages)
  {
    if j > 0 {
      assert (p[j - 1], p[j - 1 + 1]) in DependsEdges(stages);
    }
  }

  lemma OnlyTheHeadIsEntry(stages: seq<StageConfig>, p: seq<string>, i: nat, k: nat)
    requires UniqueIds(stages) && IsPath(DependsEdges(stages), p)
    requires i < |stages| && k < |p| && p[k] == stages[i].id
    ensures k == 0 || stages[i].dependsOn != []
  {
    if k > 0 {
      assert (p[k - 1], p[k - 1 + 1]) in DependsEdges(stages);
    }
  }

  lemma LinearHasOneEntry(stages: seq<StageConfig>)
    requires UniqueIds(stages) && IsLinear(stages)
    ensures AtMostOneEntry(stages)
  {
    var p :| IsWholeChain(stages, p);
    forall i | 0 <= i < |stages| && stages[i].dependsOn == []
      ensures stages[i].id == p[0]
    {
      assert stages[i].id in p;
      var k :| 0 <= k < |p| && p[k] == stages[i].id;
      OnlyTheHeadIsEntry(stages, p, i, k);
    }
  }

  /** An accepted pipeline is one chain through all its stages exactly when a single stage has no dependencies. */
  lemma LinearExactlyWhen(c: PipelineConfig)
    requires Judge(c) == Accepted
    ensures IsLinear(c.stages) <==> AtMostOneEntry(c.stages)
  {
    AcceptedMeans(c);
    if AtMostOneEntry(c.stages) {
      OneEntryIsLinear(c);
    }
    if IsLinear(c.stages) {
      LinearHasOneEntry(c.stages);
    }
  }

  // ---- What an accepted line does ----

  /** Frames pass from cameras and custom stages through the five processing stages, one after the other, to the exports. */
  ghost predicate MayFollow(upstream: StageType, downstream: StageType) {
    match upstream
    case Capture => downstream in {Capture, Custom, Preprocess}
    case Custom => downstream in {Capture, Custom, Preprocess}
    case Preprocess => downstream == Inference
    case Inference => downstream == Detect
    case Detect => downstream == RuleEval
    case RuleEval => downstream == Reason
    case Reason => downstream == Export
    case Export => downstream == Export
  }

  /** The type check accepts exactly the dependencies allowed by that order. */
  lemma TypesMatchExactlyWhen(stages: seq<StageConfig>)
    ensures TypesMatch(stages) <==>
            forall i, j :: 0 <= i < |stages| && 0 <= j < |stages| && stages[j].id in stages[i].dependsOn ==> MayFollow(stages[j].kind, stages[i].kind)
  {
    forall a: StageType, b: StageType
      ensures OutputTypeIndex(a) == InputTypeIndex(b) <==> MayFollow(a, b)
    {
    }
  }

  /** Positions of stages each of which depends on the one before. */
  ghost predicate IsLine(stages: seq<StageConfig>, q: seq<nat>) {
    && q != [] && (forall k :: 0 <= k < |q| ==> q[k] < |stages|)
    && forall k :: 0 <= k < |q| - 1 ==> stages[q[k]].id in stages[q[k + 1]].dependsOn
  }

  lemma NextKind(stages: seq<StageConfig>, q: seq<nat>, k: nat)
    requires TypesMatch(stages) && IsLine(stages, q) && k < |q| - 1
    ensures MayFollow(stages[q[k]].kind, stages[q[k + 1]].kind)
  {
    TypesMatchExactlyWhen(stages);
  }

  lemma {:induction false} FirstPreprocess(stages: seq<StageConfig>, q: seq<nat>, from: nat) returns (k: nat)
    requires TypesMatch(stages) && IsLine(stages, q) && from < |q| && stages[q[|q| - 1]].kind == Export
    requires stages[q[from]].kind in {Capture, Custom}
    ensures from < k < |q| && stages[q[k]].kind == Preprocess
    ensures forall j :: from <= j < k ==> stages[q[j]].kind in {Capture, Custom}
    decreases |q| - from
  {
    NextKind(stages, q, from);
    if stages[q[from + 1]].kind == Preprocess {
      k := from + 1;
    } else {
      k := FirstPreprocess(stages, q, from + 1);
    }
  }

  lemma {:induction false} ExportsStay(stages: seq<StageConfig>, q: seq<nat>, k: nat, j: nat)
    requires TypesMatch(stages) && IsLine(stages, q) && k <= j < |q| && stages[q[k]].kind == Export
    ensures stages[q[j]].kind == Export
  {
    if k < j {
      ExportsStay(stages, q, k, j - 1);
      NextKind(stages, q, j - 1);
    }
  }

  /** The five processing stages stand at k to k + 4, with sources before them and exports behind them. */
  ghost predicate ProcessesAt(stages: seq<StageConfig>, q: seq<nat>, k: nat)
    requires IsLine(stages, q)
  {
    && 0 < k && k + 5 < |q|
    && (forall j :: 0 <= j < k ==> stages[q[j]].kind in {Capture, Custom})
    && stages[q[k]].kind == Preprocess && stages[q[k + 1]].kind == Inference && stages[q[k + 2]].kind == Detect
    && stages[q[k + 3]].kind == RuleEval && stages[q[k + 4]].kind == Reason
    && (forall j :: k + 5 <= j < |q| ==> stages[q[j]].kind == Export)
  }

  /** In an accepted pipeline, every line from a camera to an export passes through preprocessing, inference, detection, rules and
      reasoning, in this order and once each; only cameras and custom stages come before, only exports after. */
  lemma AcceptedLineProcesses(c: PipelineConfig, q: seq<nat>)
    requires Judge(c) == Accepted && IsLine(c.stages, q)
    requires c.stages[q[0]].kind == Capture && c.stages[q[|q| - 1]].kind == Export
    ensures exists k :: ProcessesAt(c.stages, q, k)
  {
    var k := FirstPreprocess(c.stages, q, 0);
    NextKind(c.stages, q, k);
    NextKind(c.stages, q, k + 1);
    NextKind(c.stages, q, k + 2);
    NextKind(c.stages, q, k + 3);
    NextKind(c.stages, q, k + 4);
    forall j | k + 5 <= j < |q|
      ensures c.stages[q[j]].kind == Export
    {
      ExportsStay(c.stages, q, k + 5, j);
    }
    assert ProcessesAt(c.stages, q, k);
  }

  // ---- Accepted pipelines that are not linear ----

  lemma {:induction false} NamedByNobody(stages: seq<StageConfig>, d: string)
    requires forall i :: 0 <= i < |stages| ==> d !in stages[i].dependsOn
    ensures TimesNamed(stages, d) == 0
  {
    if stages != [] {
      NamedByNobody(stages[..|stages| - 1], d);
    }
  }

  /** Without a common dependency and without repeats nothing fans out. */
  lemma {:induction false} NamedAtMostOnce(stages: seq<StageConfig>, d: string)
    requires forall i :: 0 <= i < |stages| ==> multiset(stages[i].dependsOn)[d] <= 1
    requires forall i, j :: 0 <= i < j < |stages| ==> d !in stages[i].dependsOn || d !in stages[j].dependsOn
    ensures TimesNamed(stages, d) <= 1
  {
    if stages != [] {
      var front := stages[..|stages| - 1];
      if d in stages[|stages| - 1].dependsOn {
        NamedByNobody(front, d);
      } else {
        NamedAtMostOnce(front, d);
      }
    }
  }

  /** Stages that name earlier stages only form no cycle. */
  lemma ListedForwardIsAcyclic(stages: seq<StageConfig>)
    requires UniqueIds(stages)
    requires forall i, d :: 0 <= i < |stages| && d in stages[i].dependsOn ==> exists j :: 0 <= j < i && stages[j].id == d
    ensures DependenciesExist(stages) && !Cyclic(DependsEdges(stages))
  {
    var ids := Ids(stages);
    var rank := map x | x in ids :: Position(stages, x);
    forall a, b | (a, b) in DependsEdges(stages)
      ensures a in rank && b in rank && rank[a] < rank[b]
    {
      var i :| 0 <= i < |stages| && a in stages[i].dependsOn && stages[i].id == b;
      var j :| 0 <= j < i && stages[j].id == a;
      assert a in ids && b in ids;
    }
    RankedIsAcyclic(DependsEdges(stages), rank);
  }

  ghost function Position(stages: seq<StageConfig>, x: string): int
    requires x in Ids(stages)
  {
    var i :| 0 <= i < |stages| && stages[i].id == x; i
  }

  /** Two stages that nothing connects. */
  lemma DisconnectedIsAccepted()
    ensures var c := PipelineConfig("line", "1.0", [StageConfig("camera", Capture, []), StageConfig("writer", Export, [])]);
            Judge(c) == Accepted && DependsEdges(c.stages) == {} && !IsLinear(c.stages)
  {
    var stages := [StageConfig("camera", Capture, []), StageConfig("writer", Export, [])];
    var c := PipelineConfig("line", "1.0", stages);
    OneDotZero();
    assert stages[0].id == "camera" && stages[1].id == "writer";
    AcceptedBecause(c, 0, 1);
    TwoEntriesAreNotLinear(c);
  }

  /** Two cameras that feed one preprocessing stage, and the rest of the chain. */
  function TwoCameras(n: seq<string>): seq<StageConfig>
    requires |n| == 8
  {
    [StageConfig(n[0], Capture, []), StageConfig(n[1], Capture, []), StageConfig(n[2], Preprocess, [n[0], n[1]]),
     StageConfig(n[3], Inference, [n[2]]), StageConfig(n[4], Detect, [n[3]]), StageConfig(n[5], RuleEval, [n[4]]),
     StageConfig(n[6], Reason, [n[5]]), StageConfig(n[7], Export, [n[6]])]
  }

  ghost predicate Names(n: seq<string>) {
    |n| == 8 && (forall i :: 0 <= i < |n| ==> n[i] != "") && forall i, j :: 0 <= i < j < |n| ==> n[i] != n[j]
  }

  lemma TwoCamerasForward(n: seq<string>)
    requires Names(n)
    ensures forall i :: 0 <= i < 8 ==> TwoCameras(n)[i].id == n[i]
    ensures forall i, d :: 0 <= i < 8 && d in TwoCameras(n)[i].dependsOn ==> 2 <= i && (d == n[i - 1] || (i == 2 && d == n[0]))
  {
  }

  lemma TwoCamerasDistinct(n: seq<string>)
    requires Names(n)
    ensures forall i, d :: 0 <= i < 8 ==> multiset(TwoCameras(n)[i].dependsOn)[d] <= 1
    ensures forall i, j, d :: 0 <= i < j < 8 ==> d !in TwoCameras(n)[i].dependsOn || d !in TwoCameras(n)[j].dependsOn
    ensures forall i, d :: 0 <= i < 8 && d in TwoCameras(n)[i].dependsOn ==> exists j :: 0 <= j < i && TwoCameras(n)[j].id == d
  {
    TwoCamerasForward(n);
    forall i, d | 0 <= i < 8
      ensures multiset(TwoCameras(n)[i].dependsOn)[d] <= 1
    {
      if i != 2 {
        assert |TwoCameras(n)[i].dependsOn| <= 1;
      }
    }
    forall i, d | 0 <= i < 8 && d in TwoCameras(n)[i].dependsOn
      ensures exists j :: 0 <= j < i && TwoCameras(n)[j].id == d
    {
      assert d == TwoCameras(n)[if i == 2 && d == n[0] then 0 else i - 1].id;
    }
  }

  lemma TwoCamerasFit(n: seq<string>)
    requires Names(n)
    ensures TypesMatch(TwoCameras(n))
  {
    var stages := TwoCameras(n);
    TwoCamerasForward(n);
    forall i, j | 0 <= i < 8 && 0 <= j < 8 && stages[j].id in stages[i].dependsOn
      ensures j == i - 1 || (i == 2 && j == 0)
    {
    }
    TypesMatchExactlyWhen(stages);
  }

  lemma TwoCamerasEnd(n: seq<string>)
    requires Names(n)
    ensures IsExit(TwoCameras(n), TwoCameras(n)[7])
  {
  }

  lemma TwoCamerasAccepted(n: seq<string>)
    requires Names(n)
    ensures Judge(PipelineConfig("line", "1.0", TwoCameras(n))) == Accepted
  {
    OneDotZero();
    TwoCamerasForward(n);
    TwoCamerasDistinct(n);
    TwoCamerasFit(n);
    TwoCamerasEnd(n);
    AcceptedBecause(PipelineConfig("line", "1.0", TwoCameras(n)), 0, 7);
  }

  /** Whatever the names, fan-in is accepted and is not linear. */
  lemma FanInIsAccepted(n: seq<string>)
    requires Names(n)
    ensures Judge(PipelineConfig("line", "1.0", TwoCameras(n))) == Accepted && !IsLinear(TwoCameras(n))
    ensures (n[0], n[2]) in DependsEdges(TwoCameras(n)) && (n[1], n[2]) in DependsEdges(TwoCameras(n))
  {
    TwoCamerasAccepted(n);
    TwoEntriesAreNotLinear(PipelineConfig("line", "1.0", TwoCameras(n)));
    assert n[0] in TwoCameras(n)[2].dependsOn && n[1] in TwoCameras(n)[2].dependsOn;
  }

  lemma TwoEntriesAreNotLinear(c: PipelineConfig)
    requires Judge(c) == Accepted && |c.stages| > 1 && IsEntry(c.stages[0]) && IsEntry(c.stages[1])
    ensures !IsLinear(c.stages)
  {
    assert c.stages[0].dependsOn == c.stages[1].dependsOn;
    LinearExactlyWhen(c);
  }

  lemma OneDotZero()
    ensures IsVersion("1.0")
  {
    assert "1.0"[1] == '.' && AllDigits("1.0"[..1]) && AllDigits("1.0"[1 + 1..]);
  }

  /** Enough for acceptance: stages that name earlier ones only, no common dependency, fitting types,
      a capture entry and an export exit. */
  lemma AcceptedBecause(c: PipelineConfig, entry: nat, exit: nat)
    requires c.name != "" && IsVersion(c.version) && entry < |c.stages| && exit < |c.stages|
    requires UniqueIds(c.stages) && (forall i :: 0 <= i < |c.stages| ==> c.stages[i].id != "")
    requires forall i, d :: 0 <= i < |c.stages| && d in c.stages[i].dependsOn ==>
                              exists j :: 0 <= j < i && c.stages[j].id == d
    requires forall i, d :: 0 <= i < |c.stages| ==> multiset(c.stages[i].dependsOn)[d] <= 1
    requires forall i, j, d :: 0 <= i < j < |c.stages| ==> d !in c.stages[i].dependsOn || d !in c.stages[j].dependsOn
    requires IsEntry(c.stages[entry]) && c.stages[entry].kind == Capture
    requires IsExit(c.stages, c.stages[exit]) && c.stages[exit].kind == Export
    requires TypesMatch(c.stages)
    ensures Judge(c) == Accepted
  {
    IdVerdictMeans(c.stages);
    ListedForwardIsAcyclic(c.stages);
    forall d
      ensures TimesNamed(c.stages, d) <= 1
    {
      NamedAtMostOnce(c.stages, d);
    }
  }
}
