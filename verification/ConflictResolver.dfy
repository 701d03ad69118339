/** Override elimination among matched rules (src/rule/conflict_resolver.cpp). */
module ConflictResolver {
  import opened Digraph

  datatype Rule = Rule(name: string, overrides: seq<string>, overriddenBy: seq<string>)

  datatype ResolvedRule = ResolvedRule(name: string, matched: bool, action: string)

  /** `involved` are the names listed in the error message. */
  datatype Outcome = Resolved | CyclicOverride(involved: set<string>)

  datatype Color = White | Gray | Black

  // ---- What the rule sets and the evaluation say ----

  function Flatten(sets: seq<seq<Rule>>): seq<Rule> {
    if sets == [] then [] else Flatten(sets[..|sets| - 1]) + sets[|sets| - 1]
  }

  /** Name lookup; a later rule replaces an earlier one of the same name. */
  function Lookup(rules: seq<Rule>): map<string, Rule> {
    if rules == [] then map[]
    else var r := rules[|rules| - 1]; Lookup(rules[..|rules| - 1])[r.name := r]
  }

  ghost predicate MatchedAt(ev: seq<ResolvedRule>, i: int) {
    0 <= i < |ev| && ev[i].matched
  }

  ghost function MatchedNames(ev: seq<ResolvedRule>): set<string> {
    set i | 0 <= i < |ev| && ev[i].matched :: ev[i].name
  }

  /** Entry i is the last matched entry that carries its name. */
  ghost predicate LastOfName(ev: seq<ResolvedRule>, i: int) {
    MatchedAt(ev, i) && forall j | i < j < |ev| && ev[j].matched :: ev[j].name != ev[i].name
  }

  ghost predicate Overrides(rules: map<string, Rule>, a: string, b: string) {
    || (a in rules && b in rules[a].overrides)
    || (b in rules && a in rules[b].overriddenBy)
  }

  /** The override relation restricted to matched rules. */
  ghost function OverrideEdges(rules: map<string, Rule>, names: set<string>): set<(string, string)> {
    set a, b | a in names && b in names && Overrides(rules, a, b) :: (a, b)
  }

  ghost predicate Overridden(e: set<(string, string)>, names: set<string>, name: string) {
    exists o :: o in names && o != name && (o, name) in e
  }

  ghost function EdgesOf(sets: seq<seq<Rule>>, ev: seq<ResolvedRule>): set<(string, string)> {
    OverrideEdges(Lookup(Flatten(sets)), MatchedNames(ev))
  }

  ghost predicate Cleared(sets: seq<seq<Rule>>, ev: seq<ResolvedRule>, i: int) {
    LastOfName(ev, i) && Overridden(EdgesOf(sets, ev), MatchedNames(ev), ev[i].name)
  }

  /** The verdicts after elimination, when there is no override cycle. */
  ghost function Resolution(sets: seq<seq<Rule>>, ev: seq<ResolvedRule>): (r: seq<ResolvedRule>)
    ensures |r| == |ev|
  {
    seq(|ev|, i requires 0 <= i < |ev| => if Cleared(sets, ev, i) then ev[i].(matched := false) else ev[i])
  }

  // ---- Cycle detection by colouring ----

  ghost function GraphEdges(graph: map<string, seq<string>>): set<(string, string)> {
    set a, b | a in graph && b in graph[a] :: (a, b)
  }

  function Neighbours(graph: map<string, seq<string>>, node: string): seq<string> {
    if node in graph then graph[node] else []
  }

  ghost function Coloured(color: map<string, Color>, c: Color): set<string> {
    set n | n in color && color[n] == c
  }

  ghost predicate AllLeadTo(e: set<(string, string)>, s: set<string>, node: string) {
    forall g :: g in s ==> Reaches(e, g, node)
  }

  /** Black nodes are finished: everything they lead to is black, and none lies on a cycle. */
  ghost predicate Finished(e: set<(string, string)>, black: set<string>) {
    Closed(e, black) && forall b :: b in black ==> !OnCycle(e, b)
  }

  /** Recolouring one node moves it from its old colour to the new one. */
  lemma Recoloured(color: map<string, Color>, node: string, c: Color, d: Color)
    requires node in color
    ensures Coloured(color[node := c], d) == if c == d then Coloured(color, d) + {node} else Coloured(color, d) - {node}
  {
  }

  /** The tail of an edge into a gray node lies on a cycle, when every gray node leads to it. */
  lemma GrayNeighbour(e: set<(string, string)>, gray: set<string>, node: string, n: string)
    requires (node, n) in e && node in gray && AllLeadTo(e, gray, node)
    ensures AllLeadTo(e, gray, n)
    ensures n in gray ==> OnCycle(e, node)
  {
    forall g | g in gray
      ensures Reaches(e, g, n)
    {
      ReachesStep(e, g, node, n);
    }
    if n in gray {
      BackEdgeCycle(e, node, n);
    }
  }

  lemma FinishOne(e: set<(string, string)>, black: set<string>, node: string)
    requires Finished(e, black) && node !in black
    requires forall b :: (node, b) in e ==> b in black
    ensures Finished(e, black + {node})
  {
    if OnCycle(e, node) {
      var b := CycleBackEdge(e, node);
      ClosedHoldsReachable(e, black, b, node);
    }
  }

  /** The colour map shared by the recursive visit. */
  class ColourWalk {
    const graph: map<string, seq<string>>
    var color: map<string, Color>

    ghost predicate Valid()
      reads this
    {
      && (forall a, b :: (a, b) in GraphEdges(graph) ==> a in color && b in color)
      && Finished(GraphEdges(graph), Coloured(color, Black))
    }

    constructor (graph: map<string, seq<string>>, names: set<string>)
      requires forall a, b :: (a, b) in GraphEdges(graph) ==> a in names && b in names
      ensures Valid() && this.graph == graph && color == map n | n in names :: White
    {
      this.graph := graph;
      this.color := map n | n in names :: White;
      new;
      assert Coloured(color, Black) == {};
    }

    /** Some gray node lies on a cycle, and all gray nodes lead to it. */
    ghost predicate FoundCycle()
      reads this`color
    {
      exists u :: OnCycle(GraphEdges(graph), u) && u in Coloured(color, Gray) && AllLeadTo(GraphEdges(graph), Coloured(color, Gray), u)
    }

    method Visit(node: string) returns (backEdge: bool)
      requires Valid() && node in color && color[node] == White
      requires AllLeadTo(GraphEdges(graph), Coloured(color, Gray), node)
      modifies this`color
      ensures color.Keys == old(color.Keys)
      ensures !backEdge ==>
                && Valid() && color[node] == Black
                && Coloured(color, Gray) == old(Coloured(color, Gray))
                && old(Coloured(color, Black)) <= Coloured(color, Black)
                && Coloured(color, White) < old(Coloured(color, White))
      ensures backEdge ==> FoundCycle()
      decreases Coloured(color, White), 0
    {
      ghost var grayBefore, whiteBefore := Coloured(color, Gray), Coloured(color, White);
      Recoloured(color, node, Gray, White);
      Recoloured(color, node, Gray, Gray);
      Recoloured(color, node, Gray, Black);
      color := color[node := Gray];
      ReachesSelf(GraphEdges(graph), node);
      backEdge := VisitNeighbours(node);
      if backEdge {
        return;
      }
      FinishOne(GraphEdges(graph), Coloured(color, Black), node);
      Recoloured(color, node, Black, White);
      Recoloured(color, node, Black, Gray);
      Recoloured(color, node, Black, Black);
      color := color[node := Black];
      assert Coloured(color, Gray) == grayBefore;
    }

    /** Visits the white neighbours of a gray node; a gray one closes a cycle. */
    method VisitNeighbours(node: string) returns (backEdge: bool)
      requires Valid() && node in Coloured(color, Gray) && AllLeadTo(GraphEdges(graph), Coloured(color, Gray), node)
      modifies this`color
      ensures color.Keys == old(color.Keys)
      ensures !backEdge ==>
                && Valid() && (forall b :: (node, b) in GraphEdges(graph) ==> b in Coloured(color, Black))
                && Coloured(color, Gray) == old(Coloured(color, Gray))
                && old(Coloured(color, Black)) <= Coloured(color, Black)
                && Coloured(color, White) <= old(Coloured(color, White))
      ensures backEdge ==> FoundCycle()
      decreases Coloured(color, White), 1
    {
      ghost var gray := Coloured(color, Gray);
      var next := Neighbours(graph, node);
      for i := 0 to |next|
        invariant color.Keys == old(color.Keys) && Valid() && Coloured(color, Gray) == gray
        invariant Coloured(color, White) <= old(Coloured(color, White))
        invariant old(Coloured(color, Black)) <= Coloured(color, Black)
        invariant forall j :: 0 <= j < i ==> next[j] in Coloured(color, Black)
      {
        var n := next[i];
        GrayNeighbour(GraphEdges(graph), gray, node, n);
        if color[n] == Gray {
          return true;
        }
        if color[n] == White {
          var deeper := Visit(n);
          if deeper {
            return true;
          }
        }
      }
      backEdge := false;
    }
  }

  // ---- The resolution pass ----

  lemma {:induction false} LookupAppend(rules: seq<Rule>, r: Rule)
    ensures Lookup(rules + [r]) == Lookup(rules)[r.name := r]
  {
    assert (rules + [r])[..|rules + [r]| - 1] == rules;
  }

  lemma FlattenStep(sets: seq<seq<Rule>>, i: nat)
    requires i < |sets|
    ensures Flatten(sets[..i + 1]) == Flatten(sets[..i]) + sets[i]
  {
    assert sets[..i + 1][..i] == sets[..i];
  }

  method AddToLookup(known: map<string, Rule>, ghost before: seq<Rule>, rules: seq<Rule>) returns (original: map<string, Rule>)
    requires known == Lookup(before)
    ensures original == Lookup(before + rules)
  {
    original := known;
    assert before + rules[..0] == before;
    for j := 0 to |rules|
      invariant original == Lookup(before + rules[..j])
    {
      assert before + rules[..j + 1] == before + rules[..j] + [rules[j]];
      LookupAppend(before + rules[..j], rules[j]);
      original := original[rules[j].name := rules[j]];
    }
    assert rules[..|rules|] == rules;
  }

  method BuildLookup(sets: seq<seq<Rule>>) returns (original: map<string, Rule>)
    ensures original == Lookup(Flatten(sets))
  {
    original := map[];
    for i := 0 to |sets|
      invariant original == Lookup(Flatten(sets[..i]))
    {
      FlattenStep(sets, i);
      original := AddToLookup(original, Flatten(sets[..i]), sets[i]);
    }
    assert sets[..|sets|] == sets;
  }

  method CollectMatched(ev: array<ResolvedRule>) returns (index: map<string, nat>)
    ensures index.Keys == MatchedNames(ev[..])
    ensures forall n :: n in index ==> LastOfName(ev[..], index[n]) && ev[index[n]].name == n
  {
    index := map[];
    for i := 0 to ev.Length
      invariant index.Keys == MatchedNames(ev[..i])
      invariant forall n :: n in index ==> LastOfName(ev[..i], index[n]) && ev[index[n]].name == n
    {
      assert ev[..i + 1] == ev[..i] + [ev[i]];
      ghost var before := index;
      if ev[i].matched {
        index := index[ev[i].name := i];
      }
      forall n | n in index
        ensures LastOfName(ev[..i + 1], index[n]) && ev[index[n]].name == n
      {
        if !(ev[i].matched && n == ev[i].name) {
          assert LastOfName(ev[..i], before[n]);
        }
      }
      assert MatchedNames(ev[..i + 1]) == MatchedNames(ev[..i]) + if ev[i].matched then {ev[i].name} else {} by {
        forall n | n in MatchedNames(ev[..i])
          ensures n in MatchedNames(ev[..i + 1])
        {
          var k :| 0 <= k < i && ev[..i][k].matched && ev[..i][k].name == n;
          assert ev[..i + 1][k] == ev[..i][k];
        }
        assert ev[..i + 1][i] == ev[i];
      }
    }
    assert ev[..ev.Length] == ev[..];
  }

  method PushEdge(graph: map<string, seq<string>>, a: string, b: string) returns (grown: map<string, seq<string>>)
    ensures GraphEdges(grown) == GraphEdges(graph) + {(a, b)}
  {
    grown := graph[a := Neighbours(graph, a) + [b]];
  }

  /** Edges contributed by one rule: what it overrides and what overrides it. */
  ghost predicate Contributes(rules: map<string, Rule>, name: string, a: string, b: string) {
    name in rules && ((a == name && b in rules[name].overrides) || (b == name && a in rules[name].overriddenBy))
  }

  method AddRule(graph: map<string, seq<string>>, names: set<string>, rules: map<string, Rule>, name: string)
    returns (grown: map<string, seq<string>>)
    requires name in rules
    ensures forall a, b :: (a, b) in GraphEdges(grown) <==>
                           (a, b) in GraphEdges(graph) || ((if a == name then b in names else a in names) && Contributes(rules, name, a, b))
  {
    var rule := rules[name];
    grown := graph;
    for k := 0 to |rule.overrides|
      invariant GraphEdges(grown) == GraphEdges(graph) + set j | 0 <= j < k && rule.overrides[j] in names :: (name, rule.overrides[j])
    {
      if rule.overrides[k] in names {
        grown := PushEdge(grown, name, rule.overrides[k]);
      }
    }
    ghost var middle := GraphEdges(grown);
    for k := 0 to |rule.overriddenBy|
      invariant GraphEdges(grown) == middle + set j | 0 <= j < k && rule.overriddenBy[j] in names :: (rule.overriddenBy[j], name)
    {
      if rule.overriddenBy[k] in names {
        grown := PushEdge(grown, rule.overriddenBy[k], name);
      }
    }
  }

  method BuildGraph(names: set<string>, rules: map<string, Rule>) returns (graph: map<string, seq<string>>)
    ensures GraphEdges(graph) == OverrideEdges(rules, names)
  {
    graph := map[];
    var todo := names;
    while todo != {}
      invariant todo <= names
      invariant forall a, b :: (a, b) in GraphEdges(graph) <==>
                               a in names && b in names && ((a !in todo && Contributes(rules, a, a, b)) || (b !in todo && Contributes(rules, b, a, b)))
    {
      var name :| name in todo;
      if name in rules {
        graph := AddRule(graph, names, rules, name);
      }
      todo := todo - {name};
    }
  }

  /** Colours every matched rule; on a back edge reports the gray names. */
  method DetectCycle(graph: map<string, seq<string>>, names: set<string>) returns (outcome: Outcome)
    requires forall a, b :: (a, b) in GraphEdges(graph) ==> a in names && b in names
    ensures outcome.Resolved? ==> !Cyclic(GraphEdges(graph))
    ensures outcome.CyclicOverride? ==>
              exists u :: u in outcome.involved && OnCycle(GraphEdges(graph), u)
                          && forall g :: g in outcome.involved ==> Reaches(GraphEdges(graph), g, u)
  {
    var walk := new ColourWalk(graph, names);
    var todo := names;
    while todo != {}
      invariant todo <= names && walk.Valid() && walk.color.Keys == names && walk.graph == graph
      invariant forall n :: n in names ==> walk.color[n] != Gray && (n !in todo ==> walk.color[n] == Black)
    {
      var name :| name in todo;
      if walk.color[name] == White {
        assert Coloured(walk.color, Gray) == {};
        label BeforeVisit:
        var back := walk.Visit(name);
        if back {
          return CyclicOverride(set n | n in walk.color && walk.color[n] == Gray);
        }
        NoGray(walk.color);
        MoreBlack(old@BeforeVisit(walk.color), walk.color);
      }
      todo := todo - {name};
    }
    AllFinished(GraphEdges(graph), names, Coloured(walk.color, Black));
    outcome := Resolved;
  }

  lemma NoGray(color: map<string, Color>)
    requires Coloured(color, Gray) == {}
    ensures forall n :: n in color ==> color[n] != Gray
  {
    forall n | n in color
      ensures n in Coloured(color, Gray) <==> color[n] == Gray
    {
    }
  }

  lemma MoreBlack(before: map<string, Color>, after: map<string, Color>)
    requires Coloured(before, Black) <= Coloured(after, Black) && before.Keys == after.Keys
    ensures forall n :: n in before && before[n] == Black ==> after[n] == Black
  {
    forall n | n in before && before[n] == Black
      ensures after[n] == Black
    {
      assert n in Coloured(before, Black);
      assert n in Coloured(after, Black);
    }
  }

  lemma AllFinished(e: set<(string, string)>, names: set<string>, black: set<string>)
    requires Finished(e, black) && names <= black
    requires forall a, b :: (a, b) in e ==> a in names
    ensures !Cyclic(e)
  {
    forall a
      ensures !OnCycle(e, a)
    {
      if OnCycle(e, a) {
        var b := CycleBackEdge(e, a);
      }
    }
  }

  method IsOverridden(graph: map<string, seq<string>>, names: set<string>, name: string) returns (overridden: bool)
    ensures overridden <==> Overridden(GraphEdges(graph), names, name)
  {
    var others := names;
    while others != {}
      invariant others <= names
      invariant forall o :: o in names - others && o != name ==> (o, name) !in GraphEdges(graph)
    {
      var other :| other in others;
      if other != name && name in Neighbours(graph, other) {
        assert (other, name) in GraphEdges(graph);
        return true;
      }
      others := others - {other};
    }
    overridden := false;
  }

  /** Entry i after the names in `done` have been dealt with. */
  ghost function AfterElimination(before: seq<ResolvedRule>, index: map<string, nat>, e: set<(string, string)>, done: set<string>, i: nat): ResolvedRule
    requires i < |before|
  {
    var rule := before[i];
    if rule.name in index && rule.name in done && i == index[rule.name] && Overridden(e, index.Keys, rule.name)
    then rule.(matched := false)
    else rule
  }

  method Eliminate(ev: array<ResolvedRule>, index: map<string, nat>, graph: map<string, seq<string>>)
    requires forall n :: n in index ==> LastOfName(ev[..], index[n]) && ev[index[n]].name == n
    modifies ev
    ensures forall n :: n in index ==> index[n] < ev.Length && ev[index[n]] == old(ev[index[n]]).(matched := !Overridden(GraphEdges(graph), index.Keys, n))
    ensures forall i :: 0 <= i < ev.Length && (ev[i].name !in index || i != index[ev[i].name]) ==> ev[i] == old(ev[i])
    ensures forall i :: 0 <= i < ev.Length ==> ev[i].name == old(ev[i].name)
  {
    ghost var before := ev[..];
    var todo := index.Keys;
    while todo != {}
      invariant todo <= index.Keys
      invariant forall i :: 0 <= i < ev.Length ==>
                  ev[i] == AfterElimination(before, index, GraphEdges(graph), index.Keys - todo, i)
    {
      var name :| name in todo;
      var overridden := IsOverridden(graph, index.Keys, name);
      if overridden {
        ev[index[name]] := ev[index[name]].(matched := false);
      }
      todo := todo - {name};
    }
  }

  /** The whole pass. On a cycle nothing changes; otherwise exactly the overridden rules are cleared. */
  method ResolveOverrideConflicts(sets: seq<seq<Rule>>, ev: array<ResolvedRule>) returns (outcome: Outcome)
    modifies ev
    ensures outcome.CyclicOverride? <==> Cyclic(old(EdgesOf(sets, ev[..])))
    ensures outcome.CyclicOverride? ==> ev[..] == old(ev[..])
    ensures outcome.CyclicOverride? ==>
              exists u :: u in outcome.involved && OnCycle(old(EdgesOf(sets, ev[..])), u)
                          && forall g :: g in outcome.involved ==> Reaches(old(EdgesOf(sets, ev[..])), g, u)
    ensures outcome.Resolved? ==> ev[..] == Resolution(sets, old(ev[..]))
  {
    ghost var start := ev[..];
    var rules := BuildLookup(sets);
    var index := CollectMatched(ev);
    var graph := BuildGraph(index.Keys, rules);
    outcome := DetectCycle(graph, index.Keys);
    if outcome.Resolved? {
      Eliminate(ev, index, graph);
      EliminationIsResolution(sets, start, index, ev[..]);
    }
  }

  lemma EliminationIsResolution(sets: seq<seq<Rule>>, start: seq<ResolvedRule>, index: map<string, nat>, end: seq<ResolvedRule>)
    requires index.Keys == MatchedNames(start) && |end| == |start|
    requires forall n :: n in index ==> LastOfName(start, index[n]) && start[index[n]].name == n
    requires forall n :: n in index ==> index[n] < |end| && end[index[n]] == start[index[n]].(matched := !Overridden(EdgesOf(sets, start), index.Keys, n))
    requires forall i :: 0 <= i < |end| && (end[i].name !in index || i != index[end[i].name]) ==> end[i] == start[i]
    requires forall i :: 0 <= i < |end| ==> end[i].name == start[i].name
    ensures end == Resolution(sets, start)
  {
    var e := EdgesOf(sets, start);
    forall i | 0 <= i < |end|
      ensures end[i] == Resolution(sets, start)[i]
    {
      var n := start[i].name;
      if LastOfName(start, i) {
        assert n in MatchedNames(start);
        assert index[n] == i;
      }
    }
  }

  // ---- What elimination achieves on an acyclic override graph ----

  ghost predicate DistinctMatches(ev: seq<ResolvedRule>) {
    forall i, j :: 0 <= i < j < |ev| && ev[i].matched && ev[j].matched ==> ev[i].name != ev[j].name
  }

  ghost predicate MatchedTwice(ev: seq<ResolvedRule>, name: string) {
    exists i, j :: 0 <= i < j < |ev| && ev[i].matched && ev[j].matched && ev[i].name == name && ev[j].name == name
  }

  /** No matched rule is overridden by another matched rule. */
  ghost predicate Settled(sets: seq<seq<Rule>>, ev: seq<ResolvedRule>) {
    EdgesOf(sets, ev) == {}
  }

  lemma {:induction false} LastEntry(ev: seq<ResolvedRule>, i: nat) returns (last: nat)
    requires MatchedAt(ev, i)
    ensures i <= last && LastOfName(ev, last) && ev[last].name == ev[i].name
    decreases |ev| - i
  {
    if LastOfName(ev, i) {
      last := i;
    } else {
      var j :| i < j < |ev| && ev[j].matched && ev[j].name == ev[i].name;
      last := LastEntry(ev, j);
    }
  }

  /** Without a self-loop, being overridden and having an incoming edge are the same. */
  lemma OverriddenIsIncoming(e: set<(string, string)>, names: set<string>, o: string, name: string)
    requires !Cyclic(e) && (o, name) in e && o in names
    ensures Overridden(e, names, name)
  {
    if o == name {
      ReachesSelf(e, name);
      BackEdgeCycle(e, name, name);
    }
  }

  /** Exactly who is still matched afterwards: whoever was not overridden, and whoever appeared twice. */
  lemma SurvivorNames(sets: seq<seq<Rule>>, ev: seq<ResolvedRule>, name: string)
    ensures name in MatchedNames(Resolution(sets, ev)) <==>
            name in MatchedNames(ev) && (MatchedTwice(ev, name) || !Overridden(EdgesOf(sets, ev), MatchedNames(ev), name))
  {
    var after := Resolution(sets, ev);
    if name in MatchedNames(after) {
      var i :| 0 <= i < |after| && after[i].matched && after[i].name == name;
      assert ev[i].matched;
      if !LastOfName(ev, i) {
        var j :| i < j < |ev| && ev[j].matched && ev[j].name == name;
        assert MatchedTwice(ev, name);
      }
    }
    if name in MatchedNames(ev) {
      if MatchedTwice(ev, name) {
        var i, j :| 0 <= i < j < |ev| && ev[i].matched && ev[j].matched && ev[i].name == name && ev[j].name == name;
        assert !LastOfName(ev, i);
        assert after[i].matched && after[i].name == name;
      } else if !Overridden(EdgesOf(sets, ev), MatchedNames(ev), name) {
        var i :| 0 <= i < |ev| && ev[i].matched && ev[i].name == name;
        assert after[i].matched && after[i].name == name;
      }
    }
  }

  /** Afterwards no matched rule overrides another, unless an overridden name was matched twice
      while some overrider of it is still standing. */
  lemma SettledExactlyWhen(sets: seq<seq<Rule>>, ev: seq<ResolvedRule>)
    requires !Cyclic(EdgesOf(sets, ev))
    ensures Settled(sets, Resolution(sets, ev)) <==>
            forall a, b :: (a, b) in EdgesOf(sets, ev) && MatchedTwice(ev, b) ==>
                             !MatchedTwice(ev, a) && Overridden(EdgesOf(sets, ev), MatchedNames(ev), a)
  {
    var e, names, after := EdgesOf(sets, ev), MatchedNames(ev), Resolution(sets, ev);
    forall a, b | (a, b) in e
      ensures (a, b) in EdgesOf(sets, after) <==>
              MatchedTwice(ev, b) && (MatchedTwice(ev, a) || !Overridden(e, names, a))
    {
      SurvivorNames(sets, ev, a);
      SurvivorNames(sets, ev, b);
      OverriddenIsIncoming(e, names, a, b);
    }
    forall a, b | (a, b) in EdgesOf(sets, after)
      ensures (a, b) in e
    {
      SurvivorNames(sets, ev, a);
      SurvivorNames(sets, ev, b);
    }
  }

  /** Resolving a second time changes nothing exactly when the first pass settled everything. */
  lemma AgainExactlyWhenSettled(sets: seq<seq<Rule>>, ev: seq<ResolvedRule>)
    requires !Cyclic(EdgesOf(sets, ev))
    ensures !Cyclic(EdgesOf(sets, Resolution(sets, ev)))
    ensures Resolution(sets, Resolution(sets, ev)) == Resolution(sets, ev) <==> Settled(sets, Resolution(sets, ev))
  {
    var after := Resolution(sets, ev);
    var e := EdgesOf(sets, after);
    forall a, b | (a, b) in e
      ensures (a, b) in EdgesOf(sets, ev)
    {
      SurvivorNames(sets, ev, a);
      SurvivorNames(sets, ev, b);
    }
    FewerEdges(e, EdgesOf(sets, ev), "", "");
    if Settled(sets, after) {
      assert Resolution(sets, after) == after;
    } else {
      var edge :| edge in e;
      var (a, b) := edge;
      OverriddenIsIncoming(e, MatchedNames(after), a, b);
      var i :| 0 <= i < |after| && after[i].matched && after[i].name == b;
      var last := LastEntry(after, i);
      assert Resolution(sets, after)[last] != after[last];
    }
  }

  /** Unique names: no survivor overrides a survivor, and resolving again changes nothing. */
  lemma UniqueNamesSettle(sets: seq<seq<Rule>>, ev: seq<ResolvedRule>)
    requires !Cyclic(EdgesOf(sets, ev)) && DistinctMatches(ev)
    ensures Settled(sets, Resolution(sets, ev))
    ensures Resolution(sets, Resolution(sets, ev)) == Resolution(sets, ev)
  {
    forall b
      ensures !MatchedTwice(ev, b)
    {
    }
    SettledExactlyWhen(sets, ev);
    AgainExactlyWhenSettled(sets, ev);
  }

  /** Walking overriders backwards ends at a rule nobody overrides. */
  lemma {:induction false} TraceBack(e: set<(string, string)>, names: set<string>, p: seq<string>) returns (top: string)
    requires !Cyclic(e) && IsPath(e, p)
    requires forall a, b :: (a, b) in e ==> a in names && b in names
    requires forall x :: x in p ==> x in names
    ensures top in names && !Overridden(e, names, top) && Reaches(e, top, p[|p| - 1])
    decreases |names| - |p|
  {
    AcyclicPathsAreShort(e, names, p);
    if Overridden(e, names, p[0]) {
      var o :| o in names && o != p[0] && (o, p[0]) in e;
      PrependStep(e, o, p);
      AcyclicPathsAreShort(e, names, [o] + p);
      top := TraceBack(e, names, [o] + p);
    } else {
      top := p[0];
      assert Joins(e, p, top, p[|p| - 1]);
    }
  }

  /** Every matched rule, eliminated or not, is reached by an override chain that starts at a survivor. */
  lemma ChainFromSurvivor(sets: seq<seq<Rule>>, ev: seq<ResolvedRule>, name: string) returns (top: string)
    requires !Cyclic(EdgesOf(sets, ev)) && name in MatchedNames(ev)
    ensures top in MatchedNames(Resolution(sets, ev))
    ensures Reaches(EdgesOf(sets, ev), top, name)
  {
    top := TraceBack(EdgesOf(sets, ev), MatchedNames(ev), [name]);
    SurvivorNames(sets, ev, top);
  }

  /** If anything matched, something still matches; and nothing becomes matched. */
  lemma SomeoneSurvives(sets: seq<seq<Rule>>, ev: seq<ResolvedRule>)
    requires !Cyclic(EdgesOf(sets, ev))
    ensures MatchedNames(Resolution(sets, ev)) == {} <==> MatchedNames(ev) == {}
    ensures MatchedNames(Resolution(sets, ev)) <= MatchedNames(ev)
  {
    forall n
      ensures n in MatchedNames(Resolution(sets, ev)) ==> n in MatchedNames(ev)
    {
      SurvivorNames(sets, ev, n);
    }
    if n :| n in MatchedNames(ev) {
      var top := ChainFromSurvivor(sets, ev, n);
    }
  }

  ghost function DuplicateSets(): seq<seq<Rule>> {
    [[Rule("A", ["B"], [])]]
  }

  ghost function DuplicateEvaluation(): seq<ResolvedRule> {
    [ResolvedRule("B", true, ""), ResolvedRule("B", true, ""), ResolvedRule("A", true, "")]
  }

  lemma DuplicateEdges()
    ensures MatchedNames(DuplicateEvaluation()) == {"A", "B"}
    ensures EdgesOf(DuplicateSets(), DuplicateEvaluation()) == {("A", "B")}
  {
    var sets, ev := DuplicateSets(), DuplicateEvaluation();
    assert sets[..0] == [] && Flatten(sets) == [Rule("A", ["B"], [])];
    assert Lookup(Flatten(sets)) == map["A" := Rule("A", ["B"], [])];
    assert ev[2].name in MatchedNames(ev) && ev[1].name in MatchedNames(ev);
  }

  /** Without unique names one pass is not enough: B matches twice and only its last entry is cleared. */
  lemma DuplicateNameNeedsSecondPass()
    ensures var sets, ev := DuplicateSets(), DuplicateEvaluation();
            !Cyclic(EdgesOf(sets, ev)) && Resolution(sets, Resolution(sets, ev)) != Resolution(sets, ev)
  {
    var sets, ev := DuplicateSets(), DuplicateEvaluation();
    DuplicateEdges();
    RankedIsAcyclic(EdgesOf(sets, ev), map["A" := 0, "B" := 1]);
    assert MatchedTwice(ev, "B") by {
      assert ev[0].matched && ev[1].matched && ev[0].name == "B" && ev[1].name == "B";
    }
    assert !Overridden(EdgesOf(sets, ev), MatchedNames(ev), "A");
    SettledExactlyWhen(sets, ev);
    AgainExactlyWhenSettled(sets, ev);
  }
}
