/** Rule-set evaluation over cached fact bases and conflict resolution (src/rule/rule_engine.cpp). */
module RuleEngine {
  import opened Basics
  import opened RuleExpression
  import opened MemoEvaluation
  import CR = ConflictResolver
  import Digraph

  type ResolvedRule = CR.ResolvedRule

  datatype Rule = Rule(header: CR.Rule, condition: Option<Expr>, action: string)

  function Verdict(r: Result<Value>): bool {
    r.Ok? && r.value.IsTrue()
  }

  /** What the rule says on its own: no condition matches, a failing one does not. */
  function PlainResult(rule: Rule, facts: Facts): ResolvedRule {
    CR.ResolvedRule(rule.header.name, rule.condition.None? || Verdict(Plain(rule.condition.value, facts)), rule.action)
  }

  function PlainResults(rules: seq<Rule>, facts: Facts): (results: seq<ResolvedRule>)
    ensures |results| == |rules| && forall i :: 0 <= i < |rules| ==> results[i] == PlainResult(rules[i], facts)
  {
    seq(|rules|, i requires 0 <= i < |rules| => PlainResult(rules[i], facts))
  }

  datatype Evaluated = Evaluated(results: seq<ResolvedRule>, facts: Facts)

  /** Rules of a set share one cache. */
  function MemoRules(hash: string -> nat, rules: seq<Rule>, facts: Facts): Evaluated {
    if rules == [] then Evaluated([], facts)
    else
      var before := MemoRules(hash, rules[..|rules| - 1], facts);
      var rule := rules[|rules| - 1];
      if rule.condition.None? then
        Evaluated(before.results + [CR.ResolvedRule(rule.header.name, true, rule.action)], before.facts)
      else
        var s := Memo(hash, rule.condition.value, before.facts);
        Evaluated(before.results + [CR.ResolvedRule(rule.header.name, Verdict(s.result), rule.action)], s.facts)
  }

  method EvaluateRuleSet(facts: FactBase, rules: seq<Rule>) returns (results: seq<ResolvedRule>)
    modifies facts
    ensures Evaluated(results, facts.State()) == MemoRules(facts.hash, rules, old(facts.State()))
  {
    results := [];
    for i: nat := 0 to |rules|
      invariant Evaluated(results, facts.State()) == MemoRules(facts.hash, rules[..i], old(facts.State()))
    {
      assert rules[..i + 1][..i] == rules[..i];
      var matched := true;
      if rules[i].condition.Some? {
        var r := facts.Evaluate(rules[i].condition.value);
        matched := Verdict(r);
      }
      results := results + [CR.ResolvedRule(rules[i].header.name, matched, rules[i].action)];
    }
    assert rules[..|rules|] == rules;
  }

  // ---- When a rule matches ----

  /** The facts and the cache a rule of the set is evaluated on. */
  ghost function TurnOf(hash: string -> nat, rules: seq<Rule>, facts: Facts, i: nat): Facts
    requires i <= |rules|
  {
    MemoRules(hash, rules[..i], facts).facts
  }

  lemma {:induction false} ResultsSoFar(hash: string -> nat, rules: seq<Rule>, facts: Facts, n: nat)
    requires n <= |rules|
    ensures |MemoRules(hash, rules, facts).results| == |rules|
    ensures MemoRules(hash, rules, facts).results[..n] == MemoRules(hash, rules[..n], facts).results
  {
    if n < |rules| {
      var front := rules[..|rules| - 1];
      ResultsSoFar(hash, front, facts, n);
      assert front[..n] == rules[..n];
    } else {
      assert rules[..n] == rules;
      if rules != [] {
        ResultsSoFar(hash, rules[..|rules| - 1], facts, |rules| - 1);
      }
    }
  }

  /** Every rule is answered under its own name. It matches exactly if it has no condition, or its condition evaluates to true when its
      turn comes; any other value and any failure count as no match. */
  lemma RuleMatchesExactlyWhen(hash: string -> nat, rules: seq<Rule>, facts: Facts, i: nat)
    requires i < |rules|
    ensures |MemoRules(hash, rules, facts).results| == |rules|
    ensures var r := MemoRules(hash, rules, facts).results[i];
            && r.name == rules[i].header.name && r.action == rules[i].action
            && (r.matched <==> rules[i].condition.None?
                               || Memo(hash, rules[i].condition.value, TurnOf(hash, rules, facts, i)).result == Ok(Boolean(true)))
  {
    var upTo := rules[..i + 1];
    ResultsSoFar(hash, rules, facts, i + 1);
    assert upTo[..i] == rules[..i] && upTo[i] == rules[i];
    ResultsSoFar(hash, upTo, facts, i);
    assert MemoRules(hash, rules, facts).results[i] == MemoRules(hash, upTo, facts).results[i];
  }

  /** A condition on a missing field never matches. */
  lemma MissingFieldNeverMatches(hash: string -> nat, rules: seq<Rule>, facts: Facts, i: nat, key: string)
    requires i < |rules| && rules[i].condition == Some(FieldRef(key))
    requires key !in TurnOf(hash, rules, facts, i).entries && MemoKey(hash, key) !in TurnOf(hash, rules, facts, i).entries
    ensures |MemoRules(hash, rules, facts).results| == |rules| && !MemoRules(hash, rules, facts).results[i].matched
  {
    var now := TurnOf(hash, rules, facts, i);
    RuleMatchesExactlyWhen(hash, rules, facts, i);
    assert Compute(hash, FieldRef(key), now).result == Err(FieldNotFound(key));
  }

  function Concat<T>(lists: seq<seq<T>>): seq<T> {
    if lists == [] then [] else Concat(lists[..|lists| - 1]) + lists[|lists| - 1]
  }

  /** Every set is evaluated on its own copy of the facts. */
  function BySnapshots(hash: string -> nat, sets: seq<seq<Rule>>, facts: Facts): seq<ResolvedRule> {
    if sets == [] then []
    else BySnapshots(hash, sets[..|sets| - 1], facts) + MemoRules(hash, sets[|sets| - 1], facts).results
  }

  /** The caller's fact base is left as it is. */
  method EvaluateAll(sets: seq<seq<Rule>>, facts: FactBase) returns (all: seq<ResolvedRule>)
    ensures all == BySnapshots(facts.hash, sets, facts.State())
  {
    all := [];
    for i: nat := 0 to |sets|
      invariant facts.State() == old(facts.State())
      invariant all == BySnapshots(facts.hash, sets[..i], facts.State())
    {
      assert sets[..i + 1][..i] == sets[..i];
      var copy := facts.Snapshot();
      var batch := EvaluateRuleSet(copy, sets[i]);
      all := all + batch;
    }
    assert sets[..|sets|] == sets;
  }

  /** A cyclic override graph leaves the evaluation as it is. */
  method ResolveConflicts(sets: seq<seq<CR.Rule>>, evaluated: seq<ResolvedRule>) returns (result: seq<ResolvedRule>)
    ensures result == if Digraph.Cyclic(CR.EdgesOf(sets, evaluated)) then evaluated else CR.Resolution(sets, evaluated)
  {
    var ev := new ResolvedRule[|evaluated|](i requires 0 <= i < |evaluated| => evaluated[i]);
    assert ev[..] == evaluated;
    var status := CR.ResolveOverrideConflicts(sets, ev);
    if status.CyclicOverride? {
      return evaluated;
    }
    result := ev[..];
  }

  // ---- Verdicts do not depend on the cache ----

  ghost predicate ConditionsIn(all: set<Expr>, rules: seq<Rule>) {
    forall i :: 0 <= i < |rules| && rules[i].condition.Some? ==> rules[i].condition.value in all
  }

  /** The cache cannot be told apart: separate keys, coherent texts, and everything cached so far is the plain value over the facts
      of `base`. An empty cache is one case, the cache a rule set leaves behind another. */
  ghost predicate SafeToCache(hash: string -> nat, all: set<Expr>, base: Facts, now: Facts) {
    Closed(all) && Separate(hash, all, base.pathMappings) && Coherent(all, base) && Consistent(hash, all, base, now)
  }

  lemma {:induction false} RulesArePlain(hash: string -> nat, all: set<Expr>, base: Facts, now: Facts, rules: seq<Rule>)
    requires SafeToCache(hash, all, base, now) && ConditionsIn(all, rules)
    ensures MemoRules(hash, rules, now).results == PlainResults(rules, base)
    ensures Consistent(hash, all, base, MemoRules(hash, rules, now).facts)
  {
    if rules != [] {
      var rest, rule := rules[..|rules| - 1], rules[|rules| - 1];
      RulesArePlain(hash, all, base, now, rest);
      if rule.condition.Some? {
        MemoIsPlain(hash, all, base, MemoRules(hash, rest, now).facts, rule.condition.value);
      }
      PlainConcat(rest, [rule], base);
      assert rest + [rule] == rules;
    }
  }

  lemma PlainConcat(a: seq<Rule>, b: seq<Rule>, facts: Facts)
    ensures PlainResults(a + b, facts) == PlainResults(a, facts) + PlainResults(b, facts)
  {
  }

  /** Evaluating a rule set leaves a cache that is safe for the next one. */
  lemma StaysSafe(hash: string -> nat, all: set<Expr>, base: Facts, now: Facts, rules: seq<Rule>)
    requires SafeToCache(hash, all, base, now) && ConditionsIn(all, rules)
    ensures SafeToCache(hash, all, base, MemoRules(hash, rules, now).facts)
  {
    RulesArePlain(hash, all, base, now, rules);
  }

  /** A rule gets the same verdict wherever it stands in its set, whatever else the set holds and whatever has been cached before. */
  lemma OrderDoesNotMatter(hash: string -> nat, all: set<Expr>, base: Facts, now: Facts, later: Facts,
                           rules: seq<Rule>, others: seq<Rule>, i: nat, j: nat)
    requires SafeToCache(hash, all, base, now) && SafeToCache(hash, all, base, later)
    requires ConditionsIn(all, rules) && ConditionsIn(all, others)
    requires i < |rules| && j < |others| && rules[i] == others[j]
    ensures i < |MemoRules(hash, rules, now).results| && j < |MemoRules(hash, others, later).results|
    ensures MemoRules(hash, rules, now).results[i] == MemoRules(hash, others, later).results[j]
  {
    RulesArePlain(hash, all, base, now, rules);
    RulesArePlain(hash, all, base, later, others);
  }

  ghost predicate AllConditionsIn(all: set<Expr>, sets: seq<seq<Rule>>) {
    forall i :: 0 <= i < |sets| ==> ConditionsIn(all, sets[i])
  }

  lemma {:induction false} ConcatConditionsIn(all: set<Expr>, sets: seq<seq<Rule>>)
    requires AllConditionsIn(all, sets)
    ensures ConditionsIn(all, Concat(sets))
  {
    if sets != [] {
      ConcatConditionsIn(all, sets[..|sets| - 1]);
      assert ConditionsIn(all, sets[|sets| - 1]);
    }
  }

  lemma {:induction false} SnapshotsArePlain(hash: string -> nat, all: set<Expr>, base: Facts, now: Facts, sets: seq<seq<Rule>>)
    requires SafeToCache(hash, all, base, now) && AllConditionsIn(all, sets)
    ensures BySnapshots(hash, sets, now) == PlainResults(Concat(sets), base)
  {
    if sets != [] {
      var last := sets[|sets| - 1];
      SnapshotsArePlain(hash, all, base, now, sets[..|sets| - 1]);
      assert ConditionsIn(all, last);
      RulesArePlain(hash, all, base, now, last);
      PlainConcat(Concat(sets[..|sets| - 1]), last, base);
    }
  }

  /** Evaluating the sets on separate copies gives what one pass over all the rules would give. */
  lemma SnapshotsEqualOnePass(hash: string -> nat, all: set<Expr>, base: Facts, now: Facts, sets: seq<seq<Rule>>)
    requires SafeToCache(hash, all, base, now) && AllConditionsIn(all, sets)
    ensures BySnapshots(hash, sets, now) == MemoRules(hash, Concat(sets), now).results
  {
    SnapshotsArePlain(hash, all, base, now, sets);
    ConcatConditionsIn(all, sets);
    RulesArePlain(hash, all, base, now, Concat(sets));
  }

  // ---- Without coherent texts they do ----

  function NegatedField(header: CR.Rule, key: string): Rule {
    Rule(header, Some(Unary(Not, FieldRef(key), "not")), "")
  }

  /** A negation caches its value under the text "not". */
  lemma NegationOfField(hash: string -> nat, facts: Facts, key: string)
    requires 0 < |key| <= 8 && key in facts.entries && facts.entries[key].Boolean?
    requires forall k :: k in facts.entries ==> |k| <= 8
    ensures var s := Memo(hash, Unary(Not, FieldRef(key), "not"), facts);
            && s.result == Ok(Boolean(!facts.entries[key].truth))
            && MemoKey(hash, "not") in s.facts.entries && Ok(s.facts.entries[MemoKey(hash, "not")]) == s.result
  {
    assert |MemoKey(hash, "not")| > 8 && |MemoKey(hash, key)| > 8;
    assert Memo(hash, FieldRef(key), facts).result == Ok(facts.entries[key]);
  }

  lemma OneNegation(hash: string -> nat, facts: Facts, header: CR.Rule, key: string)
    requires 0 < |key| <= 8 && key in facts.entries && facts.entries[key].Boolean?
    requires forall k :: k in facts.entries ==> |k| <= 8
    ensures var e := MemoRules(hash, [NegatedField(header, key)], facts);
            && e.results == [CR.ResolvedRule(header.name, !facts.entries[key].truth, "")]
            && MemoKey(hash, "not") in e.facts.entries && e.facts.entries[MemoKey(hash, "not")] == Boolean(!facts.entries[key].truth)
  {
    NegationOfField(hash, facts, key);
    assert [NegatedField(header, key)][..0] == [];
    assert MemoRules(hash, [], facts) == Evaluated([], facts);
  }

  /** A second negation gets the verdict of the first, whatever its own operand. */
  lemma SecondNegationCopiesTheFirst(hash: string -> nat, facts: Facts, first: CR.Rule, key: string, second: CR.Rule, other: string)
    requires 0 < |key| <= 8 && key in facts.entries && facts.entries[key].Boolean?
    requires forall k :: k in facts.entries ==> |k| <= 8
    ensures MemoRules(hash, [NegatedField(first, key), NegatedField(second, other)], facts).results
         == [CR.ResolvedRule(first.name, !facts.entries[key].truth, ""), CR.ResolvedRule(second.name, !facts.entries[key].truth, "")]
  {
    OneNegation(hash, facts, first, key);
    assert [NegatedField(first, key), NegatedField(second, other)][..1] == [NegatedField(first, key)];
  }

  /** So with two negated conditions verdicts depend on rule order, and snapshots differ from one pass. */
  lemma NegationsInterfere(hash: string -> nat, a: CR.Rule, b: CR.Rule)
    ensures var facts := Facts(map["a" := Boolean(true), "b" := Boolean(false)], map[]);
            var ruleA, ruleB := NegatedField(a, "a"), NegatedField(b, "b");
            && MemoRules(hash, [ruleB, ruleA], facts).results == [CR.ResolvedRule(b.name, true, ""), CR.ResolvedRule(a.name, true, "")]
            && MemoRules(hash, [ruleA, ruleB], facts).results == [CR.ResolvedRule(a.name, false, ""), CR.ResolvedRule(b.name, false, "")]
            && BySnapshots(hash, [[ruleA], [ruleB]], facts) == [CR.ResolvedRule(a.name, false, ""), CR.ResolvedRule(b.name, true, "")]
  {
    var facts := Facts(map["a" := Boolean(true), "b" := Boolean(false)], map[]);
    SecondNegationCopiesTheFirst(hash, facts, b, "b", a, "a");
    SecondNegationCopiesTheFirst(hash, facts, a, "a", b, "b");
    var setA, setB := [NegatedField(a, "a")], [NegatedField(b, "b")];
    OneNegation(hash, facts, a, "a");
    OneNegation(hash, facts, b, "b");
    assert [setA, setB][..1] == [setA] && [setA][..0] == [];
    assert BySnapshots(hash, [setA], facts) == MemoRules(hash, setA, facts).results;
  }
}
