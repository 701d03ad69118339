/** Evaluation that caches results in the fact base it reads (src/rule/expression.cpp, EvalWithMemo; src/rule/fact_base.cpp).
    The string hash is a parameter. */
module MemoEvaluation {
  import opened Basics
  import opened RuleExpression

  // ---- Memo keys ----

  function Digit(d: nat): char
    requires d < 10
  {
    "0123456789"[d]
  }

  function Decimal(n: nat): (s: string)
    ensures |s| > 0
  {
    if n < 10 then [Digit(n)] else Decimal(n / 10) + [Digit(n % 10)]
  }

  function ParseDecimal(s: string): nat {
    if s == [] then 0
    else
      var last := s[|s| - 1];
      10 * ParseDecimal(s[..|s| - 1]) + (if '0' <= last <= '9' then last as int - '0' as int else 0)
  }

  lemma {:induction false} DecimalRoundTrip(n: nat)
    ensures ParseDecimal(Decimal(n)) == n
  {
    if n < 10 {
      assert ParseDecimal([]) == 0;
    } else {
      DecimalRoundTrip(n / 10);
      var s := Decimal(n);
      assert s[..|s| - 1] == Decimal(n / 10) && s[|s| - 1] == Digit(n % 10);
    }
  }

  function MemoKey(hash: string -> nat, text: string): string {
    "__memo__" + Decimal(hash(text))
  }

  /** Two texts share a memo key exactly when their hashes collide. */
  lemma MemoKeysCollide(hash: string -> nat, a: string, b: string)
    ensures MemoKey(hash, a) == MemoKey(hash, b) <==> hash(a) == hash(b)
  {
    DecimalRoundTrip(hash(a));
    DecimalRoundTrip(hash(b));
    if MemoKey(hash, a) == MemoKey(hash, b) {
      assert MemoKey(hash, a)[8..] == Decimal(hash(a)) && MemoKey(hash, b)[8..] == Decimal(hash(b));
    }
  }

  /** The text a node is cached under; empty when it is not cached. */
  function MemoText(e: Expr): string {
    match e
    case Literal(_) => ""
    case FieldRef(key) => key
    case Path(path) => path
    case Binary(_, _, _, source) => source
    case Unary(_, _, source) => source
    case Function(_, _, source) => source
  }

  // ---- Evaluation with the cache threaded through ----

  datatype Step<T> = Step(result: Result<T>, facts: Facts)

  function Store(facts: Facts, key: string, v: Value): Facts {
    facts.(entries := facts.entries[key := v])
  }

  function Memo(hash: string -> nat, e: Expr, facts: Facts): Step<Value>
    decreases e, 2, 0
  {
    var text := MemoText(e);
    if text == "" then Compute(hash, e, facts)
    else if MemoKey(hash, text) in facts.entries then Step(Ok(facts.entries[MemoKey(hash, text)]), facts)
    else
      var s := Compute(hash, e, facts);
      if s.result.Ok? then Step(s.result, Store(s.facts, MemoKey(hash, text), s.result.value)) else s
  }

  function Compute(hash: string -> nat, e: Expr, facts: Facts): Step<Value>
    decreases e, 1, 0
  {
    match e
    case Literal(_) => Step(Plain(e, facts), facts)
    case FieldRef(_) => Step(Plain(e, facts), facts)
    case Path(_) => Step(Plain(e, facts), facts)
    case Unary(op, operand, _) =>
      var s := Memo(hash, operand, facts);
      if s.result.Err? then s else Step(Ok(ApplyUnary(op, s.result.value)), s.facts)
    case Binary(op, lhs, rhs, _) =>
      var l := Memo(hash, lhs, facts);
      if DecidedByLeft(op, l.result) then Step(LeftDecides(op, l.result), l.facts)
      else
        var r := Memo(hash, rhs, l.facts);
        Step(Combine(op, l.result.value, r.result), r.facts)
    case Function(fn, args, _) =>
      var s := MemoArgs(hash, e, |args|, facts);
      if s.result.Err? then Step(Err(s.result.error), s.facts) else Step(Ok(Builtin(fn, s.result.value)), s.facts)
  }

  function MemoArgs(hash: string -> nat, e: Expr, n: nat, facts: Facts): Step<seq<Value>>
    requires e.Function? && n <= |e.args|
    decreases e, 0, n
  {
    if n == 0 then Step(Ok([]), facts)
    else
      var before := MemoArgs(hash, e, n - 1, facts);
      if before.result.Err? then before
      else
        var s := Memo(hash, e.args[n - 1], before.facts);
        if s.result.Err? then Step(Err(s.result.error), s.facts) else Step(Ok(before.result.value + [s.result.value]), s.facts)
  }

  lemma {:induction false} ArgsFailureSticks(hash: string -> nat, e: Expr, m: nat, n: nat, facts: Facts)
    requires e.Function? && m <= n <= |e.args| && MemoArgs(hash, e, m, facts).result.Err?
    ensures MemoArgs(hash, e, n, facts) == MemoArgs(hash, e, m, facts)
  {
    if m < n {
      ArgsFailureSticks(hash, e, m, n - 1, facts);
    }
  }

  // ---- The fact base ----

  class FactBase {
    const hash: string -> nat
    var entries: map<string, Value>
    var pathMappings: map<string, string>

    function State(): Facts
      reads this
    {
      Facts(entries, pathMappings)
    }

    constructor (hash: string -> nat, facts: Facts)
      ensures this.hash == hash && State() == facts
    {
      this.hash := hash;
      entries := facts.entries;
      pathMappings := facts.pathMappings;
    }

    method Set(key: string, v: Value)
      modifies this
      ensures State() == Store(old(State()), key, v)
    {
      entries := entries[key := v];
    }

    method Get(key: string) returns (v: Option<Value>)
      ensures v == if key in entries then Some(entries[key]) else None
    {
      v := if key in entries then Some(entries[key]) else None;
    }

    /** A mapping once registered stays: a second one for the same path is dropped. */
    method AddPathMapping(path: string, flat: string)
      modifies this
      ensures entries == old(entries)
      ensures pathMappings == if path in old(pathMappings) then old(pathMappings) else old(pathMappings)[path := flat]
    {
      if path !in pathMappings {
        pathMappings := pathMappings[path := flat];
      }
    }

    method Snapshot() returns (copy: FactBase)
      ensures fresh(copy) && copy.State() == State() && copy.hash == hash
    {
      copy := new FactBase(hash, State());
    }

    /** Evaluates with the cache; the result and the fact base afterwards are those of Memo. */
    method Evaluate(e: Expr) returns (r: Result<Value>)
      modifies this
      ensures Step(r, State()) == Memo(hash, e, old(State()))
      decreases e, 2
    {
      var text := MemoText(e);
      if text == "" {
        r := EvaluateNode(e);
        return;
      }
      var cached := Get(MemoKey(hash, text));
      if cached.Some? {
        return Ok(cached.value);
      }
      r := EvaluateNode(e);
      if r.Ok? {
        Set(MemoKey(hash, text), r.value);
      }
    }

    method EvaluateNode(e: Expr) returns (r: Result<Value>)
      modifies this
      ensures Step(r, State()) == Compute(hash, e, old(State()))
      decreases e, 1
    {
      match e {
        case Literal(v) =>
          r := Ok(v);
        case FieldRef(key) =>
          var v := Get(key);
          r := if v.Some? then Ok(v.value) else Err(FieldNotFound(key));
        case Path(path) =>
          var flat := FlatKey(path, pathMappings);
          var v := Get(flat);
          r := if v.Some? then Ok(v.value) else Err(PathNotFound(flat));
        case Unary(op, operand, _) =>
          r := Evaluate(operand);
          if r.Ok? {
            r := Ok(ApplyUnary(op, r.value));
          }
        case Binary(op, lhs, rhs, _) =>
          r := EvaluateBinary(e);
        case Function(fn, args, _) =>
          r := EvaluateFunction(e);
      }
    }

    method EvaluateBinary(e: Expr) returns (r: Result<Value>)
      requires e.Binary?
      modifies this
      ensures Step(r, State()) == Compute(hash, e, old(State()))
      decreases e, 0
    {
      var l := Evaluate(e.lhs);
      if l.Err? {
        return l;
      }
      if e.bop == And && !l.value.IsTrue() {
        return Ok(Boolean(false));
      }
      if e.bop == Or && l.value.IsTrue() {
        return Ok(Boolean(true));
      }
      r := Evaluate(e.rhs);
      if r.Ok? {
        r := Ok(if e.bop == And || e.bop == Or then Boolean(r.value.IsTrue()) else ApplyBinary(e.bop, l.value, r.value));
      }
    }

    method EvaluateFunction(e: Expr) returns (r: Result<Value>)
      requires e.Function?
      modifies this
      ensures Step(r, State()) == Compute(hash, e, old(State()))
      decreases e, 0
    {
      var values: seq<Value> := [];
      for i: nat := 0 to |e.args|
        invariant Step(Ok(values), State()) == MemoArgs(hash, e, i, old(State()))
      {
        var v := Evaluate(e.args[i]);
        if v.Err? {
          ArgsFailureSticks(hash, e, i + 1, |e.args|, old(State()));
          return v;
        }
        values := values + [v.value];
      }
      var v := CallBuiltin(e.fn, values);
      r := Ok(v);
    }
  }

  // ---- When the cache is harmless ----

  ghost predicate HoldsParts(all: set<Expr>, e: Expr) {
    && (e.Unary? ==> e.operand in all)
    && (e.Binary? ==> e.lhs in all && e.rhs in all)
    && (e.Function? ==> forall i :: 0 <= i < |e.args| ==> e.args[i] in all)
  }

  /** Every subexpression of a member is a member. */
  ghost predicate Closed(all: set<Expr>) {
    forall e :: e in all ==> HoldsParts(all, e)
  }

  ghost predicate Reads(e: Expr, pathMappings: map<string, string>, key: string) {
    (e.FieldRef? && key == e.key) || (e.Path? && key == FlatKey(e.path, pathMappings))
  }

  ghost predicate IsMemoKey(hash: string -> nat, all: set<Expr>, key: string) {
    exists e :: e in all && MemoText(e) != "" && key == MemoKey(hash, MemoText(e))
  }

  /** Hashes of the texts in use do not collide, and no fact that is read carries a memo key. */
  ghost predicate Separate(hash: string -> nat, all: set<Expr>, pathMappings: map<string, string>) {
    && (forall a, b :: a in all && b in all && MemoText(a) != "" && MemoText(b) != "" && hash(MemoText(a)) == hash(MemoText(b)) ==>
          MemoText(a) == MemoText(b))
    && (forall e, key :: e in all && Reads(e, pathMappings, key) ==> !IsMemoKey(hash, all, key))
  }

  /** Nodes cached under the same text evaluate alike; a failure is never cached. */
  ghost predicate Coherent(all: set<Expr>, facts: Facts) {
    forall a, b :: a in all && b in all && MemoText(a) == MemoText(b) != "" && Plain(a, facts).Ok? ==> Plain(b, facts) == Plain(a, facts)
  }

  /** The two fact bases differ at memo keys only. */
  ghost predicate SameFacts(hash: string -> nat, all: set<Expr>, base: Facts, now: Facts) {
    && now.pathMappings == base.pathMappings
    && forall key :: !IsMemoKey(hash, all, key) ==>
         (key in now.entries <==> key in base.entries) && (key in base.entries ==> now.entries[key] == base.entries[key])
  }

  /** Whatever is cached for a member is its plain value. */
  ghost predicate SoundCache(hash: string -> nat, all: set<Expr>, base: Facts, now: Facts) {
    forall e :: e in all && MemoText(e) != "" && MemoKey(hash, MemoText(e)) in now.entries ==>
      Plain(e, base) == Ok(now.entries[MemoKey(hash, MemoText(e))])
  }

  ghost predicate Consistent(hash: string -> nat, all: set<Expr>, base: Facts, now: Facts) {
    SameFacts(hash, all, base, now) && SoundCache(hash, all, base, now)
  }

  lemma LeafIsPlain(hash: string -> nat, all: set<Expr>, base: Facts, now: Facts, e: Expr)
    requires Separate(hash, all, base.pathMappings) && SameFacts(hash, all, base, now) && e in all
    requires e.FieldRef? || e.Path?
    ensures Plain(e, now) == Plain(e, base)
  {
    var key := if e.FieldRef? then e.key else FlatKey(e.path, base.pathMappings);
    assert Reads(e, base.pathMappings, key);
    assert !IsMemoKey(hash, all, key);
  }

  lemma StoreKeepsConsistent(hash: string -> nat, all: set<Expr>, base: Facts, now: Facts, e: Expr, v: Value)
    requires Separate(hash, all, base.pathMappings) && Coherent(all, base) && Consistent(hash, all, base, now)
    requires e in all && MemoText(e) != "" && Plain(e, base) == Ok(v)
    ensures Consistent(hash, all, base, Store(now, MemoKey(hash, MemoText(e)), v))
  {
    var key := MemoKey(hash, MemoText(e));
    assert IsMemoKey(hash, all, key);
    forall other | other in all && MemoText(other) != "" && MemoKey(hash, MemoText(other)) == key
      ensures Plain(other, base) == Ok(v)
    {
      MemoKeysCollide(hash, MemoText(other), MemoText(e));
    }
  }

  lemma {:induction false} ArgsArePlain(hash: string -> nat, all: set<Expr>, base: Facts, now: Facts, e: Expr, n: nat)
    requires Closed(all) && Separate(hash, all, base.pathMappings) && Coherent(all, base)
    requires e in all && e.Function? && n <= |e.args| && Consistent(hash, all, base, now)
    ensures MemoArgs(hash, e, n, now).result == PlainArgs(e, n, base)
    ensures Consistent(hash, all, base, MemoArgs(hash, e, n, now).facts)
    decreases e, 0, n
  {
    if n > 0 {
      ArgsArePlain(hash, all, base, now, e, n - 1);
      var before := MemoArgs(hash, e, n - 1, now);
      if before.result.Ok? {
        assert HoldsParts(all, e);
        MemoIsPlain(hash, all, base, before.facts, e.args[n - 1]);
      }
    }
  }

  lemma {:induction false} BinaryIsPlain(hash: string -> nat, all: set<Expr>, base: Facts, now: Facts, e: Expr)
    requires Closed(all) && Separate(hash, all, base.pathMappings) && Coherent(all, base)
    requires e in all && e.Binary? && Consistent(hash, all, base, now)
    ensures Compute(hash, e, now).result == Plain(e, base)
    ensures Consistent(hash, all, base, Compute(hash, e, now).facts)
    decreases e, 0, 0
  {
    assert HoldsParts(all, e);
    var l := Memo(hash, e.lhs, now);
    MemoIsPlain(hash, all, base, now, e.lhs);
    MemoIsPlain(hash, all, base, l.facts, e.rhs);
  }

  lemma {:induction false} ComputeIsPlain(hash: string -> nat, all: set<Expr>, base: Facts, now: Facts, e: Expr)
    requires Closed(all) && Separate(hash, all, base.pathMappings) && Coherent(all, base)
    requires e in all && Consistent(hash, all, base, now)
    ensures Compute(hash, e, now).result == Plain(e, base)
    ensures Consistent(hash, all, base, Compute(hash, e, now).facts)
    decreases e, 1, 0
  {
    assert HoldsParts(all, e);
    match e {
      case Literal(_) =>
      case FieldRef(_) =>
        LeafIsPlain(hash, all, base, now, e);
      case Path(_) =>
        LeafIsPlain(hash, all, base, now, e);
      case Unary(_, operand, _) =>
        MemoIsPlain(hash, all, base, now, operand);
      case Binary(_, lhs, rhs, _) =>
        BinaryIsPlain(hash, all, base, now, e);
      case Function(_, args, _) =>
        ArgsArePlain(hash, all, base, now, e, |args|);
    }
  }

  /** With coherent texts, evaluation through the cache gives the plain value, keeps the cache sound and changes no fact. */
  lemma {:induction false} MemoIsPlain(hash: string -> nat, all: set<Expr>, base: Facts, now: Facts, e: Expr)
    requires Closed(all) && Separate(hash, all, base.pathMappings) && Coherent(all, base)
    requires e in all && Consistent(hash, all, base, now)
    ensures Memo(hash, e, now).result == Plain(e, base)
    ensures Consistent(hash, all, base, Memo(hash, e, now).facts)
    decreases e, 2, 0
  {
    var text := MemoText(e);
    if text == "" || MemoKey(hash, text) !in now.entries {
      ComputeIsPlain(hash, all, base, now, e);
      var s := Compute(hash, e, now);
      if text != "" && s.result.Ok? {
        StoreKeepsConsistent(hash, all, base, s.facts, e, s.result.value);
      }
    }
  }

  lemma LiteralIsItself(hash: string -> nat, v: Value, facts: Facts)
    ensures Memo(hash, Literal(v), facts) == Step(Ok(v), facts)
  {
    assert MemoText(Literal(v)) == "";
    assert Compute(hash, Literal(v), facts) == Step(Ok(v), facts);
  }

  /** An operator that needs both sides combines their values. */
  lemma BothSidesCombine(hash: string -> nat, e: Expr, facts: Facts, l: Value, r: Value)
    requires e.Binary? && e.bop != And && e.bop != Or && Memo(hash, e.lhs, facts).result == Ok(l)
    requires Memo(hash, e.rhs, Memo(hash, e.lhs, facts).facts).result == Ok(r)
    ensures Compute(hash, e, facts).result == Ok(ApplyBinary(e.bop, l, r))
  {
  }

  /** Once a text has a result, every node with that text gets it. */
  lemma SameTextSameResult(hash: string -> nat, facts: Facts, a: Expr, b: Expr)
    requires MemoText(a) == MemoText(b) != "" && Memo(hash, a, facts).result.Ok?
    ensures Memo(hash, b, Memo(hash, a, facts).facts) == Memo(hash, a, facts)
  {
    var after := Memo(hash, a, facts);
    assert MemoKey(hash, MemoText(a)) in after.facts.entries && Ok(after.facts.entries[MemoKey(hash, MemoText(a))]) == after.result;
  }

  // ---- Coherence is exactly what is needed ----

  ghost predicate FreshCache(hash: string -> nat, all: set<Expr>, facts: Facts) {
    forall e :: e in all && MemoText(e) != "" ==> MemoKey(hash, MemoText(e)) !in facts.entries
  }

  /** Evaluating any member and then any other gives both plain values. */
  ghost predicate PairsArePlain(hash: string -> nat, all: set<Expr>, facts: Facts) {
    forall a, b :: a in all && b in all ==> PairIsPlain(hash, facts, a, b)
  }

  ghost predicate PairIsPlain(hash: string -> nat, facts: Facts, a: Expr, b: Expr) {
    && Memo(hash, a, facts).result == Plain(a, facts)
    && Memo(hash, b, Memo(hash, a, facts).facts).result == Plain(b, facts)
  }

  lemma FreshIsConsistent(hash: string -> nat, all: set<Expr>, facts: Facts)
    requires FreshCache(hash, all, facts)
    ensures Consistent(hash, all, facts, facts)
  {
  }

  lemma IncoherenceShows(hash: string -> nat, facts: Facts, a: Expr, b: Expr)
    requires MemoText(a) == MemoText(b) != ""
    requires PairIsPlain(hash, facts, a, b) && Plain(a, facts).Ok?
    ensures Plain(b, facts) == Plain(a, facts)
  {
    SameTextSameResult(hash, facts, a, b);
  }

  /** The cache is harmless for every pair of expressions exactly when equal texts mean equal values. */
  lemma HarmlessExactlyWhenCoherent(hash: string -> nat, all: set<Expr>, facts: Facts)
    requires Closed(all) && Separate(hash, all, facts.pathMappings) && FreshCache(hash, all, facts)
    ensures PairsArePlain(hash, all, facts) <==> Coherent(all, facts)
  {
    FreshIsConsistent(hash, all, facts);
    if Coherent(all, facts) {
      forall a, b | a in all && b in all
        ensures PairIsPlain(hash, facts, a, b)
      {
        MemoIsPlain(hash, all, facts, facts, a);
        MemoIsPlain(hash, all, facts, Memo(hash, a, facts).facts, b);
      }
    }
    if PairsArePlain(hash, all, facts) {
      forall a, b | a in all && b in all && MemoText(a) == MemoText(b) != "" && Plain(a, facts).Ok?
        ensures Plain(b, facts) == Plain(a, facts)
      {
        assert PairIsPlain(hash, facts, a, b);
        IncoherenceShows(hash, facts, a, b);
      }
    }
  }
}
