/** What the operators and built-in functions answer when a rule is evaluated (src/rule/expression.cpp, src/rule/value.cpp).
    Every law speaks of the evaluation through the cache, for texts that are not cached yet; the last ones speak of conditions as
    they are written in a rule file. */
module OperatorLaws {
  import opened Basics
  import opened RuleExpression
  import opened MemoEvaluation
  import opened Vectors
  import opened ConditionBuilder

  ghost predicate NotCached(hash: string -> nat, text: string, facts: Facts) {
    text == "" || MemoKey(hash, text) !in facts.entries
  }

  /** A stored field is read, and neither its text nor the text of the whole expression is cached. */
  ghost predicate ReadsAnew(hash: string -> nat, key: string, text: string, facts: Facts) {
    key in facts.entries && NotCached(hash, key, facts) && NotCached(hash, text, facts)
  }

  /** The field of that key against a literal. */
  function Against(op: BinaryOp, key: string, v: Value, text: string): Expr {
    Binary(op, FieldRef(key), Literal(v), text)
  }

  ghost function Answer(hash: string -> nat, e: Expr, facts: Facts): Result<Value> {
    Memo(hash, e, facts).result
  }

  /** A number stands for itself, a truth value for one or zero. */
  ghost predicate StandsFor(v: Value, x: real) {
    v == Num(x) || (v == Boolean(true) && x == 1.0) || (v == Boolean(false) && x == 0.0)
  }

  ghost predicate NotNumeric(v: Value) {
    v.Null? || v.Str? || v.List?
  }

  // ---- Evaluating the parts ----

  lemma FieldIsRead(hash: string -> nat, key: string, facts: Facts)
    requires key in facts.entries && NotCached(hash, key, facts)
    ensures Answer(hash, FieldRef(key), facts) == Ok(facts.entries[key])
  {
    assert Compute(hash, FieldRef(key), facts) == Step(Ok(facts.entries[key]), facts);
  }

  lemma NewTextIsComputed(hash: string -> nat, e: Expr, facts: Facts)
    requires NotCached(hash, MemoText(e), facts)
    ensures Answer(hash, e, facts) == Compute(hash, e, facts).result
  {
  }

  lemma Applied(hash: string -> nat, op: BinaryOp, key: string, v: Value, text: string, facts: Facts)
    requires op != And && op != Or && ReadsAnew(hash, key, text, facts)
    ensures Answer(hash, Against(op, key, v, text), facts) == Ok(ApplyBinary(op, facts.entries[key], v))
  {
    var e := Against(op, key, v, text);
    FieldIsRead(hash, key, facts);
    LiteralIsItself(hash, v, Memo(hash, FieldRef(key), facts).facts);
    BothSidesCombine(hash, e, facts, facts.entries[key], v);
    NewTextIsComputed(hash, e, facts);
  }

  lemma AppliedToOne(hash: string -> nat, op: UnaryOp, key: string, text: string, facts: Facts)
    requires ReadsAnew(hash, key, text, facts)
    ensures Answer(hash, Unary(op, FieldRef(key), text), facts) == Ok(ApplyUnary(op, facts.entries[key]))
  {
    var e := Unary(op, FieldRef(key), text);
    FieldIsRead(hash, key, facts);
    assert Compute(hash, e, facts).result == Ok(ApplyUnary(op, facts.entries[key]));
    NewTextIsComputed(hash, e, facts);
  }

  // ---- Operators ----

  /** Equality asks for the very same value; inequality is its negation. */
  lemma EqualityAnswers(hash: string -> nat, key: string, v: Value, text: string, facts: Facts)
    requires ReadsAnew(hash, key, text, facts)
    ensures Answer(hash, Against(Eq, key, v, text), facts) == Ok(Boolean(facts.entries[key] == v))
    ensures Answer(hash, Against(Neq, key, v, text), facts) == Ok(Boolean(facts.entries[key] != v))
  {
    Applied(hash, Eq, key, v, text, facts);
    Applied(hash, Neq, key, v, text, facts);
  }

  /** Membership asks for an equal item of a list. */
  lemma MembershipAnswers(hash: string -> nat, key: string, v: Value, text: string, facts: Facts)
    requires ReadsAnew(hash, key, text, facts)
    ensures Answer(hash, Against(In, key, v, text), facts) == Ok(Boolean(v.List? && exists i :: 0 <= i < |v.items| && v.items[i] == facts.entries[key]))
  {
    Applied(hash, In, key, v, text, facts);
  }

  /** Orderings compare the numbers the two values stand for; the weak ones also accept equal values. */
  lemma OrderAnswers(hash: string -> nat, key: string, v: Value, text: string, facts: Facts, a: real, b: real)
    requires ReadsAnew(hash, key, text, facts) && StandsFor(facts.entries[key], a) && StandsFor(v, b)
    ensures Answer(hash, Against(Lt, key, v, text), facts) == Ok(Boolean(a < b))
    ensures Answer(hash, Against(Gt, key, v, text), facts) == Ok(Boolean(b < a))
    ensures Answer(hash, Against(Le, key, v, text), facts) == Ok(Boolean(a < b || facts.entries[key] == v))
    ensures Answer(hash, Against(Ge, key, v, text), facts) == Ok(Boolean(b < a || facts.entries[key] == v))
  {
    Applied(hash, Lt, key, v, text, facts);
    Applied(hash, Gt, key, v, text, facts);
    Applied(hash, Le, key, v, text, facts);
    Applied(hash, Ge, key, v, text, facts);
  }

  /** Without a number on each side there is no order, only equality. */
  lemma NoOrderWithoutNumbers(hash: string -> nat, key: string, v: Value, text: string, facts: Facts)
    requires ReadsAnew(hash, key, text, facts) && (NotNumeric(facts.entries[key]) || NotNumeric(v))
    ensures Answer(hash, Against(Lt, key, v, text), facts) == Answer(hash, Against(Gt, key, v, text), facts) == Ok(Boolean(false))
    ensures Answer(hash, Against(Le, key, v, text), facts) == Answer(hash, Against(Ge, key, v, text), facts) == Ok(Boolean(facts.entries[key] == v))
  {
    Applied(hash, Lt, key, v, text, facts);
    Applied(hash, Gt, key, v, text, facts);
    Applied(hash, Le, key, v, text, facts);
    Applied(hash, Ge, key, v, text, facts);
  }

  lemma SumIsAnswered(hash: string -> nat, key: string, v: Value, text: string, facts: Facts, a: real, b: real)
    requires ReadsAnew(hash, key, text, facts) && StandsFor(facts.entries[key], a) && StandsFor(v, b)
    ensures Answer(hash, Against(Add, key, v, text), facts) == Ok(Num(a + b))
  {
    Applied(hash, Add, key, v, text, facts);
    Added(facts.entries[key], v, a, b);
  }

  lemma Added(l: Value, r: Value, a: real, b: real)
    requires StandsFor(l, a) && StandsFor(r, b)
    ensures ApplyBinary(Add, l, r) == Num(a + b)
    ensures ApplyBinary(Sub, l, r) == Num(a - b)
  {
    assert l.AsNumeric().value == a && r.AsNumeric().value == b;
    assert ApplyBinary(Add, l, r) == Arithmetic(Add, a, b) && ApplyBinary(Sub, l, r) == Arithmetic(Sub, a, b);
  }

  /** The difference is what must be added to the literal to give the fact. */
  lemma DifferenceIsAnswered(hash: string -> nat, key: string, v: Value, text: string, facts: Facts, a: real, b: real, x: real)
    requires ReadsAnew(hash, key, text, facts) && StandsFor(facts.entries[key], a) && StandsFor(v, b)
    ensures Answer(hash, Against(Sub, key, v, text), facts) == Ok(Num(x)) <==> x + b == a
  {
    Applied(hash, Sub, key, v, text, facts);
    Added(facts.entries[key], v, a, b);
  }

  lemma ProductIsAnswered(hash: string -> nat, key: string, v: Value, text: string, facts: Facts, a: real, b: real)
    requires ReadsAnew(hash, key, text, facts) && StandsFor(facts.entries[key], a) && StandsFor(v, b)
    ensures Answer(hash, Against(Mul, key, v, text), facts) == Ok(Num(a * b))
  {
    Applied(hash, Mul, key, v, text, facts);
    Multiplied(facts.entries[key], v, a, b, a * b);
  }

  lemma Multiplied(l: Value, r: Value, a: real, b: real, product: real)
    requires StandsFor(l, a) && StandsFor(r, b) && product == a * b
    ensures ApplyBinary(Mul, l, r) == Num(product)
  {
    assert l.AsNumeric().value == a && r.AsNumeric().value == b;
  }

  /** The quotient is what the literal must be multiplied with to give the fact; there is none for a literal of zero. */
  lemma QuotientIsAnswered(hash: string -> nat, key: string, v: Value, text: string, facts: Facts, a: real, b: real, x: real)
    requires ReadsAnew(hash, key, text, facts) && StandsFor(facts.entries[key], a) && StandsFor(v, b)
    ensures b != 0.0 ==> (Answer(hash, Against(Div, key, v, text), facts) == Ok(Num(x)) <==> x * b == a)
    ensures b == 0.0 ==> Answer(hash, Against(Div, key, v, text), facts) == Ok(Null)
  {
    Applied(hash, Div, key, v, text, facts);
    Divided(facts.entries[key], v, a, b, x);
  }

  lemma Divided(l: Value, r: Value, a: real, b: real, x: real)
    requires StandsFor(l, a) && StandsFor(r, b)
    ensures b != 0.0 ==> (ApplyBinary(Div, l, r) == Num(x) <==> x * b == a)
    ensures b == 0.0 ==> ApplyBinary(Div, l, r) == Null
  {
    if b != 0.0 {
      OnlyQuotient(a, b, x);
      assert ApplyBinary(Div, l, r) == Num(a / b);
    }
  }

  lemma OnlyQuotient(a: real, b: real, x: real)
    requires b != 0.0
    ensures x == a / b <==> x * b == a
  {
    QuotientTimes(a, b);
    var q := a / b;
    if x * b == a {
      if b > 0.0 {
        ScaleOrder(x, q, b);
      } else {
        ScaleOrder(x, q, -b);
        assert x * -b == -(x * b) && q * -b == -(q * b);
      }
    }
  }

  lemma NoArithmeticWithoutNumbers(hash: string -> nat, op: BinaryOp, key: string, v: Value, text: string, facts: Facts)
    requires ReadsAnew(hash, key, text, facts) && (NotNumeric(facts.entries[key]) || NotNumeric(v)) && op in {Add, Sub, Mul, Div}
    ensures Answer(hash, Against(op, key, v, text), facts) == Ok(Null)
  {
    Applied(hash, op, key, v, text, facts);
  }

  /** Negation wants a truth value, the opposite a number or a truth value. */
  lemma UnaryAnswers(hash: string -> nat, key: string, text: string, facts: Facts, x: real, m: real)
    requires ReadsAnew(hash, key, text, facts)
    ensures Answer(hash, Unary(Not, FieldRef(key), text), facts) ==
            Ok(if facts.entries[key] == Boolean(true) then Boolean(false) else if facts.entries[key] == Boolean(false) then Boolean(true) else Null)
    ensures StandsFor(facts.entries[key], x) ==> (Answer(hash, Unary(Neg, FieldRef(key), text), facts) == Ok(Num(m)) <==> m + x == 0.0)
    ensures NotNumeric(facts.entries[key]) ==> Answer(hash, Unary(Neg, FieldRef(key), text), facts) == Ok(Null)
  {
    AppliedToOne(hash, Not, key, text, facts);
    AppliedToOne(hash, Neg, key, text, facts);
  }

  // ---- Built-in functions ----

  /** A call whose text is not cached and whose operands evaluate to these values. */
  ghost predicate CallsWith(hash: string -> nat, e: Expr, facts: Facts, values: seq<Value>) {
    e.Function? && NotCached(hash, e.source, facts) && MemoArgs(hash, e, |e.args|, facts).result == Ok(values)
  }

  lemma Called(hash: string -> nat, e: Expr, facts: Facts, values: seq<Value>)
    requires CallsWith(hash, e, facts, values)
    ensures Answer(hash, e, facts) == Ok(Builtin(e.fn, values))
  {
    NewTextIsComputed(hash, e, facts);
  }

  ghost predicate AreNumbers(values: seq<Value>, numbers: seq<real>) {
    |values| == |numbers| && forall i :: 0 <= i < |values| ==> values[i] == Num(numbers[i])
  }

  ghost function Total(numbers: seq<real>): real {
    if numbers == [] then 0.0 else numbers[0] + Total(numbers[1..])
  }

  lemma {:induction false} TotalLast(numbers: seq<real>)
    requires numbers != []
    ensures Total(numbers) == Total(numbers[..|numbers| - 1]) + numbers[|numbers| - 1]
  {
    if |numbers| > 1 {
      TotalLast(numbers[1..]);
      assert numbers[1..][..|numbers| - 2] == numbers[..|numbers| - 1][1..];
    } else {
      assert numbers[1..] == [] && numbers[..0] == [];
    }
  }

  lemma {:induction false} SumIsTotal(values: seq<Value>, numbers: seq<real>)
    requires AreNumbers(values, numbers)
    ensures AllNumbers(values) && SumOf(values) == Total(numbers)
  {
    if values != [] {
      SumIsTotal(values[..|values| - 1], numbers[..|numbers| - 1]);
      TotalLast(numbers);
    }
  }

  lemma SumAnswer(hash: string -> nat, e: Expr, facts: Facts, values: seq<Value>, numbers: seq<real>)
    requires CallsWith(hash, e, facts, values) && AreNumbers(values, numbers) && e.fn == Sum
    ensures Answer(hash, e, facts) == Ok(Num(Total(numbers)))
  {
    Called(hash, e, facts, values);
    SumIsTotal(values, numbers);
  }

  /** m added up n times. */
  ghost function Times(m: real, n: nat): real {
    if n == 0 then 0.0 else Times(m, n - 1) + m
  }

  lemma {:induction false} TimesIsProduct(m: real, n: nat)
    ensures Times(m, n) == m * n as real
  {
    if n > 0 {
      TimesIsProduct(m, n - 1);
      assert m * n as real == m * (n - 1) as real + m;
    }
  }

  /** The average gives the sum when taken once per operand. */
  lemma AverageAnswer(hash: string -> nat, e: Expr, facts: Facts, values: seq<Value>, numbers: seq<real>, m: real)
    requires CallsWith(hash, e, facts, values) && AreNumbers(values, numbers) && e.fn == Avg && numbers != []
    ensures Answer(hash, e, facts) == Ok(Num(m)) <==> Times(m, |numbers|) == Total(numbers)
  {
    Called(hash, e, facts, values);
    Averaged(values, numbers, m);
  }

  lemma Averaged(values: seq<Value>, numbers: seq<real>, m: real)
    requires AreNumbers(values, numbers) && numbers != []
    ensures Builtin(Avg, values) == Num(m) <==> Times(m, |numbers|) == Total(numbers)
  {
    SumIsTotal(values, numbers);
    PartTaken(m, |numbers|, Total(numbers));
  }

  lemma PartTaken(m: real, n: nat, total: real)
    requires n > 0
    ensures m == total / n as real <==> Times(m, n) == total
  {
    TimesIsProduct(m, n);
    OnlyQuotient(total, n as real, m);
  }

  /** The largest operand: one of them, with none above it. */
  lemma LargestAnswer(hash: string -> nat, e: Expr, facts: Facts, values: seq<Value>, numbers: seq<real>, m: real)
    requires CallsWith(hash, e, facts, values) && AreNumbers(values, numbers) && e.fn == Max && numbers != []
    ensures Answer(hash, e, facts) == Ok(Num(m)) <==> m in numbers && forall x :: x in numbers ==> x <= m
  {
    Called(hash, e, facts, values);
    ExtremesOf(values, numbers, m);
  }

  lemma SmallestAnswer(hash: string -> nat, e: Expr, facts: Facts, values: seq<Value>, numbers: seq<real>, m: real)
    requires CallsWith(hash, e, facts, values) && AreNumbers(values, numbers) && e.fn == Min && numbers != []
    ensures Answer(hash, e, facts) == Ok(Num(m)) <==> m in numbers && forall x :: x in numbers ==> m <= x
  {
    Called(hash, e, facts, values);
    ExtremesOf(values, numbers, m);
  }

  lemma ExtremesOf(values: seq<Value>, numbers: seq<real>, m: real)
    requires AreNumbers(values, numbers) && numbers != []
    ensures Builtin(Max, values) == Num(m) <==> m in numbers && forall x :: x in numbers ==> x <= m
    ensures Builtin(Min, values) == Num(m) <==> m in numbers && forall x :: x in numbers ==> m <= x
  {
    SumIsTotal(values, numbers);
    SameMembers(values, numbers);
    var most, least := MaxOf(values), MinOf(values);
    assert most in numbers && forall x :: x in numbers ==> x <= most && Num(x) in values;
    assert least in numbers && forall x :: x in numbers ==> least <= x;
  }

  lemma SameMembers(values: seq<Value>, numbers: seq<real>)
    requires AreNumbers(values, numbers)
    ensures forall x :: x in numbers <==> Num(x) in values
  {
    forall x
      ensures x in numbers <==> Num(x) in values
    {
      if x in numbers {
        var i :| 0 <= i < |numbers| && numbers[i] == x;
        assert values[i] == Num(x);
      }
    }
  }

  /** An operand that is not a number spoils sum, average and extremes; average and extremes need an operand. */
  lemma NoNumberNoAnswer(hash: string -> nat, e: Expr, facts: Facts, values: seq<Value>)
    requires CallsWith(hash, e, facts, values) && e.fn in {Sum, Avg, Max, Min}
    requires (exists v :: v in values && !v.Num?) || (values == [] && e.fn != Sum)
    ensures Answer(hash, e, facts) == Ok(Null)
  {
    Called(hash, e, facts, values);
  }

  /** Count is the number of operands; Len the length of the first one, if it is a text or a list. */
  lemma SizeAnswers(hash: string -> nat, e: Expr, facts: Facts, values: seq<Value>)
    requires CallsWith(hash, e, facts, values)
    ensures e.fn == Count ==> Answer(hash, e, facts) == Ok(Num(|e.args| as real))
    ensures e.fn == Len && e.args == [] ==> Answer(hash, e, facts) == Ok(Num(0.0))
    ensures e.fn == Len && e.args != [] && values[0].Str? ==> Answer(hash, e, facts) == Ok(Num(|values[0].text| as real))
    ensures e.fn == Len && e.args != [] && values[0].List? ==> Answer(hash, e, facts) == Ok(Num(|values[0].items| as real))
    ensures e.fn == Len && e.args != [] && !values[0].Str? && !values[0].List? ==> Answer(hash, e, facts) == Ok(Null)
  {
    Called(hash, e, facts, values);
    OneValuePerOperand(hash, e, |e.args|, facts);
  }

  lemma {:induction false} OneValuePerOperand(hash: string -> nat, e: Expr, n: nat, facts: Facts)
    requires e.Function? && n <= |e.args|
    ensures MemoArgs(hash, e, n, facts).result.Ok? ==> |MemoArgs(hash, e, n, facts).result.value| == n
  {
    if n > 0 {
      OneValuePerOperand(hash, e, n - 1, facts);
    }
  }

  // ---- Paths ----

  /** A path reads the fact its mapping names, and without a mapping and without arrows the fact of its own name. */
  lemma PathAnswers(hash: string -> nat, path: string, facts: Facts)
    requires NotCached(hash, path, facts)
    ensures path in facts.pathMappings && facts.pathMappings[path] in facts.entries ==>
              Answer(hash, Path(path), facts) == Ok(facts.entries[facts.pathMappings[path]])
    ensures path !in facts.pathMappings && !HasArrow(path) && path in facts.entries ==>
              Answer(hash, Path(path), facts) == Ok(facts.entries[path])
  {
    FlattenRemovesArrows(path);
    PathIsRead(hash, path, facts);
  }

  lemma PathIsRead(hash: string -> nat, path: string, facts: Facts)
    requires NotCached(hash, path, facts)
    ensures FlatKey(path, facts.pathMappings) in facts.entries ==>
              Answer(hash, Path(path), facts) == Ok(facts.entries[FlatKey(path, facts.pathMappings)])
  {
    assert Compute(hash, Path(path), facts) == Step(Plain(Path(path), facts), facts);
  }

  lemma FlattenFront(c: char, rest: string)
    requires c != '-' || rest == "" || rest[0] != '>'
    ensures Flatten([c] + rest) == [c] + Flatten(rest)
  {
    assert ([c] + rest)[1..] == rest;
  }

  lemma ShorterHasNoArrow(s: string)
    requires s != "" && !HasArrow(s)
    ensures !HasArrow(s[1..]) && (|s| > 1 ==> s[0] != '-' || s[1] != '>')
  {
    assert forall i :: 0 <= i < |s| - 1 ==> s[1..][i] == s[i + 1];
  }

  lemma {:induction false} ArrowBecomesDot(front: string, back: string)
    requires !HasArrow(front) && !HasArrow(back) && (front == "" || front[|front| - 1] != '-')
    ensures Flatten(front + ("->" + back)) == front + ("." + back)
  {
    if front == "" {
      var path := "->" + back;
      assert path[2..] == back && front + path == path;
      FlattenRemovesArrows(back);
    } else {
      var rest := front[1..] + ("->" + back);
      assert front + ("->" + back) == [front[0]] + rest;
      ShorterHasNoArrow(front);
      ArrowBecomesDot(front[1..], back);
      FlattenFront(front[0], rest);
      assert [front[0]] + (front[1..] + ("." + back)) == front + ("." + back);
    }
  }

  /** An arrow between two names reads the fact with a dot between them. */
  lemma ArrowPathAnswers(hash: string -> nat, front: string, back: string, facts: Facts)
    requires !HasArrow(front) && !HasArrow(back) && (front == "" || front[|front| - 1] != '-')
    requires front + ("->" + back) !in facts.pathMappings && NotCached(hash, front + ("->" + back), facts)
    requires front + ("." + back) in facts.entries
    ensures Answer(hash, Path(front + ("->" + back)), facts) == Ok(facts.entries[front + ("." + back)])
  {
    ArrowBecomesDot(front, back);
    PathIsRead(hash, front + ("->" + back), facts);
  }

  // ---- A missing fact ----

  /** A missing field is an error, and it is passed on by every operator that reads it first. */
  lemma MissingFieldFails(hash: string -> nat, op: BinaryOp, uop: UnaryOp, key: string, rhs: Expr, text: string, facts: Facts)
    requires key !in facts.entries && NotCached(hash, key, facts) && NotCached(hash, text, facts)
    ensures Answer(hash, FieldRef(key), facts) == Err(FieldNotFound(key))
    ensures Answer(hash, Binary(op, FieldRef(key), rhs, text), facts) == Err(FieldNotFound(key))
    ensures Answer(hash, Unary(uop, FieldRef(key), text), facts) == Err(FieldNotFound(key))
  {
    var field, both, one := FieldRef(key), Binary(op, FieldRef(key), rhs, text), Unary(uop, FieldRef(key), text);
    assert Compute(hash, field, facts) == Step(Err(FieldNotFound(key)), facts);
    assert Memo(hash, field, facts) == Step(Err(FieldNotFound(key)), facts);
    assert Compute(hash, both, facts).result == Err(FieldNotFound(key));
    assert Compute(hash, one, facts).result == Err(FieldNotFound(key));
    NewTextIsComputed(hash, both, facts);
    NewTextIsComputed(hash, one, facts);
  }

  // ---- Conditions as they are written ----

  /** {field: key, op: op, value: text} */
  function Written(key: string, op: string, text: string): Node {
    Map(Scalar(key), Undefined, Scalar(op), Scalar(text), Undefined, Undefined, Undefined)
  }

  lemma WrittenIsBuilt(format: Format, key: string, op: string, text: string, o: BinaryOp) returns (source: string)
    requires ParseBinaryOp(op) == Some(o)
    ensures source != "" && Build(format, Written(key, op, text)) == Built(Against(o, key, LiteralValue(format, text), source))
  {
    var v := LiteralValue(format, text);
    source := key + " " + op + " " + LiteralText(format, v);
    assert Build(format, Written(key, op, text)) == BuildComparison(format, Written(key, op, text));
  }

  /** The condition is built, its field is stored, and neither text is cached. */
  ghost predicate ReadsWritten(format: Format, hash: string -> nat, key: string, op: string, text: string, facts: Facts) {
    var built := Build(format, Written(key, op, text));
    built.Built? && ReadsAnew(hash, key, MemoText(built.expr), facts)
  }

  ghost function WrittenAnswer(format: Format, hash: string -> nat, key: string, op: string, text: string, facts: Facts): Result<Value>
    requires Build(format, Written(key, op, text)).Built?
  {
    Answer(hash, Build(format, Written(key, op, text)).expr, facts)
  }

  /** "eq" and "neq" compare the stored value with the literal. */
  lemma WrittenEquality(format: Format, hash: string -> nat, key: string, op: string, text: string, facts: Facts)
    requires op == "eq" || op == "neq"
    requires ReadsWritten(format, hash, key, op, text, facts)
    ensures WrittenAnswer(format, hash, key, op, text, facts)
         == Ok(Boolean((facts.entries[key] == LiteralValue(format, text)) == (op == "eq")))
  {
    var source := WrittenIsBuilt(format, key, op, text, if op == "eq" then Eq else Neq);
    EqualityAnswers(hash, key, LiteralValue(format, text), source, facts);
  }

  /** "lt", "le", "gt" and "ge" compare the numbers that the two values stand for. */
  lemma WrittenOrder(format: Format, hash: string -> nat, key: string, op: string, text: string, facts: Facts, a: real, b: real)
    requires op == "lt" || op == "le" || op == "gt" || op == "ge"
    requires ReadsWritten(format, hash, key, op, text, facts)
    requires StandsFor(facts.entries[key], a) && StandsFor(LiteralValue(format, text), b)
    ensures var same := facts.entries[key] == LiteralValue(format, text);
            WrittenAnswer(format, hash, key, op, text, facts)
            == Ok(Boolean(if op == "lt" then a < b else if op == "le" then a < b || same else if op == "gt" then a > b else a > b || same))
  {
    var source := WrittenIsBuilt(format, key, op, text, if op == "lt" then Lt else if op == "le" then Le else if op == "gt" then Gt else Ge);
    OrderAnswers(hash, key, LiteralValue(format, text), source, facts, a, b);
  }

  lemma WrittenSum(format: Format, hash: string -> nat, key: string, text: string, facts: Facts, a: real, b: real)
    requires ReadsWritten(format, hash, key, "add", text, facts)
    requires StandsFor(facts.entries[key], a) && StandsFor(LiteralValue(format, text), b)
    ensures WrittenAnswer(format, hash, key, "add", text, facts) == Ok(Num(a + b))
  {
    var source := WrittenIsBuilt(format, key, "add", text, Add);
    SumIsAnswered(hash, key, LiteralValue(format, text), source, facts, a, b);
  }

  lemma WrittenDifference(format: Format, hash: string -> nat, key: string, text: string, facts: Facts, a: real, b: real)
    requires ReadsWritten(format, hash, key, "sub", text, facts)
    requires StandsFor(facts.entries[key], a) && StandsFor(LiteralValue(format, text), b)
    ensures WrittenAnswer(format, hash, key, "sub", text, facts) == Ok(Num(a - b))
  {
    var source := WrittenIsBuilt(format, key, "sub", text, Sub);
    DifferenceIsAnswered(hash, key, LiteralValue(format, text), source, facts, a, b, a - b);
  }

  lemma WrittenProduct(format: Format, hash: string -> nat, key: string, text: string, facts: Facts, a: real, b: real)
    requires ReadsWritten(format, hash, key, "mul", text, facts)
    requires StandsFor(facts.entries[key], a) && StandsFor(LiteralValue(format, text), b)
    ensures WrittenAnswer(format, hash, key, "mul", text, facts) == Ok(Num(a * b))
  {
    var source := WrittenIsBuilt(format, key, "mul", text, Mul);
    ProductIsAnswered(hash, key, LiteralValue(format, text), source, facts, a, b);
  }

  /** "div" gives the quotient, and nothing for a literal of zero. */
  lemma WrittenQuotient(format: Format, hash: string -> nat, key: string, text: string, facts: Facts, a: real, b: real, x: real)
    requires ReadsWritten(format, hash, key, "div", text, facts)
    requires StandsFor(facts.entries[key], a) && StandsFor(LiteralValue(format, text), b)
    ensures b != 0.0 ==> (WrittenAnswer(format, hash, key, "div", text, facts) == Ok(Num(x)) <==> x * b == a)
    ensures b == 0.0 ==> WrittenAnswer(format, hash, key, "div", text, facts) == Ok(Null)
  {
    var source := WrittenIsBuilt(format, key, "div", text, Div);
    QuotientIsAnswered(hash, key, LiteralValue(format, text), source, facts, a, b, x);
  }

  /** A rule file cannot write a list as a value, so a written "in" is never true. */
  lemma WrittenInNeverHolds(format: Format, hash: string -> nat, key: string, text: string, facts: Facts)
    requires ReadsWritten(format, hash, key, "in", text, facts)
    ensures WrittenAnswer(format, hash, key, "in", text, facts) == Ok(Boolean(false))
  {
    var source := WrittenIsBuilt(format, key, "in", text, In);
    MembershipAnswers(hash, key, LiteralValue(format, text), source, facts);
    LiteralKinds(format, text, 0.0, 0);
  }
}
