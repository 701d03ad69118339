/** Values, expressions and their plain evaluation (src/rule/value.cpp, src/rule/expression.cpp).
    Numbers are reals: rounding, NaN and infinities are not modelled. */
module RuleExpression {
  import opened Basics

  datatype Error = FieldNotFound(key: string) | PathNotFound(flatKey: string)

  datatype Result<T> = Ok(value: T) | Err(error: Error)

  // ---- Values ----

  datatype Value = Null | Num(number: real) | Boolean(truth: bool) | Str(text: string) | List(items: seq<Value>)
  {
    /** Arithmetic and ordering read a truth value as one or zero. */
    function AsNumeric(): Option<real> {
      if Num? then Some(number) else if Boolean? then Some(if truth then 1.0 else 0.0) else None
    }

    function IsTrue(): bool {
      this == Boolean(true)
    }
  }

  function Less(a: Value, b: Value): bool {
    a.AsNumeric().Some? && b.AsNumeric().Some? && a.AsNumeric().value < b.AsNumeric().value
  }

  // ---- Expressions ----

  datatype BinaryOp = And | Or | Add | Sub | Mul | Div | Eq | Neq | Lt | Le | Gt | Ge | In

  datatype UnaryOp = Not | Neg

  datatype BuiltinFn = Avg | Count | Max | Min | Sum | Len

  datatype Expr =
    | Literal(constant: Value)
    | FieldRef(key: string)
    | Binary(bop: BinaryOp, lhs: Expr, rhs: Expr, source: string)
    | Unary(uop: UnaryOp, operand: Expr, source: string)
    | Function(fn: BuiltinFn, args: seq<Expr>, source: string)
    | Path(path: string)

  function Arithmetic(op: BinaryOp, a: real, b: real): Value {
    match op
    case Add => Num(a + b)
    case Sub => Num(a - b)
    case Mul => Num(a * b)
    case _ => if b == 0.0 then Null else Num(a / b)
  }

  /** A failing left side, or one that settles an and/or, keeps the right side from being evaluated. */
  predicate DecidedByLeft(op: BinaryOp, l: Result<Value>) {
    l.Err? || (op == And && !l.value.IsTrue()) || (op == Or && l.value.IsTrue())
  }

  function LeftDecides(op: BinaryOp, l: Result<Value>): Result<Value>
    requires DecidedByLeft(op, l)
  {
    if l.Err? then l else Ok(Boolean(op == Or))
  }

  /** The result once the right side has been evaluated as well. */
  function Combine(op: BinaryOp, l: Value, r: Result<Value>): Result<Value> {
    if r.Err? then r
    else if op == And || op == Or then Ok(Boolean(r.value.IsTrue()))
    else Ok(ApplyBinary(op, l, r.value))
  }

  /** The operators that evaluate both sides. */
  function ApplyBinary(op: BinaryOp, l: Value, r: Value): Value
    requires op != And && op != Or
  {
    if op == Eq then Boolean(l == r)
    else if op == Neq then Boolean(l != r)
    else if op == Lt then Boolean(Less(l, r))
    else if op == Le then Boolean(Less(l, r) || l == r)
    else if op == Gt then Boolean(Less(r, l))
    else if op == Ge then Boolean(Less(r, l) || l == r)
    else if op == In then Boolean(r.List? && l in r.items)
    else if l.AsNumeric().Some? && r.AsNumeric().Some? then Arithmetic(op, l.AsNumeric().value, r.AsNumeric().value)
    else Null
  }

  /** Of two numeric values at least one comparison holds, unless they are one number written once as a number and once as a truth
      value: equality does not convert, ordering does. */
  lemma OrderedExactlyWhen(a: Value, b: Value)
    requires a.AsNumeric().Some? && b.AsNumeric().Some?
    ensures ApplyBinary(Le, a, b).IsTrue() || ApplyBinary(Ge, a, b).IsTrue() <==> a.Num? == b.Num? || a.AsNumeric() != b.AsNumeric()
    ensures ApplyBinary(Lt, a, b) == ApplyBinary(Gt, b, a) && ApplyBinary(Le, a, b) == ApplyBinary(Ge, b, a)
    ensures !(ApplyBinary(Lt, a, b).IsTrue() && ApplyBinary(Ge, a, b).IsTrue())
  {
  }

  function ApplyUnary(op: UnaryOp, v: Value): Value {
    match op
    case Not => if v.Boolean? then Boolean(!v.truth) else Null
    case Neg => if v.AsNumeric().Some? then Num(-v.AsNumeric().value) else Null
  }

  // ---- Built-in functions ----

  predicate AllNumbers(values: seq<Value>) {
    forall i :: 0 <= i < |values| ==> values[i].Num?
  }

  function SumOf(values: seq<Value>): real
    requires AllNumbers(values)
  {
    if values == [] then 0.0 else SumOf(values[..|values| - 1]) + values[|values| - 1].number
  }

  /** The largest of the numbers, and it is one of them. */
  function MaxOf(values: seq<Value>): (m: real)
    requires values != [] && AllNumbers(values)
    ensures Num(m) in values && forall v :: v in values ==> v.number <= m
  {
    var last := values[|values| - 1].number;
    if |values| == 1 then last
    else
      var rest := MaxOf(values[..|values| - 1]);
      assert values == values[..|values| - 1] + [values[|values| - 1]];
      if last > rest then last else rest
  }

  function MinOf(values: seq<Value>): (m: real)
    requires values != [] && AllNumbers(values)
    ensures Num(m) in values && forall v :: v in values ==> m <= v.number
  {
    var last := values[|values| - 1].number;
    if |values| == 1 then last
    else
      var rest := MinOf(values[..|values| - 1]);
      assert values == values[..|values| - 1] + [values[|values| - 1]];
      if last < rest then last else rest
  }

  /** What a built-in returns: Null for no operand where one is needed and for operands that are not numbers. */
  function Builtin(fn: BuiltinFn, values: seq<Value>): Value {
    match fn
    case Avg => if values != [] && AllNumbers(values) then Num(SumOf(values) / |values| as real) else Null
    case Count => Num(|values| as real)
    case Max => if values != [] && AllNumbers(values) then Num(MaxOf(values)) else Null
    case Min => if values != [] && AllNumbers(values) then Num(MinOf(values)) else Null
    case Sum => if AllNumbers(values) then Num(SumOf(values)) else Null
    case Len =>
      if values == [] then Num(0.0)
      else if values[0].Str? then Num(|values[0].text| as real)
      else if values[0].List? then Num(|values[0].items| as real)
      else Null
  }

  method AddUp(values: seq<Value>) returns (sum: Option<real>)
    ensures sum == if AllNumbers(values) then Some(SumOf(values)) else None
  {
    var total := 0.0;
    for i: nat := 0 to |values|
      invariant AllNumbers(values[..i]) && total == SumOf(values[..i])
    {
      if !values[i].Num? {
        return None;
      }
      assert values[..i + 1][..i] == values[..i];
      total := total + values[i].number;
    }
    assert values[..|values|] == values;
    sum := Some(total);
  }

  method Largest(values: seq<Value>) returns (v: Value)
    ensures v == Builtin(Max, values)
  {
    if values == [] || !values[0].Num? {
      return Null;
    }
    var m := values[0].number;
    assert values[..1] == [values[0]];
    for i: nat := 1 to |values|
      invariant AllNumbers(values[..i]) && m == MaxOf(values[..i])
    {
      if !values[i].Num? {
        return Null;
      }
      assert values[..i + 1][..i] == values[..i] && values[..i + 1][i] == values[i];
      if values[i].number > m {
        m := values[i].number;
      }
    }
    assert values[..|values|] == values;
    v := Num(m);
  }

  method Smallest(values: seq<Value>) returns (v: Value)
    ensures v == Builtin(Min, values)
  {
    if values == [] || !values[0].Num? {
      return Null;
    }
    var m := values[0].number;
    assert values[..1] == [values[0]];
    for i: nat := 1 to |values|
      invariant AllNumbers(values[..i]) && m == MinOf(values[..i])
    {
      if !values[i].Num? {
        return Null;
      }
      assert values[..i + 1][..i] == values[..i] && values[..i + 1][i] == values[i];
      if values[i].number < m {
        m := values[i].number;
      }
    }
    assert values[..|values|] == values;
    v := Num(m);
  }

  method CallBuiltin(fn: BuiltinFn, values: seq<Value>) returns (v: Value)
    ensures v == Builtin(fn, values)
  {
    match fn {
      case Avg =>
        if values == [] {
          return Null;
        }
        var sum := AddUp(values);
        v := if sum.Some? then Num(sum.value / |values| as real) else Null;
      case Sum =>
        var sum := AddUp(values);
        v := if sum.Some? then Num(sum.value) else Null;
      case Max =>
        v := Largest(values);
      case Min =>
        v := Smallest(values);
      case Count =>
        v := Num(|values| as real);
      case Len =>
        if values == [] {
          return Num(0.0);
        }
        if values[0].Str? {
          return Num(|values[0].text| as real);
        }
        v := if values[0].List? then Num(|values[0].items| as real) else Null;
    }
  }

  // ---- Plain evaluation: no cache ----

  datatype Facts = Facts(entries: map<string, Value>, pathMappings: map<string, string>)

  /** Every "->" of a path becomes a dot. */
  function Flatten(path: string): string {
    if path == [] then []
    else if |path| > 1 && path[0] == '-' && path[1] == '>' then ['.'] + Flatten(path[2..])
    else [path[0]] + Flatten(path[1..])
  }

  ghost predicate HasArrow(s: string) {
    exists i :: 0 <= i < |s| - 1 && s[i] == '-' && s[i + 1] == '>'
  }

  /** A flattened path holds no arrow, and a path without one is left alone. */
  lemma {:induction false} FlattenRemovesArrows(path: string)
    ensures !HasArrow(Flatten(path))
    ensures !HasArrow(path) ==> Flatten(path) == path
    ensures path != [] ==> Flatten(path) != [] && (Flatten(path)[0] == '>' ==> path[0] == '>')
  {
    if |path| > 1 && path[0] == '-' && path[1] == '>' {
      FlattenRemovesArrows(path[2..]);
    } else if path != [] {
      FlattenRemovesArrows(path[1..]);
      assert forall i :: 0 <= i < |path| - 1 ==> path[1..][i] == path[i + 1];
    }
  }

  /** The fact a path reads: its registered mapping, or the flattened path. */
  function FlatKey(path: string, pathMappings: map<string, string>): string {
    if path in pathMappings then pathMappings[path] else Flatten(path)
  }

  function Plain(e: Expr, facts: Facts): Result<Value>
    decreases e, |if e.Function? then e.args else []| + 1
  {
    match e
    case Literal(v) => Ok(v)
    case FieldRef(key) => if key in facts.entries then Ok(facts.entries[key]) else Err(FieldNotFound(key))
    case Path(path) =>
      var flat := FlatKey(path, facts.pathMappings);
      if flat in facts.entries then Ok(facts.entries[flat]) else Err(PathNotFound(flat))
    case Unary(op, operand, _) =>
      var v := Plain(operand, facts);
      if v.Err? then v else Ok(ApplyUnary(op, v.value))
    case Binary(op, lhs, rhs, _) =>
      var l := Plain(lhs, facts);
      if DecidedByLeft(op, l) then LeftDecides(op, l) else Combine(op, l.value, Plain(rhs, facts))
    case Function(fn, args, _) =>
      var values := PlainArgs(e, |args|, facts);
      if values.Err? then Err(values.error) else Ok(Builtin(fn, values.value))
  }

  /** The first n arguments, evaluated from left to right up to the first failure. */
  function PlainArgs(e: Expr, n: nat, facts: Facts): Result<seq<Value>>
    requires e.Function? && n <= |e.args|
    decreases e, n
  {
    if n == 0 then Ok([])
    else
      var before := PlainArgs(e, n - 1, facts);
      if before.Err? then before
      else
        var v := Plain(e.args[n - 1], facts);
        if v.Err? then Err(v.error) else Ok(before.value + [v.value])
  }

  /** The operands of a call are evaluated in order, each to one value; the first failing one decides. */
  lemma {:induction false} OperandsInOrder(e: Expr, n: nat, facts: Facts)
    requires e.Function? && n <= |e.args|
    ensures PlainArgs(e, n, facts).Ok? ==>
              && |PlainArgs(e, n, facts).value| == n
              && forall i :: 0 <= i < n ==> Plain(e.args[i], facts) == Ok(PlainArgs(e, n, facts).value[i])
    ensures PlainArgs(e, n, facts).Err? ==>
              exists k :: 0 <= k < n && Plain(e.args[k], facts) == Err(PlainArgs(e, n, facts).error)
                          && forall i :: 0 <= i < k ==> Plain(e.args[i], facts).Ok?
  {
    if n > 0 {
      OperandsInOrder(e, n - 1, facts);
    }
  }
}
