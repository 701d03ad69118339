/** Expressions built from parsed condition nodes (src/rule/condition_builder.cpp). Number parsing and printing are parameters. */
module ConditionBuilder {
  import opened Basics
  import opened RuleExpression
  import opened MemoEvaluation

  /** A parsed node; a map carries the keys the builder looks at, Undefined where one is missing. */
  datatype Node =
    | Undefined
    | NullNode
    | Scalar(text: string)
    | Sequence(items: seq<Node>)
    | Map(field: Node, path: Node, op: Node, val: Node, conj: Node, disj: Node, neg: Node)

  /** Number formats: reading decimals and integers, and printing with six decimals. */
  datatype Format = Format(readReal: string -> Option<real>, readInt: string -> Option<int>, show: real -> string)

  /** NullOperand stands for the null pointer the builder would go on with. */
  datatype Built = NoCondition | Built(expr: Expr) | Malformed | NullOperand
  {
    predicate Failed() {
      Malformed? || NullOperand?
    }
  }

  function ParseBinaryOp(text: string): Option<BinaryOp> {
    if text == "and" then Some(And)
    else if text == "or" then Some(Or)
    else if text == "add" then Some(Add)
    else if text == "sub" then Some(Sub)
    else if text == "mul" then Some(Mul)
    else if text == "div" then Some(Div)
    else if text == "eq" then Some(Eq)
    else if text == "neq" then Some(Neq)
    else if text == "lt" then Some(Lt)
    else if text == "le" then Some(Le)
    else if text == "gt" then Some(Gt)
    else if text == "ge" then Some(Ge)
    else if text == "in" then Some(In)
    else None
  }

  predicate LooksLikeInteger(text: string) {
    forall i :: 0 <= i < |text| ==> '0' <= text[i] <= '9' || text[i] == '-'
  }

  function LiteralValue(format: Format, text: string): Value {
    if text == "true" || text == "false" then Boolean(text == "true")
    else if '.' in text then
      var number := (format.readReal)(text);
      if number.Some? then Num(number.value) else Str(text)
    else if LooksLikeInteger(text) then
      var number := (format.readInt)(text);
      if number.Some? then Num(number.value as real) else Str(text)
    else Str(text)
  }

  /** Digits are read as an integer, a text with a dot as a decimal number, one with a letter as a string; truth values are recognised
      by their text, and no literal is a list. */
  lemma LiteralKinds(format: Format, text: string, x: real, n: int)
    ensures LiteralValue(format, "true") == Boolean(true) && LiteralValue(format, "false") == Boolean(false)
    ensures (exists k :: 0 <= k < |text| && text[k] == '.') && (format.readReal)(text) == Some(x) ==> LiteralValue(format, text) == Num(x)
    ensures (forall k :: 0 <= k < |text| ==> '0' <= text[k] <= '9') && (format.readInt)(text) == Some(n) ==> LiteralValue(format, text) == Num(n as real)
    ensures (exists k :: 0 <= k < |text| && 'a' <= text[k] <= 'z') && '.' !in text && text != "true" && text != "false" ==>
              LiteralValue(format, text) == Str(text)
    ensures !LiteralValue(format, text).List?
  {
    if (exists k :: 0 <= k < |text| && text[k] == '.') && (format.readReal)(text) == Some(x) {
      assert '.' in text && text != "true" && text != "false";
    }
    if (forall k :: 0 <= k < |text| ==> '0' <= text[k] <= '9') && text != "" {
      assert text[0] != 't' && text[0] != 'f';
    }
  }

  function LiteralText(format: Format, v: Value): string {
    if v.Num? then (format.show)(v.number)
    else if v.Str? then v.text
    else if v.Boolean? then (if v.truth then "true" else "false")
    else "null"
  }

  function SourceText(format: Format, e: Expr): string {
    if e.Literal? then LiteralText(format, e.constant) else MemoText(e)
  }

  function BuildLiteral(format: Format, node: Node): Built {
    if node.Scalar? then Built(Literal(LiteralValue(format, node.text))) else Malformed
  }

  function BuildComparison(format: Format, node: Node): Built
    requires node.Map?
  {
    if !node.field.Scalar? && !node.path.Scalar? then Malformed
    else
      var lhs := if node.field.Scalar? then FieldRef(node.field.text) else Path(node.path.text);
      if node.op.Undefined? && node.val.Undefined? then Built(lhs)
      else if !node.op.Scalar? || ParseBinaryOp(node.op.text).None? then Malformed
      else
        var literal := BuildLiteral(format, node.val);
        if literal.Malformed? then Malformed
        else
          var source := MemoText(lhs) + " " + node.op.text + " " + SourceText(format, literal.expr);
          Built(Binary(ParseBinaryOp(node.op.text).value, lhs, literal.expr, source))
  }

  function Junction(format: Format, op: BinaryOp, left: Expr, right: Expr): Expr {
    Binary(op, left, right,
           "(" + SourceText(format, left) + (if op == And then " and " else " or ") + SourceText(format, right) + ")")
  }

  /** Joins an already built left side with the next part. */
  function JoinBuilt(format: Format, op: BinaryOp, left: Built, right: Built): Built {
    if left.Failed() then left
    else if right.Failed() then right
    else if left.NoCondition? || right.NoCondition? then NullOperand
    else Built(Junction(format, op, left.expr, right.expr))
  }

  function Build(format: Format, node: Node): Built
    decreases node, 0
  {
    match node
    case Undefined => NoCondition
    case NullNode => NoCondition
    case Scalar(_) => BuildLiteral(format, node)
    case Sequence(_) => Malformed
    case Map(field, path, _, val, conj, disj, neg) =>
      if !field.Undefined? || !path.Undefined? then BuildComparison(format, node)
      else if !conj.Undefined? then
        (if conj.Sequence? && conj.items != [] then BuildFirst(format, And, conj, |conj.items|) else Malformed)
      else if !disj.Undefined? then
        (if disj.Sequence? && disj.items != [] then BuildFirst(format, Or, disj, |disj.items|) else Malformed)
      else if !neg.Undefined? then
        var operand := Build(format, neg);
        if operand.Failed() then operand
        else if operand.NoCondition? then NullOperand
        else Built(Unary(Not, operand.expr, "not"))
      else if !val.Undefined? then BuildLiteral(format, val)
      else Malformed
  }

  /** The left fold of the first n items. */
  function BuildFirst(format: Format, op: BinaryOp, list: Node, n: nat): Built
    requires list.Sequence? && 0 < n <= |list.items|
    decreases list, n
  {
    if n == 1 then Build(format, list.items[0])
    else
      var left := BuildFirst(format, op, list, n - 1);
      if left.Failed() then left else JoinBuilt(format, op, left, Build(format, list.items[n - 1]))
  }

  lemma {:induction false} FailureStops(format: Format, op: BinaryOp, list: Node, m: nat, n: nat)
    requires list.Sequence? && 0 < m <= n <= |list.items| && BuildFirst(format, op, list, m).Failed()
    ensures BuildFirst(format, op, list, n) == BuildFirst(format, op, list, m)
  {
    if m < n {
      FailureStops(format, op, list, m, n - 1);
    }
  }

  /** Truth values and numbers are recognised by their text; what does not parse stays a string. */
  method ReadLiteral(format: Format, text: string) returns (v: Value)
    ensures v == LiteralValue(format, text)
  {
    if text == "true" || text == "false" {
      return Boolean(text == "true");
    }
    if '.' in text {
      var decimal := (format.readReal)(text);
      return if decimal.Some? then Num(decimal.value) else Str(text);
    }
    if LooksLikeInteger(text) {
      var integer := (format.readInt)(text);
      return if integer.Some? then Num(integer.value as real) else Str(text);
    }
    v := Str(text);
  }

  method LiteralFrom(format: Format, node: Node) returns (b: Built)
    ensures b == BuildLiteral(format, node)
  {
    if !node.Scalar? {
      return Malformed;
    }
    var v := ReadLiteral(format, node.text);
    b := Built(Literal(v));
  }

  /** A field or path alone, or compared with a literal; the field wins when both are given. */
  method ComparisonFrom(format: Format, node: Node) returns (b: Built)
    requires node.Map?
    ensures b == BuildComparison(format, node)
  {
    var lhs, text;
    if node.field.Scalar? {
      lhs, text := FieldRef(node.field.text), node.field.text;
    } else if node.path.Scalar? {
      lhs, text := Path(node.path.text), node.path.text;
    } else {
      return Malformed;
    }
    if node.op.Undefined? && node.val.Undefined? {
      return Built(lhs);
    }
    if !node.op.Scalar? {
      return Malformed;
    }
    var op := ParseBinaryOp(node.op.text);
    if op.None? {
      return Malformed;
    }
    var literal := LiteralFrom(format, node.val);
    if literal.Malformed? {
      return Malformed;
    }
    b := Built(Binary(op.value, lhs, literal.expr, text + " " + node.op.text + " " + LiteralText(format, literal.expr.constant)));
  }

  method BuildExpression(format: Format, node: Node) returns (b: Built)
    ensures b == Build(format, node)
    decreases node, 1
  {
    if node.Undefined? || node.NullNode? {
      return NoCondition;
    }
    if node.Scalar? {
      b := LiteralFrom(format, node);
      return;
    }
    if !node.Map? {
      return Malformed;
    }
    if !node.field.Undefined? || !node.path.Undefined? {
      b := ComparisonFrom(format, node);
      return;
    }
    if !node.conj.Undefined? {
      if !node.conj.Sequence? || node.conj.items == [] {
        return Malformed;
      }
      b := BuildJunction(format, And, node.conj);
      return;
    }
    if !node.disj.Undefined? {
      if !node.disj.Sequence? || node.disj.items == [] {
        return Malformed;
      }
      b := BuildJunction(format, Or, node.disj);
      return;
    }
    if !node.neg.Undefined? {
      var operand := BuildExpression(format, node.neg);
      if operand.Failed() {
        return operand;
      }
      return if operand.NoCondition? then NullOperand else Built(Unary(Not, operand.expr, "not"));
    }
    if !node.val.Undefined? {
      b := LiteralFrom(format, node.val);
      return;
    }
    b := Malformed;
  }

  method BuildJunction(format: Format, op: BinaryOp, list: Node) returns (b: Built)
    requires list.Sequence? && list.items != []
    ensures b == BuildFirst(format, op, list, |list.items|)
    decreases list, 2
  {
    b := BuildExpression(format, list.items[0]);
    if b.Failed() {
      FailureStops(format, op, list, 1, |list.items|);
      return;
    }
    for i: nat := 1 to |list.items|
      invariant !b.Failed() && b == BuildFirst(format, op, list, i)
    {
      var right := BuildExpression(format, list.items[i]);
      b := JoinBuilt(format, op, b, right);
      if b.Failed() {
        FailureStops(format, op, list, i + 1, |list.items|);
        return;
      }
    }
  }

  // ---- What a junction means ----

  /** Left to right: the first failure or non-true part decides; otherwise true. */
  ghost function AllTrue(parts: seq<Expr>, facts: Facts): Result<Value> {
    if parts == [] then Ok(Boolean(true))
    else
      var v := Plain(parts[0], facts);
      if v.Err? then v else if !v.value.IsTrue() then Ok(Boolean(false)) else AllTrue(parts[1..], facts)
  }

  /** Left to right: the first failure or true part decides; otherwise false. */
  ghost function AnyTrue(parts: seq<Expr>, facts: Facts): Result<Value> {
    if parts == [] then Ok(Boolean(false))
    else
      var v := Plain(parts[0], facts);
      if v.Err? then v else if v.value.IsTrue() then Ok(Boolean(true)) else AnyTrue(parts[1..], facts)
  }

  /** The built parts of a list without failures and empty conditions. */
  ghost predicate AreParts(format: Format, list: Node, parts: seq<Expr>) {
    list.Sequence? && |parts| == |list.items| && forall i :: 0 <= i < |parts| ==> Build(format, list.items[i]) == Built(parts[i])
  }

  lemma {:induction false} AllTrueLast(parts: seq<Expr>, facts: Facts)
    requires parts != []
    ensures var before := AllTrue(parts[..|parts| - 1], facts); var v := Plain(parts[|parts| - 1], facts);
            AllTrue(parts, facts) == if before.Err? || !before.value.IsTrue() then before else if v.Err? then v else Ok(Boolean(v.value.IsTrue()))
  {
    if |parts| > 1 {
      AllTrueLast(parts[1..], facts);
      assert parts[1..][..|parts| - 2] == parts[..|parts| - 1][1..];
    } else {
      assert parts[1..] == [] && parts[..0] == [];
    }
  }

  lemma {:induction false} AnyTrueLast(parts: seq<Expr>, facts: Facts)
    requires parts != []
    ensures var before := AnyTrue(parts[..|parts| - 1], facts); var v := Plain(parts[|parts| - 1], facts);
            AnyTrue(parts, facts) == if before.Err? || before.value.IsTrue() then before else if v.Err? then v else Ok(Boolean(v.value.IsTrue()))
  {
    if |parts| > 1 {
      AnyTrueLast(parts[1..], facts);
      assert parts[1..][..|parts| - 2] == parts[..|parts| - 1][1..];
    } else {
      assert parts[1..] == [] && parts[..0] == [];
    }
  }

  lemma {:induction false} AllTrueIsBoolean(parts: seq<Expr>, facts: Facts)
    ensures AllTrue(parts, facts).Ok? ==> AllTrue(parts, facts).value.Boolean?
    ensures AnyTrue(parts, facts).Ok? ==> AnyTrue(parts, facts).value.Boolean?
  {
    if parts != [] {
      AllTrueIsBoolean(parts[1..], facts);
    }
  }

  /** What the fold of the first n parts evaluates to; a single part keeps its own value. */
  ghost function JunctionValue(op: BinaryOp, parts: seq<Expr>, facts: Facts): Result<Value>
    requires parts != []
  {
    if |parts| == 1 then Plain(parts[0], facts) else if op == And then AllTrue(parts, facts) else AnyTrue(parts, facts)
  }

  lemma JunctionStep(format: Format, op: BinaryOp, left: Expr, parts: seq<Expr>, facts: Facts)
    requires (op == And || op == Or) && |parts| > 1
    requires Plain(left, facts) == JunctionValue(op, parts[..|parts| - 1], facts)
    ensures Plain(Junction(format, op, left, parts[|parts| - 1]), facts) == JunctionValue(op, parts, facts)
  {
    var before := parts[..|parts| - 1];
    AllTrueLast(parts, facts);
    AnyTrueLast(parts, facts);
    AllTrueIsBoolean(before, facts);
    if |before| == 1 {
      assert before[1..] == [];
    }
  }

  lemma {:induction false} FirstEvaluates(format: Format, op: BinaryOp, list: Node, parts: seq<Expr>, n: nat, facts: Facts)
    requires (op == And || op == Or) && AreParts(format, list, parts) && 0 < n <= |parts|
    ensures BuildFirst(format, op, list, n).Built?
    ensures Plain(BuildFirst(format, op, list, n).expr, facts) == JunctionValue(op, parts[..n], facts)
  {
    if n == 1 {
      assert BuildFirst(format, op, list, 1) == Built(parts[..1][0]);
    } else {
      FirstEvaluates(format, op, list, parts, n - 1, facts);
      var left, front := BuildFirst(format, op, list, n - 1).expr, parts[..n];
      FoldOneMore(format, op, list, parts, n);
      assert front[..|front| - 1] == parts[..n - 1] && front[|front| - 1] == parts[n - 1];
      JunctionStep(format, op, left, front, facts);
    }
  }

  lemma FoldOneMore(format: Format, op: BinaryOp, list: Node, parts: seq<Expr>, n: nat)
    requires AreParts(format, list, parts) && 1 < n <= |parts| && BuildFirst(format, op, list, n - 1).Built?
    ensures BuildFirst(format, op, list, n) == Built(Junction(format, op, BuildFirst(format, op, list, n - 1).expr, parts[n - 1]))
  {
    assert Build(format, list.items[n - 1]) == Built(parts[n - 1]);
  }

  /** The nested expression built for an and-list decides as reading the list from left to right does. */
  lemma AndReadsLeftToRight(format: Format, node: Node, parts: seq<Expr>, facts: Facts)
    requires node.Map? && node.field.Undefined? && node.path.Undefined?
    requires AreParts(format, node.conj, parts) && |parts| > 1
    ensures Build(format, node).Built? && Plain(Build(format, node).expr, facts) == AllTrue(parts, facts)
  {
    FirstEvaluates(format, And, node.conj, parts, |parts|, facts);
    assert parts[..|parts|] == parts;
    assert Build(format, node) == BuildFirst(format, And, node.conj, |parts|);
  }

  lemma OrReadsLeftToRight(format: Format, node: Node, parts: seq<Expr>, facts: Facts)
    requires node.Map? && node.field.Undefined? && node.path.Undefined? && node.conj.Undefined?
    requires AreParts(format, node.disj, parts) && |parts| > 1
    ensures Build(format, node).Built? && Plain(Build(format, node).expr, facts) == AnyTrue(parts, facts)
  {
    FirstEvaluates(format, Or, node.disj, parts, |parts|, facts);
    assert parts[..|parts|] == parts;
    assert Build(format, node) == BuildFirst(format, Or, node.disj, |parts|);
  }

  /** A negated condition is true exactly when its operand is false, and Null when that is not a truth value. */
  lemma NotReverses(format: Format, node: Node, facts: Facts, operand: Expr)
    requires node.Map? && node.field.Undefined? && node.path.Undefined? && node.conj.Undefined? && node.disj.Undefined?
    requires !node.neg.Undefined? && Build(format, node.neg) == Built(operand)
    ensures Build(format, node).Built?
    ensures var v := Plain(operand, facts);
            Plain(Build(format, node).expr, facts)
            == if v == Ok(Boolean(true)) then Ok(Boolean(false)) else if v == Ok(Boolean(false)) then Ok(Boolean(true)) else if v.Ok? then Ok(Null) else v
  {
    assert Build(format, node) == Built(Unary(Not, operand, "not"));
  }

  // ---- The text of a negation does not name its operand ----

  function NotField(key: string): Node {
    var operand := Map(Scalar(key), Undefined, Undefined, Undefined, Undefined, Undefined, Undefined);
    Map(Undefined, Undefined, Undefined, Undefined, Undefined, Undefined, operand)
  }

  lemma MemoKeyIsLong(hash: string -> nat, text: string)
    ensures |MemoKey(hash, text)| > 8
  {
  }

  /** After "not a" has been evaluated, "not b" returns its cached value although b differs from a. */
  lemma SecondNegationReturnsTheFirst(format: Format, hash: string -> nat)
    ensures var facts := Facts(map["a" := Boolean(true), "b" := Boolean(false)], map[]);
            var first, second := Build(format, NotField("a")), Build(format, NotField("b"));
            && first.Built? && second.Built?
            && Plain(second.expr, facts) == Ok(Boolean(true))
            && Memo(hash, second.expr, Memo(hash, first.expr, facts).facts).result == Ok(Boolean(false))
  {
    var facts := Facts(map["a" := Boolean(true), "b" := Boolean(false)], map[]);
    var a, b := FieldRef("a"), FieldRef("b");
    assert Build(format, NotField("a")) == Built(Unary(Not, a, "not"));
    assert Build(format, NotField("b")) == Built(Unary(Not, b, "not"));
    MemoKeyIsLong(hash, "not");
    MemoKeyIsLong(hash, "a");
    assert Memo(hash, a, facts) == Step(Ok(Boolean(true)), Store(facts, MemoKey(hash, "a"), Boolean(true)));
    var first := Unary(Not, a, "not");
    assert Memo(hash, first, facts).facts.entries[MemoKey(hash, "not")] == Boolean(false);
  }

  // ---- Nor does the text of a comparison name its number exactly ----

  function Threshold(key: string, number: string): Node {
    Map(Scalar(key), Undefined, Scalar("gt"), Scalar(number), Undefined, Undefined, Undefined)
  }

  /** Two thresholds that print alike share a memo text; for a value between them the second comparison returns the first's result. */
  lemma CloseThresholdsShareText(format: Format, hash: string -> nat, key: string, low: string, high: string, a: real, b: real, x: real)
    requires 0 < |key| <= 8 && LiteralValue(format, low) == Num(a) && LiteralValue(format, high) == Num(b)
    requires a < x <= b && (format.show)(a) == (format.show)(b)
    ensures var facts := Facts(map[key := Num(x)], map[]);
            var first, second := Build(format, Threshold(key, low)), Build(format, Threshold(key, high));
            && first.Built? && second.Built?
            && Plain(second.expr, facts) == Ok(Boolean(false))
            && Memo(hash, second.expr, Memo(hash, first.expr, facts).facts).result == Ok(Boolean(true))
  {
    var facts := Facts(map[key := Num(x)], map[]);
    var text := ThresholdText(key, (format.show)(a));
    var first, second := AboveNumber(key, a, text), AboveNumber(key, b, text);
    ThresholdBuilds(format, key, low, a);
    ThresholdBuilds(format, key, high, b);
    FreshThreshold(hash, key, a, text, x);
    SameTextSameResult(hash, facts, first, second);
    PlainThreshold(key, b, text, x);
  }

  lemma PlainThreshold(key: string, a: real, text: string, x: real)
    ensures Plain(AboveNumber(key, a, text), Facts(map[key := Num(x)], map[])) == Ok(Boolean(a < x))
  {
    var facts := Facts(map[key := Num(x)], map[]);
    assert Plain(FieldRef(key), facts) == Ok(Num(x)) && Plain(Literal(Num(a)), facts) == Ok(Num(a));
  }

  function ThresholdText(key: string, number: string): string {
    key + " " + "gt" + " " + number
  }

  function AboveNumber(key: string, number: real, text: string): Expr {
    Binary(Gt, FieldRef(key), Literal(Num(number)), text)
  }

  lemma ThresholdBuilds(format: Format, key: string, number: string, value: real)
    requires LiteralValue(format, number) == Num(value)
    ensures Build(format, Threshold(key, number)) == Built(AboveNumber(key, value, ThresholdText(key, (format.show)(value))))
  {
  }

  lemma FreshThreshold(hash: string -> nat, key: string, a: real, text: string, x: real)
    requires 0 < |key| <= 8 && text != ""
    ensures Memo(hash, AboveNumber(key, a, text), Facts(map[key := Num(x)], map[])).result == Ok(Boolean(a < x))
  {
    var facts := Facts(map[key := Num(x)], map[]);
    MemoKeyIsLong(hash, text);
    MemoKeyIsLong(hash, key);
    assert MemoKey(hash, key) !in facts.entries && MemoKey(hash, text) !in facts.entries;
    var left := Memo(hash, FieldRef(key), facts);
    assert Compute(hash, FieldRef(key), facts) == Step(Ok(Num(x)), facts);
    assert left.result == Ok(Num(x));
    LiteralIsItself(hash, Num(a), left.facts);
    BothSidesCombine(hash, AboveNumber(key, a, text), facts, Num(x), Num(a));
  }
}
