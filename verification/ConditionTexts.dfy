/** When the texts under which built conditions are cached tell them apart (src/rule/condition_builder.cpp). */
module ConditionTexts {
  import opened RuleExpression
  import opened MemoEvaluation
  import opened ConditionBuilder

  // ---- Words ----

  predicate IsBreak(c: char) {
    c == ' ' || c == '(' || c == ')'
  }

  /** Not empty, without a space or a parenthesis. */
  predicate Word(s: string) {
    s != "" && forall i :: 0 <= i < |s| ==> !IsBreak(s[i])
  }

  predicate Ended(rest: string) {
    rest == "" || IsBreak(rest[0])
  }

  /** The first break of such a text is where the word ends. */
  lemma BreakAfterWord(w: string, rest: string)
    requires Word(w) && Ended(rest)
    ensures forall i :: 0 <= i < |w| ==> !IsBreak((w + rest)[i])
    ensures |w| < |w + rest| ==> IsBreak((w + rest)[|w|])
  {
  }

  lemma WordsMatch(w: string, rest: string, w': string, rest': string)
    requires Word(w) && Word(w') && Ended(rest) && Ended(rest') && w + rest == w' + rest'
    ensures w == w' && rest == rest'
  {
    var text := w + rest;
    BreakAfterWord(w, rest);
    BreakAfterWord(w', rest');
    assert |w| <= |text| && |w'| <= |text| && |w| == |w'|;
    assert w == text[..|w|] && w' == text[..|w'|];
    assert rest == text[|w|..] && rest' == text[|w'|..];
  }

  // ---- Clean conditions ----

  function OpText(op: BinaryOp): string {
    match op
    case And => "and"
    case Or => "or"
    case Add => "add"
    case Sub => "sub"
    case Mul => "mul"
    case Div => "div"
    case Eq => "eq"
    case Neq => "neq"
    case Lt => "lt"
    case Le => "le"
    case Gt => "gt"
    case Ge => "ge"
    case In => "in"
  }

  lemma OpTexts(op: BinaryOp, text: string)
    ensures ParseBinaryOp(text).Some? && ParseBinaryOp(text).value == op ==> text == OpText(op)
    ensures ParseBinaryOp(OpText(op)).Some? && ParseBinaryOp(OpText(op)).value == op
    ensures Word(OpText(op))
  {
  }

  /** An operator between spaces, and what comes after it. */
  function OpThen(op: BinaryOp, more: string): string {
    " " + (OpText(op) + (" " + more))
  }

  lemma OpThenMatch(op: BinaryOp, more: string, op': BinaryOp, more': string)
    requires OpThen(op, more) == OpThen(op', more')
    ensures op == op' && more == more'
  {
    var a, b := OpText(op) + (" " + more), OpText(op') + (" " + more');
    assert a == (" " + a)[1..] && b == (" " + b)[1..];
    OpTexts(op, OpText(op'));
    OpTexts(op', OpText(op));
    WordsMatch(OpText(op), " " + more, OpText(op'), " " + more');
    assert more == (" " + more)[1..] && more' == (" " + more')[1..];
  }

  lemma OpThenConcat(op: BinaryOp, more: string, rest: string)
    ensures OpThen(op, more) + rest == OpThen(op, more + rest)
  {
    assert OpThen(op, more) + rest == " " + (OpText(op) + (" " + (more + rest)));
  }

  predicate IsJunction(e: Expr) {
    e.Binary? && (e.bop == And || e.bop == Or)
  }

  /** No negation; keys, paths and literals are words; comparisons are not called "and" or "or"; no bare literal in a junction. */
  predicate Clean(format: Format, e: Expr) {
    match e
    case FieldRef(key) => Word(key)
    case Path(path) => Word(path)
    case Binary(op, lhs, rhs, source) =>
      if op == And || op == Or then Clean(format, lhs) && Clean(format, rhs) && source == JunctionText(op, MemoText(lhs), MemoText(rhs))
      else (lhs.FieldRef? || lhs.Path?) && Word(MemoText(lhs)) && rhs.Literal? && Word(LiteralText(format, rhs.constant))
           && source == MemoText(lhs) + OpThen(op, LiteralText(format, rhs.constant))
    case _ => false
  }

  function JunctionText(op: BinaryOp, left: string, right: string): string {
    "(" + (left + OpThen(op, right + ")"))
  }

  predicate SamePrint(format: Format, a: Expr, b: Expr) {
    a.Literal? && b.Literal? && LiteralText(format, a.constant) == LiteralText(format, b.constant)
  }

  /** Literals that print alike are equal, and no field key is also a path. */
  ghost predicate Apart(format: Format, all: set<Expr>) {
    && (forall a, b :: a in all && b in all && SamePrint(format, a, b) ==> a == b)
    && (forall a, b :: a in all && b in all && a.FieldRef? && b.Path? ==> a.key != b.path)
  }

  // ---- Different clean conditions have different texts ----

  /** What follows a condition inside a text. */
  ghost predicate Follows(rest: string) {
    rest == "" || rest[0] == ')' || exists op, more :: (op == And || op == Or) && rest == OpThen(op, more)
  }

  lemma FirstCharacter(format: Format, e: Expr, rest: string)
    requires Clean(format, e)
    ensures MemoText(e) + rest != "" && (IsJunction(e) <==> (MemoText(e) + rest)[0] == '(')
  {
  }

  lemma ComparisonRest(format: Format, e: Expr, rest: string)
    requires Clean(format, e) && e.Binary? && !IsJunction(e)
    ensures MemoText(e) + rest == MemoText(e.lhs) + OpThen(e.bop, LiteralText(format, e.rhs.constant) + rest)
  {
    var text := LiteralText(format, e.rhs.constant);
    OpThenConcat(e.bop, text, rest);
    assert MemoText(e.lhs) + OpThen(e.bop, text) + rest == MemoText(e.lhs) + (OpThen(e.bop, text) + rest);
  }

  lemma JunctionRest(op: BinaryOp, left: string, right: string, rest: string)
    ensures (JunctionText(op, left, right) + rest)[1..] == left + OpThen(op, right + (")" + rest))
  {
    OpThenConcat(op, right + ")", rest);
    assert right + ")" + rest == right + (")" + rest);
    assert (JunctionText(op, left, right) + rest)[1..] == left + (OpThen(op, right + ")") + rest);
  }

  /** After its key, a comparison goes on with an operator that no junction uses. */
  lemma LeafIsNoComparison(op: BinaryOp, more: string, rest: string)
    requires op != And && op != Or && Follows(rest)
    ensures rest != OpThen(op, more)
  {
    if rest == OpThen(op, more) {
      var op2, more2 :| (op2 == And || op2 == Or) && rest == OpThen(op2, more2);
      OpThenMatch(op, more, op2, more2);
    }
  }

  predicate IsLeaf(e: Expr) {
    e.FieldRef? || e.Path?
  }

  function Parts(e: Expr): set<Expr> {
    match e
    case Binary(_, lhs, rhs, _) => {e} + Parts(lhs) + Parts(rhs)
    case _ => {e}
  }

  lemma PartOfItself(e: Expr)
    ensures e in Parts(e)
  {
  }

  lemma LeavesMatch(format: Format, all: set<Expr>, e: Expr, rest: string, e': Expr, rest': string)
    requires Apart(format, all) && e in all && e' in all && IsLeaf(e) && IsLeaf(e') && Word(MemoText(e)) && Word(MemoText(e'))
    requires Ended(rest) && Ended(rest') && MemoText(e) + rest == MemoText(e') + rest'
    ensures e == e' && rest == rest'
  {
    WordsMatch(MemoText(e), rest, MemoText(e'), rest');
  }

  lemma ComparisonsMatch(format: Format, all: set<Expr>, e: Expr, rest: string, e': Expr, rest': string)
    requires Apart(format, all) && Parts(e) <= all && Parts(e') <= all && Clean(format, e) && Clean(format, e')
    requires e.Binary? && e'.Binary? && !IsJunction(e) && !IsJunction(e') && Ended(rest) && Ended(rest')
    requires MemoText(e) + rest == MemoText(e') + rest'
    ensures e == e' && rest == rest'
  {
    PartOfItself(e.lhs);
    PartOfItself(e'.lhs);
    PartOfItself(e.rhs);
    PartOfItself(e'.rhs);
    var text, text' := LiteralText(format, e.rhs.constant), LiteralText(format, e'.rhs.constant);
    ComparisonRest(format, e, rest);
    ComparisonRest(format, e', rest');
    LeavesMatch(format, all, e.lhs, OpThen(e.bop, text + rest), e'.lhs, OpThen(e'.bop, text' + rest'));
    OpThenMatch(e.bop, text + rest, e'.bop, text' + rest');
    WordsMatch(text, rest, text', rest');
    assert SamePrint(format, e.rhs, e'.rhs);
  }

  lemma LeafMeetsComparison(format: Format, e: Expr, rest: string, e': Expr, rest': string)
    requires Clean(format, e) && Clean(format, e') && IsLeaf(e) && e'.Binary? && !IsJunction(e') && Follows(rest)
    ensures MemoText(e) + rest != MemoText(e') + rest'
  {
    var more := LiteralText(format, e'.rhs.constant) + rest';
    ComparisonRest(format, e', rest');
    LeafIsNoComparison(e'.bop, more, rest);
    if MemoText(e) + rest == MemoText(e'.lhs) + OpThen(e'.bop, more) {
      WordsMatch(MemoText(e), rest, MemoText(e'.lhs), OpThen(e'.bop, more));
    }
  }

  lemma JunctionParts(format: Format, all: set<Expr>, e: Expr)
    requires Parts(e) <= all && Clean(format, e) && IsJunction(e)
    ensures Clean(format, e.lhs) && Clean(format, e.rhs) && Parts(e.lhs) <= all && Parts(e.rhs) <= all
    ensures MemoText(e) == JunctionText(e.bop, MemoText(e.lhs), MemoText(e.rhs))
  {
  }

  lemma {:induction false} JunctionsMatch(format: Format, all: set<Expr>, e: Expr, rest: string, e': Expr, rest': string)
    requires Apart(format, all) && Parts(e) <= all && Parts(e') <= all && Clean(format, e) && Clean(format, e')
    requires IsJunction(e) && IsJunction(e') && MemoText(e) + rest == MemoText(e') + rest'
    ensures e == e' && rest == rest'
    decreases e, 0
  {
    var right, right' := MemoText(e.rhs) + (")" + rest), MemoText(e'.rhs) + (")" + rest');
    JunctionParts(format, all, e);
    JunctionParts(format, all, e');
    JunctionRest(e.bop, MemoText(e.lhs), MemoText(e.rhs), rest);
    JunctionRest(e'.bop, MemoText(e'.lhs), MemoText(e'.rhs), rest');
    Unambiguous(format, all, e.lhs, OpThen(e.bop, right), e'.lhs, OpThen(e'.bop, right'));
    OpThenMatch(e.bop, right, e'.bop, right');
    Unambiguous(format, all, e.rhs, ")" + rest, e'.rhs, ")" + rest');
    assert rest == (")" + rest)[1..] && rest' == (")" + rest')[1..];
  }

  /** A text can be read in one way only: two clean conditions at the beginning of one text are the same condition. */
  lemma {:induction false} Unambiguous(format: Format, all: set<Expr>, e: Expr, rest: string, e': Expr, rest': string)
    requires Apart(format, all) && Parts(e) <= all && Parts(e') <= all && Clean(format, e) && Clean(format, e')
    requires Follows(rest) && Follows(rest') && MemoText(e) + rest == MemoText(e') + rest'
    ensures e == e' && rest == rest'
    decreases e, 1
  {
    FirstCharacter(format, e, rest);
    FirstCharacter(format, e', rest');
    if IsJunction(e) {
      JunctionsMatch(format, all, e, rest, e', rest');
    } else if IsLeaf(e) && IsLeaf(e') {
      LeavesMatch(format, all, e, rest, e', rest');
    } else if e.Binary? && e'.Binary? {
      ComparisonsMatch(format, all, e, rest, e', rest');
    } else if IsLeaf(e) {
      LeafMeetsComparison(format, e, rest, e', rest');
    } else {
      LeafMeetsComparison(format, e', rest', e, rest);
    }
  }

  // ---- So the cache is harmless for conditions built from clean nodes ----

  /** Clean conditions with all their parts; bare literals are not cached. */
  ghost predicate CleanSet(format: Format, all: set<Expr>) {
    forall e :: e in all ==> (e.Literal? || Clean(format, e)) && Parts(e) <= all
  }

  /** Equal texts mean equal conditions, so whatever the facts, texts are coherent. */
  lemma CleanIsCoherent(format: Format, all: set<Expr>, facts: Facts)
    requires CleanSet(format, all) && Apart(format, all)
    ensures Closed(all) && Coherent(all, facts)
  {
    forall a, b | a in all && b in all && MemoText(a) == MemoText(b) != ""
      ensures a == b
    {
      assert MemoText(a) + "" == MemoText(b) + "";
      Unambiguous(format, all, a, "", b, "");
    }
    forall e | e in all
      ensures HoldsParts(all, e)
    {
      if e.Binary? {
        PartOfItself(e.lhs);
        PartOfItself(e.rhs);
      }
    }
  }

  predicate BareLiteral(b: Built) {
    b.Built? && b.expr.Literal?
  }

  predicate NodeWord(node: Node) {
    node.Scalar? ==> Word(node.text)
  }

  /** The same on parsed conditions: no "not"; the keys, paths and printed literals of comparisons are words; operators are not "and" or
      "or"; no part of a list of several is a bare literal. */
  predicate CleanNode(format: Format, node: Node) {
    match node
    case Map(field, path, op, val, conj, disj, neg) =>
      if !field.Undefined? || !path.Undefined? then
        NodeWord(field) && NodeWord(path)
        && (op.Scalar? ==> op.text != "and" && op.text != "or")
        && (val.Scalar? ==> Word(LiteralText(format, LiteralValue(format, val.text))))
      else if !conj.Undefined? then CleanList(format, conj)
      else if !disj.Undefined? then CleanList(format, disj)
      else neg.Undefined?
    case _ => true
  }

  predicate CleanList(format: Format, list: Node) {
    list.Sequence? ==>
      forall i :: 0 <= i < |list.items| ==>
        CleanNode(format, list.items[i]) && (|list.items| > 1 ==> !BareLiteral(Build(format, list.items[i])))
  }

  ghost predicate CleanOrLiteral(format: Format, b: Built) {
    b.Built? ==> b.expr.Literal? || Clean(format, b.expr)
  }

  lemma ComparisonTextIs(left: string, op: string, right: string)
    ensures left + " " + op + " " + right == left + (" " + (op + (" " + right)))
  {
  }

  lemma ComparisonIsClean(format: Format, node: Node)
    requires node.Map? && (!node.field.Undefined? || !node.path.Undefined?) && CleanNode(format, node)
    ensures CleanOrLiteral(format, BuildComparison(format, node)) && !BareLiteral(BuildComparison(format, node))
  {
    var b := BuildComparison(format, node);
    if b.Built? && b.expr.Binary? {
      OpTexts(b.expr.bop, node.op.text);
      OpTexts(And, node.op.text);
      OpTexts(Or, node.op.text);
      ComparisonTextIs(MemoText(b.expr.lhs), node.op.text, LiteralText(format, b.expr.rhs.constant));
    }
  }

  lemma JunctionTextIs(left: string, right: string)
    ensures "(" + left + " and " + right + ")" == JunctionText(And, left, right)
    ensures "(" + left + " or " + right + ")" == JunctionText(Or, left, right)
  {
    assert " and " == " " + ("and" + " ") && " or " == " " + ("or" + " ");
    assert OpThen(And, right + ")") == " and " + (right + ")");
    assert OpThen(Or, right + ")") == " or " + (right + ")");
  }

  lemma NotALiteral(format: Format, e: Expr)
    requires Clean(format, e)
    ensures !e.Literal? && SourceText(format, e) == MemoText(e)
  {
  }

  lemma JunctionIsClean(format: Format, op: BinaryOp, left: Expr, right: Expr)
    requires (op == And || op == Or) && Clean(format, left) && Clean(format, right)
    ensures Clean(format, Junction(format, op, left, right))
  {
    NotALiteral(format, left);
    NotALiteral(format, right);
    JunctionTextIs(MemoText(left), MemoText(right));
    assert Junction(format, op, left, right) == Binary(op, left, right, JunctionText(op, MemoText(left), MemoText(right)));
  }

  lemma {:induction false} ListIsClean(format: Format, op: BinaryOp, list: Node, n: nat)
    requires (op == And || op == Or) && list.Sequence? && CleanList(format, list) && 0 < n <= |list.items|
    ensures CleanOrLiteral(format, BuildFirst(format, op, list, n))
    ensures |list.items| > 1 ==> !BareLiteral(BuildFirst(format, op, list, n))
    decreases list, n
  {
    BuiltIsClean(format, list.items[n - 1]);
    if n > 1 {
      ListIsClean(format, op, list, n - 1);
      var b := BuildFirst(format, op, list, n);
      if b.Built? {
        JunctionIsClean(format, op, BuildFirst(format, op, list, n - 1).expr, Build(format, list.items[n - 1]).expr);
      }
    }
  }

  lemma {:induction false} BuiltIsClean(format: Format, node: Node)
    requires CleanNode(format, node)
    ensures CleanOrLiteral(format, Build(format, node))
    decreases node, 0
  {
    if node.Map? {
      if !node.field.Undefined? || !node.path.Undefined? {
        ComparisonIsClean(format, node);
      } else if node.conj.Sequence? && node.conj.items != [] {
        ListIsClean(format, And, node.conj, |node.conj.items|);
      } else if node.conj.Undefined? && node.disj.Sequence? && node.disj.items != [] {
        ListIsClean(format, Or, node.disj, |node.disj.items|);
      }
    }
  }

  /** All parts of all conditions built from these nodes. */
  function AllParts(format: Format, nodes: seq<Node>): set<Expr> {
    if nodes == [] then {}
    else
      var b := Build(format, nodes[|nodes| - 1]);
      AllParts(format, nodes[..|nodes| - 1]) + if b.Built? then Parts(b.expr) else {}
  }

  lemma {:induction false} PartsAreClean(format: Format, e: Expr)
    requires e.Literal? || Clean(format, e)
    ensures CleanSet(format, Parts(e))
  {
    if e.Binary? {
      PartsAreClean(format, e.lhs);
      PartsAreClean(format, e.rhs);
    }
  }

  lemma {:induction false} AllPartsAreClean(format: Format, nodes: seq<Node>)
    requires forall i :: 0 <= i < |nodes| ==> CleanNode(format, nodes[i])
    ensures CleanSet(format, AllParts(format, nodes))
  {
    if nodes != [] {
      var b := Build(format, nodes[|nodes| - 1]);
      AllPartsAreClean(format, nodes[..|nodes| - 1]);
      BuiltIsClean(format, nodes[|nodes| - 1]);
      if b.Built? {
        PartsAreClean(format, b.expr);
      }
    }
  }

  /** Conditions built from clean nodes can be cached: if literals that print alike are equal and no field key is also a path, every
      evaluation through a sound cache gives the plain value. */
  lemma BuiltConditionsAreCoherent(format: Format, nodes: seq<Node>, facts: Facts)
    requires forall i :: 0 <= i < |nodes| ==> CleanNode(format, nodes[i])
    requires Apart(format, AllParts(format, nodes))
    ensures Closed(AllParts(format, nodes)) && Coherent(AllParts(format, nodes), facts)
  {
    AllPartsAreClean(format, nodes);
    CleanIsCoherent(format, AllParts(format, nodes), facts);
  }
}
