/**
 * The first version of the calculator (main.cpp): the identifier-free
 * grammar and the evaluator without a variable store. The REPL around
 * them is not part of this model.
 */
module Calculator {
  import opened Wrappers
  import opened CInt
  import opened Tree
  import opened Grammar

  /**
   * main.cpp's `grammar`: `must<expression, eof>` over the rules without
   * identifiers; the `expression` node is rewritten, and so is the
   * `grammar` node, which then gives way to its only child.
   */
  function ParseArithmetic(s: string): (r: Option<Node>)
    ensures r.Some? <==>
      ParseExpression(Expression, false, s, 0).Some? && ParseExpression(Expression, false, s, 0).value.end == |s|
    ensures r.Some? ==> r.value.kind == Root && |r.value.children| == 1
    ensures r.Some? ==> IsExpr(r.value.children[0], false)
    ensures r.Some? ==> r.value == Node(Root, "", [ParseExpression(Expression, false, s, 0).value.node])
  {
    match ParseExpression(Expression, false, s, 0)
    case None => None
    case Some(e) =>
      if e.end != |s| then None
      else
        var n := Node(Kind.Grammar, s, [e.node]);
        TransformSingle(n, e.node);
        Some(Node(Root, "", [Transform(n)]))
  }

  /**
   * main.cpp's `evaluate`: skip the root, read integer leaves, combine the
   * two operands of `+ - * /`; a zero divisor and every other shape give 0.
   */
  function EvaluateArithmetic(n: Node): int
    requires Wf(n)
    decreases n
  {
    if n.kind == Root then EvaluateArithmetic(n.children[0])
    else if n.children == [] then
      if n.kind == Integer then Literal(n) else 0
    else if |n.children| == 2 then
      Apply(n.kind, EvaluateArithmetic(n.children[0]), EvaluateArithmetic(n.children[1]))
    else 0
  }

  /** `l op r` for the four operators, with the evaluator's 0 for a zero divisor. */
  function Apply(op: Kind, l: int, r: int): int {
    match op
    case Plus => l + r
    case Minus => l - r
    case Multiply => l * r
    case Divide => if r == 0 then 0 else CDiv(l, r)
    case _ => 0
  }

  /** The value of a chain `v op1 x1 … opN xN` read strictly from left to right. */
  function ChainValue(v: int, rest: seq<Node>): int
    requires |rest| % 2 == 0
    requires forall k | 0 <= k < |rest| && k % 2 == 1 :: Wf(rest[k])
    decreases |rest|
  {
    if rest == [] then v
    else ChainValue(Apply(rest[0].kind, v, EvaluateArithmetic(rest[1])), rest[2..])
  }

  /**
   * Left associativity: the tree `Transform` builds for a chain of
   * arithmetic operators evaluates as the chain read from left to right,
   * so `10 - 3 - 2` is `(10 - 3) - 2`.
   */
  lemma {:induction false} LeftNestEvaluatesLeftToRight(acc: Node, rest: seq<Node>)
    requires |rest| % 2 == 0 && Wf(acc)
    requires forall k | 0 <= k < |rest| && k % 2 == 0 :: rest[k].children == [] && IsArithmetic(rest[k].kind)
    requires forall k | 0 <= k < |rest| && k % 2 == 1 :: Wf(rest[k])
    ensures Wf(LeftNest(acc, rest))
    ensures EvaluateArithmetic(LeftNest(acc, rest)) == ChainValue(EvaluateArithmetic(acc), rest)
    decreases |rest|
  {
    if rest != [] {
      var acc' := rest[0].(children := [acc, rest[1]]);
      assert forall k | 0 <= k < |rest| - 2 :: rest[2..][k] == rest[k + 2];
      assert EvaluateArithmetic(acc') == Apply(rest[0].kind, EvaluateArithmetic(acc), EvaluateArithmetic(rest[1]));
      LeftNestEvaluatesLeftToRight(acc', rest[2..]);
    }
  }

  /** Every integer literal in the tree fits in an `int`. */
  predicate LiteralsFit(n: Node) {
    && (n.kind == Integer && n.children == [] && IsNumeral(n.content) ==> NumeralValue(n.content) <= INT_MAX)
    && forall c | c in n.children :: LiteralsFit(c)
  }

  /** A grammar expression whose literals fit is a tree the evaluators accept. */
  lemma {:induction false} ExprIsWf(n: Node, idents: bool)
    requires IsExpr(n, idents) && LiteralsFit(n)
    ensures Wf(n)
    decreases n
  {
    if n.children != [] {
      ExprIsWf(n.children[0], idents);
      ExprIsWf(n.children[1], idents);
    }
  }
}
