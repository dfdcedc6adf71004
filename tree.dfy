/**
 * The parse tree shared by the grammar, both evaluators and the compiler
 * (PEGTL's `parse_tree::node`, reduced to what the core reads: the rule that
 * produced the node, the matched text when it is kept, and the children),
 * and the `rearrange::transform` step that turns flat operator chains into
 * binary, left-nested trees.
 */
module Tree {
  import opened CInt

  /**
   * The rule a node was produced by. `Root` is PEGTL's root node; `Modulo`,
   * `Print` and `Caller` are tested for by the evaluator but have no grammar
   * rule; the chain kinds (`Factor` … `Grammar`) never survive `Transform`.
   */
  datatype Kind =
    | Root
    | Integer | Identifier
    | Plus | Minus | Multiply | Divide | Assign
    | Modulo | Print | Caller
    | Factor | Term | Expression | StExp | StAssign | Statement | Grammar

  datatype Node = Node(kind: Kind, content: string, children: seq<Node>)

  /** A leaf that stands for an operator token (its content was removed). */
  function Token(k: Kind): Node {
    Node(k, "", [])
  }

  predicate IsDigit(c: char) {
    '0' <= c <= '9'
  }

  /** One or more decimal digits, the text of an `integer` node. */
  predicate IsNumeral(s: string) {
    |s| > 0 && forall k | 0 <= k < |s| :: IsDigit(s[k])
  }

  /** The decimal value of a numeral, as `std::stoi` reads it. */
  function NumeralValue(s: string): (v: nat)
    requires IsNumeral(s)
    decreases |s|
  {
    var d := (s[|s| - 1] as int) - ('0' as int);
    if |s| == 1 then d else 10 * NumeralValue(s[..|s| - 1]) + d
  }

  /**
   * What the back ends need of a tree to stay clear of the library's
   * undefined or throwing paths: the root has the child they skip to, and
   * every integer leaf holds a numeral `std::stoi` can convert without
   * `std::out_of_range`.
   */
  predicate Wf(n: Node) {
    && (n.kind == Root ==> |n.children| > 0)
    && (n.kind == Integer && n.children == [] ==>
          IsNumeral(n.content) && NumeralValue(n.content) <= INT_MAX)
    && forall c | c in n.children :: Wf(c)
  }

  /** The value of a well-formed integer leaf. */
  function Literal(n: Node): (v: int)
    requires Wf(n) && n.kind == Integer && n.children == []
    ensures 0 <= v <= INT_MAX
  {
    NumeralValue(n.content)
  }

  /**
   * A flat chain `x0 op1 x1 … opN xN` as the grammar leaves it under a
   * `term` or `expression` node: an odd number of children whose odd
   * positions hold operator tokens (leaves).
   */
  predicate IsChain(cs: seq<Node>) {
    && |cs| % 2 == 1
    && forall k | 0 <= k < |cs| && k % 2 == 1 :: cs[k].children == []
  }

  /**
   * `rearrange::transform`: a node with one child is replaced by that
   * child; otherwise the last operand and the operator before it are taken
   * off the chain, the operator becomes the parent of the shortened chain
   * and that operand, and the shortened chain is transformed in turn. Each
   * step removes two children, which is why it terminates.
   */
  function Transform(n: Node): Node
    requires IsChain(n.children)
    decreases |n.children|
  {
    var c := n.children;
    if |c| == 1 then c[0]
    else
      var rhs, op := c[|c| - 1], c[|c| - 2];
      var rest := n.(content := "", children := c[..|c| - 2]);
      op.(children := op.children + [Transform(rest), rhs])
  }

  /** The rewrite of a chain `x op y`: the operator over its two operands. */
  lemma TransformPair(n: Node, x: Node, k: Kind, y: Node)
    requires n.children == [x, Token(k), y]
    ensures IsChain(n.children) && Transform(n) == Node(k, "", [x, y])
  {
    var rest := n.(content := "", children := n.children[..1]);
    assert rest.children == [x];
    assert Transform(rest) == x;
  }

  /**
   * The intended reading of a chain, built from the left:
   * `opN(…op2(op1(x0, x1), x2)…, xN)`.
   */
  function LeftNest(acc: Node, rest: seq<Node>): Node
    requires |rest| % 2 == 0
    decreases |rest|
  {
    if rest == [] then acc
    else LeftNest(rest[0].(children := [acc, rest[1]]), rest[2..])
  }

  /** Appending one more `op x` pair to a chain nests the whole chain under `op`. */
  lemma {:induction false} LeftNestSnoc(acc: Node, rest: seq<Node>, op: Node, x: Node)
    requires |rest| % 2 == 0
    ensures LeftNest(acc, rest + [op, x]) == op.(children := [LeftNest(acc, rest), x])
    decreases |rest|
  {
    if rest != [] {
      var acc' := rest[0].(children := [acc, rest[1]]);
      assert (rest + [op, x])[2..] == rest[2..] + [op, x];
      LeftNestSnoc(acc', rest[2..], op, x);
    }
  }

  /**
   * `Transform` turns every chain into its left-nested reading, whatever
   * kind and content the chain node had.
   */
  lemma {:induction false} TransformNestsLeft(n: Node)
    requires IsChain(n.children)
    ensures Transform(n) == LeftNest(n.children[0], n.children[1..])
    decreases |n.children|
  {
    var c := n.children;
    if |c| > 1 {
      var rest := n.(content := "", children := c[..|c| - 2]);
      TransformNestsLeft(rest);
      assert c[1..] == c[1..|c| - 2] + [c[|c| - 2], c[|c| - 1]];
      LeftNestSnoc(c[0], c[1..|c| - 2], c[|c| - 2], c[|c| - 1]);
    }
  }

  /** The rewrite of a chain node whose first child is `x` and whose tail is `rest`. */
  lemma TransformChain(n: Node, x: Node, rest: seq<Node>)
    requires n.children == [x] + rest && IsChain(n.children)
    ensures Transform(n) == LeftNest(x, rest)
  {
    assert n.children[1..] == rest;
    TransformNestsLeft(n);
  }

  /** A node with a single child is replaced by that child. */
  lemma TransformSingle(n: Node, x: Node)
    requires n.children == [x]
    ensures IsChain(n.children) && Transform(n) == x
  {
    assert |n.children| == 1 && n.children[0] == x;
  }
}
