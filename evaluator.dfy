/**
 * The tree-walking evaluator of evaluator.h: integer arithmetic over the
 * rewritten tree, with a name-to-value store that only `assign` writes.
 * The store the caller passes by reference is threaded through as a value:
 * each evaluation returns the store as it is afterwards, together with the
 * values `print` wrote to standard output.
 */
module Evaluator {
  import opened CInt
  import opened Tree
  import opened Calculator

  type Memory = map<string, int>

  /**
   * The result of evaluating a tree. `Undefined` is a `%` by zero, which
   * evaluator.h does not guard against (the behaviour of C++ is undefined
   * there).
   */
  datatype Outcome =
    | Value(value: int, memory: Memory, printed: seq<int>)
    | Undefined

  /**
   * An operator node with two operands: the left operand is evaluated,
   * then the right one against the store the left one left behind.
   */
  function Binary(n: Node, memory: Memory): (r: Outcome)
    requires Wf(n) && |n.children| == 2
    requires n.kind == Plus || n.kind == Minus || n.kind == Multiply || n.kind == Divide || n.kind == Modulo
    decreases n, 0
  {
    match Evaluate(n.children[0], memory)
    case Undefined => Undefined
    case Value(l, m1, p1) =>
      match Evaluate(n.children[1], m1)
      case Undefined => Undefined
      case Value(r, m2, p2) =>
        if n.kind == Modulo then
          if r == 0 then Undefined else Value(CMod(l, r), m2, p1 + p2)
        else Value(Apply(n.kind, l, r), m2, p1 + p2)
  }

  /**
   * evaluator.h's `evaluate`: skip the root; a leaf is an integer, a
   * variable (0 when unbound) or 0; `+ - * / %` evaluate the left operand
   * and then the right one; `/` by zero gives 0; `assign` stores the value
   * of its right operand under the name of its left one and gives 0;
   * `print` gives 0 after emitting its operand's value; every other shape
   * gives 0 without evaluating anything.
   */
  function Evaluate(n: Node, memory: Memory): (r: Outcome)
    requires Wf(n)
    decreases n, 1
  {
    if n.kind == Root then Evaluate(n.children[0], memory)
    else if n.children == [] then
      if n.kind == Integer then Value(Literal(n), memory, [])
      else if n.kind == Identifier then
        Value(if n.content in memory then memory[n.content] else 0, memory, [])
      else Value(0, memory, [])
    else if |n.children| == 2 then
      var c := n.children;
      if n.kind == Plus || n.kind == Minus || n.kind == Multiply || n.kind == Divide || n.kind == Modulo then
        Binary(n, memory)
      else if n.kind == Assign then
        match Evaluate(c[1], memory)
        case Undefined => Undefined
        case Value(v, m, p) => Value(0, m[c[0].content := v], p)
      else Value(0, memory, [])
    else if |n.children| == 1 && n.kind == Print then
      match Evaluate(n.children[0], memory)
      case Undefined => Undefined
      case Value(v, m, p) => Value(0, m, p + [v])
    else Value(0, memory, [])
  }

  /**
   * No node of the tree is one that only evaluator.h knows: no variable,
   * assignment, `%` or `print`. Below the root, only its first child counts,
   * the one both evaluators read.
   */
  predicate ArithmeticOnly(n: Node) {
    && n.kind != Identifier && n.kind != Assign && n.kind != Modulo && n.kind != Print
    && if n.kind == Root then |n.children| > 0 ==> ArithmeticOnly(n.children[0])
       else forall c | c in n.children :: ArithmeticOnly(c)
  }

  /**
   * On trees without variables, assignments, `%` or `print`, evaluator.h
   * computes what main.cpp computes, whatever the store holds, and leaves
   * the store unchanged.
   */
  lemma {:induction false} EvaluatorsAgree(n: Node, memory: Memory)
    requires Wf(n) && ArithmeticOnly(n)
    ensures Evaluate(n, memory) == Value(EvaluateArithmetic(n), memory, [])
    decreases n
  {
    if n.kind == Root {
      EvaluatorsAgree(n.children[0], memory);
    } else if |n.children| == 2 && n.kind in {Plus, Minus, Multiply, Divide} {
      EvaluatorsAgree(n.children[0], memory);
      EvaluatorsAgree(n.children[1], memory);
    }
  }

  /** The names a tree assigns to: the left operand of every `assign` node. */
  function AssignedNames(n: Node): set<string>
    decreases n
  {
    var own := if n.kind == Assign && |n.children| == 2 then {n.children[0].content} else {};
    own + set c, x | c in n.children && x in AssignedNames(c) :: x
  }

  /** The two stores hold the same bindings for every name outside `names`. */
  ghost predicate AgreeOutside(m: Memory, m': Memory, names: set<string>) {
    forall x | x !in names :: (x in m <==> x in m') && (x in m ==> m[x] == m'[x])
  }

  /**
   * Evaluation only ever writes the names the tree assigns to: every other
   * binding, and the absence of every other name, is left as it was; and no
   * binding is ever removed.
   */
  lemma {:induction false} OnlyAssignedNamesChange(n: Node, memory: Memory)
    requires Wf(n) && Evaluate(n, memory).Value?
    ensures AgreeOutside(memory, Evaluate(n, memory).memory, AssignedNames(n))
    ensures memory.Keys <= Evaluate(n, memory).memory.Keys
    decreases n
  {
    var c := n.children;
    if n.kind == Root {
      OnlyAssignedNamesChange(c[0], memory);
      assert AssignedNames(c[0]) <= AssignedNames(n);
    } else if |c| == 2 && n.kind in {Plus, Minus, Multiply, Divide, Modulo} {
      OnlyAssignedNamesChange(c[0], memory);
      var m1 := Evaluate(c[0], memory).memory;
      OnlyAssignedNamesChange(c[1], m1);
      assert AssignedNames(c[0]) <= AssignedNames(n) && AssignedNames(c[1]) <= AssignedNames(n);
    } else if |c| == 2 && n.kind == Assign {
      OnlyAssignedNamesChange(c[1], memory);
      assert AssignedNames(c[1]) <= AssignedNames(n) && c[0].content in AssignedNames(n);
    } else if |c| == 1 && n.kind == Print {
      OnlyAssignedNamesChange(c[0], memory);
      assert AssignedNames(c[0]) <= AssignedNames(n);
    }
  }

  /** A tree with no `assign` node leaves the store exactly as it found it. */
  lemma NoAssignKeepsMemory(n: Node, memory: Memory)
    requires Wf(n) && Evaluate(n, memory).Value? && AssignedNames(n) == {}
    ensures Evaluate(n, memory).memory == memory
  {
    OnlyAssignedNamesChange(n, memory);
  }

  /** No node of the tree is a `%` with two operands. */
  predicate NoModulo(n: Node) {
    && !(n.kind == Modulo && |n.children| == 2)
    && forall c | c in n.children :: NoModulo(c)
  }

  /** Only a `%` by zero can make evaluation undefined; every tree without `%` has a value. */
  lemma {:induction false} DefinedWithoutModulo(n: Node, memory: Memory)
    requires Wf(n) && NoModulo(n)
    ensures Evaluate(n, memory).Value?
    decreases n
  {
    var c := n.children;
    if n.kind == Root {
      DefinedWithoutModulo(c[0], memory);
    } else if |c| == 2 && n.kind in {Plus, Minus, Multiply, Divide} {
      DefinedWithoutModulo(c[0], memory);
      DefinedWithoutModulo(c[1], Evaluate(c[0], memory).memory);
    } else if |c| == 2 && n.kind == Assign {
      DefinedWithoutModulo(c[1], memory);
    } else if |c| == 1 && n.kind == Print {
      DefinedWithoutModulo(c[0], memory);
    }
  }

  /**
   * After `x = e`, reading `x` gives the value of `e`: the assignment
   * itself evaluates to 0 and binds `x`, whether or not `x` was bound
   * before.
   */
  lemma AssignThenRead(x: string, e: Node, memory: Memory)
    requires Wf(e) && Evaluate(e, memory).Value?
    ensures var after := Evaluate(Node(Assign, "", [Node(Identifier, x, []), e]), memory);
      && after.Value?
      && after.value == 0
      && Evaluate(Node(Identifier, x, []), after.memory).value == Evaluate(e, memory).value
  {
  }
}
