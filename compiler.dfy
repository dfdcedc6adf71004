/**
 * The bytecode compiler of compiler.h: the variable-slot allocator
 * `CompileState`, the three `append_*` helpers over the code string, and
 * `compile`, which lowers a tree to stack code in post-order. `Emit` is the
 * code `compile` appends, as a function of the tree; the main theorem
 * (`CompileThenRun`) is that running that code on the machine of vm.h
 * pushes exactly the value both evaluators give the tree.
 */
module Compiler {
  import opened Wrappers
  import opened CInt
  import opened Tree
  import opened Grammar
  import opened Calculator
  import opened Evaluator
  import opened Machine

  /**
   * The slot table `CompileState` keeps: `order` lists the names in the
   * order they were first seen, no name twice, and the `k`-th of them has
   * address `k` taken modulo 256 (the counter is a `uint8_t`).
   */
  ghost predicate SlotTable(variables: map<string, Byte>, order: seq<string>) {
    && (forall i, j | 0 <= i < j < |order| :: order[i] != order[j])
    && (forall x :: x in variables <==> x in order)
    && (forall i | 0 <= i < |order| :: variables[order[i]] == i % 256)
  }

  /**
   * As long as at most 256 names have been seen, addresses are dense: the
   * names hold exactly the addresses `0 .. |order| - 1`, each a different one.
   */
  lemma DenseSlots(variables: map<string, Byte>, order: seq<string>)
    requires SlotTable(variables, order) && |order| <= 256
    ensures forall x, y | x in variables && y in variables && x != y :: variables[x] != variables[y]
    ensures forall a: Byte :: a in variables.Values <==> a < |order|
  {
    forall i | 0 <= i < |order| ensures variables[order[i]] == i {
      assert i % 256 == i;
    }
    forall x, y | x in variables && y in variables && x != y
      ensures variables[x] != variables[y]
    {
      var i :| 0 <= i < |order| && order[i] == x;
      var j :| 0 <= j < |order| && order[j] == y;
    }
    forall a: Byte
      ensures a in variables.Values <==> a < |order|
    {
      if a < |order| {
        assert order[a] in variables;
      }
      if a in variables.Values {
        var x :| x in variables && variables[x] == a;
        var i :| 0 <= i < |order| && order[i] == x;
      }
    }
  }

  /** The 257th name seen gets address 0 again, which already belongs to the first one. */
  lemma AddressesWrapAround(variables: map<string, Byte>, order: seq<string>)
    requires SlotTable(variables, order) && |order| > 256
    ensures order[0] != order[256] && variables[order[0]] == variables[order[256]] == 0
  {
  }

  /** Giving a new name the next address keeps the table a slot table. */
  lemma SlotTableExtend(variables: map<string, Byte>, order: seq<string>, name: string)
    requires SlotTable(variables, order) && name !in variables
    ensures SlotTable(variables[name := |order| % 256], order + [name])
  {
    var vs, os := variables[name := |order| % 256], order + [name];
    assert name !in order;
    forall i, j | 0 <= i < j < |os| ensures os[i] != os[j] {
      if j < |order| {
        assert os[i] == order[i] && os[j] == order[j];
      }
    }
    forall x ensures x in vs <==> x in os {
      assert x in os <==> x in order || x == name;
    }
    forall i | 0 <= i < |os| ensures vs[os[i]] == i % 256 {
      if i < |order| {
        assert os[i] == order[i] != name;
      }
    }
  }

  /** Moving the `uint8_t` counter on by one keeps it the number of names seen, modulo 256. */
  lemma NextSlot(n: nat)
    ensures (n % 256 + 1) % 256 == (n + 1) % 256
  {
  }

  /** `struct CompileState`: the addresses handed out so far, and the next free one. */
  class CompileState {
    var variables: map<string, Byte>
    var current: Byte
    /** The names in the order they were first given an address. */
    ghost var order: seq<string>

    ghost predicate Valid()
      reads this
    {
      SlotTable(variables, order) && current == |order| % 256
    }

    constructor ()
      ensures Valid() && variables == map[] && current == 0 && order == []
    {
      variables := map[];
      current := 0;
      order := [];
    }

    /**
     * `GetAddress`: a known name keeps its address and nothing changes; a
     * new name gets `current`, which then moves on by one (wrapping at 256).
     */
    method GetAddress(name: string) returns (address: Byte)
      requires Valid()
      modifies this
      ensures Valid()
      ensures name in old(variables) ==>
        && address == old(variables)[name]
        && variables == old(variables) && current == old(current) && order == old(order)
      ensures name !in old(variables) ==>
        && address == old(current)
        && variables == old(variables)[name := address]
        && current == (old(current) + 1) % 256
        && order == old(order) + [name]
    {
      if name in variables {
        address := variables[name];
      } else {
        SlotTableExtend(variables, order, name);
        NextSlot(|order|);
        address := current;
        variables := variables[name := current];
        current := (current + 1) % 256;
        order := order + [name];
      }
    }
  }

  /** The `std::string` the code is appended to, as bytes. */
  class CodeBuffer {
    var bytes: seq<Byte>

    constructor ()
      ensures bytes == []
    {
      bytes := [];
    }

    /** `append_op`: one byte, the opcode. */
    method AppendOp(op: OpCode)
      modifies this
      ensures bytes == old(bytes) + [Encode(op)]
      ensures Decode(bytes[|bytes| - 1]) == Some(op)
    {
      bytes := bytes + [Encode(op)];
    }

    /** `append_number`: four more bytes, the little-endian encoding of `num`; the prefix is untouched. */
    method AppendNumber(num: int)
      requires Int32(num)
      modifies this
      ensures bytes == old(bytes) + EncodeInt32(num)
      ensures |bytes| == |old(bytes)| + 4 && DecodeInt32(bytes[|bytes| - 4..]) == num
    {
      bytes := bytes + EncodeInt32(num);
      assert bytes[|bytes| - 4..] == EncodeInt32(num);
      DecodeEncode(num);
    }

    /** `append_address`: one byte, the address. */
    method AppendAddress(address: Byte)
      modifies this
      ensures bytes == old(bytes) + [address]
    {
      bytes := bytes + [address];
    }
  }

  /**
   * The opcode `compile` emits for an arithmetic node. compiler.h writes
   * `OP_PLUS`, `OP_MINUS`, `OP_MULTIPLY` and `OP_DIVIDE`, names vm.h does
   * not declare; they are read as `OP_ADD`, `OP_SUB`, `OP_MUL`, `OP_DIV`.
   */
  function OpFor(k: Kind): (op: OpCode)
    requires IsArithmetic(k)
    ensures Encode(op) == 8 + (if k == Plus then 0 else if k == Minus then 1 else if k == Multiply then 2 else 3)
  {
    match k
    case Plus => Add
    case Minus => Sub
    case Multiply => Mul
    case Divide => Div
  }

  /** What `compile` reports and what it has appended to the code by then. */
  datatype Emitted = Emitted(ok: bool, bytes: seq<Byte>)

  /**
   * The bytes `compile` appends to the code, and its verdict: `PUSH` and the
   * literal for an integer leaf; the left code, the right code and the
   * opcode for `+ - * /` with two operands; failure for every other node,
   * keeping whatever the left operand had appended before the failure.
   */
  function Emit(n: Node): Emitted
    requires Wf(n)
    decreases n
  {
    if n.kind == Root then Emit(n.children[0])
    else if n.children == [] then
      if n.kind == Integer then Emitted(true, [Encode(Push)] + EncodeInt32(Literal(n)))
      else Emitted(false, [])
    else if |n.children| == 2 && IsArithmetic(n.kind) then
      var l := Emit(n.children[0]);
      if !l.ok then l
      else
        var r := Emit(n.children[1]);
        if !r.ok then Emitted(false, l.bytes + r.bytes)
        else Emitted(true, l.bytes + r.bytes + [Encode(OpFor(n.kind))])
    else Emitted(false, [])
  }

  /**
   * The trees `compile` accepts: below the root, only integer leaves and
   * `+ - * /` nodes with two operands.
   */
  predicate Compilable(n: Node) {
    if n.kind == Root then |n.children| > 0 && Compilable(n.children[0])
    else if n.children == [] then n.kind == Integer
    else
      && |n.children| == 2 && IsArithmetic(n.kind)
      && Compilable(n.children[0]) && Compilable(n.children[1])
  }

  /** `compile` succeeds exactly on the trees it can lower. */
  lemma {:induction false} CompileAccepts(n: Node)
    requires Wf(n)
    ensures Emit(n).ok <==> Compilable(n)
    decreases n
  {
    if n.kind == Root {
      CompileAccepts(n.children[0]);
    } else if |n.children| == 2 && IsArithmetic(n.kind) {
      CompileAccepts(n.children[0]);
      CompileAccepts(n.children[1]);
    }
  }

  /** A tree the compiler accepts holds nothing only evaluator.h knows. */
  lemma {:induction false} CompilableIsArithmetic(n: Node)
    requires Compilable(n)
    ensures ArithmeticOnly(n)
    decreases n
  {
    if n.kind == Root {
      CompilableIsArithmetic(n.children[0]);
    } else if n.children != [] {
      CompilableIsArithmetic(n.children[0]);
      CompilableIsArithmetic(n.children[1]);
      assert forall c | c in n.children :: c == n.children[0] || c == n.children[1];
    }
  }

  /** Every expression of main.cpp's grammar, wrapped in a root, is a tree the compiler accepts. */
  lemma {:induction false} ArithmeticExprCompiles(n: Node)
    requires IsExpr(n, false)
    ensures Compilable(n) && Compilable(Node(Root, "", [n]))
    decreases n
  {
    if n.children != [] {
      ArithmeticExprCompiles(n.children[0]);
      ArithmeticExprCompiles(n.children[1]);
    }
  }

  /**
   * The machine's `OP_DIV` keeps both operands when the divisor is 0,
   * where the evaluators give 0: no `/` in the tree may have a right
   * operand whose value is 0.
   */
  predicate NoZeroDivisor(n: Node)
    requires Wf(n)
  {
    && (n.kind == Divide && |n.children| == 2 ==> EvaluateArithmetic(n.children[1]) != 0)
    && forall c | c in n.children :: NoZeroDivisor(c)
  }

  /**
   * `compile` as a method: appends `Emit(node).bytes` to the code and
   * returns its verdict. The slot table is passed along but, since no
   * accepted node names a variable, never consulted.
   */
  method Compile(node: Node, state: CompileState, code: CodeBuffer) returns (ok: bool)
    requires Wf(node)
    modifies code
    ensures ok == Emit(node).ok
    ensures code.bytes == old(code.bytes) + Emit(node).bytes
    decreases node
  {
    if node.kind == Root {
      ok := Compile(node.children[0], state, code);
      return;
    }
    ghost var start := code.bytes;
    if node.children == [] {
      if node.kind == Integer {
        code.AppendOp(Push);
        code.AppendNumber(Literal(node));
        assert code.bytes == start + ([Encode(Push)] + EncodeInt32(Literal(node)));
        ok := true;
      } else {
        ok := false;
      }
    } else if |node.children| == 2 && IsArithmetic(node.kind) {
      ok := Compile(node.children[0], state, code);
      if !ok {
        return;
      }
      ok := Compile(node.children[1], state, code);
      ghost var operands := Emit(node.children[0]).bytes + Emit(node.children[1]).bytes;
      assert code.bytes == start + operands;
      if !ok {
        return;
      }
      code.AppendOp(OpFor(node.kind));
      assert code.bytes == start + (operands + [Encode(OpFor(node.kind))]);
      ok := true;
    } else {
      ok := false;
    }
  }

  /** The two-argument `compile`: the same, with a fresh slot table. */
  method CompileFresh(node: Node, code: CodeBuffer) returns (ok: bool)
    requires Wf(node)
    modifies code
    ensures ok == Emit(node).ok
    ensures code.bytes == old(code.bytes) + Emit(node).bytes
  {
    var state := new CompileState();
    ok := Compile(node, state, code);
  }

  /** `PUSH v`, five bytes in all, puts `v` on the stack and nothing else. */
  lemma RunPush(code: seq<Byte>, ip: nat, v: int, stack: seq<int>, memory: seq<int>)
    requires Int32(v) && ip + 5 <= |code|
    requires code[ip] == Encode(Push) && code[ip + 1..ip + 5] == EncodeInt32(v)
    ensures Exec(code, Config(ip, stack, memory)) == Exec(code, Config(ip + 5, stack + [v], memory))
  {
    assert Decode(code[ip]) == Some(Push);
    DecodeEncode(v);
    assert Step(code, Config(ip, stack, memory)) == Continue(Config(ip + 5, stack + [v], memory));
  }

  /**
   * The opcode of an arithmetic node replaces the two values on top of the
   * stack with the result main.cpp's evaluator gives, unless it divides by 0.
   */
  lemma RunArithmetic(code: seq<Byte>, ip: nat, k: Kind, stack: seq<int>, l: int, r: int, memory: seq<int>)
    requires IsArithmetic(k) && (k == Divide ==> r != 0)
    requires ip < |code| && code[ip] == Encode(OpFor(k))
    ensures Exec(code, Config(ip, stack + [l, r], memory)) == Exec(code, Config(ip + 1, stack + [Apply(k, l, r)], memory))
  {
    var st := stack + [l, r];
    assert Decode(code[ip]) == Some(OpFor(k));
    assert st[..|st| - 2] == stack && st[|st| - 2] == l && st[|st| - 1] == r;
    assert Step(code, Config(ip, st, memory)) == Continue(Config(ip + 1, stack + [Apply(k, l, r)], memory));
  }

  /** An accepted leaf below the root is an integer; its code is `PUSH` and the literal. */
  lemma EmitLeaf(n: Node)
    requires Wf(n) && Compilable(n) && n.kind != Root && n.children == []
    ensures n.kind == Integer && Emit(n).bytes == [Encode(Push)] + EncodeInt32(Literal(n))
    ensures EvaluateArithmetic(n) == Literal(n)
  {
  }

  /** An accepted node with operands: its code is the left code, the right code, then the opcode. */
  lemma EmitBinary(n: Node)
    requires Wf(n) && Compilable(n) && NoZeroDivisor(n) && n.kind != Root && n.children != []
    ensures |n.children| == 2 && IsArithmetic(n.kind)
    ensures Wf(n.children[0]) && Compilable(n.children[0]) && NoZeroDivisor(n.children[0])
    ensures Wf(n.children[1]) && Compilable(n.children[1]) && NoZeroDivisor(n.children[1])
    ensures Emit(n).bytes == Emit(n.children[0]).bytes + Emit(n.children[1]).bytes + [Encode(OpFor(n.kind))]
    ensures n.kind == Divide ==> EvaluateArithmetic(n.children[1]) != 0
    ensures EvaluateArithmetic(n) == Apply(n.kind, EvaluateArithmetic(n.children[0]), EvaluateArithmetic(n.children[1]))
  {
    CompileAccepts(n.children[0]);
    CompileAccepts(n.children[1]);
  }

  /**
   * The code of an accepted tree, wherever it sits in a longer program,
   * runs from its first byte to its last and ends with one more value on
   * the stack, the tree's value, and with memory as it was.
   */
  lemma {:induction false} RunEmitted(n: Node, code: seq<Byte>, at: nat, stack: seq<int>, memory: seq<int>)
    requires Wf(n) && Compilable(n) && NoZeroDivisor(n)
    requires at + |Emit(n).bytes| <= |code| && code[at..at + |Emit(n).bytes|] == Emit(n).bytes
    ensures Exec(code, Config(at, stack, memory)) ==
      Exec(code, Config(at + |Emit(n).bytes|, stack + [EvaluateArithmetic(n)], memory))
    decreases n, 1
  {
    if n.kind == Root {
      RunEmitted(n.children[0], code, at, stack, memory);
    } else if n.children == [] {
      EmitLeaf(n);
      var v := Literal(n);
      assert code[at..at + 5][0] == Encode(Push) && code[at..at + 5][1..] == EncodeInt32(v);
      RunPush(code, at, v, stack, memory);
    } else {
      RunBinary(n, code, at, stack, memory);
    }
  }

  /** Where the code of a node sits in a program, so does the code of each operand and the opcode. */
  lemma SliceParts(code: seq<Byte>, at: nat, mid: nat, end: nat, lb: seq<Byte>, rb: seq<Byte>, op: Byte)
    requires mid == at + |lb| && end == mid + |rb|
    requires end + 1 <= |code| && code[at..end + 1] == lb + rb + [op]
    ensures code[at..mid] == lb
    ensures code[mid..end] == rb
    ensures code[end] == op
  {
    var bs := lb + rb + [op];
    forall k | 0 <= k < |bs| ensures code[at + k] == bs[k] {
      assert code[at..end + 1][k] == code[at + k];
    }
    assert code[at..mid] == bs[..|lb|] == lb;
    assert code[mid..end] == bs[|lb|..|lb| + |rb|] == rb;
    assert bs[|lb| + |rb|] == op;
  }

  /** `RunEmitted` with the end of the code and the value pushed named by the caller. */
  lemma RunOperand(n: Node, code: seq<Byte>, at: nat, e: nat, v: int, stack: seq<int>, memory: seq<int>)
    requires Wf(n) && Compilable(n) && NoZeroDivisor(n)
    requires e == at + |Emit(n).bytes| && v == EvaluateArithmetic(n)
    requires e <= |code| && code[at..e] == Emit(n).bytes
    ensures Exec(code, Config(at, stack, memory)) == Exec(code, Config(e, stack + [v], memory))
    decreases n, 2
  {
    RunEmitted(n, code, at, stack, memory);
  }

  /** The same for an operator node: the left operand, the right operand, then the operation. */
  lemma {:induction false} RunBinary(n: Node, code: seq<Byte>, at: nat, stack: seq<int>, memory: seq<int>)
    requires Wf(n) && Compilable(n) && NoZeroDivisor(n) && n.kind != Root && n.children != []
    requires at + |Emit(n).bytes| <= |code| && code[at..at + |Emit(n).bytes|] == Emit(n).bytes
    ensures Exec(code, Config(at, stack, memory)) ==
      Exec(code, Config(at + |Emit(n).bytes|, stack + [EvaluateArithmetic(n)], memory))
    decreases n, 0
  {
    EmitBinary(n);
    var l, r := n.children[0], n.children[1];
    var lb, rb := Emit(l).bytes, Emit(r).bytes;
    var lv, rv, v := EvaluateArithmetic(l), EvaluateArithmetic(r), EvaluateArithmetic(n);
    var k, op := n.kind, Encode(OpFor(n.kind));
    var mid := at + |lb|;
    var end := mid + |rb|;
    SliceParts(code, at, mid, end, lb, rb, op);
    assert Exec(code, Config(at, stack, memory)) == Exec(code, Config(mid, stack + [lv], memory)) by {
      RunOperand(l, code, at, mid, lv, stack, memory);
    }
    assert Exec(code, Config(mid, stack + [lv], memory)) == Exec(code, Config(end, stack + [lv] + [rv], memory)) by {
      RunOperand(r, code, mid, end, rv, stack + [lv], memory);
    }
    assert Exec(code, Config(end, stack + [lv] + [rv], memory)) == Exec(code, Config(end + 1, stack + [v], memory)) by {
      assert IsArithmetic(k) && (k == Divide ==> rv != 0) && v == Apply(k, lv, rv);
      assert stack + [lv] + [rv] == stack + [lv, rv];
      RunArithmetic(code, end, k, stack, lv, rv, memory);
    }
    assert end + 1 == at + |Emit(n).bytes|;
  }

  /**
   * Compile, then run: on any machine state, the code `compile` produces
   * for an accepted tree without a zero divisor runs to its end and leaves
   * the stack with one more value, the value main.cpp's evaluator gives
   * the tree, which is also what evaluator.h gives it on any store.
   */
  lemma CompileThenRun(n: Node, stack: seq<int>, memory: seq<int>, store: Memory)
    requires Wf(n) && Compilable(n) && NoZeroDivisor(n)
    ensures Emit(n).ok
    ensures Exec(Emit(n).bytes, Config(0, stack, memory)) ==
      Done(Config(|Emit(n).bytes|, stack + [EvaluateArithmetic(n)], memory))
    ensures Evaluate(n, store) == Value(EvaluateArithmetic(n), store, [])
  {
    CompileAccepts(n);
    RunEmitted(n, Emit(n).bytes, 0, stack, memory);
    CompilableIsArithmetic(n);
    EvaluatorsAgree(n, store);
  }

  /** The tree of `1 / 0`. */
  function OneOverZero(): Node {
    Node(Divide, "", [Node(Integer, "1", []), Node(Integer, "0", [])])
  }

  /** `1 / 0` is a well-formed compilable tree that evaluates to 0. */
  lemma OneOverZeroEvaluates()
    ensures Wf(OneOverZero()) && Compilable(OneOverZero()) && EvaluateArithmetic(OneOverZero()) == 0
  {
    assert NumeralValue("1") == 1 && NumeralValue("0") == 0;
  }

  /** The code for `1 / 0`: `PUSH 1`, `PUSH 0`, `DIV`. */
  lemma OneOverZeroCode()
    ensures var code := Emit(OneOverZero()).bytes;
      && |code| == 11 && code[10] == Encode(Div)
      && code[0..5] == Emit(Node(Integer, "1", [])).bytes
      && code[5..10] == Emit(Node(Integer, "0", [])).bytes
  {
    var one, zero := Node(Integer, "1", []), Node(Integer, "0", []);
    assert NumeralValue("1") == 1 && NumeralValue("0") == 0;
    EmitLeaf(one);
    EmitLeaf(zero);
    assert Emit(OneOverZero()).bytes == Emit(one).bytes + Emit(zero).bytes + [Encode(Div)];
  }

  /** Code that starts with `PUSH 1` and `PUSH 0` leaves 1 and 0 on the stack after ten bytes. */
  lemma PushOperands(code: seq<Byte>)
    requires |code| >= 10
    requires code[0..5] == Emit(Node(Integer, "1", [])).bytes && code[5..10] == Emit(Node(Integer, "0", [])).bytes
    ensures Exec(code, Config(0, [], [])) == Exec(code, Config(10, [1, 0], []))
  {
    var one, zero := Node(Integer, "1", []), Node(Integer, "0", []);
    assert Wf(one) && Wf(zero) && EvaluateArithmetic(one) == 1 && EvaluateArithmetic(zero) == 0 by {
      assert NumeralValue("1") == 1 && NumeralValue("0") == 0;
    }
    EmitLeaf(one);
    EmitLeaf(zero);
    assert Exec(code, Config(0, [], [])) == Exec(code, Config(5, [1], [])) by {
      RunEmitted(one, code, 0, [], []);
      assert [] + [1] == [1];
    }
    assert Exec(code, Config(5, [1], [])) == Exec(code, Config(10, [1, 0], [])) by {
      RunEmitted(zero, code, 5, [1], []);
      assert [1] + [0] == [1, 0];
    }
  }

  /** A final `DIV` over a zero divisor leaves the stack as it is and ends the run. */
  lemma DivideByZeroStep(code: seq<Byte>)
    requires |code| == 11 && code[10] == Encode(Div)
    ensures Exec(code, Config(10, [1, 0], [])) == Done(Config(11, [1, 0], []))
  {
    assert Decode(code[10]) == Some(Div);
    assert Step(code, Config(10, [1, 0], [])) == Continue(Config(11, [1, 0], []));
  }

  /**
   * Where the back ends part: `1 / 0` evaluates to 0, but its code leaves
   * both operands on the machine's stack.
   */
  lemma DivisionByZeroDiverges()
    ensures Wf(OneOverZero()) && Compilable(OneOverZero()) && EvaluateArithmetic(OneOverZero()) == 0
    ensures Exec(Emit(OneOverZero()).bytes, Config(0, [], [])) == Done(Config(11, [1, 0], []))
  {
    OneOverZeroEvaluates();
    OneOverZeroCode();
    PushOperands(Emit(OneOverZero()).bytes);
    DivideByZeroStep(Emit(OneOverZero()).bytes);
  }
}
