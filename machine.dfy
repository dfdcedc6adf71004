/**
 * The bytecode and the stack machine of vm.h: the `OpCode` values, one
 * instruction step as a function (`Step`), a whole run as a function
 * (`Exec`), and the `vm` object whose `Run` loop updates its operand stack
 * and memory in place and is proved to do what `Exec` says.
 *
 * Behaviour C++ leaves undefined is made explicit rather than guessed:
 * popping or reading below the bottom of the stack, and a `PUSH` whose
 * four operand bytes run past the end of the code, stop `Exec` in a
 * `Stuck` outcome. The caller of `Run` must rule those out.
 */
module Machine {
  import opened Wrappers
  import opened CInt

  /** `enum OpCode : unsigned char`, in declaration order (`OP_NOP` = 0 … `OP_PRINT` = 24). */
  datatype OpCode =
    | Nop | Halt | Jump | JumpIf | Call | Return
    | Load | Store
    | Add | Sub | Mul | Div | Mod
    | And | Or | Not
    | Eq | Neq | Lt | Gt | Lte | Gte
    | Push | Pop
    | Print

  /** The byte an opcode is stored as: its position in the enumeration. */
  function Encode(op: OpCode): (b: Byte)
    ensures b < 25
  {
    match op
    case Nop => 0 case Halt => 1 case Jump => 2 case JumpIf => 3 case Call => 4 case Return => 5
    case Load => 6 case Store => 7
    case Add => 8 case Sub => 9 case Mul => 10 case Div => 11 case Mod => 12
    case And => 13 case Or => 14 case Not => 15
    case Eq => 16 case Neq => 17 case Lt => 18 case Gt => 19 case Lte => 20 case Gte => 21
    case Push => 22 case Pop => 23
    case Print => 24
  }

  /**
   * The opcode a byte stands for: the one stored as that byte, and none
   * for the bytes past `OP_PRINT`.
   */
  function Decode(b: Byte): (r: Option<OpCode>)
    ensures r.Some? <==> b < 25
    ensures forall op :: r == Some(op) <==> Encode(op) == b
  {
    match b
    case 0 => Some(Nop) case 1 => Some(Halt) case 2 => Some(Jump) case 3 => Some(JumpIf)
    case 4 => Some(Call) case 5 => Some(Return)
    case 6 => Some(Load) case 7 => Some(Store)
    case 8 => Some(Add) case 9 => Some(Sub) case 10 => Some(Mul) case 11 => Some(Div) case 12 => Some(Mod)
    case 13 => Some(And) case 14 => Some(Or) case 15 => Some(Not)
    case 16 => Some(Eq) case 17 => Some(Neq) case 18 => Some(Lt) case 19 => Some(Gt)
    case 20 => Some(Lte) case 21 => Some(Gte)
    case 22 => Some(Push) case 23 => Some(Pop)
    case 24 => Some(Print)
    case _ => None
  }

  /** The machine state one run works on: where it is in the code, the operand stack, the memory. */
  datatype Config = Config(ip: nat, stack: seq<int>, memory: seq<int>)

  /**
   * The outcome of one instruction: carry on from `next`, stop because of
   * `OP_HALT`, or an instruction whose behaviour C++ leaves undefined.
   */
  datatype StepResult = Continue(next: Config) | Stop(next: Config) | Undefined

  /**
   * The one-byte operand at `i`. At the very end of the code this is the
   * terminating NUL that `std::string` keeps after its last character.
   */
  function OperandByte(code: seq<Byte>, i: nat): Byte {
    if i < |code| then code[i] else 0
  }

  /** The stack with its top `k` values taken off (all of it when it is shallower). */
  function Below(stack: seq<int>, k: nat): seq<int> {
    if |stack| <= k then [] else stack[..|stack| - k]
  }

  /**
   * One pass of the `switch` in `vm::run`: fetch the opcode at `ip`, step
   * past it and past its operand, and act on the stack and memory.
   */
  function Step(code: seq<Byte>, c: Config): (r: StepResult)
    requires c.ip < |code|
    // every instruction moves forward
    ensures !r.Undefined? ==> r.next.ip > c.ip
  {
    var ip := c.ip + 1;
    var stack, memory := c.stack, c.memory;
    var n := |stack|;
    match Decode(code[c.ip])
    case Some(Push) =>
      if ip + 4 <= |code| then Continue(Config(ip + 4, stack + [DecodeInt32(code[ip..ip + 4])], memory))
      else Undefined
    case Some(Pop) =>
      if n > 0 then Continue(Config(ip, stack[..n - 1], memory)) else Undefined
    case Some(Store) =>
      var a := OperandByte(code, ip);
      if a < |memory| then
        if n > 0 then Continue(Config(ip + 1, stack[..n - 1], memory[a := stack[n - 1]])) else Undefined
      else if a == |memory| then
        if n > 0 then Continue(Config(ip + 1, stack[..n - 1], memory + [stack[n - 1]])) else Undefined
      else Continue(Config(ip + 1, stack, memory))
    case Some(Load) =>
      var a := OperandByte(code, ip);
      if a < |memory| then Continue(Config(ip + 1, stack + [memory[a]], memory))
      else Continue(Config(ip + 1, stack, memory))
    case Some(Add) =>
      if n >= 2 then Continue(Config(ip, stack[..n - 2] + [stack[n - 2] + stack[n - 1]], memory)) else Undefined
    case Some(Sub) =>
      if n >= 2 then Continue(Config(ip, stack[..n - 2] + [stack[n - 2] - stack[n - 1]], memory)) else Undefined
    case Some(Mul) =>
      if n >= 2 then Continue(Config(ip, stack[..n - 2] + [stack[n - 2] * stack[n - 1]], memory)) else Undefined
    case Some(Div) =>
      if n == 0 then Undefined
      else if stack[n - 1] == 0 then Continue(Config(ip, stack, memory))
      else if n < 2 then Undefined
      else Continue(Config(ip, stack[..n - 2] + [CDiv(stack[n - 2], stack[n - 1])], memory))
    case Some(Mod) =>
      if n == 0 then Undefined
      else if stack[n - 1] == 0 then Continue(Config(ip, stack, memory))
      else if n < 2 then Undefined
      else Continue(Config(ip, stack[..n - 2] + [CMod(stack[n - 2], stack[n - 1])], memory))
    case Some(Nop) => Continue(Config(ip, stack, memory))
    case Some(Halt) => Stop(Config(ip, stack, memory))
    case _ => Continue(Config(ip, stack, memory))
  }

  /**
   * What one instruction may touch: memory never shrinks and grows by at
   * most one cell; only `OP_STORE` changes a cell, and only the one it
   * addresses; the stack depth changes by at most one, and nothing below
   * the top two values is touched.
   */
  lemma StepFrame(code: seq<Byte>, c: Config)
    requires c.ip < |code| && !Step(code, c).Undefined?
    ensures var d := Step(code, c).next;
      && |c.memory| <= |d.memory| <= |c.memory| + 1
      && (forall a | 0 <= a < |c.memory| && d.memory[a] != c.memory[a] ::
            Decode(code[c.ip]) == Some(Store) && a == OperandByte(code, c.ip + 1))
      && |c.stack| - 1 <= |d.stack| <= |c.stack| + 1
      && Below(c.stack, 2) <= d.stack
  {
  }

  /**
   * `OP_NOP`, the opcodes without a case (jumps, calls, logic, comparisons,
   * `OP_PRINT`) and bytes that name no opcode all move on by one byte and
   * change nothing else.
   */
  lemma UnhandledIsNop(code: seq<Byte>, c: Config)
    requires c.ip < |code|
    requires Decode(code[c.ip]) !in {Some(Push), Some(Pop), Some(Store), Some(Load), Some(Add), Some(Sub),
                                      Some(Mul), Some(Div), Some(Mod), Some(Halt)}
    ensures Step(code, c) == Continue(c.(ip := c.ip + 1))
  {
  }

  /**
   * The effect of the opcodes whose `case` has no guard: `PUSH` pushes the
   * `int` its four operand bytes hold, `POP` drops the top value, and
   * `ADD`, `SUB`, `MUL` replace the top two values with `deeper op top`.
   * None of them writes memory.
   */
  lemma StackEffect(code: seq<Byte>, c: Config)
    requires c.ip < |code| && Step(code, c).Continue?
    ensures var op, d, n := Decode(code[c.ip]), Step(code, c).next, |c.stack|;
      && (op == Some(Push) ==>
            d == Config(c.ip + 5, c.stack + [DecodeInt32(code[c.ip + 1..c.ip + 5])], c.memory))
      && (op == Some(Pop) ==> d == Config(c.ip + 1, c.stack[..n - 1], c.memory))
      && (op == Some(Add) ==> d == Config(c.ip + 1, c.stack[..n - 2] + [c.stack[n - 2] + c.stack[n - 1]], c.memory))
      && (op == Some(Sub) ==> d == Config(c.ip + 1, c.stack[..n - 2] + [c.stack[n - 2] - c.stack[n - 1]], c.memory))
      && (op == Some(Mul) ==> d == Config(c.ip + 1, c.stack[..n - 2] + [c.stack[n - 2] * c.stack[n - 1]], c.memory))
  {
  }

  /**
   * The effect of the opcodes whose `case` tests something first.
   * `DIV` and `MOD` by 0 change nothing but `ip`; otherwise they replace
   * the top two values with the truncating quotient or remainder.
   * `STORE a` moves the top value into cell `a` when it exists, appends it
   * when `a` is the next cell, and otherwise changes nothing but `ip`.
   * `LOAD a` pushes cell `a` when it exists, and otherwise changes nothing
   * but `ip`; it never writes memory.
   */
  lemma GuardedEffect(code: seq<Byte>, c: Config)
    requires c.ip < |code| && Step(code, c).Continue?
    ensures var op, d, n, m := Decode(code[c.ip]), Step(code, c).next, |c.stack|, c.memory;
      var a := OperandByte(code, c.ip + 1);
      && (op in {Some(Div), Some(Mod)} && c.stack[n - 1] == 0 ==> d == c.(ip := c.ip + 1))
      && (op == Some(Div) && c.stack[n - 1] != 0 ==>
            d == Config(c.ip + 1, c.stack[..n - 2] + [CDiv(c.stack[n - 2], c.stack[n - 1])], m))
      && (op == Some(Mod) && c.stack[n - 1] != 0 ==>
            d == Config(c.ip + 1, c.stack[..n - 2] + [CMod(c.stack[n - 2], c.stack[n - 1])], m))
      && (op == Some(Store) && a < |m| ==> d == Config(c.ip + 2, c.stack[..n - 1], m[a := c.stack[n - 1]]))
      && (op == Some(Store) && a == |m| ==> d == Config(c.ip + 2, c.stack[..n - 1], m + [c.stack[n - 1]]))
      && (op == Some(Store) && a > |m| ==> d == c.(ip := c.ip + 2))
      && (op == Some(Load) && a < |m| ==> d == Config(c.ip + 2, c.stack + [m[a]], m))
      && (op == Some(Load) && a >= |m| ==> d == c.(ip := c.ip + 2))
  {
  }

  /** How a run ends: the loop ran off the end of the code or met `OP_HALT`, or it got stuck at `last`. */
  datatype Outcome = Done(last: Config) | Stuck(last: Config)

  /** `vm::run`: step while `ip` is inside the code. */
  function Exec(code: seq<Byte>, c: Config): Outcome
    decreases if c.ip <= |code| then |code| - c.ip else 0
  {
    if c.ip >= |code| then Done(c)
    else
      match Step(code, c)
      case Continue(next) => Exec(code, next)
      case Stop(next) => Done(next)
      case Undefined => Stuck(c)
  }

  /** Over a whole run, memory never shrinks. */
  lemma {:induction false} MemoryOnlyGrows(code: seq<Byte>, c: Config)
    ensures |c.memory| <= |Exec(code, c).last.memory|
    decreases if c.ip <= |code| then |code| - c.ip else 0
  {
    if c.ip < |code| {
      match Step(code, c)
      case Continue(next) =>
        StepFrame(code, c);
        MemoryOnlyGrows(code, next);
      case Stop(next) =>
      case Undefined =>
    }
  }

  /** A run that finishes stops at the end of the code, one byte past it, or just past an `OP_HALT`. */
  lemma {:induction false} DoneWhere(code: seq<Byte>, c: Config)
    requires Exec(code, c).Done? && c.ip <= |code|
    ensures var ip := Exec(code, c).last.ip;
      || ip == |code|
      || ip == |code| + 1
      || (0 < ip <= |code| && code[ip - 1] == Encode(Halt))
    decreases |code| - c.ip
  {
    if c.ip < |code| {
      match Step(code, c)
      case Continue(next) =>
        if next.ip <= |code| {
          DoneWhere(code, next);
        } else {
          assert Decode(code[c.ip]) in {Some(Store), Some(Load)};
        }
      case Stop(next) =>
        assert Decode(code[c.ip]) == Some(Halt);
      case Undefined =>
    }
  }

  /** `struct vm`: the operand stack and the memory vector (the unused `registers` are left out). */
  class VM {
    var stack: seq<int>
    var memory: seq<int>

    constructor ()
      ensures stack == [] && memory == []
    {
      stack := [];
      memory := [];
    }

    /**
     * One pass of the `switch` in `vm::run`: decode the opcode at `ip0`,
     * update the stack and memory in place, and return where the next
     * instruction starts and whether this one was `OP_HALT`.
     */
    method Execute(code: seq<Byte>, ip0: nat) returns (ip: nat, halted: bool)
      requires ip0 < |code| && !Step(code, Config(ip0, stack, memory)).Undefined?
      modifies this
      ensures Step(code, Config(ip0, old(stack), old(memory))) ==
        if halted then Stop(Config(ip, stack, memory)) else Continue(Config(ip, stack, memory))
    {
      halted := false;
      var op := Decode(code[ip0]);
      ip := ip0 + 1;
      var n := |stack|;
      match op {
        case Some(Push) =>
          stack := stack + [DecodeInt32(code[ip..ip + 4])];
          ip := ip + 4;
        case Some(Pop) =>
          stack := stack[..n - 1];
        case Some(Store) =>
          var address := if ip < |code| then code[ip] else 0;
          ip := ip + 1;
          if address < |memory| {
            memory := memory[address := stack[n - 1]];
            stack := stack[..n - 1];
          } else if address == |memory| {
            memory := memory + [stack[n - 1]];
            stack := stack[..n - 1];
          }
        case Some(Load) =>
          var address := if ip < |code| then code[ip] else 0;
          ip := ip + 1;
          if address < |memory| {
            stack := stack + [memory[address]];
          }
        case Some(Add) =>
          stack := stack[..n - 2] + [stack[n - 2] + stack[n - 1]];
        case Some(Sub) =>
          stack := stack[..n - 2] + [stack[n - 2] - stack[n - 1]];
        case Some(Mul) =>
          stack := stack[..n - 2] + [stack[n - 2] * stack[n - 1]];
        case Some(Div) =>
          if stack[n - 1] != 0 {
            stack := stack[..n - 2] + [CDiv(stack[n - 2], stack[n - 1])];
          }
        case Some(Mod) =>
          if stack[n - 1] != 0 {
            stack := stack[..n - 2] + [CMod(stack[n - 2], stack[n - 1])];
          }
        case Some(Nop) =>
        case Some(Halt) =>
          halted := true;
        case _ =>
      }
    }

    /**
     * `vm::run(code, ip)`: run from `ip` until `ip` leaves the code or an
     * `OP_HALT` is met, and return true. `ip` is passed back as it is at
     * the end, just past the `OP_HALT` when there is one.
     */
    method Run(code: seq<Byte>, ip0: nat) returns (ok: bool, ip: nat)
      requires Exec(code, Config(ip0, stack, memory)).Done?
      modifies this
      ensures ok
      ensures Exec(code, Config(ip0, old(stack), old(memory))) == Done(Config(ip, stack, memory))
      ensures |old(memory)| <= |memory|
    {
      MemoryOnlyGrows(code, Config(ip0, stack, memory));
      ghost var result := Exec(code, Config(ip0, stack, memory));
      ip := ip0;
      while ip < |code|
        invariant Exec(code, Config(ip, stack, memory)) == result
        decreases |code| - ip
      {
        var halted;
        ip, halted := Execute(code, ip);
        if halted {
          return true, ip;
        }
      }
      ok := true;
    }
  }
}
