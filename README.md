# PEGTL calculator, modelled in Dafny

The calculator reads one line of arithmetic at a time. A PEG grammar, built
with the PEGTL library, parses the line into a tree. A `rearrange` transform
rewrites each flat operator chain of that tree into a binary, left-nested
tree. The rewritten tree then has three back ends:

- the tree-walking evaluator of `main.cpp`: integers, `+ - * /`, no
  variables;
- the evaluator of `evaluator.h`: adds variables in a name-to-value store,
  assignment, `%` and `print`;
- the compiler of `compiler.h`: emits bytecode for the stack machine of
  `vm.h`.

The model has these modules (one file each):

| module | file | models |
|---|---|---|
| `CInt` | cint.dfy | C++ `int` division and remainder (truncating), 32-bit bounds, the 4-byte little-endian operand `append_number` writes and `OP_PUSH` reads |
| `Tree` | tree.dfy | the parse-tree node and `rearrange::transform` |
| `Grammar` | grammar.dfy | the rules of `grammer.h` as a PEG recogniser that builds the rewritten tree; a flag switches identifiers off, giving the grammar of `main.cpp` |
| `Calculator` | calculator.dfy | `main.cpp`: its top-level `grammar` and its `evaluate` |
| `Evaluator` | evaluator.dfy | `evaluator.h`'s `evaluate`, with the store threaded through as a value |
| `Machine` | machine.dfy | `vm.h`: the opcodes, one instruction step, a whole run, and the `vm` object whose `Run` loop updates its stack and memory in place |
| `Compiler` | compiler.dfy | `compiler.h`: `CompileState`, the `append_*` helpers, `compile` |
| `Samples` | samples.dfy | concrete lines through the parser and the evaluators |
| `RoundTrip` | roundtrip.dfy | a printer that writes any expression tree back as fully parenthesised text, and the proof that both grammars read that text back as the same tree |

Four functions specify what the code computes:

- `Tree.Transform` is the rewrite.
- `Calculator.EvaluateArithmetic` and `Evaluator.Evaluate` are the two
  evaluators.
- `Compiler.Emit` is the code `compile` appends.
- `Machine.Exec` is `vm::run`.

The stateful code is written as classes and methods proved against those
functions: `Machine.VM.Run`, `Compiler.CompileState.GetAddress`, the
`Compiler.CodeBuffer` appends and `Compiler.Compile`. The lemmas state what
the functions promise: left-nesting, precedence, agreement between the two
evaluators, which names a line can change, and the codec round trip.
`RoundTrip.ParseUnparse` pins down which tree the parser builds for every
expression: the fully parenthesised text of any expression tree parses back
to that tree. The main theorem, `Compiler.CompileThenRun`, composes the
others. The code `compile`
emits for an accepted tree with no zero divisor runs on the machine to its
end. It leaves the value both evaluators give the tree on top of the stack.

Behaviour that C++ leaves undefined is an explicit outcome in the model:

- `Evaluator.Outcome.Undefined` is a `%` by zero.
- `Machine.StepResult.Undefined` and `Machine.Outcome.Stuck` cover stack
  underflow and an `OP_PUSH` whose operand runs past the end of the code.

Where the code and its description differ, the model follows the code:

- `DIV` or `MOD` by zero on the machine leaves both operands on the stack.
  For `/` by zero both evaluators give 0 (see
  `Compiler.DivisionByZeroDiverges`). For `%` by zero, `evaluator.h` has no
  zero check, so the model makes it `Evaluator.Outcome.Undefined`;
  `main.cpp`'s evaluator has no `%` at all.
- A `STORE` to an address beyond the end of memory pops nothing.
- `OP_PRINT` and the other opcodes without a `case` fall to the `default`
  branch and only move on by one byte.
- `%` in `evaluator.h` has no zero check.
- `compile` accepts only integer leaves and `+ - * /`.

## Model

| member | source | states |
|---|---|---|
| CInt.CDiv | evaluator.h:39-46 | the quotient of C++ `/` truncates toward zero: its magnitude is the floor of the magnitudes' quotient, and it is negative only when the signs differ |
| CInt.CMod | evaluator.h:47-50 | C++ `%`: `a == b * (a / b) + a % b`, the remainder is smaller than the divisor in magnitude and has the dividend's sign |
| CInt.EncodeInt32 | compiler.h:25-28 | the bytes `append_number` writes for an `int`: exactly four; that they are its little-endian two's-complement form is stated by `CInt.DecodeEncode` and `CInt.EncodeDecode` |
| CInt.DecodeInt32 | vm.h:63-66 | the `int` `OP_PUSH` reads from four operand bytes: always within the 32-bit range; `CInt.DecodeEncode` and `CInt.EncodeDecode` make it the inverse of `EncodeInt32` |
| CInt.DecodeEncode | compiler.h:25-28 | the `int` `OP_PUSH` reads back from the four bytes `append_number` wrote is the `int` that was written |
| CInt.EncodeDecode | vm.h:63-66 | every four operand bytes are the encoding of the `int` `OP_PUSH` reads from them, so the codec is a bijection |
| Tree.Transform | grammer.h:84-99 | `rearrange::transform`; it requires the children to form a chain (operands at even positions, operator leaves between them) and has no contract of its own: `Tree.TransformNestsLeft` and `Grammar.ChainIsExpr` state what it builds |
| Tree.TransformNestsLeft | grammer.h:84-99 | `transform` turns every chain `x0 op1 x1 … opN xN` into `opN(…op1(x0, x1)…, xN)`, and a single-child node into that child |
| Grammar.OpToken | grammer.h:8-17 | an operator rule matches exactly when the first non-blank character is its character; it then consumes input and stops before a non-blank |
| Grammar.OpTokenRun | grammer.h:8-17 | a matched operator token is the whole run of its character, which the next character does not continue, followed only by blanks up to where the token ends |
| Grammar.OpTokenSpan | grammer.h:8-17 | what an operator rule consumes is only blanks and copies of its character |
| Grammar.Punct | grammer.h:28-32 | a parenthesis rule matches exactly when the first non-blank character is that parenthesis; it then consumes input and all the blanks after the parenthesis, stopping before a non-blank or at the end |
| Grammar.PunctConsumesOne | grammer.h:28-32 | a parenthesis rule consumes exactly one copy of the parenthesis |
| Grammar.ParseInteger | grammer.h:19-20 | `integer` matches exactly when a digit comes next and yields the longest run of digits as an unpadded leaf |
| Grammar.ParseIdentifier | grammer.h:22-26 | `identifier` matches exactly when a letter comes next and yields the longest run of letters, digits and `_` as a leaf |
| Grammar.MulOp | grammer.h:43 | `sor<multiply, divide>` matches exactly when the first non-blank character is `*` or `/`; the token's kind is that character's operator and it ends where that character's operator rule ends |
| Grammar.AddOp | grammer.h:46 | `sor<plus, minus>` matches exactly when the first non-blank character is `+` or `-`; the token's kind is that character's operator and it ends where that character's operator rule ends |
| Grammar.ParseParenth | grammer.h:36-38 | `parenth` (an integer, else a parenthesised expression) consumes input and yields a binary arithmetic tree |
| Grammar.ParenthReads | grammer.h:36-38 | `parenth` is the integer when one starts there; otherwise it matches exactly when `(`, an expression and `)` follow one another, and then yields the expression's tree and ends after the `)` |
| Grammar.ParseFactor | grammer.h:40 | `factor` (integer, `parenth`, identifier, in that order) consumes input and yields a binary arithmetic tree |
| Grammar.FactorReads | grammer.h:40 | `factor` is the first of `integer`, `parenth` and, where the grammar has them, `identifier` that matches, with no node of its own |
| Grammar.ParseTerm | grammer.h:42-43 | `term` consumes input and yields a binary arithmetic tree over its factors |
| Grammar.TermReads | grammer.h:42-43 | `term` matches exactly when its first factor does; its tree is the left-nested chain of that factor and the operator-factor pairs read after it, and it ends where they end |
| Grammar.ParseTermTail | grammer.h:43 | the repeated part of `term` yields alternating `*` `/` tokens and operand trees, and never moves backwards |
| Grammar.TermTailReads | grammer.h:43 | the repeated part of `term` reads an operator token and the factor after it, then repeats from the factor's end; it reads nothing and stays put when no such pair starts, and it stops only where no operator followed by a factor comes next |
| Grammar.ParseExpression | grammer.h:45-46 | `expression` consumes input and yields a binary arithmetic tree over its terms |
| Grammar.ExpressionReads | grammer.h:45-48 | `expression`, and `st_exp` under its own name, match exactly when the first term does; the tree is the left-nested chain of that term and the operator-term pairs read after it, and it ends where they end |
| Grammar.ParseExpressionTail | grammer.h:46 | the repeated part of `expression` yields alternating `+` `-` tokens and operand trees, and never moves backwards |
| Grammar.ExpressionTailReads | grammer.h:46 | the repeated part of `expression` reads an operator token and the term after it, then repeats from the term's end; it reads nothing and stays put when no such pair starts, and it stops only where no operator followed by a term comes next |
| Grammar.LeftNestIsExpr | grammer.h:84-99 | left-nesting a chain of well-formed operands under arithmetic tokens gives a tree in which every operator node has exactly two operands |
| Grammar.ChainIsExpr | grammer.h:84-99 | the chain a `term` or `expression` leaves is one `transform` accepts, and what `transform` makes of it is a binary arithmetic tree |
| Grammar.ParseStAssign | grammer.h:50 | `st_assign` matches exactly when an identifier, an `=` token and an expression follow one another; it then yields `assign(identifier, expression)` of exactly those and ends where the expression ends |
| Grammar.ParseStatement | grammer.h:52 | `statement` yields an assignment or an expression: it is `st_assign` whenever that matches, and otherwise `st_exp` read from the same position |
| Grammar.Parse | grammer.h:55 | a line parses exactly when a statement spans the whole of it; the root then has exactly one child, the tree `statement` read from the start of the line, since the `grammar` node gives way to it |
| Calculator.ParseArithmetic | main.cpp:41-42 | a line parses exactly when one `expression` spans it; the root then has exactly one child, the tree `expression` read from the start of the line, since the `grammar` node gives way to it; that tree is an identifier-free binary arithmetic tree |
| Calculator.EvaluateArithmetic | main.cpp:100-135 | `main.cpp`'s `evaluate`; it requires only `Tree.Wf` (a root has a child, every integer literal fits in an `int`) and has no contract of its own: `Calculator.LeftNestEvaluatesLeftToRight`, `Evaluator.EvaluatorsAgree`, `Compiler.CompileThenRun` and the `Samples` values state what it computes |
| Calculator.LeftNestEvaluatesLeftToRight | main.cpp:100-135 | the left-nested tree of a chain evaluates to the chain's value read strictly from left to right (left associativity) |
| Calculator.ExprIsWf | main.cpp:104-105 | a grammar expression whose literals fit in an `int` meets the requires of both evaluators and of `Compile` |
| Evaluator.Evaluate | evaluator.h:9-74 | `evaluator.h`'s `evaluate`, giving the value, the new store and what `print` wrote, or `Undefined` for `%` by zero; it requires only `Tree.Wf` and has no contract of its own: the `Evaluator` lemmas below state what it computes |
| Evaluator.EvaluatorsAgree | evaluator.h:9-46 | on trees without variables, assignments, `%` or `print`, `evaluator.h` gives what `main.cpp` gives, on any store, and leaves the store unchanged |
| Evaluator.OnlyAssignedNamesChange | evaluator.h:51-54 | evaluation writes only the names the tree assigns to and never unbinds a name |
| Evaluator.NoAssignKeepsMemory | evaluator.h:9-74 | a tree without `assign` leaves the store exactly as it was |
| Evaluator.DefinedWithoutModulo | evaluator.h:47-50 | only a `%` can make evaluation undefined: every tree without one has a value |
| Evaluator.AssignThenRead | evaluator.h:16-23 | after `x = e`, which gives 0, reading `x` gives the value of `e` |
| Machine.Encode | vm.h:9-52 | each of the 25 opcodes is stored as a byte below 25, its position in the enumeration; `Decode` inverts it |
| Machine.Decode | vm.h:61 | a byte names an opcode exactly when it is below 25, and then the opcode stored as that byte |
| Machine.Step | vm.h:61-130 | every instruction whose behaviour is defined moves `ip` forward |
| Machine.StepFrame | vm.h:61-130 | one instruction changes the stack depth by at most one and touches nothing below the top two values; memory grows by at most one cell and only `STORE` writes, to the cell it addresses |
| Machine.UnhandledIsNop | vm.h:114-115 | `OP_NOP`, the opcodes without a `case` and bytes naming no opcode move on one byte and change nothing else |
| Machine.StackEffect | vm.h:63-104 | the whole new state after `PUSH` (the decoded operand pushed, four operand bytes skipped), `POP` (the top dropped) and `ADD`, `SUB`, `MUL` (the top two replaced by their sum, difference or product); memory unchanged |
| Machine.GuardedEffect | vm.h:70-126 | the whole new state after `DIV` and `MOD` (by zero only `ip` moves; otherwise the top two are replaced by the truncating quotient or remainder), `STORE` (overwrites the addressed cell, appends when the address is the memory size, otherwise only `ip` moves) and `LOAD` (pushes the addressed cell, otherwise only `ip` moves) |
| Machine.Exec | vm.h:59-133 | `vm::run` as a function: step while `ip` is inside the code, stopping after `OP_HALT`; it requires nothing and has no contract of its own: `Machine.VM.Run`, `Machine.MemoryOnlyGrows`, `Machine.DoneWhere` and `Compiler.RunEmitted` state what it computes |
| Machine.MemoryOnlyGrows | vm.h:70-81 | over a whole run, memory never shrinks |
| Machine.DoneWhere | vm.h:59-133 | a run that finishes ends at the end of the code, one past it, or just after an `OP_HALT` byte |
| Machine.VM.constructor | vm.h:54-57 | a new machine has an empty stack and empty memory |
| Machine.VM.Execute | vm.h:61-130 | one pass of the `switch` updates the stack and memory in place exactly as `Step` says, and reports `OP_HALT` |
| Machine.VM.Run | vm.h:59-133 | `run` returns true, and the final `ip`, stack and memory are those of `Exec`; memory has not shrunk |
| Compiler.DenseSlots | compiler.h:12-20 | while at most 256 names are known, they hold distinct addresses, exactly `0 … n-1` |
| Compiler.AddressesWrapAround | compiler.h:11-16 | the 257th name gets address 0, the address of the first |
| Compiler.CompileState.constructor | compiler.h:9-11 | a fresh state knows no name, and the next address is 0 |
| Compiler.CompileState.GetAddress | compiler.h:12-20 | a known name keeps its address and nothing changes; a new name gets `current`, which moves on by one modulo 256; the slot table stays consistent |
| Compiler.CodeBuffer.AppendOp | compiler.h:23 | appends one byte, the opcode, which decodes back to it |
| Compiler.CodeBuffer.AppendNumber | compiler.h:25-28 | appends four bytes that decode back to `num`, the prefix untouched |
| Compiler.CodeBuffer.AppendAddress | compiler.h:30-32 | appends one byte, the address |
| Compiler.OpFor | compiler.h:50-69 | `+ - * /` compile to opcodes 8, 9, 10, 11 (`OP_ADD` … `OP_DIV`) |
| Compiler.Emit | compiler.h:34-79 | the verdict of `compile` and the bytes it appends; it requires only `Tree.Wf` and has no contract of its own: `Compiler.CompileAccepts`, `Compiler.EmitLeaf`, `Compiler.EmitBinary`, `Compiler.Compile` and `Compiler.CompileThenRun` state what it computes |
| Compiler.CompileAccepts | compiler.h:34-79 | `compile` returns true exactly for trees of integer leaves and two-operand `+ - * /` nodes |
| Compiler.CompilableIsArithmetic | compiler.h:34-79 | what `compile` accepts contains nothing only `evaluator.h` knows |
| Compiler.ArithmeticExprCompiles | compiler.h:36-69 | every parse of `main.cpp`'s grammar, bare or under the root, is accepted by `compile` |
| Compiler.Compile | compiler.h:34-79 | `compile` appends the bytes `Emit` gives for the tree, and returns true exactly when `Emit` succeeds |
| Compiler.CompileFresh | compiler.h:81-84 | the two-argument `compile` appends the same bytes and returns the same verdict |
| Compiler.RunPush | vm.h:63-66 | `PUSH v` runs over five bytes and puts `v` on the stack |
| Compiler.RunArithmetic | vm.h:90-113 | the opcode of `+ - * /` replaces the top two values with the evaluator's result, for non-zero divisors |
| Compiler.EmitLeaf | compiler.h:39-43 | an accepted leaf is an integer compiled to `PUSH` and its four-byte literal |
| Compiler.EmitBinary | compiler.h:49-69 | an accepted operator node compiles to left code, right code, then its opcode |
| Compiler.RunEmitted | compiler.h:34-79 | the code of an accepted tree, anywhere in a program, runs to its last byte and pushes the tree's value, memory unchanged |
| Compiler.RunBinary | compiler.h:49-69 | the same for an operator node: left operand, right operand, then the operation |
| Compiler.CompileThenRun | compiler.h:34-79 | on any machine state, compiled code runs to its end, adding exactly the value both evaluators give the tree |
| Compiler.DivisionByZeroDiverges | vm.h:105-113 | `1 / 0` is a tree `compile` accepts and evaluates to 0, but its code runs to its end with both operands still on the machine's stack |
| RoundTrip.FactorOfUnparse | grammer.h:36-46 | `factor` reads the fully parenthesised text of any expression tree, followed by the end, `)` or an operator, as exactly that tree and ends right after it |
| RoundTrip.ParseUnparse | grammer.h:36-55 | the fully parenthesised text of any expression tree over integers and names is a line the grammar accepts, and its only statement is that tree |
| RoundTrip.ParseArithmeticUnparse | main.cpp:29-42 | the fully parenthesised text of any identifier-free expression tree is a line `main.cpp`'s grammar accepts, and the root's child is that tree |
| Samples.PrecedenceSample | main.cpp:33-42 | `2+3*4` parses as `plus(2, multiply(3, 4))` |
| Samples.PrecedenceValue | main.cpp:100-117 | `plus(2, multiply(3, 4))` evaluates to 14 |
| Samples.ParenthesesSample | main.cpp:29-33 | `(2+3)*4` parses as `multiply(plus(2, 3), 4)`: the parentheses leave no node |
| Samples.ParenthesesValue | main.cpp:100-117 | `multiply(plus(2, 3), 4)` evaluates to 20 |
| Samples.AssociativitySample | main.cpp:73-88 | `10-3-2` parses as `minus(minus(10, 3), 2)` |
| Samples.AssociativityValue | main.cpp:100-115 | `minus(minus(10, 3), 2)` evaluates to 5 |
| Samples.RepeatedOperatorSample | grammer.h:8-9 | in `1++2` the run `++` is one `plus` token |
| Samples.AssignmentSample | grammer.h:16-17 | in `a==3` the run `==` is one `assign` token, and the line is `assign(a, 3)` |
| Samples.LoneNameSample | grammer.h:52 | `a` falls back from `st_assign` to `st_exp` and is the variable alone |
| Samples.TrailingBlankSample | grammer.h:55 | `2 ` is rejected: integers are not padded and `eof` must follow |
| Samples.SessionFirstLine | evaluator.h:51-54 | `a=3` in an empty store gives 0 and binds `a` to 3 |
| Samples.SessionSecondLine | evaluator.h:51-54 | `b=4` then gives 0, binds `b` to 4 and keeps `a` |
| Samples.SessionThirdLine | evaluator.h:16-23 | `a*b+1` over that store reads both variables and gives 13, binding nothing more |
| Samples.IdentifierRejectedSample | main.cpp:33 | `main.cpp`'s `factor` has no identifier, so `a` does not parse |

## Left out

- OpToken: its own contract gives when the rule matches and where it stops; that it takes the whole run of its character is stated by `Grammar.OpTokenRun`, so that the existential does not come with every use of the rule.
- ParseTermTail: its own contract gives the shape of what it reads; what it reads and where it stops are stated by `Grammar.TermTailReads`.
- ParseExpressionTail: its own contract gives the shape of what it reads; what it reads and where it stops are stated by `Grammar.ExpressionTailReads`.
- ParseParenth, ParseFactor, ParseTerm, ParseExpression: their own contracts give the shape of the tree; when each matches and which tree it builds are stated by `Grammar.ParenthReads`, `Grammar.FactorReads`, `Grammar.TermReads` and `Grammar.ExpressionReads`, and for every expression tree by `RoundTrip.ParseUnparse`.
- Tree.Transform: modelled on values. The source pops children off a `std::vector` and moves `unique_ptr` ownership in place. The model returns the rewritten tree, so node identity and aliasing are not modelled.
- Tree.Transform requires the operator positions of a chain to hold leaves. The grammar guarantees this; the source does not check it.
- PEGTL itself is not part of this model: the node class, the `selector` machinery, source positions, the error messages of a failed `must`, and the `parse_error` exception. A parse is `Some(tree)` or `None`.
- `std::stoi` throwing `out_of_range` for a literal above `INT_MAX`. `Tree.Wf` excludes such trees from the back ends.
- Signed overflow in `+ - *` and in `INT_MIN / -1`, which is undefined in C++. The model computes on unbounded integers.
- Diagnostics written to `std::cerr`, and the `print_dot` and `std::cout` output of `main()`. The evaluator's `print` output is kept as a list of values.
- `main()`: the read-eval-print loop, `getline`, the quit test and `analyze`.
- The `registers` vector of `struct vm`, which no instruction reads.
- `caller` in `evaluator.h`, whose body is a TODO; it gives 0 like every other unhandled shape.
- The unspecified order in which C++ evaluates the operands of `+ - *`. The model evaluates the left operand first, as it does for `/` and `%`.
- Evaluator.Evaluate: the store passed by reference is threaded through as a value, so its aliasing is not modelled.
- Compiler.Compile: `CompileState` is passed along but never used, as in the source. `GetAddress` is modelled on its own.
- Compiler.OpFor: `OP_PLUS`, `OP_MINUS`, `OP_MULTIPLY` and `OP_DIVIDE` are not declared in `vm.h`. They are read as `OP_ADD`, `OP_SUB`, `OP_MUL` and `OP_DIV`.
- Machine.Step: treats stack underflow and an `OP_PUSH` operand past the end of the code as undefined. It does not guess at what C++ would do there.
- Machine.Decode: reads the code as unsigned bytes. A signed `char` in the source gives the same dispatch, since no opcode is above 127.
