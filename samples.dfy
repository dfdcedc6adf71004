/**
 * Worked inputs: what the two grammars make of a few lines, and what the
 * evaluators give for them. They pin down operator precedence, left
 * associativity, the repeated operator tokens, the assignment-first choice
 * of `statement`, and `must<statement, eof>`.
 *
 * The first group of lemmas unfolds the parser one rule at a time; the
 * samples are then put together from them.
 */
module Samples {
  import opened Wrappers
  import opened CInt
  import opened Tree
  import opened Grammar
  import opened Calculator
  import opened Evaluator

  function Int(s: string): Node { Node(Integer, s, []) }
  function Name(s: string): Node { Node(Identifier, s, []) }
  function Bin(k: Kind, l: Node, r: Node): Node { Node(k, "", [l, r]) }

  /** `Skip` stops exactly at the first character outside the class. */
  lemma SkipTo(s: string, i: nat, cl: CharClass, j: nat)
    requires i <= j <= |s|
    requires forall k | i <= k < j :: InClass(cl, s[k])
    requires j == |s| || !InClass(cl, s[j])
    ensures Skip(s, i, cl) == j
  {
  }

  /** An operator token written as a run of `c` with no whitespace after it. */
  lemma OpRun(s: string, i: nat, c: char, j: nat)
    requires i < j <= |s| && !IsSpace(c)
    requires forall k | i <= k < j :: s[k] == c
    requires j == |s| || (s[j] != c && !IsSpace(s[j]))
    ensures OpToken(s, i, c) == Some(j)
  {
    SkipTo(s, i, Spaces, i);
    SkipTo(s, i + 1, Repeats(c), j);
    SkipTo(s, j, Spaces, j);
  }

  /** No operator token can start where the next non-blank character is not that operator. */
  lemma NoOp(s: string, i: nat, c: char)
    requires i <= |s| && !IsSpace(c)
    requires i == |s| || (!IsSpace(s[i]) && s[i] != c)
    ensures OpToken(s, i, c) == None
  {
    SkipTo(s, i, Spaces, i);
  }

  /** A parenthesis with no whitespace after it. */
  lemma PunctAt(s: string, i: nat, c: char)
    requires i < |s| && s[i] == c && !IsSpace(c)
    requires i + 1 == |s| || !IsSpace(s[i + 1])
    ensures Punct(s, i, c) == Some(i + 1)
  {
    SkipTo(s, i, Spaces, i);
    SkipTo(s, i + 1, Spaces, i + 1);
  }

  /** `( e )` with no whitespace inside or after: `parenth` yields `e` itself. */
  lemma ParenthOf(idents: bool, s: string, i: nat, x: Node, j: nat, k: nat)
    requires i < j <= |s| && ParseInteger(s, i) == None && Punct(s, i, '(') == Some(i + 1)
    requires ParseExpression(Expression, idents, s, i + 1) == Some(Parsed(x, j))
    requires Punct(s, j, ')') == Some(k)
    ensures ParseParenth(idents, s, i) == Some(Parsed(x, k))
  {
  }

  /** A `parenth` match where no integer starts is the factor, with no node of its own. */
  lemma ParenFactor(idents: bool, s: string, i: nat, x: Node, j: nat)
    requires i < |s| && !IsDigit(s[i]) && ParseParenth(idents, s, i) == Some(Parsed(x, j))
    ensures ParseFactor(idents, s, i) == Some(Parsed(x, j))
  {
    assert ParseInteger(s, i) == None;
    TransformSingle(Node(Factor, s[i..j], [x]), x);
  }

  /** A numeral from `i` to `j` is a factor on its own. */
  lemma IntegerFactor(idents: bool, s: string, i: nat, j: nat)
    requires i < j <= |s|
    requires forall k | i <= k < j :: IsDigit(s[k])
    requires j == |s| || !IsDigit(s[j])
    ensures ParseFactor(idents, s, i) == Some(Parsed(Int(s[i..j]), j))
  {
    SkipTo(s, i, Digits, j);
  }

  /** Where no multiplicative operator follows, a term is its first factor. */
  lemma TermOfFactor(idents: bool, s: string, i: nat, x: Node, j: nat)
    requires i <= |s| && ParseFactor(idents, s, i) == Some(Parsed(x, j)) && MulOp(s, j) == None
    ensures ParseTerm(idents, s, i) == Some(Parsed(x, j))
  {
    assert ParseTermTail(idents, s, j) == Tail([], j);
    assert Transform(Node(Term, s[i..j], [x] + [])) == x;
  }

  /** Where no additive operator follows, an expression is its first term. */
  lemma ExpressionOfTerm(rule: Kind, idents: bool, s: string, i: nat, x: Node, j: nat)
    requires i <= |s| && ParseTerm(idents, s, i) == Some(Parsed(x, j)) && AddOp(s, j) == None
    ensures ParseExpression(rule, idents, s, i) == Some(Parsed(x, j))
  {
    assert ParseExpressionTail(idents, s, j) == Tail([], j);
    assert Transform(Node(rule, s[i..j], [x] + [])) == x;
  }

  /** Where neither `*` nor `/` follows, a term is its first factor. */
  lemma SingleTerm(idents: bool, s: string, i: nat, x: Node, j: nat)
    requires i <= |s| && ParseFactor(idents, s, i) == Some(Parsed(x, j))
    requires j == |s| || (!IsSpace(s[j]) && s[j] != '*' && s[j] != '/')
    ensures ParseTerm(idents, s, i) == Some(Parsed(x, j))
  {
    NoOp(s, j, '*');
    NoOp(s, j, '/');
  }

  /** Where neither `+` nor `-` follows, an expression is its first term. */
  lemma SingleExpression(rule: Kind, idents: bool, s: string, i: nat, x: Node, j: nat)
    requires i <= |s| && ParseTerm(idents, s, i) == Some(Parsed(x, j))
    requires j == |s| || (!IsSpace(s[j]) && s[j] != '+' && s[j] != '-')
    ensures ParseExpression(rule, idents, s, i) == Some(Parsed(x, j))
  {
    NoOp(s, j, '+');
    NoOp(s, j, '-');
  }

  /** The rewrite of a chain `x op1 y op2 z`: `op2(op1(x, y), z)`. */
  lemma TransformTriple(n: Node, x: Node, k1: Kind, y: Node, k2: Kind, z: Node)
    requires n.children == [x, Token(k1), y, Token(k2), z]
    ensures IsChain(n.children) && Transform(n) == Bin(k2, Bin(k1, x, y), z)
  {
    var rest := n.(content := "", children := n.children[..3]);
    assert rest.children == [x, Token(k1), y];
    TransformPair(rest, x, k1, y);
  }

  /** A numeral followed by neither `*` nor `/` is a term on its own. */
  lemma NumberTerm(idents: bool, s: string, i: nat, j: nat)
    requires i < j <= |s|
    requires forall k | i <= k < j :: IsDigit(s[k])
    requires j == |s| || (!IsSpace(s[j]) && !IsDigit(s[j]) && s[j] != '*' && s[j] != '/')
    ensures ParseTerm(idents, s, i) == Some(Parsed(Int(s[i..j]), j))
  {
    IntegerFactor(idents, s, i, j);
    SingleTerm(idents, s, i, Int(s[i..j]), j);
  }

  /** `x0 * x1` or `x0 / x1` with nothing multiplicative after it. */
  lemma TermPair(idents: bool, s: string, i: nat, x: Node, j: nat, k: Kind, j2: nat, y: Node, j3: nat)
    requires i <= |s| && ParseFactor(idents, s, i) == Some(Parsed(x, j))
    requires MulOp(s, j) == Some(OpMatch(k, j2))
    requires ParseFactor(idents, s, j2) == Some(Parsed(y, j3))
    requires j3 == |s| || (!IsSpace(s[j3]) && s[j3] != '*' && s[j3] != '/')
    ensures ParseTerm(idents, s, i) == Some(Parsed(Bin(k, x, y), j3))
  {
    TermTailSingle(idents, s, j, k, j2, y, j3);
    var n := Node(Term, s[i..j3], [x, Token(k), y]);
    TransformPair(n, x, k, y);
    assert n.children[1..] == [Token(k), y];
    TermOfTail(idents, s, i, n.children, j, j3);
  }

  /** The term tail `op f` with nothing multiplicative after it. */
  lemma TermTailSingle(idents: bool, s: string, i: nat, k: Kind, j: nat, f: Node, j2: nat)
    requires i <= |s| && MulOp(s, i) == Some(OpMatch(k, j)) && ParseFactor(idents, s, j) == Some(Parsed(f, j2))
    requires j2 == |s| || (!IsSpace(s[j2]) && s[j2] != '*' && s[j2] != '/')
    ensures ParseTermTail(idents, s, i) == Tail([Token(k), f], j2)
  {
    NoOp(s, j2, '*');
    NoOp(s, j2, '/');
    assert ParseTermTail(idents, s, j2) == Tail([], j2);
    PairEnd(Token(k), f);
  }

  /** A term is its first factor followed by its tail, the whole chain `cs` rewritten. */
  lemma TermOfTail(idents: bool, s: string, i: nat, cs: seq<Node>, j: nat, e: nat)
    requires i <= e <= |s| && IsChain(cs)
    requires ParseFactor(idents, s, i) == Some(Parsed(cs[0], j))
    requires ParseTermTail(idents, s, j) == Tail(cs[1..], e)
    ensures ParseTerm(idents, s, i) == Some(Parsed(Transform(Node(Term, s[i..e], cs)), e))
  {
    HeadTail(cs);
  }

  /** A pair with nothing after it. */
  lemma PairEnd(a: Node, b: Node)
    ensures [a, b] + [] == [a, b]
  {
  }

  /** One more `+ t` or `- t` in front of the rest of an expression's tail. */
  lemma TailCons(idents: bool, s: string, i: nat, k: Kind, j: nat, t: Node, j2: nat, rest: seq<Node>, e: nat)
    requires i <= |s| && AddOp(s, i) == Some(OpMatch(k, j))
    requires ParseTerm(idents, s, j) == Some(Parsed(t, j2))
    requires ParseExpressionTail(idents, s, j2) == Tail(rest, e)
    ensures ParseExpressionTail(idents, s, i) == Tail([Token(k), t] + rest, e)
  {
  }

  /** An expression's tail ends where no `+` or `-` follows. */
  lemma ExpressionTailEnd(idents: bool, s: string, i: nat)
    requires i == |s| || (i < |s| && !IsSpace(s[i]) && s[i] != '+' && s[i] != '-')
    ensures ParseExpressionTail(idents, s, i) == Tail([], i)
  {
    NoOp(s, i, '+');
    NoOp(s, i, '-');
  }

  /**
   * An expression is its first term followed by its tail, the whole chain
   * `cs` rewritten.
   */
  lemma ExpressionOfTail(rule: Kind, idents: bool, s: string, i: nat, cs: seq<Node>, j: nat, e: nat)
    requires i <= e <= |s| && IsChain(cs)
    requires ParseTerm(idents, s, i) == Some(Parsed(cs[0], j))
    requires ParseExpressionTail(idents, s, j) == Tail(cs[1..], e)
    ensures ParseExpression(rule, idents, s, i) == Some(Parsed(Transform(Node(rule, s[i..e], cs)), e))
  {
    HeadTail(cs);
  }

  /** A non-empty sequence is its head followed by its tail. */
  lemma HeadTail(cs: seq<Node>)
    requires |cs| > 0
    ensures [cs[0]] + cs[1..] == cs
  {
  }

  /** The tail `op t` with nothing additive after it. */
  lemma TailSingle(idents: bool, s: string, i: nat, k: Kind, j: nat, t: Node, j2: nat)
    requires i <= |s| && AddOp(s, i) == Some(OpMatch(k, j)) && ParseTerm(idents, s, j) == Some(Parsed(t, j2))
    requires j2 == |s| || (!IsSpace(s[j2]) && s[j2] != '+' && s[j2] != '-')
    ensures ParseExpressionTail(idents, s, i) == Tail([Token(k), t], j2)
  {
    ExpressionTailEnd(idents, s, j2);
    TailCons(idents, s, i, k, j, t, j2, [], j2);
    PairEnd(Token(k), t);
  }

  /** The tail `op1 t1 op2 t2` with nothing additive after it. */
  lemma TailPair(idents: bool, s: string, i: nat, k1: Kind, j: nat, y: Node, j2: nat, k2: Kind, j3: nat, z: Node, j4: nat)
    requires i <= |s| && AddOp(s, i) == Some(OpMatch(k1, j)) && ParseTerm(idents, s, j) == Some(Parsed(y, j2))
    requires AddOp(s, j2) == Some(OpMatch(k2, j3)) && ParseTerm(idents, s, j3) == Some(Parsed(z, j4))
    requires j4 == |s| || (!IsSpace(s[j4]) && s[j4] != '+' && s[j4] != '-')
    ensures ParseExpressionTail(idents, s, i) == Tail([Token(k1), y, Token(k2), z], j4)
  {
    TailSingle(idents, s, j2, k2, j3, z, j4);
    TailCons(idents, s, i, k1, j, y, j2, [Token(k2), z], j4);
    PairsJoin(Token(k1), y, Token(k2), z);
  }

  /** Two pairs joined are the four nodes in order. */
  lemma PairsJoin(a: Node, b: Node, c: Node, d: Node)
    ensures [a, b] + [c, d] == [a, b, c, d]
  {
  }

  /** `x0 + x1` or `x0 - x1` with nothing additive after it. */
  lemma ExpressionPair(rule: Kind, idents: bool, s: string, i: nat, x: Node, j: nat, k: Kind, j2: nat, y: Node, j3: nat)
    requires i <= |s| && ParseTerm(idents, s, i) == Some(Parsed(x, j))
    requires AddOp(s, j) == Some(OpMatch(k, j2))
    requires ParseTerm(idents, s, j2) == Some(Parsed(y, j3))
    requires j3 == |s| || (!IsSpace(s[j3]) && s[j3] != '+' && s[j3] != '-')
    ensures ParseExpression(rule, idents, s, i) == Some(Parsed(Bin(k, x, y), j3))
  {
    TailSingle(idents, s, j, k, j2, y, j3);
    var n := Node(rule, s[i..j3], [x, Token(k), y]);
    TransformPair(n, x, k, y);
    assert n.children[1..] == [Token(k), y];
    ExpressionOfTail(rule, idents, s, i, n.children, j, j3);
  }

  /** `x0 op1 x1 op2 x2` with additive operators and nothing additive after it. */
  lemma ExpressionTriple(rule: Kind, idents: bool, s: string, i: nat, x: Node, j: nat, k1: Kind, j2: nat, y: Node, j3: nat,
                         k2: Kind, j4: nat, z: Node, j5: nat)
    requires i <= |s| && ParseTerm(idents, s, i) == Some(Parsed(x, j))
    requires AddOp(s, j) == Some(OpMatch(k1, j2)) && ParseTerm(idents, s, j2) == Some(Parsed(y, j3))
    requires AddOp(s, j3) == Some(OpMatch(k2, j4)) && ParseTerm(idents, s, j4) == Some(Parsed(z, j5))
    requires j5 == |s| || (!IsSpace(s[j5]) && s[j5] != '+' && s[j5] != '-')
    ensures ParseExpression(rule, idents, s, i) == Some(Parsed(Bin(k2, Bin(k1, x, y), z), j5))
  {
    TailPair(idents, s, j, k1, j2, y, j3, k2, j4, z, j5);
    var n := Node(rule, s[i..j5], [x, Token(k1), y, Token(k2), z]);
    TransformTriple(n, x, k1, y, k2, z);
    assert n.children[1..] == [Token(k1), y, Token(k2), z];
    ExpressionOfTail(rule, idents, s, i, n.children, j, j5);
  }

  /** An integer leaf is well formed and evaluates to its numeral's value. */
  lemma IntValue(d: string, v: nat)
    requires IsNumeral(d) && NumeralValue(d) == v <= INT_MAX
    ensures Wf(Int(d)) && EvaluateArithmetic(Int(d)) == v
  {
  }

  /** An operator node over two well-formed operands applies the operator to their values. */
  lemma BinValue(k: Kind, x: Node, y: Node)
    requires IsArithmetic(k) && Wf(x) && Wf(y)
    ensures Wf(Bin(k, x, y)) && EvaluateArithmetic(Bin(k, x, y)) == Apply(k, EvaluateArithmetic(x), EvaluateArithmetic(y))
  {
    assert Bin(k, x, y).children == [x, y];
  }

  /** The root over a single expression has that expression's value. */
  lemma RootValue(x: Node)
    requires Wf(x)
    ensures Wf(Node(Root, "", [x])) && EvaluateArithmetic(Node(Root, "", [x])) == EvaluateArithmetic(x)
  {
  }

  /** The characters of `2+3*4`. */
  predicate PrecedenceChars(s: string) {
    && |s| == 5 && IsDigit(s[0]) && s[1] == '+' && IsDigit(s[2]) && s[3] == '*' && IsDigit(s[4])
    && s[0..1] == "2" && s[2..3] == "3" && s[4..5] == "4"
  }

  lemma PrecedenceText(s: string)
    requires s == "2+3*4"
    ensures PrecedenceChars(s)
  {
  }

  /** `3*4`, the right operand of `+` in `2+3*4`. */
  lemma PrecedenceProduct(s: string)
    requires PrecedenceChars(s)
    ensures ParseTerm(false, s, 2) == Some(Parsed(Bin(Multiply, Int("3"), Int("4")), 5))
  {
    IntegerFactor(false, s, 2, 3);
    OpRun(s, 3, '*', 4);
    IntegerFactor(false, s, 4, 5);
    TermPair(false, s, 2, Int("3"), 3, Multiply, 4, Int("4"), 5);
  }

  /** `2+3*4` parsed up to the rewritten expression: the product binds tighter. */
  lemma PrecedenceTree(s: string)
    requires PrecedenceChars(s)
    ensures ParseExpression(Expression, false, s, 0) ==
      Some(Parsed(Bin(Plus, Int("2"), Bin(Multiply, Int("3"), Int("4"))), 5))
  {
    NumberTerm(false, s, 0, 1);
    OpRun(s, 1, '+', 2);
    PrecedenceProduct(s);
    ExpressionPair(Expression, false, s, 0, Int("2"), 1, Plus, 2, Bin(Multiply, Int("3"), Int("4")), 5);
  }

  /** Precedence: main.cpp reads `2+3*4` as `plus(2, multiply(3, 4))`. */
  lemma PrecedenceSample(s: string)
    requires s == "2+3*4"
    ensures ParseArithmetic(s) ==
      Some(Node(Root, "", [Bin(Plus, Int("2"), Bin(Multiply, Int("3"), Int("4")))]))
  {
    PrecedenceText(s);
    PrecedenceTree(s);
  }

  /** `plus(2, multiply(3, 4))` evaluates to 14. */
  lemma PrecedenceValue()
    ensures var t := Node(Root, "", [Bin(Plus, Int("2"), Bin(Multiply, Int("3"), Int("4")))]);
      Wf(t) && EvaluateArithmetic(t) == 14
  {
    var m := Bin(Multiply, Int("3"), Int("4"));
    IntValue("2", 2);
    IntValue("3", 3);
    IntValue("4", 4);
    BinValue(Multiply, Int("3"), Int("4"));
    BinValue(Plus, Int("2"), m);
    RootValue(Bin(Plus, Int("2"), m));
  }

  /** The characters of `(2+3)*4`. */
  predicate ParenthesesChars(s: string) {
    && |s| == 7 && s[0] == '(' && IsDigit(s[1]) && s[2] == '+' && IsDigit(s[3]) && s[4] == ')'
    && s[5] == '*' && IsDigit(s[6])
    && s[1..2] == "2" && s[3..4] == "3" && s[6..7] == "4"
  }

  lemma ParenthesesText(s: string)
    requires s == "(2+3)*4"
    ensures ParenthesesChars(s)
  {
  }

  /** `2+3` inside the parentheses of `(2+3)*4`. */
  lemma InnerSum(s: string)
    requires ParenthesesChars(s)
    ensures ParseExpression(Expression, false, s, 1) == Some(Parsed(Bin(Plus, Int("2"), Int("3")), 4))
  {
    NumberTerm(false, s, 1, 2);
    OpRun(s, 2, '+', 3);
    NumberTerm(false, s, 3, 4);
    ExpressionPair(Expression, false, s, 1, Int("2"), 2, Plus, 3, Int("3"), 4);
  }

  /** `(2+3)`, the left operand of `*` in `(2+3)*4`: the parentheses leave no node. */
  lemma ParenthesisedSum(s: string)
    requires ParenthesesChars(s)
    ensures ParseFactor(false, s, 0) == Some(Parsed(Bin(Plus, Int("2"), Int("3")), 5))
  {
    InnerSum(s);
    PunctAt(s, 0, '(');
    PunctAt(s, 4, ')');
    ParenthOf(false, s, 0, Bin(Plus, Int("2"), Int("3")), 4, 5);
    ParenFactor(false, s, 0, Bin(Plus, Int("2"), Int("3")), 5);
  }

  /** `(2+3)*4` as a term. */
  lemma ProductOfSum(s: string)
    requires ParenthesesChars(s)
    ensures ParseTerm(false, s, 0) == Some(Parsed(Bin(Multiply, Bin(Plus, Int("2"), Int("3")), Int("4")), 7))
  {
    ParenthesisedSum(s);
    OpRun(s, 5, '*', 6);
    IntegerFactor(false, s, 6, 7);
    TermPair(false, s, 0, Bin(Plus, Int("2"), Int("3")), 5, Multiply, 6, Int("4"), 7);
  }

  /** `(2+3)*4`: the parentheses make the sum a factor. */
  lemma ParenthesesSample(s: string)
    requires s == "(2+3)*4"
    ensures ParseArithmetic(s) ==
      Some(Node(Root, "", [Bin(Multiply, Bin(Plus, Int("2"), Int("3")), Int("4"))]))
  {
    ParenthesesText(s);
    ProductOfSum(s);
    SingleExpression(Expression, false, s, 0, Bin(Multiply, Bin(Plus, Int("2"), Int("3")), Int("4")), 7);
  }

  /** `multiply(plus(2, 3), 4)` evaluates to 20. */
  lemma ParenthesesValue()
    ensures var t := Node(Root, "", [Bin(Multiply, Bin(Plus, Int("2"), Int("3")), Int("4"))]);
      Wf(t) && EvaluateArithmetic(t) == 20
  {
    var p := Bin(Plus, Int("2"), Int("3"));
    IntValue("2", 2);
    IntValue("3", 3);
    IntValue("4", 4);
    BinValue(Plus, Int("2"), Int("3"));
    BinValue(Multiply, p, Int("4"));
    RootValue(Bin(Multiply, p, Int("4")));
  }

  /** The characters of `10-3-2`. */
  predicate SubtractionChars(s: string) {
    && |s| == 6 && IsDigit(s[0]) && IsDigit(s[1]) && s[2] == '-' && IsDigit(s[3]) && s[4] == '-' && IsDigit(s[5])
    && s[0..2] == "10" && s[3..4] == "3" && s[5..6] == "2"
  }

  lemma SubtractionText(s: string)
    requires s == "10-3-2"
    ensures SubtractionChars(s)
  {
  }

  /** The three terms of `10-3-2`. */
  lemma SubtractionTerms(s: string)
    requires SubtractionChars(s)
    ensures ParseTerm(false, s, 0) == Some(Parsed(Int("10"), 2))
    ensures ParseTerm(false, s, 3) == Some(Parsed(Int("3"), 4))
    ensures ParseTerm(false, s, 5) == Some(Parsed(Int("2"), 6))
  {
    NumberTerm(false, s, 0, 2);
    NumberTerm(false, s, 3, 4);
    NumberTerm(false, s, 5, 6);
  }

  /** The two operators of `10-3-2`: `+` is tried first and fails. */
  lemma SubtractionOperators(s: string)
    requires SubtractionChars(s)
    ensures AddOp(s, 2) == Some(OpMatch(Minus, 3)) && AddOp(s, 4) == Some(OpMatch(Minus, 5))
  {
    OpRun(s, 2, '-', 3);
    NoOp(s, 2, '+');
    OpRun(s, 4, '-', 5);
    NoOp(s, 4, '+');
  }

  /** Left associativity: `10-3-2` is `(10-3)-2`. */
  lemma AssociativitySample(s: string)
    requires s == "10-3-2"
    ensures ParseArithmetic(s) ==
      Some(Node(Root, "", [Bin(Minus, Bin(Minus, Int("10"), Int("3")), Int("2"))]))
  {
    SubtractionText(s);
    SubtractionTerms(s);
    SubtractionOperators(s);
    ExpressionTriple(Expression, false, s, 0, Int("10"), 2, Minus, 3, Int("3"), 4, Minus, 5, Int("2"), 6);
  }

  /** `minus(minus(10, 3), 2)` evaluates to 5. */
  lemma AssociativityValue()
    ensures var t := Node(Root, "", [Bin(Minus, Bin(Minus, Int("10"), Int("3")), Int("2"))]);
      Wf(t) && EvaluateArithmetic(t) == 5
  {
    var d := Bin(Minus, Int("10"), Int("3"));
    IntValue("10", 10) by {
      assert "10"[..1] == "1";
    }
    IntValue("3", 3);
    IntValue("2", 2);
    BinValue(Minus, Int("10"), Int("3"));
    BinValue(Minus, d, Int("2"));
    RootValue(Bin(Minus, d, Int("2")));
  }

  /** A statement that is not an assignment: the line is read as an `st_exp`. */
  lemma ExpressionStatement(s: string, x: Node, j: nat)
    requires ParseStAssign(s, 0) == None && ParseExpression(StExp, true, s, 0) == Some(Parsed(x, j))
    ensures ParseStatement(s, 0) == Some(Parsed(x, j))
  {
  }

  /** The characters of `1++2`. */
  predicate RepeatedOperatorChars(s: string) {
    && |s| == 4 && IsDigit(s[0]) && s[1] == '+' && s[2] == '+' && IsDigit(s[3])
    && s[0..1] == "1" && s[3..4] == "2"
  }

  lemma RepeatedOperatorText(s: string)
    requires s == "1++2"
    ensures RepeatedOperatorChars(s)
  {
  }

  /** `1++2` as an `st_exp`. */
  lemma RepeatedOperatorExpression(s: string)
    requires RepeatedOperatorChars(s)
    ensures ParseExpression(StExp, true, s, 0) == Some(Parsed(Bin(Plus, Int("1"), Int("2")), 4))
  {
    NumberTerm(true, s, 0, 1);
    OpRun(s, 1, '+', 3);
    NumberTerm(true, s, 3, 4);
    ExpressionPair(StExp, true, s, 0, Int("1"), 1, Plus, 3, Int("2"), 4);
  }

  /** `1++2`: a run of `+` is one `plus` token, so the line is an addition. */
  lemma RepeatedOperatorSample(s: string)
    requires s == "1++2"
    ensures Parse(s) == Some(Node(Root, "", [Bin(Plus, Int("1"), Int("2"))]))
  {
    var t := Bin(Plus, Int("1"), Int("2"));
    RepeatedOperatorText(s);
    RepeatedOperatorExpression(s);
    assert ParseStAssign(s, 0) == None;
    ExpressionStatement(s, t, 4);
  }

  /** The characters of `a==3`. */
  predicate AssignmentChars(s: string) {
    && |s| == 4 && s[0] == 'a' && s[1] == '=' && s[2] == '=' && IsDigit(s[3])
    && s[0..1] == "a" && s[3..4] == "3"
  }

  lemma AssignmentText(s: string)
    requires s == "a==3"
    ensures AssignmentChars(s)
  {
  }

  /** `a==3` as an `st_assign`. */
  lemma AssignmentStatement(s: string)
    requires AssignmentChars(s)
    ensures ParseStAssign(s, 0) == Some(Parsed(Bin(Assign, Name("a"), Int("3")), 4))
  {
    SkipTo(s, 1, NameChars, 1);
    OpRun(s, 1, '=', 3);
    NumberTerm(true, s, 3, 4);
    SingleExpression(Expression, true, s, 3, Int("3"), 4);
    TransformPair(Node(StAssign, s[0..4], [Name("a"), Token(Assign), Int("3")]), Name("a"), Assign, Int("3"));
  }

  /** `a==3`: a run of `=` is one `assign` token, so the line is `assign(a, 3)`. */
  lemma AssignmentSample(s: string)
    requires s == "a==3"
    ensures Parse(s) == Some(Node(Root, "", [Bin(Assign, Name("a"), Int("3"))]))
  {
    AssignmentText(s);
    AssignmentStatement(s);
  }

  /**
   * `a`: the assignment is tried first and fails for want of `=`; the
   * statement then falls back to an expression, the variable on its own.
   */
  lemma LoneNameSample(s: string)
    requires s == "a"
    ensures Parse(s) == Some(Node(Root, "", [Name("a")]))
  {
    assert ParseIdentifier(s, 0) == Some(Parsed(Name("a"), 1)) by {
      SkipTo(s, 1, NameChars, 1);
      assert s[0..1] == "a";
    }
    assert ParseStAssign(s, 0) == None by {
      NoOp(s, 1, '=');
    }
    assert ParseFactor(true, s, 0) == Some(Parsed(Name("a"), 1)) by {
      assert ParseInteger(s, 0) == None;
      assert ParseParenth(true, s, 0) == None by {
        assert ParseInteger(s, 0) == None;
        assert Punct(s, 0, '(') == None by {
          SkipTo(s, 0, Spaces, 0);
        }
      }
    }
    SingleTerm(true, s, 0, Name("a"), 1);
    SingleExpression(StExp, true, s, 0, Name("a"), 1);
    ExpressionStatement(s, Name("a"), 1);
  }

  /**
   * `must<statement, eof>`: `2 ` is rejected, because an integer is not
   * padded and nothing in the grammar consumes the trailing blank.
   */
  lemma TrailingBlankSample(s: string)
    requires s == "2 "
    ensures Parse(s) == None
  {
    assert ParseStAssign(s, 0) == None;
    assert ParseFactor(true, s, 0) == Some(Parsed(Int("2"), 1)) by {
      IntegerFactor(true, s, 0, 1);
      assert s[0..1] == "2";
    }
    assert MulOp(s, 1) == None by {
      SkipTo(s, 1, Spaces, 2);
    }
    assert AddOp(s, 1) == None by {
      SkipTo(s, 1, Spaces, 2);
    }
    TermOfFactor(true, s, 0, Int("2"), 1);
    ExpressionOfTerm(StExp, true, s, 0, Int("2"), 1);
    ExpressionStatement(s, Int("2"), 1);
  }

  /*
   * A session with evaluator.h, the store carried from line to line:
   * `a = 3`, then `b = 4`, then `a*b+1`.
   */

  /** `a = 3` in an empty store binds `a` to 3 and gives 0. */
  lemma SessionFirstLine()
    ensures Evaluate(Bin(Assign, Name("a"), Int("3")), map[]) == Value(0, map["a" := 3], [])
  {
    assert NumeralValue("3") == 3 && Wf(Int("3"));
  }

  /** `b = 4` then binds `b` to 4 and keeps `a`. */
  lemma SessionSecondLine()
    ensures Evaluate(Bin(Assign, Name("b"), Int("4")), map["a" := 3]) == Value(0, map["a" := 3, "b" := 4], [])
  {
    assert NumeralValue("4") == 4 && Wf(Int("4"));
  }

  /** `a*b+1` then reads both variables, gives 13 and binds nothing more. */
  lemma SessionThirdLine()
    ensures Evaluate(Bin(Plus, Bin(Multiply, Name("a"), Name("b")), Int("1")), map["a" := 3, "b" := 4]) ==
      Value(13, map["a" := 3, "b" := 4], [])
  {
    var m: Memory := map["a" := 3, "b" := 4];
    assert NumeralValue("1") == 1 && Wf(Int("1"));
    assert Evaluate(Bin(Multiply, Name("a"), Name("b")), m) == Value(12, m, []);
  }

  /** main.cpp's grammar has no `identifier` rule: a line naming a variable is rejected. */
  lemma IdentifierRejectedSample(s: string)
    requires s == "a"
    ensures ParseArithmetic(s) == None
  {
    assert ParseInteger(s, 0) == None;
    assert ParseParenth(false, s, 0) == None by {
      assert ParseInteger(s, 0) == None;
      assert Punct(s, 0, '(') == None by {
        SkipTo(s, 0, Spaces, 0);
      }
    }
    assert ParseFactor(false, s, 0) == None;
    assert ParseTerm(false, s, 0) == None;
    assert ParseExpression(Expression, false, s, 0) == None;
  }
}
