/**
 * The parser against an independent reference: `Unparse` writes an
 * expression tree back as text with every operator application in
 * parentheses, and reading that text with either grammar gives back the
 * same tree, consuming all of it. Since the text is fully parenthesised,
 * this pins down which tree each parser builds for every expression, not
 * only for the worked samples.
 */
module RoundTrip {
  import opened Wrappers
  import opened Tree
  import opened Grammar
  import opened Calculator
  import opened Samples

  /** A character an operand's text can start with: a digit, a letter or `(`. */
  predicate StartsOperand(c: char) {
    IsDigit(c) || IsLetter(c) || c == '('
  }

  /** `l op r` is written `(l op r)`; a leaf is written as its text. */
  function Unparse(n: Node): (u: string)
    ensures IsExpr(n, true) ==> |u| > 0 && StartsOperand(u[0])
    decreases n
  {
    if n.children == [] then n.content
    else if |n.children| == 2 && IsArithmetic(n.kind) then
      "(" + Unparse(n.children[0]) + [OpChar(n.kind)] + Unparse(n.children[1]) + ")"
    else ""
  }

  /** The parser leaves no text in operator nodes: only leaves carry content. */
  predicate Bare(n: Node) {
    && (n.children != [] ==> n.content == "")
    && forall c | c in n.children :: Bare(c)
  }

  /** What may follow an operand in the unparsed text: the end, `)` or an operator. */
  predicate Closes(s: string, j: nat) {
    j == |s| || (j < |s| && s[j] in {')', '+', '-', '*', '/'})
  }

  /** `u` is written in `s` from position `i` on. */
  predicate WrittenAt(s: string, i: nat, u: string) {
    i + |u| <= |s| && forall k {:trigger u[k]} | 0 <= k < |u| :: s[i + k] == u[k]
  }

  /** What is written from `i` to `i + |u|` is the slice of `s` there. */
  lemma WrittenSlice(s: string, i: nat, u: string)
    requires WrittenAt(s, i, u)
    ensures s[i..i + |u|] == u
  {
    assert forall k | 0 <= k < |u| :: s[i..i + |u|][k] == u[k];
  }

  /** A leaf's text, followed by what `Closes` allows, is read by `factor` as that leaf. */
  lemma LeafOfUnparse(idents: bool, n: Node, s: string, i: nat)
    requires IsExpr(n, idents) && n.children == []
    requires WrittenAt(s, i, n.content) && Closes(s, i + |n.content|)
    ensures ParseFactor(idents, s, i) == Some(Parsed(n, i + |n.content|))
  {
    var e := i + |n.content|;
    WrittenSlice(s, i, n.content);
    if n.kind == Integer {
      IntegerLeaf(idents, n, s, i, e);
    } else {
      IdentifierLeaf(idents, n, s, i, e);
    }
  }

  /** A numeral, followed by what `Closes` allows, is read by `factor` as its leaf. */
  lemma IntegerLeaf(idents: bool, n: Node, s: string, i: nat, e: nat)
    requires n.kind == Integer && n.children == [] && IsNumeral(n.content)
    requires e == i + |n.content| && e <= |s| && s[i..e] == n.content && Closes(s, e)
    ensures ParseFactor(idents, s, i) == Some(Parsed(n, e))
  {
    forall k | i <= k < e ensures IsDigit(s[k]) {
      assert s[k] == n.content[k - i];
    }
    IntegerFactor(idents, s, i, e);
    assert n == Int(n.content);
  }

  /** A name, followed by what `Closes` allows, is read by `factor` as its leaf. */
  lemma IdentifierLeaf(idents: bool, n: Node, s: string, i: nat, e: nat)
    requires idents && n.kind == Identifier && n.children == [] && IsName(n.content)
    requires e == i + |n.content| && e <= |s| && s[i..e] == n.content && Closes(s, e)
    ensures ParseFactor(idents, s, i) == Some(Parsed(n, e))
  {
    forall k | i + 1 <= k < e ensures InClass(NameChars, s[k]) {
      assert s[k] == n.content[k - i];
    }
    assert IsLetter(s[i]) by {
      assert s[i] == n.content[0];
    }
    SkipTo(s, i, Spaces, i);
    assert ParseParenth(idents, s, i) == None;
    SkipTo(s, i + 1, NameChars, e);
    assert ParseIdentifier(s, i) == Some(Parsed(n, e));
    TransformSingle(Node(Factor, s[i..e], [n]), n);
  }

  /**
   * The tokens around and between the operands of `(l op r)`: an opening
   * parenthesis at `i` that is not an integer, a one-character operator at
   * `p1`, and a closing parenthesis at `p2` after which no operator token
   * starts.
   */
  predicate BinaryTokens(s: string, i: nat, p1: nat, q: nat, k: Kind, p2: nat, e: nat)
    requires i < p1 < p2 < |s| && q == p1 + 1 && e == p2 + 1 && IsArithmetic(k)
  {
    && ParseInteger(s, i) == None && Punct(s, i, '(') == Some(i + 1)
    && (k in {Multiply, Divide} ==> MulOp(s, p1) == Some(OpMatch(k, q)))
    && (k in {Plus, Minus} ==> AddOp(s, p1) == Some(OpMatch(k, q)) && MulOp(s, p1) == None)
    && Punct(s, p2, ')') == Some(e) && MulOp(s, p2) == None && AddOp(s, p2) == None
  }

  /** The length of `Unparse(n)`, computed on the tree. */
  function Width(n: Node): nat
    decreases n
  {
    if n.children == [] then |n.content|
    else if |n.children| == 2 && IsArithmetic(n.kind) then
      Width(n.children[0]) + Width(n.children[1]) + 3
    else 0
  }

  /** `Width` is the length of the text. */
  lemma {:induction false} WidthIsLength(n: Node)
    ensures Width(n) == |Unparse(n)|
    decreases n
  {
    if n.children != [] && |n.children| == 2 && IsArithmetic(n.kind) {
      WidthIsLength(n.children[0]);
      WidthIsLength(n.children[1]);
    }
  }

  /**
   * `n`'s text sits in `s` from `i` on as the tokenizer sees it: a leaf's
   * characters followed by what `Closes` allows, or the tokens of
   * `(l op r)` with `l` and `r` fitting in between.
   */
  predicate Fits(n: Node, s: string, i: nat)
    decreases n
  {
    if n.children == [] then
      WrittenAt(s, i, n.content) && Closes(s, i + |n.content|)
    else
      && |n.children| == 2 && IsArithmetic(n.kind) && i + Width(n) <= |s|
      && s[i] == '(' && StartsOperand(s[i + 1])
      && s[i + 1 + Width(n.children[0])] == OpChar(n.kind) && StartsOperand(s[i + 2 + Width(n.children[0])])
      && s[i + Width(n) - 1] == ')' && Closes(s, i + Width(n))
      && Fits(n.children[0], s, i + 1)
      && Fits(n.children[1], s, i + 2 + Width(n.children[0]))
  }

  /** A one-character operator followed by the start of an operand is its token. */
  lemma OperatorAt(s: string, p1: nat, q: nat, k: Kind)
    requires q == p1 + 1 && q < |s| && IsArithmetic(k)
    requires s[p1] == OpChar(k) && StartsOperand(s[q])
    ensures k in {Multiply, Divide} ==> MulOp(s, p1) == Some(OpMatch(k, q))
    ensures k in {Plus, Minus} ==> AddOp(s, p1) == Some(OpMatch(k, q)) && MulOp(s, p1) == None
  {
    SkipTo(s, p1, Spaces, p1);
    OpRun(s, p1, OpChar(k), q);
  }

  /** A closing parenthesis followed by what `Closes` allows: no operator token follows it. */
  lemma CloseAt(s: string, p2: nat, e: nat)
    requires e == p2 + 1 && p2 < |s| && s[p2] == ')' && Closes(s, e)
    ensures Punct(s, p2, ')') == Some(e) && MulOp(s, p2) == None && AddOp(s, p2) == None
  {
    PunctAt(s, p2, ')');
    NoOp(s, p2, '*');
    NoOp(s, p2, '/');
    NoOp(s, p2, '+');
    NoOp(s, p2, '-');
  }

  /** The characters of `(l op r)` make its tokens. */
  lemma TokensOfChars(s: string, i: nat, p1: nat, q: nat, k: Kind, p2: nat, e: nat)
    requires i < p1 < p2 < |s| && IsArithmetic(k) && q == p1 + 1 && e == p2 + 1
    requires s[i] == '(' && StartsOperand(s[i + 1])
    requires s[p1] == OpChar(k) && StartsOperand(s[q])
    requires s[p2] == ')' && Closes(s, e)
    ensures BinaryTokens(s, i, p1, q, k, p2, e)
  {
    PunctAt(s, i, '(');
    OperatorAt(s, p1, q, k);
    CloseAt(s, p2, e);
  }

  /** `l * r` or `l / r`, with no operator after it. */
  lemma ProductInside(idents: bool, s: string, i: nat, l: Node, p1: nat, q: nat, k: Kind, r: Node, p2: nat)
    requires i <= p1 < p2 <= |s| && q == p1 + 1 && MulOp(s, p1) == Some(OpMatch(k, q))
    requires MulOp(s, p2) == None && AddOp(s, p2) == None
    requires ParseFactor(idents, s, i) == Some(Parsed(l, p1))
    requires ParseFactor(idents, s, q) == Some(Parsed(r, p2))
    ensures ExpressionReadsAs(idents, s, i, Bin(k, l, r), p2)
  {
    assert ParseTermTail(idents, s, p2) == Tail([], p2);
    assert ParseTermTail(idents, s, p1) == Tail([Token(k), r] + [], p2);
    PairEnd(Token(k), r);
    var n := Node(Term, s[i..p2], [l, Token(k), r]);
    TransformPair(n, l, k, r);
    TermOfTail(idents, s, i, n.children, p1, p2);
    ExpressionOfTerm(Expression, idents, s, i, Bin(k, l, r), p2);
  }

  /** `l + r` or `l - r`, with no operator after it. */
  lemma SumInside(idents: bool, s: string, i: nat, l: Node, p1: nat, q: nat, k: Kind, r: Node, p2: nat)
    requires i <= p1 < p2 <= |s| && q == p1 + 1 && AddOp(s, p1) == Some(OpMatch(k, q)) && MulOp(s, p1) == None
    requires MulOp(s, p2) == None && AddOp(s, p2) == None
    requires ParseFactor(idents, s, i) == Some(Parsed(l, p1))
    requires ParseFactor(idents, s, q) == Some(Parsed(r, p2))
    ensures ExpressionReadsAs(idents, s, i, Bin(k, l, r), p2)
  {
    TermOfFactor(idents, s, i, l, p1);
    TermOfFactor(idents, s, q, r, p2);
    assert ParseExpressionTail(idents, s, p2) == Tail([], p2);
    TailCons(idents, s, p1, k, q, r, p2, [], p2);
    PairEnd(Token(k), r);
    var n := Node(Expression, s[i..p2], [l, Token(k), r]);
    TransformPair(n, l, k, r);
    ExpressionOfTail(Expression, idents, s, i, n.children, p1, p2);
  }

  /** `( e )` is read by `factor` as `e`'s tree. */
  lemma ParenthesisedFactor(idents: bool, s: string, i: nat, x: Node, p2: nat, e: nat)
    requires i < p2 < |s| && e == p2 + 1 && ParseInteger(s, i) == None && Punct(s, i, '(') == Some(i + 1)
    requires Punct(s, p2, ')') == Some(e)
    requires ExpressionReadsAs(idents, s, i + 1, x, p2)
    ensures ParseFactor(idents, s, i) == Some(Parsed(x, e))
  {
    ParenthOf(idents, s, i, x, p2, e);
    TransformSingle(Node(Factor, s[i..e], [x]), x);
  }

  /** `expression` reads `n` from `i` to `e`. */
  predicate ExpressionReadsAs(idents: bool, s: string, i: nat, n: Node, e: nat)
    requires i <= |s|
  {
    ParseExpression(Expression, idents, s, i) == Some(Parsed(n, e))
  }

  /** `factor` reads `n` from `i` to `e`. */
  predicate FactorReadsAs(idents: bool, s: string, i: nat, n: Node, e: nat)
    requires i <= |s|
  {
    ParseFactor(idents, s, i) == Some(Parsed(n, e))
  }

  /** `(l * r)` or `(l / r)` is read by `factor` as that product. */
  lemma ProductFactor(idents: bool, s: string, i: nat, l: Node, p1: nat, q: nat, k: Kind, r: Node, p2: nat, e: nat)
    requires i < p1 < p2 < |s| && q == p1 + 1 && e == p2 + 1
    requires ParseInteger(s, i) == None && Punct(s, i, '(') == Some(i + 1) && Punct(s, p2, ')') == Some(e)
    requires MulOp(s, p1) == Some(OpMatch(k, q)) && MulOp(s, p2) == None && AddOp(s, p2) == None
    requires ParseFactor(idents, s, i + 1) == Some(Parsed(l, p1)) && ParseFactor(idents, s, q) == Some(Parsed(r, p2))
    ensures FactorReadsAs(idents, s, i, Bin(k, l, r), e)
  {
    ProductInside(idents, s, i + 1, l, p1, q, k, r, p2);
    ParenthesisedFactor(idents, s, i, Bin(k, l, r), p2, e);
  }

  /** `(l + r)` or `(l - r)` is read by `factor` as that sum. */
  lemma SumFactor(idents: bool, s: string, i: nat, l: Node, p1: nat, q: nat, k: Kind, r: Node, p2: nat, e: nat)
    requires i < p1 < p2 < |s| && q == p1 + 1 && e == p2 + 1
    requires ParseInteger(s, i) == None && Punct(s, i, '(') == Some(i + 1) && Punct(s, p2, ')') == Some(e)
    requires AddOp(s, p1) == Some(OpMatch(k, q)) && MulOp(s, p1) == None && MulOp(s, p2) == None && AddOp(s, p2) == None
    requires ParseFactor(idents, s, i + 1) == Some(Parsed(l, p1)) && ParseFactor(idents, s, q) == Some(Parsed(r, p2))
    ensures FactorReadsAs(idents, s, i, Bin(k, l, r), e)
  {
    SumInside(idents, s, i + 1, l, p1, q, k, r, p2);
    ParenthesisedFactor(idents, s, i, Bin(k, l, r), p2, e);
  }

  /** `(l op r)` is read by `factor` as `op(l, r)` once `l` and `r` are. */
  lemma BinaryFactor(idents: bool, s: string, i: nat, n: Node, p1: nat, q: nat, p2: nat, e: nat)
    requires |n.children| == 2 && IsArithmetic(n.kind) && n == Bin(n.kind, n.children[0], n.children[1])
    requires i < p1 < p2 < |s| && q == p1 + 1 && e == p2 + 1
    requires BinaryTokens(s, i, p1, q, n.kind, p2, e)
    requires FactorReadsAs(idents, s, i + 1, n.children[0], p1) && FactorReadsAs(idents, s, q, n.children[1], p2)
    ensures FactorReadsAs(idents, s, i, n, e)
  {
    if n.kind in {Multiply, Divide} {
      ProductFactor(idents, s, i, n.children[0], p1, q, n.kind, n.children[1], p2, e);
    } else {
      SumFactor(idents, s, i, n.children[0], p1, q, n.kind, n.children[1], p2, e);
    }
  }

  /** A tree of the identifier-free grammar is a tree of the full one. */
  lemma {:induction false} ExprWidens(n: Node, idents: bool)
    requires IsExpr(n, idents)
    ensures IsExpr(n, true)
    decreases n
  {
    if n.children != [] {
      ExprWidens(n.children[0], idents);
      ExprWidens(n.children[1], idents);
    }
  }

  /**
   * Where the parts of `(l op r)` sit when it is written at `i`: `l` from
   * `i + 1` to `p1`, the operator at `p1`, `r` from `p1 + 1` to `p2`, and
   * the closing parenthesis at `p2`.
   */
  lemma BinaryLayout(n: Node, s: string, i: nat) returns (p1: nat, p2: nat)
    requires IsExpr(n, true) && n.children != []
    requires WrittenAt(s, i, Unparse(n)) && Closes(s, i + |Unparse(n)|)
    ensures p1 == i + 1 + Width(n.children[0]) && p2 == i + Width(n) - 1
    ensures i < p1 < p2 < |s| && i + |Unparse(n)| == p2 + 1
    ensures s[i] == '(' && StartsOperand(s[i + 1]) && s[p2] == ')'
    ensures s[p1] == OpChar(n.kind) && StartsOperand(s[p1 + 1])
    ensures WrittenAt(s, i + 1, Unparse(n.children[0])) && Closes(s, p1)
    ensures WrittenAt(s, p1 + 1, Unparse(n.children[1])) && Closes(s, p2)
  {
    var ul, ur := Unparse(n.children[0]), Unparse(n.children[1]);
    var op := OpChar(n.kind);
    p1 := i + 1 + |ul|;
    p2 := p1 + 1 + |ur|;
    assert |Unparse(n)| == Width(n) && |ul| == Width(n.children[0]) by {
      WidthIsLength(n);
      WidthIsLength(n.children[0]);
    }
    assert WrittenAt(s, i, "(") && WrittenAt(s, i + 1, ul) && WrittenAt(s, p1, [op])
        && WrittenAt(s, p1 + 1, ur) && WrittenAt(s, p2, ")") by {
      assert Unparse(n) == "(" + ul + [op] + ur + ")";
      WrittenSplit(s, i, "(" + ul + [op] + ur, ")");
      WrittenSplit(s, i, "(" + ul + [op], ur);
      WrittenSplit(s, i, "(" + ul, [op]);
      WrittenSplit(s, i, "(", ul);
    }
    assert s[i + 0] == "("[0] && s[p1 + 0] == [op][0] && s[p2 + 0] == ")"[0];
    assert s[i + 1 + 0] == ul[0] && s[p1 + 1 + 0] == ur[0];
  }

  /** What is written of `a + b` at `i` is `a` at `i` and `b` right after it. */
  lemma WrittenSplit(s: string, i: nat, a: string, b: string)
    requires WrittenAt(s, i, a + b)
    ensures WrittenAt(s, i, a) && WrittenAt(s, i + |a|, b)
  {
    forall k | 0 <= k < |a| ensures s[i + k] == a[k] {
      assert (a + b)[k] == a[k];
    }
    forall k | 0 <= k < |b| ensures s[i + |a| + k] == b[k] {
      assert s[i + (|a| + k)] == (a + b)[|a| + k];
    }
  }

  /** An expression tree's text, written at `i` and closed properly, fits there. */
  lemma {:induction false} FitsWritten(n: Node, s: string, i: nat)
    requires IsExpr(n, true)
    requires WrittenAt(s, i, Unparse(n)) && Closes(s, i + |Unparse(n)|)
    ensures Fits(n, s, i)
    decreases n, 1
  {
    if n.children != [] {
      var p1, p2 := BinaryLayout(n, s, i);
      FitsLaidOut(n, s, i, p1, p2);
    }
  }

  /** `(l op r)` laid out as `BinaryLayout` finds it fits, once `l` and `r` do. */
  lemma {:induction false} FitsLaidOut(n: Node, s: string, i: nat, p1: nat, p2: nat)
    requires IsExpr(n, true) && n.children != []
    requires p1 == i + 1 + Width(n.children[0]) && p2 == i + Width(n) - 1 && i < p1 < p2 < |s|
    requires s[i] == '(' && StartsOperand(s[i + 1]) && s[p2] == ')' && Closes(s, p2 + 1)
    requires s[p1] == OpChar(n.kind) && StartsOperand(s[p1 + 1])
    requires WrittenAt(s, i + 1, Unparse(n.children[0])) && Closes(s, p1)
    requires WrittenAt(s, p1 + 1, Unparse(n.children[1])) && Closes(s, p2)
    ensures Fits(n, s, i)
    decreases n, 0
  {
    WidthIsLength(n.children[0]);
    WidthIsLength(n.children[1]);
    FitsWritten(n.children[0], s, i + 1);
    FitsWritten(n.children[1], s, p1 + 1);
  }

  /** An operator node the parser built is `Bin` of its two children. */
  lemma BinOfBare(n: Node)
    requires Bare(n) && |n.children| == 2
    ensures n == Bin(n.kind, n.children[0], n.children[1])
  {
    assert n.children == [n.children[0], n.children[1]];
  }

  /** Where the parts of a fitting `(l op r)` sit, and what they are. */
  lemma FitsParts(n: Node, s: string, i: nat) returns (p1: nat, q: nat, p2: nat, e: nat)
    requires Fits(n, s, i) && n.children != []
    ensures |n.children| == 2 && IsArithmetic(n.kind)
    ensures p1 == i + 1 + Width(n.children[0]) && q == p1 + 1
    ensures p2 == q + Width(n.children[1]) && e == p2 + 1 && e == i + Width(n)
    ensures i < p1 < p2 < |s|
    ensures s[i] == '(' && StartsOperand(s[i + 1]) && s[p1] == OpChar(n.kind) && StartsOperand(s[q])
    ensures s[p2] == ')' && Closes(s, e)
    ensures Fits(n.children[0], s, i + 1) && Fits(n.children[1], s, q)
  {
    p1 := i + 1 + Width(n.children[0]);
    q := i + 2 + Width(n.children[0]);
    p2 := i + Width(n) - 1;
    e := i + Width(n);
  }

  /**
   * The text of an expression tree, fitting at `i` and ending at `e`, is
   * read by `factor` as that tree.
   */
  lemma {:induction false} FactorOfUnparse(idents: bool, n: Node, s: string, i: nat, e: nat)
    requires IsExpr(n, idents) && Bare(n) && Fits(n, s, i) && e == i + Width(n)
    ensures e <= |s| && FactorReadsAs(idents, s, i, n, e)
    decreases n, 1
  {
    if n.children == [] {
      LeafOfUnparse(idents, n, s, i);
    } else {
      BinaryOfUnparse(idents, n, s, i, e);
    }
  }

  /** The text of `(l op r)`, fitting at `i` and ending at `e`, is read by `factor` as `op(l, r)`. */
  lemma {:induction false} BinaryOfUnparse(idents: bool, n: Node, s: string, i: nat, e: nat)
    requires IsExpr(n, idents) && Bare(n) && Fits(n, s, i) && n.children != [] && e == i + Width(n)
    ensures e <= |s| && FactorReadsAs(idents, s, i, n, e)
    decreases n, 0
  {
    var p1, q, p2, e' := FitsParts(n, s, i);
    assert IsExpr(n.children[0], idents) && IsExpr(n.children[1], idents);
    assert Bare(n.children[0]) && Bare(n.children[1]);
    assert FactorReadsAs(idents, s, i + 1, n.children[0], p1) by {
      FactorOfUnparse(idents, n.children[0], s, i + 1, p1);
    }
    assert FactorReadsAs(idents, s, q, n.children[1], p2) by {
      FactorOfUnparse(idents, n.children[1], s, q, p2);
    }
    assert BinaryTokens(s, i, p1, q, n.kind, p2, e) by {
      TokensOfChars(s, i, p1, q, n.kind, p2, e);
    }
    BinOfBare(n);
    BinaryFactor(idents, s, i, n, p1, q, p2, e);
  }

  /** The whole text of an expression tree is one expression spanning it. */
  lemma WholeExpression(rule: Kind, idents: bool, n: Node)
    requires IsExpr(n, idents) && Bare(n)
    ensures ParseExpression(rule, idents, Unparse(n), 0) == Some(Parsed(n, |Unparse(n)|))
  {
    var s := Unparse(n);
    assert WrittenAt(s, 0, s);
    ExprWidens(n, idents);
    FitsWritten(n, s, 0);
    WidthIsLength(n);
    FactorOfUnparse(idents, n, s, 0, |s|);
    SingleTerm(idents, s, 0, n, |s|);
    SingleExpression(rule, idents, s, 0, n, |s|);
  }

  /**
   * Reading back the text of any expression tree with the grammar of
   * grammer.h gives that tree as the line's only statement.
   */
  lemma ParseUnparse(n: Node)
    requires IsExpr(n, true) && Bare(n)
    ensures Parse(Unparse(n)) == Some(Node(Root, "", [n]))
  {
    var s := Unparse(n);
    assert ParseExpression(StExp, true, s, 0) == Some(Parsed(n, |s|)) by {
      WholeExpression(StExp, true, n);
    }
    assert ParseStAssign(s, 0) == None by {
      if ParseIdentifier(s, 0).Some? {
        assert ParseIdentifier(s, 0).value.end == |s| by {
          SkipTo(s, 1, NameChars, |s|);
        }
      }
    }
    assert ParseStatement(s, 0) == Some(Parsed(n, |s|)) by {
      ExpressionStatement(s, n, |s|);
    }
  }

  /**
   * Reading back the text of any identifier-free expression tree with the
   * grammar of main.cpp gives that tree under the root.
   */
  lemma ParseArithmeticUnparse(n: Node)
    requires IsExpr(n, false) && Bare(n)
    ensures ParseArithmetic(Unparse(n)) == Some(Node(Root, "", [n]))
  {
    var s := Unparse(n);
    WholeExpression(Expression, false, n);
  }
}
