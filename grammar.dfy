/**
 * The calculator's PEG grammar (grammer.h) as a recursive-descent parser
 * over the input line, producing the tree PEGTL builds with the
 * `selector`: `integer` and `identifier` leaves keep their text, operator
 * tokens are kept without text, and every `factor`, `term`, `expression`,
 * `st_exp`, `st_assign`, `statement` and `grammar` node is passed through
 * `Transform` as soon as it is complete. Rules that the selector does not
 * keep (`parenth`, the parentheses, `eof`) leave no node of their own.
 *
 * The same rules with `idents == false` are the older grammar of main.cpp,
 * whose `factor` has no `identifier` alternative.
 *
 * PEG semantics: an ordered choice commits to its first alternative that
 * matches; `list<R, S>` repeats `S R` for as long as both match, and a
 * failed repetition gives back what it consumed.
 */
module Grammar {
  import opened Wrappers
  import opened Tree

  /** PEGTL's `space`: blank, newline, carriage return, tab, vertical tab, form feed. */
  predicate IsSpace(c: char) {
    c == ' ' || c == '\n' || c == '\r' || c == '\t' || c as int == 11 || c as int == 12
  }

  /** `identifier_first`. */
  predicate IsLetter(c: char) {
    'a' <= c <= 'z' || 'A' <= c <= 'Z'
  }

  /** `identifier_next`. */
  predicate IsNameChar(c: char) {
    IsLetter(c) || IsDigit(c) || c == '_'
  }

  /** The text of an `identifier`: a letter, then letters, digits or underscores. */
  predicate IsName(s: string) {
    |s| > 0 && IsLetter(s[0]) && forall k | 1 <= k < |s| :: IsNameChar(s[k])
  }

  datatype CharClass = Spaces | Digits | NameChars | Repeats(c: char)

  predicate InClass(cl: CharClass, c: char) {
    match cl
    case Spaces => IsSpace(c)
    case Digits => IsDigit(c)
    case NameChars => IsNameChar(c)
    case Repeats(d) => c == d
  }

  /** `star<cl>`: the end of the longest run of characters of the class from `i`. */
  function Skip(s: string, i: nat, cl: CharClass): (j: nat)
    requires i <= |s|
    ensures i <= j <= |s|
    ensures forall k | i <= k < j :: InClass(cl, s[k])
    ensures j == |s| || !InClass(cl, s[j])
    decreases |s| - i
  {
    if i < |s| && InClass(cl, s[i]) then Skip(s, i + 1, cl) else i
  }

  /**
   * The operator tokens `plus` … `assign`: `pad<plus<one<c>>, space>`, one
   * or more copies of `c` with any whitespace on either side.
   */
  function OpToken(s: string, i: nat, c: char): (r: Option<nat>)
    requires i <= |s| && !IsSpace(c)
    ensures r.Some? <==> Skip(s, i, Spaces) < |s| && s[Skip(s, i, Spaces)] == c
    ensures r.Some? ==> i < r.value <= |s|
    ensures r.Some? ==> r.value == |s| || !IsSpace(s[r.value])
  {
    var j := Skip(s, i, Spaces);
    if j < |s| && s[j] == c then
      var m := Skip(s, j + 1, Repeats(c));
      Some(Skip(s, m, Spaces))
    else None
  }

  /**
   * The shape of a padded operator token from its first character `j` to
   * its end `e`: the whole run of `c` up to `m`, then only blanks.
   */
  predicate TokenSplit(s: string, j: nat, m: nat, e: nat, c: char)
    requires j <= m <= e <= |s|
  {
    && (forall k | j <= k < m :: s[k] == c)
    && (m == |s| || s[m] != c)
    && (forall k | m <= k < e :: IsSpace(s[k]))
  }

  /**
   * An operator token takes the whole run of its character: it splits into
   * that run, which the next character does not continue, and blanks.
   */
  lemma OpTokenRun(s: string, i: nat, c: char)
    requires i <= |s| && !IsSpace(c) && OpToken(s, i, c).Some?
    ensures exists m | Skip(s, i, Spaces) < m <= OpToken(s, i, c).value ::
      TokenSplit(s, Skip(s, i, Spaces), m, OpToken(s, i, c).value, c)
  {
    var j := Skip(s, i, Spaces);
    var m := Skip(s, j + 1, Repeats(c));
    assert forall k | j + 1 <= k < m :: InClass(Repeats(c), s[k]);
    assert forall k | m <= k < Skip(s, m, Spaces) :: InClass(Spaces, s[k]);
    assert TokenSplit(s, j, m, Skip(s, m, Spaces), c);
  }

  /** What an operator token consumes is blanks and copies of its character, nothing else. */
  lemma OpTokenSpan(s: string, i: nat, c: char)
    requires i <= |s| && !IsSpace(c) && OpToken(s, i, c).Some?
    ensures forall k | i <= k < OpToken(s, i, c).value :: IsSpace(s[k]) || s[k] == c
  {
  }

  /** The parentheses: `pad<one<c>, space>`, exactly one `c` with whitespace around it. */
  function Punct(s: string, i: nat, c: char): (r: Option<nat>)
    requires i <= |s| && !IsSpace(c)
    ensures r.Some? <==> Skip(s, i, Spaces) < |s| && s[Skip(s, i, Spaces)] == c
    ensures r.Some? ==> i < r.value <= |s|
    ensures r.Some? ==> r.value == |s| || !IsSpace(s[r.value])
  {
    var j := Skip(s, i, Spaces);
    if j < |s| && s[j] == c then Some(Skip(s, j + 1, Spaces)) else None
  }

  /** A parenthesis rule consumes exactly one copy of its character, the rest being blanks. */
  lemma PunctConsumesOne(s: string, i: nat, c: char)
    requires i <= |s| && !IsSpace(c) && Punct(s, i, c).Some?
    ensures |set k | i <= k < Punct(s, i, c).value && s[k] == c| == 1
  {
    var j := Skip(s, i, Spaces);
    assert (set k | i <= k < Punct(s, i, c).value && s[k] == c) == {j};
  }

  /** A rule that matched: the node it produced and where the match ended. */
  datatype Parsed = Parsed(node: Node, end: nat)

  /** `integer`: one or more digits, as long as possible; no sign. */
  function ParseInteger(s: string, i: nat): (r: Option<Parsed>)
    requires i <= |s|
    ensures r.Some? <==> i < |s| && IsDigit(s[i])
    ensures r.Some? ==> (
      && i < r.value.end <= |s|
      && r.value.node == Node(Integer, s[i..r.value.end], [])
      && IsNumeral(r.value.node.content)
      && (r.value.end == |s| || !IsDigit(s[r.value.end])))
  {
    if i < |s| && IsDigit(s[i]) then
      var j := Skip(s, i, Digits);
      Some(Parsed(Node(Integer, s[i..j], []), j))
    else None
  }

  /** `identifier`: a letter followed by letters, digits and underscores, as long as possible. */
  function ParseIdentifier(s: string, i: nat): (r: Option<Parsed>)
    requires i <= |s|
    ensures r.Some? <==> i < |s| && IsLetter(s[i])
    ensures r.Some? ==> (
      && i < r.value.end <= |s|
      && r.value.node == Node(Identifier, s[i..r.value.end], [])
      && IsName(r.value.node.content)
      && (r.value.end == |s| || !IsNameChar(s[r.value.end])))
  {
    if i < |s| && IsLetter(s[i]) then
      var j := Skip(s, i + 1, NameChars);
      Some(Parsed(Node(Identifier, s[i..j], []), j))
    else None
  }

  predicate IsArithmetic(k: Kind) {
    k == Plus || k == Minus || k == Multiply || k == Divide
  }

  /**
   * The trees the grammar yields for an expression: integer leaves,
   * identifier leaves when the dialect has them, and the four arithmetic
   * operators, each with exactly two operands.
   */
  predicate IsExpr(n: Node, idents: bool) {
    if n.children == [] then
      || (n.kind == Integer && IsNumeral(n.content))
      || (idents && n.kind == Identifier && IsName(n.content))
    else
      && IsArithmetic(n.kind)
      && |n.children| == 2
      && IsExpr(n.children[0], idents)
      && IsExpr(n.children[1], idents)
  }

  /** The tail `op1 x1 … opN xN` of a chain: operator tokens of the given kinds between expressions. */
  predicate IsChainTail(cs: seq<Node>, ops: set<Kind>, idents: bool) {
    && |cs| % 2 == 0
    && (forall k | 0 <= k < |cs| && k % 2 == 0 :: cs[k].children == [] && cs[k].kind in ops)
    && (forall k | 0 <= k < |cs| && k % 2 == 1 :: IsExpr(cs[k], idents))
  }

  lemma {:induction false} LeftNestIsExpr(acc: Node, rest: seq<Node>, ops: set<Kind>, idents: bool)
    requires forall k | k in ops :: IsArithmetic(k)
    requires IsExpr(acc, idents) && IsChainTail(rest, ops, idents)
    ensures IsExpr(LeftNest(acc, rest), idents)
    decreases |rest|
  {
    if rest != [] {
      var acc' := rest[0].(children := [acc, rest[1]]);
      assert IsChainTail(rest[2..], ops, idents) by {
        forall k | 0 <= k < |rest| - 2 ensures rest[2..][k] == rest[k + 2] { }
      }
      LeftNestIsExpr(acc', rest[2..], ops, idents);
    }
  }

  lemma ChainTailCons(op: Node, x: Node, more: seq<Node>, ops: set<Kind>, idents: bool)
    requires op.children == [] && op.kind in ops && IsExpr(x, idents)
    requires IsChainTail(more, ops, idents)
    ensures IsChainTail([op, x] + more, ops, idents)
  {
    var cs := [op, x] + more;
    forall k | 2 <= k < |cs| ensures cs[k] == more[k - 2] { }
  }

  /**
   * Rewriting a chain of expressions joined by arithmetic operator tokens
   * yields an expression: every operator ends up with exactly two operands.
   */
  lemma ChainIsExpr(n: Node, ops: set<Kind>, idents: bool)
    requires forall k | k in ops :: IsArithmetic(k)
    requires |n.children| > 0 && IsExpr(n.children[0], idents)
    requires IsChainTail(n.children[1..], ops, idents)
    ensures IsChain(n.children)
    ensures IsExpr(Transform(n), idents)
  {
    var cs := n.children;
    forall k | 0 <= k < |cs| && k % 2 == 1 ensures cs[k].children == [] {
      assert cs[k] == cs[1..][k - 1];
    }
    TransformNestsLeft(n);
    LeftNestIsExpr(cs[0], cs[1..], ops, idents);
  }

  /** A matched operator token: which operator, and where the token ended. */
  datatype OpMatch = OpMatch(kind: Kind, end: nat)

  /** The character an arithmetic operator token repeats. */
  function OpChar(k: Kind): char
    requires IsArithmetic(k)
  {
    match k
    case Plus => '+'
    case Minus => '-'
    case Multiply => '*'
    case Divide => '/'
  }

  /**
   * `sor<multiply, divide>`: matches exactly when the first non-blank
   * character is `*` or `/`, and is then the token of that character.
   */
  function MulOp(s: string, i: nat): (r: Option<OpMatch>)
    requires i <= |s|
    ensures r.Some? <==> Skip(s, i, Spaces) < |s| && s[Skip(s, i, Spaces)] in {'*', '/'}
    ensures r.Some? ==> && r.value.kind in {Multiply, Divide}
                        && s[Skip(s, i, Spaces)] == OpChar(r.value.kind)
                        && OpToken(s, i, OpChar(r.value.kind)) == Some(r.value.end)
  {
    match OpToken(s, i, '*')
    case Some(j) => Some(OpMatch(Multiply, j))
    case None =>
      match OpToken(s, i, '/')
      case Some(j) => Some(OpMatch(Divide, j))
      case None => None
  }

  /**
   * `sor<plus, minus>`: matches exactly when the first non-blank
   * character is `+` or `-`, and is then the token of that character.
   */
  function AddOp(s: string, i: nat): (r: Option<OpMatch>)
    requires i <= |s|
    ensures r.Some? <==> Skip(s, i, Spaces) < |s| && s[Skip(s, i, Spaces)] in {'+', '-'}
    ensures r.Some? ==> && r.value.kind in {Plus, Minus}
                        && s[Skip(s, i, Spaces)] == OpChar(r.value.kind)
                        && OpToken(s, i, OpChar(r.value.kind)) == Some(r.value.end)
  {
    match OpToken(s, i, '+')
    case Some(j) => Some(OpMatch(Plus, j))
    case None =>
      match OpToken(s, i, '-')
      case Some(j) => Some(OpMatch(Minus, j))
      case None => None
  }

  /** The repeated part of a `list`: the nodes it added and where it stopped. */
  datatype Tail = Tail(nodes: seq<Node>, end: nat)

  /**
   * `parenth`: `sor<integer, seq<open_parenthesis, expression,
   * close_parenthesis>>`. The parentheses leave no node of their own: the
   * result is the integer or the inner expression's tree.
   */
  function ParseParenth(idents: bool, s: string, i: nat): (r: Option<Parsed>)
    requires i <= |s|
    ensures r.Some? ==> i < r.value.end <= |s| && IsExpr(r.value.node, idents)
    decreases |s| - i, 0
  {
    match ParseInteger(s, i)
    case Some(p) => Some(p)
    case None =>
      match Punct(s, i, '(')
      case None => None
      case Some(j) =>
        match ParseExpression(Expression, idents, s, j)
        case None => None
        case Some(e) =>
          match Punct(s, e.end, ')')
          case None => None
          case Some(k) => Some(Parsed(e.node, k))
  }

  /**
   * `factor`: `sor<integer, parenth, identifier>`. The `factor` node always
   * has exactly one child, so `Transform` replaces it by that child.
   */
  function ParseFactor(idents: bool, s: string, i: nat): (r: Option<Parsed>)
    requires i <= |s|
    ensures r.Some? ==> i < r.value.end <= |s| && IsExpr(r.value.node, idents)
    decreases |s| - i, 1
  {
    var inner: Option<Parsed> :=
      match ParseInteger(s, i)
      case Some(p) => Some(p)
      case None => ParseParenth(idents, s, i);
    var child := if inner.None? && idents then ParseIdentifier(s, i) else inner;
    match child
    case None => None
    case Some(p) =>
      var n := Node(Factor, s[i..p.end], [p.node]);
      TransformSingle(n, p.node);
      Some(Parsed(Transform(n), p.end))
  }

  /** `term`: `list<factor, sor<multiply, divide>>`, then `Transform`. */
  function ParseTerm(idents: bool, s: string, i: nat): (r: Option<Parsed>)
    requires i <= |s|
    ensures r.Some? ==> i < r.value.end <= |s| && IsExpr(r.value.node, idents)
    decreases |s| - i, 2
  {
    match ParseFactor(idents, s, i)
    case None => None
    case Some(f) =>
      var tail := ParseTermTail(idents, s, f.end);
      var n := Node(Term, s[i..tail.end], [f.node] + tail.nodes);
      assert n.children[1..] == tail.nodes;
      ChainIsExpr(n, {Multiply, Divide}, idents);
      Some(Parsed(Transform(n), tail.end))
  }

  /** The `star<sor<multiply, divide>, factor>` part of `term`. */
  function ParseTermTail(idents: bool, s: string, i: nat): (r: Tail)
    requires i <= |s|
    ensures i <= r.end <= |s|
    ensures IsChainTail(r.nodes, {Multiply, Divide}, idents)
    decreases |s| - i, 2
  {
    match MulOp(s, i)
    case None => Tail([], i)
    case Some(op) =>
      match ParseFactor(idents, s, op.end)
      case None => Tail([], i)
      case Some(f) =>
        var more := ParseTermTail(idents, s, f.end);
        ChainTailCons(Token(op.kind), f.node, more.nodes, {Multiply, Divide}, idents);
        Tail([Token(op.kind), f.node] + more.nodes, more.end)
  }

  /**
   * `expression`: `list<term, sor<plus, minus>>`, then `Transform`. The
   * rule `st_exp` derives from `expression` and matches the same way under
   * its own name, which `rule` carries.
   */
  function ParseExpression(rule: Kind, idents: bool, s: string, i: nat): (r: Option<Parsed>)
    requires i <= |s|
    ensures r.Some? ==> i < r.value.end <= |s| && IsExpr(r.value.node, idents)
    decreases |s| - i, 3
  {
    match ParseTerm(idents, s, i)
    case None => None
    case Some(t) =>
      var tail := ParseExpressionTail(idents, s, t.end);
      var n := Node(rule, s[i..tail.end], [t.node] + tail.nodes);
      assert n.children[1..] == tail.nodes;
      ChainIsExpr(n, {Plus, Minus}, idents);
      Some(Parsed(Transform(n), tail.end))
  }

  /** The `star<sor<plus, minus>, term>` part of `expression`. */
  function ParseExpressionTail(idents: bool, s: string, i: nat): (r: Tail)
    requires i <= |s|
    ensures i <= r.end <= |s|
    ensures IsChainTail(r.nodes, {Plus, Minus}, idents)
    decreases |s| - i, 3
  {
    match AddOp(s, i)
    case None => Tail([], i)
    case Some(op) =>
      match ParseTerm(idents, s, op.end)
      case None => Tail([], i)
      case Some(t) =>
        var more := ParseExpressionTail(idents, s, t.end);
        ChainTailCons(Token(op.kind), t.node, more.nodes, {Plus, Minus}, idents);
        Tail([Token(op.kind), t.node] + more.nodes, more.end)
  }

  /**
   * When `parenth` matches: an integer first; otherwise an opening
   * parenthesis, an expression and a closing parenthesis, which yield the
   * expression's tree and nothing of their own.
   */
  lemma ParenthReads(idents: bool, s: string, i: nat)
    requires i <= |s|
    ensures ParseInteger(s, i).Some? ==> ParseParenth(idents, s, i) == ParseInteger(s, i)
    ensures ParseInteger(s, i).None? ==>
      (ParseParenth(idents, s, i).Some? <==>
        && Punct(s, i, '(').Some?
        && ParseExpression(Expression, idents, s, Punct(s, i, '(').value).Some?
        && Punct(s, ParseExpression(Expression, idents, s, Punct(s, i, '(').value).value.end, ')').Some?)
    ensures ParseInteger(s, i).None? && ParseParenth(idents, s, i).Some? ==>
      var e := ParseExpression(Expression, idents, s, Punct(s, i, '(').value).value;
      ParseParenth(idents, s, i).value == Parsed(e.node, Punct(s, e.end, ')').value)
  {
  }

  /**
   * `factor` is the first of `integer`, `parenth` and (with identifiers)
   * `identifier` that matches, and leaves no node of its own.
   */
  lemma FactorReads(idents: bool, s: string, i: nat)
    requires i <= |s|
    ensures ParseInteger(s, i).Some? ==> ParseFactor(idents, s, i) == ParseInteger(s, i)
    ensures ParseParenth(idents, s, i).Some? ==> ParseFactor(idents, s, i) == ParseParenth(idents, s, i)
    ensures ParseParenth(idents, s, i).None? ==>
      ParseFactor(idents, s, i) == if idents then ParseIdentifier(s, i) else None
  {
  }

  /**
   * `term` matches exactly when its first factor does, and its tree is the
   * left-nested reading of that factor and the operator-factor pairs that
   * follow it: `*` and `/` associate to the left.
   */
  lemma {:induction false} TermReads(idents: bool, s: string, i: nat)
    requires i <= |s|
    ensures match ParseFactor(idents, s, i)
      case None => ParseTerm(idents, s, i).None?
      case Some(f) =>
        var tail := ParseTermTail(idents, s, f.end);
        ParseTerm(idents, s, i) == Some(Parsed(LeftNest(f.node, tail.nodes), tail.end))
  {
    match ParseFactor(idents, s, i)
    case None =>
    case Some(f) =>
      var tail := ParseTermTail(idents, s, f.end);
      var n := Node(Term, s[i..tail.end], [f.node] + tail.nodes);
      assert n.children[1..] == tail.nodes;
      ChainIsExpr(n, {Multiply, Divide}, idents);
      TransformChain(n, f.node, tail.nodes);
  }

  /**
   * `star<sor<multiply, divide>, factor>` from `i`: an operator token and
   * the factor after it, then the repetition from there; and it stops only
   * where no further operator and factor follow.
   */
  lemma {:induction false} TermTailReads(idents: bool, s: string, i: nat)
    requires i <= |s|
    ensures var r := ParseTermTail(idents, s, i);
      && (r.nodes == [] ==> r.end == i)
      && (r.nodes != [] ==>
            && MulOp(s, i).Some? && r.nodes[0] == Token(MulOp(s, i).value.kind)
            && ParseFactor(idents, s, MulOp(s, i).value.end).Some?
            && var f := ParseFactor(idents, s, MulOp(s, i).value.end).value;
               r.nodes[1] == f.node && Tail(r.nodes[2..], r.end) == ParseTermTail(idents, s, f.end))
      && (MulOp(s, r.end).None? || ParseFactor(idents, s, MulOp(s, r.end).value.end).None?)
    decreases |s| - i
  {
    var r := ParseTermTail(idents, s, i);
    match MulOp(s, i)
    case None =>
    case Some(op) =>
      match ParseFactor(idents, s, op.end)
      case None =>
      case Some(f) =>
        var more := ParseTermTail(idents, s, f.end);
        assert r.nodes == [Token(op.kind), f.node] + more.nodes;
        assert r.nodes[2..] == more.nodes;
        TermTailReads(idents, s, f.end);
  }

  /**
   * `expression` matches exactly when its first term does, and its tree is
   * the left-nested reading of that term and the operator-term pairs that
   * follow it: `+` and `-` associate to the left, over whole terms.
   */
  lemma {:induction false} ExpressionReads(rule: Kind, idents: bool, s: string, i: nat)
    requires i <= |s|
    ensures match ParseTerm(idents, s, i)
      case None => ParseExpression(rule, idents, s, i).None?
      case Some(t) =>
        var tail := ParseExpressionTail(idents, s, t.end);
        ParseExpression(rule, idents, s, i) == Some(Parsed(LeftNest(t.node, tail.nodes), tail.end))
  {
    match ParseTerm(idents, s, i)
    case None =>
    case Some(t) =>
      var tail := ParseExpressionTail(idents, s, t.end);
      var n := Node(rule, s[i..tail.end], [t.node] + tail.nodes);
      assert n.children[1..] == tail.nodes;
      ChainIsExpr(n, {Plus, Minus}, idents);
      TransformChain(n, t.node, tail.nodes);
  }

  /**
   * `star<sor<plus, minus>, term>` from `i`: an operator token and the term
   * after it, then the repetition from there; and it stops only where no
   * further operator and term follow.
   */
  lemma {:induction false} ExpressionTailReads(idents: bool, s: string, i: nat)
    requires i <= |s|
    ensures var r := ParseExpressionTail(idents, s, i);
      && (r.nodes == [] ==> r.end == i)
      && (r.nodes != [] ==>
            && AddOp(s, i).Some? && r.nodes[0] == Token(AddOp(s, i).value.kind)
            && ParseTerm(idents, s, AddOp(s, i).value.end).Some?
            && var t := ParseTerm(idents, s, AddOp(s, i).value.end).value;
               r.nodes[1] == t.node && Tail(r.nodes[2..], r.end) == ParseExpressionTail(idents, s, t.end))
      && (AddOp(s, r.end).None? || ParseTerm(idents, s, AddOp(s, r.end).value.end).None?)
    decreases |s| - i
  {
    var r := ParseExpressionTail(idents, s, i);
    match AddOp(s, i)
    case None =>
    case Some(op) =>
      match ParseTerm(idents, s, op.end)
      case None =>
      case Some(t) =>
        var more := ParseExpressionTail(idents, s, t.end);
        assert r.nodes == [Token(op.kind), t.node] + more.nodes;
        assert r.nodes[2..] == more.nodes;
        ExpressionTailReads(idents, s, t.end);
  }

  /** A statement's tree: `assign(identifier, expression)` or an expression. */
  predicate IsStatement(n: Node) {
    || IsExpr(n, true)
    || (&& n.kind == Assign
        && |n.children| == 2
        && n.children[0].kind == Identifier
        && n.children[0].children == []
        && IsName(n.children[0].content)
        && IsExpr(n.children[1], true))
  }

  /** `st_assign`: `seq<identifier, assign, expression>`, then `Transform`. */
  function ParseStAssign(s: string, i: nat): (r: Option<Parsed>)
    requires i <= |s|
    ensures r.Some? ==> i < r.value.end <= |s| && IsStatement(r.value.node)
    ensures r.Some? <==>
      && ParseIdentifier(s, i).Some?
      && OpToken(s, ParseIdentifier(s, i).value.end, '=').Some?
      && ParseExpression(Expression, true, s, OpToken(s, ParseIdentifier(s, i).value.end, '=').value).Some?
    ensures r.Some? ==>
      var x := ParseIdentifier(s, i).value;
      var e := ParseExpression(Expression, true, s, OpToken(s, x.end, '=').value).value;
      r.value == Parsed(Node(Assign, "", [x.node, e.node]), e.end)
  {
    match ParseIdentifier(s, i)
    case None => None
    case Some(x) =>
      match OpToken(s, x.end, '=')
      case None => None
      case Some(j) =>
        match ParseExpression(Expression, true, s, j)
        case None => None
        case Some(e) =>
          var n := Node(StAssign, s[i..e.end], [x.node, Token(Assign), e.node]);
          TransformPair(n, x.node, Assign, e.node);
          Some(Parsed(Transform(n), e.end))
  }

  /**
   * `statement`: `sor<st_assign, st_exp>`. The assignment is tried first;
   * when it fails, whatever it consumed is given back and the line is read
   * as an expression.
   */
  function ParseStatement(s: string, i: nat): (r: Option<Parsed>)
    requires i <= |s|
    ensures r.Some? ==> i < r.value.end <= |s| && IsStatement(r.value.node)
    ensures ParseStAssign(s, i).Some? ==> r == ParseStAssign(s, i)
    ensures ParseStAssign(s, i).None? ==> r == ParseExpression(StExp, true, s, i)
  {
    var alt := if ParseStAssign(s, i).Some? then ParseStAssign(s, i) else ParseExpression(StExp, true, s, i);
    match alt
    case None => None
    case Some(p) =>
      var n := Node(Statement, s[i..p.end], [p.node]);
      TransformSingle(n, p.node);
      Some(Parsed(Transform(n), p.end))
  }

  /**
   * `grammar`: `must<statement, eof>`, under PEGTL's root node. The line is
   * accepted only when the statement reaches its end; otherwise parsing
   * fails (PEGTL raises a parse error).
   */
  function Parse(s: string): (r: Option<Node>)
    ensures r.Some? <==> ParseStatement(s, 0).Some? && ParseStatement(s, 0).value.end == |s|
    ensures r.Some? ==> r.value.kind == Root && |r.value.children| == 1
    ensures r.Some? ==> IsStatement(r.value.children[0])
    ensures r.Some? ==> r.value == Node(Root, "", [ParseStatement(s, 0).value.node])
  {
    match ParseStatement(s, 0)
    case None => None
    case Some(p) =>
      if p.end != |s| then None
      else
        var n := Node(Grammar, s, [p.node]);
        TransformSingle(n, p.node);
        Some(Node(Root, "", [Transform(n)]))
  }
}
