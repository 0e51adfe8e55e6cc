/** Properties of the parser (src/regular/regular.py:267-368, identical in
    regular.py): a fully parenthesised printer whose output the parser
    reads back to the same tree, and the error, associativity and
    prefix cases of the grammar. */
module RegexLaws {
  import opened Wrappers
  import opened Regex

  /** Trees whose leaves are tokens the lexer produces from one symbol. */
  predicate Plain(t: Node) {
    match t
    case Leaf(tok) => Lexable(tok) && (tok.kind == Symbol || tok.kind == Dot)
    case Apply(op, l, r) =>
      && l.Some? && Plain(l.value)
      && (if Binary(op) then r.Some? && Plain(r.value) else r.None?)
  }

  const LP := Token(LParen, "(")
  const RP := Token(RParen, ")")
  const Bar := Token(Union, "|")

  function OpToken(op: Operator): Token
    requires !Binary(op)
  {
    match op
    case OpStar => Token(Star, "*")
    case OpPlus => Token(Plus, "+")
    case OpQuestion => Token(Question, "?")
  }

  /** The tokens of a tree: each binary operator in its own parentheses,
      postfix operators after their operand. */
  function Print(t: Node): seq<Token>
    requires Plain(t)
  {
    match t
    case Leaf(tok) => [tok]
    case Apply(op, l, r) =>
      if op == OpUnion then [LP] + (Print(l.value) + ([Bar] + (Print(r.value) + [RP])))
      else if op == OpConcat then [LP] + (Print(l.value) + (Print(r.value) + [RP]))
      else Print(l.value) + [OpToken(op)]
  }

  predicate StartsFactor(t: Token) {
    t.kind == Symbol || t.kind == Dot || t.kind == LParen
  }

  predicate IsExp(t: Token) {
    t.kind == Star || t.kind == Plus || t.kind == Question
  }

  lemma {:induction false} PrintShape(t: Node)
    requires Plain(t)
    ensures Print(t) != [] && StartsFactor(Print(t)[0])
    ensures forall i :: 0 <= i < |Print(t)| ==> Lexable(Print(t)[i])
  {
    match t
    case Leaf(_) =>
    case Apply(op, l, r) =>
      PrintShape(l.value);
      if Binary(op) {
        PrintShape(r.value);
      }
  }

  /** The regular expression a tree is printed as. */
  function Show(t: Node): string
    requires Plain(t)
  {
    PrintShape(t);
    Render(Print(t))
  }

  /** With a postfix operator next, the exponent loop consumes it. */
  lemma ExpStep(acc: Node, st: PState, op: Operator) returns (st': PState)
    requires Shaped(acc) && !Binary(op) && Stream(st) != [] && Stream(st)[0] == OpToken(op)
    ensures Stream(st') == Stream(st)[1..]
    ensures ExpLoop(acc, st) == ExpLoop(Apply(op, Some(acc), None), st')
  {
    st' := Next(st).1;
  }

  /** With no postfix operator next, the exponent loop stops. */
  lemma ExpStop(acc: Node, st: PState) returns (st': PState)
    requires Shaped(acc) && Stream(st) != [] && !IsExp(Stream(st)[0])
    ensures ExpLoop(acc, st) == Ok((acc, st')) && Stream(st') == Stream(st)
  {
    var (tok, st1) := Next(st);
    st' := PState(st1.toks, Some(tok));
  }

  /** With no factor next, the factor parser reads none. */
  lemma FactorStop(st: PState) returns (st': PState)
    requires Stream(st) != [] && !StartsFactor(Stream(st)[0])
    ensures ParseFactor(st) == Ok((None, st')) && Stream(st') == Stream(st)
  {
    var (tok, st1) := Next(st);
    st' := PState(st1.toks, Some(tok));
  }

  /** With no `|` next, the expression loop stops. */
  lemma ExprStop(acc: Node, st: PState) returns (st': PState)
    requires Shaped(acc) && Stream(st) != [] && Stream(st)[0].kind != Union
    ensures ExprLoop(acc, st) == Ok((acc, st')) && Stream(st') == Stream(st)
  {
    var (tok, st1) := Next(st);
    st' := PState(st1.toks, Some(tok));
  }

  lemma Assoc<T>(a: seq<T>, b: seq<T>, c: seq<T>)
    ensures (a + b) + c == a + (b + c)
  {
  }

  /** One unfolding of the grammar per lemma: how each rule continues
      once its first part is known. */
  lemma ExprAfterTerm(st: PState, t: Node, st1: PState)
    requires Shaped(t) && ParseTerm(st) == Ok((Some(t), st1))
    ensures ParseExpr(st) == ExprLoop(t, st1)
  {
  }

  lemma ExprLoopUnion(acc: Node, st: PState, r: Node, st2: PState)
    requires Shaped(acc) && Shaped(r) && Stream(st) != [] && Stream(st)[0] == Bar
    requires ParseTerm(Next(st).1) == Ok((Some(r), st2))
    ensures ExprLoop(acc, st) == ExprLoop(Apply(OpUnion, Some(acc), Some(r)), st2)
  {
  }

  lemma TermAfterFactor(st: PState, f: Node, st1: PState, t: Node, st2: PState)
    requires Shaped(f) && ParseFactor(st) == Ok((Some(f), st1)) && TermLoop(f, st1) == Ok((t, st2))
    ensures ParseTerm(st) == Ok((Some(t), st2))
  {
  }

  lemma TermLoopStep(acc: Node, st: PState, f: Node, st1: PState)
    requires Shaped(acc) && Shaped(f) && ParseFactor(st) == Ok((Some(f), st1))
    ensures TermLoop(acc, st) == TermLoop(Apply(OpConcat, Some(acc), Some(f)), st1)
  {
  }

  lemma TermLoopStop(acc: Node, st: PState, st1: PState)
    requires Shaped(acc) && ParseFactor(st) == Ok((None, st1))
    ensures TermLoop(acc, st) == Ok((acc, st1))
  {
  }

  lemma FactorParen(st: PState, e: Node, st1: PState)
    requires Shaped(e) && Stream(st) != [] && Stream(st)[0] == LP
    requires ParseExpr(Next(st).1) == Ok((e, st1)) && Stream(st1) != [] && Stream(st1)[0] == RP
    ensures ExpLoop(e, Next(st1).1).Ok? ==>
              ParseFactor(st) == Ok((Some(ExpLoop(e, Next(st1).1).value.0), ExpLoop(e, Next(st1).1).value.1))
  {
  }

  lemma FactorLeaf(st: PState)
    requires Stream(st) != [] && (Stream(st)[0].kind == Symbol || Stream(st)[0].kind == Dot)
    ensures ExpLoop(Leaf(Stream(st)[0]), Next(st).1).Ok? ==>
              ParseFactor(st) == Ok((Some(ExpLoop(Leaf(Stream(st)[0]), Next(st).1).value.0),
                                     ExpLoop(Leaf(Stream(st)[0]), Next(st).1).value.1))
  {
  }

  /** The factor parser reads a printed tree, then continues with the
      postfix operators that follow it. */
  lemma {:induction false} FactorPrint(t: Node, st: PState, rest: seq<Token>) returns (st': PState)
    requires Plain(t) && Stream(st) == Print(t) + rest
    ensures Stream(st') == rest
    ensures Shaped(t) && ExpLoop(t, st').Ok? ==>
              ParseFactor(st) == Ok((Some(ExpLoop(t, st').value.0), ExpLoop(t, st').value.1))
    decreases t, 2
  {
    PlainShaped(t);
    match t
    case Leaf(tok) =>
      st' := Next(st).1;
      FactorLeaf(st);
    case Apply(op, l, r) =>
      if op == OpUnion {
        var st1 := Next(st).1;
        Assoc([LP], Print(l.value) + ([Bar] + (Print(r.value) + [RP])), rest);
        Assoc(Print(l.value), [Bar] + (Print(r.value) + [RP]), rest);
        Assoc([Bar], Print(r.value) + [RP], rest);
        Assoc(Print(r.value), [RP], rest);
        assert Stream(st1) == Print(l.value) + ([Bar] + (Print(r.value) + ([RP] + rest)));
        var st2 := UnionPrint(t, st1, rest);
        st' := Next(st2).1;
        FactorParen(st, t, st2);
      } else if op == OpConcat {
        var st1 := Next(st).1;
        Assoc([LP], Print(l.value) + (Print(r.value) + [RP]), rest);
        Assoc(Print(l.value), Print(r.value) + [RP], rest);
        Assoc(Print(r.value), [RP], rest);
        assert Stream(st1) == Print(l.value) + (Print(r.value) + ([RP] + rest));
        var st2 := ConcatPrint(t, st1, rest);
        st' := Next(st2).1;
        FactorParen(st, t, st2);
      } else {
        assert Stream(st) == Print(l.value) + ([OpToken(op)] + rest);
        var st1 := FactorPrint(l.value, st, [OpToken(op)] + rest);
        st' := ExpStep(l.value, st1, op);
      }
  }

  lemma {:induction false} PlainShaped(t: Node)
    requires Plain(t)
    ensures Shaped(t)
  {
    match t
    case Leaf(_) =>
    case Apply(op, l, r) =>
      PlainShaped(l.value);
      if Binary(op) {
        PlainShaped(r.value);
      }
  }

  /** A printed tree followed by a token that neither continues nor starts
      a factor is one whole term. */
  lemma {:induction false} TermPrint(t: Node, st: PState, rest: seq<Token>) returns (st': PState)
    requires Plain(t) && Stream(st) == Print(t) + rest
    requires rest != [] && !IsExp(rest[0]) && !StartsFactor(rest[0])
    ensures Shaped(t) && ParseTerm(st) == Ok((Some(t), st')) && Stream(st') == rest
    decreases t, 3
  {
    PlainShaped(t);
    var st1 := FactorPrint(t, st, rest);
    var st2 := ExpStop(t, st1);
    st' := FactorStop(st2);
    TermLoopStop(t, st2, st');
    TermAfterFactor(st, t, st2, t, st');
  }

  /** The inside of a printed union: `l | r` read as one expression. */
  lemma {:induction false} UnionPrint(t: Node, st: PState, rest: seq<Token>) returns (st': PState)
    requires Plain(t) && t.Apply? && t.op == OpUnion
    requires Stream(st) == Print(t.left.value) + ([Bar] + (Print(t.right.value) + ([RP] + rest)))
    ensures Shaped(t) && ParseExpr(st) == Ok((t, st')) && Stream(st') == [RP] + rest
    decreases t, 1
  {
    var l, r := t.left.value, t.right.value;
    PlainShaped(t);
    var st1 := TermPrint(l, st, [Bar] + (Print(r) + ([RP] + rest)));
    ExprAfterTerm(st, l, st1);
    var st2 := Next(st1).1;
    var st3 := TermPrint(r, st2, [RP] + rest);
    ExprLoopUnion(l, st1, r, st3);
    st' := ExprStop(t, st3);
  }

  /** The inside of a printed concatenation: `l r` read as one expression. */
  lemma {:induction false} ConcatPrint(t: Node, st: PState, rest: seq<Token>) returns (st': PState)
    requires Plain(t) && t.Apply? && t.op == OpConcat
    requires Stream(st) == Print(t.left.value) + (Print(t.right.value) + ([RP] + rest))
    ensures Shaped(t) && ParseExpr(st) == Ok((t, st')) && Stream(st') == [RP] + rest
    decreases t, 1
  {
    PlainShaped(t);
    var st5 := ConcatTerm(t, st, rest);
    ExprAfterTerm(st, t, st5);
    st' := ExprStop(t, st5);
  }

  lemma {:induction false} ConcatTerm(t: Node, st: PState, rest: seq<Token>) returns (st': PState)
    requires Plain(t) && t.Apply? && t.op == OpConcat
    requires Stream(st) == Print(t.left.value) + (Print(t.right.value) + ([RP] + rest))
    ensures Shaped(t) && ParseTerm(st) == Ok((Some(t), st')) && Stream(st') == [RP] + rest
    decreases t, 0
  {
    var l, r := t.left.value, t.right.value;
    PlainShaped(t);
    PrintShape(r);
    var st1 := FactorPrint(l, st, Print(r) + ([RP] + rest));
    var st2 := ExpStop(l, st1);
    var st3 := FactorPrint(r, st2, [RP] + rest);
    var st4 := ExpStop(r, st3);
    st' := FactorStop(st4);
    TermLoopStop(t, st4, st');
    TermLoopStep(l, st2, r, st4);
    TermAfterFactor(st, l, st2, t, st');
  }

  /** Parsing the printed form of a tree gives the tree back. */
  lemma ParseShow(t: Node)
    requires Plain(t)
    ensures Parse(Show(t)) == Ok(t)
  {
    var st := PState(Print(t) + [EndToken], None);
    var st1 := TermPrint(t, st, [EndToken]);
    var st2 := ExprStop(t, st1);
    assert Lex(Show(t)) == Print(t) + [EndToken] by {
      PrintShape(t);
      LexRender(Print(t));
    }
    ParseTokens(Show(t), Print(t) + [EndToken], t);
  }

  /** A text whose tokens parse as `t` parses as `t`. */
  lemma ParseTokens(s: string, toks: seq<Token>, t: Node)
    requires Lex(s) == toks
    requires ParseExpr(PState(toks, None)).Ok? && ParseExpr(PState(toks, None)).value.0 == t
    ensures Parse(s) == Ok(t)
  {
  }

  lemma TermNone(st: PState, st1: PState)
    requires ParseFactor(st) == Ok((None, st1))
    ensures ParseTerm(st) == Ok((None, st1))
  {
  }

  lemma ExprNoTerm(st: PState, st1: PState)
    requires ParseTerm(st) == Ok((None, st1))
    ensures ParseExpr(st) == Err(MissingTerm)
  {
  }

  lemma TermErr(st: PState)
    requires ParseFactor(st).Err?
    ensures ParseTerm(st) == Err(ParseFactor(st).error)
  {
  }

  lemma ExprErr(st: PState)
    requires ParseTerm(st).Err?
    ensures ParseExpr(st) == Err(ParseTerm(st).error)
  {
  }

  lemma FactorParenErr(st: PState)
    requires Stream(st) != [] && Stream(st)[0] == LP && ParseExpr(Next(st).1).Err?
    ensures ParseFactor(st) == Err(ParseExpr(Next(st).1).error)
  {
  }

  lemma FactorParenMissing(st: PState, e: Node, st1: PState)
    requires Shaped(e) && Stream(st) != [] && Stream(st)[0] == LP && ParseExpr(Next(st).1) == Ok((e, st1))
    requires Stream(st1) == [] || Stream(st1)[0].kind != RParen
    ensures ParseFactor(st) == Err(MissingRParen)
  {
  }

  lemma ExprLoopMissing(acc: Node, st: PState, st1: PState)
    requires Shaped(acc) && Stream(st) != [] && Stream(st)[0] == Bar && ParseTerm(Next(st).1) == Ok((None, st1))
    ensures ExprLoop(acc, st) == Err(MissingAfterUnion)
  {
  }

  /** The lexer reads rendered tokens back and carries on with the rest. */
  lemma {:induction false} LexAppend(ts: seq<Token>, rest: string)
    requires forall i :: 0 <= i < |ts| ==> Lexable(ts[i])
    ensures Lex(Render(ts) + rest) == ts + Lex(rest)
    decreases |ts|
  {
    if ts == [] {
      assert Render(ts) + rest == rest;
    } else {
      LexAppend(ts[1..], rest);
      LexAppendCons(ts, rest);
    }
  }

  /** One step of `LexAppend`: the first token is read back, then the rest. */
  lemma LexAppendCons(ts: seq<Token>, rest: string)
    requires ts != [] && forall i :: 0 <= i < |ts| ==> Lexable(ts[i])
    requires Lex(Render(ts[1..]) + rest) == ts[1..] + Lex(rest)
    ensures Lex(Render(ts) + rest) == ts + Lex(rest)
  {
    var x := Render(ts[1..]) + rest;
    assert Render(ts) + rest == Spell(ts[0]) + x by {
      Assoc(Spell(ts[0]), Render(ts[1..]), rest);
    }
    LexSpell(ts[0], x);
    Assoc([ts[0]], ts[1..], Lex(rest));
    ConsSplit(ts);
  }

  lemma ConsSplit<T>(s: seq<T>)
    requires s != []
    ensures [s[0]] + s[1..] == s
  {
  }

  lemma LexShow(t: Node, rest: string)
    requires Plain(t)
    ensures Lex(Show(t) + rest) == Print(t) + Lex(rest)
  {
    PrintShape(t);
    LexAppend(Print(t), rest);
  }

  lemma LexOperator(t: Token, rest: string)
    requires Lexable(t) && t.kind != Symbol
    ensures Lex(t.lexeme + rest) == [t] + Lex(rest)
  {
    LexSpell(t, rest);
  }

  /** The parser's starting state for a text. */
  lemma Start(s: string) returns (st: PState)
    ensures Stream(st) == Lex(s)
    ensures Parse(s) == match ParseExpr(st) case Err(e) => Err(e) case Ok(x) => Ok(x.0)
  {
    st := PState(Lex(s), None);
  }

  /** A printed tree followed by a token that cannot continue it is read as
      that tree. */
  lemma Whole(t: Node, st: PState, rest: seq<Token>)
    requires Plain(t) && Stream(st) == Print(t) + rest && rest != []
    requires !IsExp(rest[0]) && !StartsFactor(rest[0]) && rest[0].kind != Union
    ensures ParseExpr(st).Ok? && ParseExpr(st).value.0 == t
  {
    var st1 := TermPrint(t, st, rest);
    ExprAfterTerm(st, t, st1);
    var st2 := ExprStop(t, st1);
  }

  /** The empty regular expression is a missing term. */
  lemma EmptyText()
    ensures Parse("") == Err(MissingTerm)
  {
    var st := Start("");
    var st1 := FactorStop(st);
    TermNone(st, st1);
    ExprNoTerm(st, st1);
  }

  /** Empty parentheses are a missing term, whatever follows them. */
  lemma EmptyParens(rest: string)
    ensures Parse("()" + rest) == Err(MissingTerm)
  {
    var st := Start("()" + rest);
    assert |Stream(st)| >= 2 && Stream(st)[0] == LP && Stream(st)[1] == RP by {
      assert "()" + rest == LP.lexeme + (RP.lexeme + rest);
      LexOperator(LP, RP.lexeme + rest);
      LexOperator(RP, rest);
    }
    EmptyParensTokens(st);
  }

  lemma EmptyParensTokens(st: PState)
    requires |Stream(st)| >= 2 && Stream(st)[0] == LP && Stream(st)[1] == RP
    ensures ParseExpr(st) == Err(MissingTerm)
  {
    var inner := Next(st).1;
    var st1 := FactorStop(inner);
    TermNone(inner, st1);
    ExprNoTerm(inner, st1);
    FactorParenErr(st);
    TermErr(st);
    ExprErr(st);
  }

  lemma DanglingTokens(t: Node, st: PState)
    requires Plain(t) && Stream(st) == Print(t) + [Bar, EndToken]
    ensures ParseExpr(st) == Err(MissingAfterUnion)
  {
    var st1 := TermPrint(t, st, [Bar, EndToken]);
    ExprAfterTerm(st, t, st1);
    var st2 := Next(st1).1;
    var st3 := FactorStop(st2);
    TermNone(st2, st3);
    ExprLoopMissing(t, st1, st3);
  }

  /** A trailing `|` must be followed by a term. */
  lemma DanglingUnion(t: Node)
    requires Plain(t)
    ensures Parse(Show(t) + "|") == Err(MissingAfterUnion)
  {
    LexShow(t, "|");
    LexOperator(Bar, "");
    assert "|" == Bar.lexeme + "";
    var st := Start(Show(t) + "|");
    DanglingTokens(t, st);
  }

  /** An opening parenthesis needs its closing one. */
  lemma UnclosedParen(t: Node)
    requires Plain(t)
    ensures Parse("(" + Show(t)) == Err(MissingRParen)
  {
    var st := Start("(" + Show(t));
    assert Stream(st) == [LP] + (Print(t) + [EndToken]) by {
      LexOperator(LP, Show(t));
      LexShow(t, "");
      assert Show(t) + "" == Show(t);
    }
    UnclosedParenTokens(t, st);
  }

  lemma UnclosedParenTokens(t: Node, st: PState)
    requires Plain(t) && Stream(st) == [LP] + (Print(t) + [EndToken])
    ensures ParseExpr(st) == Err(MissingRParen)
  {
    var inner := Next(st).1;
    var st1 := TermPrint(t, inner, [EndToken]);
    ExprAfterTerm(inner, t, st1);
    var st2 := ExprStop(t, st1);
    FactorParenMissing(st, t, st2);
    TermErr(st);
    ExprErr(st);
  }

  lemma UnionTokens(a: Node, b: Node, c: Node, st: PState)
    requires Plain(a) && Plain(b) && Plain(c)
    requires Stream(st) == Print(a) + ([Bar] + (Print(b) + ([Bar] + (Print(c) + [EndToken]))))
    ensures ParseExpr(st).Ok? && ParseExpr(st).value.0 == Apply(OpUnion, Some(Apply(OpUnion, Some(a), Some(b))), Some(c))
  {
    var st1 := TermPrint(a, st, [Bar] + (Print(b) + ([Bar] + (Print(c) + [EndToken]))));
    ExprAfterTerm(st, a, st1);
    UnionMiddle(a, b, c, st1);
  }

  /** `| b | c` after the term `acc`. */
  lemma UnionMiddle(acc: Node, b: Node, c: Node, st: PState)
    requires Shaped(acc) && Plain(b) && Plain(c)
    requires Stream(st) == [Bar] + (Print(b) + ([Bar] + (Print(c) + [EndToken])))
    ensures ExprLoop(acc, st).Ok? && ExprLoop(acc, st).value.0 == Apply(OpUnion, Some(Apply(OpUnion, Some(acc), Some(b))), Some(c))
  {
    var st2 := TermPrint(b, Next(st).1, [Bar] + (Print(c) + [EndToken]));
    ExprLoopUnion(acc, st, b, st2);
    UnionLast(Apply(OpUnion, Some(acc), Some(b)), c, st2);
  }

  /** `| c` and the end after the term `acc`. */
  lemma UnionLast(acc: Node, c: Node, st: PState)
    requires Shaped(acc) && Plain(c)
    requires Stream(st) == [Bar] + (Print(c) + [EndToken])
    ensures ExprLoop(acc, st).Ok? && ExprLoop(acc, st).value.0 == Apply(OpUnion, Some(acc), Some(c))
  {
    var st3 := TermPrint(c, Next(st).1, [EndToken]);
    ExprLoopUnion(acc, st, c, st3);
    var st4 := ExprStop(Apply(OpUnion, Some(acc), Some(c)), st3);
  }

  /** Without parentheses, union groups to the left. */
  lemma UnionLeft(a: Node, b: Node, c: Node)
    requires Plain(a) && Plain(b) && Plain(c)
    ensures Parse(Show(a) + "|" + Show(b) + "|" + Show(c))
         == Ok(Apply(OpUnion, Some(Apply(OpUnion, Some(a), Some(b))), Some(c)))
  {
    var s := Show(a) + ("|" + (Show(b) + ("|" + Show(c))));
    assert Show(a) + "|" + Show(b) + "|" + Show(c) == s;
    LexShow(c, "");
    assert Show(c) + "" == Show(c);
    LexOperator(Bar, Show(c));
    LexShow(b, "|" + Show(c));
    LexOperator(Bar, Show(b) + ("|" + Show(c)));
    LexShow(a, "|" + (Show(b) + ("|" + Show(c))));
    var st := Start(s);
    UnionTokens(a, b, c, st);
  }

  /** A printed tree is one factor, and the exponent loop stops before the
      next factor. */
  lemma FactorThen(t: Node, st: PState, rest: seq<Token>) returns (st': PState)
    requires Plain(t) && Stream(st) == Print(t) + rest && rest != [] && !IsExp(rest[0])
    ensures Shaped(t) && ParseFactor(st) == Ok((Some(t), st')) && Stream(st') == rest
  {
    PlainShaped(t);
    var s1 := FactorPrint(t, st, rest);
    st' := ExpStop(t, s1);
  }

  lemma ConcatTokens(a: Node, b: Node, c: Node, st: PState)
    requires Plain(a) && Plain(b) && Plain(c)
    requires Stream(st) == Print(a) + (Print(b) + (Print(c) + [EndToken]))
    ensures ParseExpr(st).Ok? && ParseExpr(st).value.0 == Apply(OpConcat, Some(Apply(OpConcat, Some(a), Some(b))), Some(c))
  {
    PrintShape(b);
    var abc := Apply(OpConcat, Some(Apply(OpConcat, Some(a), Some(b))), Some(c));
    var s2 := FactorThen(a, st, Print(b) + (Print(c) + [EndToken]));
    var s7 := ConcatLoop(a, b, c, s2);
    TermAfterFactor(st, a, s2, abc, s7);
    ExprAfterTerm(st, abc, s7);
    var s8 := ExprStop(abc, s7);
  }

  /** After a first factor, two more plain trees extend the term to the left. */
  lemma ConcatLoop(a: Node, b: Node, c: Node, st: PState) returns (st': PState)
    requires Plain(a) && Plain(b) && Plain(c)
    requires Stream(st) == Print(b) + (Print(c) + [EndToken])
    ensures Shaped(a) && TermLoop(a, st) == Ok((Apply(OpConcat, Some(Apply(OpConcat, Some(a), Some(b))), Some(c)), st'))
    ensures Stream(st') == [EndToken]
  {
    PlainShaped(a);
    var ab := Apply(OpConcat, Some(a), Some(b));
    var abc := Apply(OpConcat, Some(ab), Some(c));
    var s4, s6 := TwoFactors(b, c, st);
    st' := FactorStop(s6);
    calc {
      TermLoop(a, st);
      { TermLoopStep(a, st, b, s4); }
      TermLoop(ab, s4);
      { TermLoopStep(ab, s4, c, s6); }
      TermLoop(abc, s6);
      { TermLoopStop(abc, s6, st'); }
      Ok((abc, st'));
    }
  }

  lemma TwoFactors(b: Node, c: Node, st: PState) returns (s4: PState, s6: PState)
    requires Plain(b) && Plain(c)
    requires Stream(st) == Print(b) + (Print(c) + [EndToken])
    ensures Shaped(b) && ParseFactor(st) == Ok((Some(b), s4))
    ensures Shaped(c) && ParseFactor(s4) == Ok((Some(c), s6))
    ensures Stream(s6) == [EndToken]
  {
    PrintShape(c);
    s4 := FactorThen(b, st, Print(c) + [EndToken]);
    s6 := FactorThen(c, s4, [EndToken]);
  }

  /** Without parentheses, concatenation groups to the left. */
  lemma ConcatLeft(a: Node, b: Node, c: Node)
    requires Plain(a) && Plain(b) && Plain(c)
    ensures Parse(Show(a) + Show(b) + Show(c))
         == Ok(Apply(OpConcat, Some(Apply(OpConcat, Some(a), Some(b))), Some(c)))
  {
    var s := Show(a) + (Show(b) + Show(c));
    assert Show(a) + Show(b) + Show(c) == s;
    LexShow(c, "");
    assert Show(c) + "" == Show(c);
    LexShow(b, Show(c));
    LexShow(a, Show(b) + Show(c));
    var st := Start(s);
    ConcatTokens(a, b, c, st);
  }

  /** Only a prefix is read: whatever follows a stray `)` after a complete
      expression goes unreported. */
  lemma StrayParen(t: Node, rest: string)
    requires Plain(t)
    ensures Parse(Show(t) + ")" + rest) == Ok(t)
  {
    var s := Show(t) + (RP.lexeme + rest);
    assert Show(t) + ")" + rest == s;
    LexOperator(RP, rest);
    LexShow(t, RP.lexeme + rest);
    var st := Start(s);
    Whole(t, st, [RP] + Lex(rest));
  }

  /** A trailing lone backslash after a complete expression goes unreported. */
  /** A lone backslash lexes as an ERROR token and the end. */
  lemma LexLoneBackslash()
    ensures Lex("\\") == [Token(ErrorToken, ""), EndToken]
  {
    assert NextToken("\\") == (Token(ErrorToken, ""), []);
  }

  lemma TrailingBackslash(t: Node)
    requires Plain(t)
    ensures Parse(Show(t) + "\\") == Ok(t)
  {
    LexShow(t, "\\");
    LexLoneBackslash();
    var st := Start(Show(t) + "\\");
    Whole(t, st, [Token(ErrorToken, ""), EndToken]);
  }

  /** The lexer reads a backslash and any character after it as that
      character, an ordinary one included. */
  lemma LexEscape(c: char, rest: string)
    ensures NextToken(['\\', c] + rest) == (Token(Symbol, [c]), rest)
    ensures Lex(['\\', c] + rest) == [Token(Symbol, [c])] + Lex(rest)
  {
    var s := ['\\', c] + rest;
    assert s[0] == '\\' && s[1] == c && s[2..] == rest;
  }

  /** A backslash makes any character a symbol: an operator character, a
      backslash, or an ordinary character that needs no escape. */
  lemma EscapedOperator(c: char)
    ensures Parse(['\\', c]) == Ok(Leaf(Token(Symbol, [c])))
  {
    var t := Leaf(Token(Symbol, [c]));
    PrintShape(t);
    assert Print(t) == [t.token];
    LexEscape(c, "");
    assert ['\\', c] + "" == ['\\', c];
    assert Lex("") == [EndToken];
    var st := Start(['\\', c]);
    Whole(t, st, [EndToken]);
  }
}
