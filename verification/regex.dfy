/** The regular-expression front end shared by both revisions
    (src/regular/regular.py and regular.py): a two-state lexer, a
    recursive-descent parser with one token of pushback, and the syntax
    tree it builds. The lexer is a function of the remaining input, so the
    parser reads from the list of tokens the lexer would hand out. */
module Regex {
  import opened Wrappers

  datatype Kind =
    | Dot | Star | Plus | Question | Union
    | LParen | RParen | LBracket | RBracket
    | Symbol | End | ErrorToken

  datatype Token = Token(kind: Kind, lexeme: string)

  const EndToken := Token(End, "")

  /** The characters that are tokens of their own. */
  function CharKind(c: char): Option<Kind> {
    match c
    case '.' => Some(Dot)
    case '*' => Some(Star)
    case '+' => Some(Plus)
    case '?' => Some(Question)
    case '|' => Some(Union)
    case '(' => Some(LParen)
    case ')' => Some(RParen)
    case '[' => Some(LBracket)
    case ']' => Some(RBracket)
    case _ => None
  }

  /** `Lexer.next_token`: the next token and the input left after it. At the
      end of input the token is END and nothing is consumed; a trailing
      backslash is an ERROR token with an empty lexeme. */
  function NextToken(input: string): (r: (Token, string))
    ensures input == [] ==> r == (EndToken, [])
    ensures input != [] ==> r.0.kind != End && |r.1| < |input| && r.1 == input[|input| - |r.1|..]
    ensures r.0.kind == ErrorToken ==> input == ['\\'] && r.1 == []
  {
    if input == [] then (EndToken, [])
    else if CharKind(input[0]).Some? then (Token(CharKind(input[0]).value, [input[0]]), input[1..])
    else if input[0] == '\\' then
      if |input| == 1 then (Token(ErrorToken, ""), []) else (Token(Symbol, [input[1]]), input[2..])
    else (Token(Symbol, [input[0]]), input[1..])
  }

  /** Every token the lexer hands out for `input`, up to and including the
      first END. */
  function Lex(input: string): (ts: seq<Token>)
    ensures 0 < |ts| && ts[|ts| - 1] == EndToken
    ensures forall i :: 0 <= i < |ts| - 1 ==> ts[i].kind != End
    decreases |input|
  {
    if input == [] then [EndToken]
    else
      var (t, rest) := NextToken(input);
      [t] + Lex(rest)
  }

  /** The character an operator token is written with. */
  function KindChar(k: Kind): char
    requires k !in {Symbol, End, ErrorToken}
  {
    match k
    case Dot => '.'
    case Star => '*'
    case Plus => '+'
    case Question => '?'
    case Union => '|'
    case LParen => '('
    case RParen => ')'
    case LBracket => '['
    case RBracket => ']'
  }

  /** A token the lexer can produce from some text other than its end. */
  predicate Lexable(t: Token) {
    if t.kind == Symbol then |t.lexeme| == 1
    else t.kind !in {End, ErrorToken} && t.lexeme == [KindChar(t.kind)]
  }

  /** The text of a token: an operator character stands for itself, and a
      symbol that is an operator character or a backslash is escaped. */
  function Spell(t: Token): string
    requires Lexable(t)
  {
    if t.kind == Symbol && (CharKind(t.lexeme[0]).Some? || t.lexeme[0] == '\\') then ['\\'] + t.lexeme
    else t.lexeme
  }

  function Render(ts: seq<Token>): string
    requires forall i :: 0 <= i < |ts| ==> Lexable(ts[i])
  {
    if ts == [] then [] else Spell(ts[0]) + Render(ts[1..])
  }

  /** The lexer reads a spelled token back. */
  lemma NextSpell(t: Token, rest: string)
    requires Lexable(t)
    ensures NextToken(Spell(t) + rest) == (t, rest)
  {
    var s := Spell(t) + rest;
    if t.kind == Symbol {
      if CharKind(t.lexeme[0]).Some? || t.lexeme[0] == '\\' {
        assert s[0] == '\\' && s[1] == t.lexeme[0] && s[2..] == rest;
        assert t.lexeme == [t.lexeme[0]];
      } else {
        assert s[0] == t.lexeme[0] && s[1..] == rest;
        assert t.lexeme == [t.lexeme[0]];
      }
    } else {
      assert s[0] == KindChar(t.kind) && s[1..] == rest;
    }
  }

  lemma LexSpell(t: Token, rest: string)
    requires Lexable(t)
    ensures Lex(Spell(t) + rest) == [t] + Lex(rest)
  {
    NextSpell(t, rest);
  }

  /** Lexing the rendering of a token list gives the list back, followed by END. */
  lemma {:induction false} LexRender(ts: seq<Token>)
    requires forall i :: 0 <= i < |ts| ==> Lexable(ts[i])
    ensures Lex(Render(ts)) == ts + [EndToken]
  {
    if ts != [] {
      var tail := ts[1..];
      LexRender(tail);
      LexSpell(ts[0], Render(tail));
      assert Render(ts) == Spell(ts[0]) + Render(tail);
      assert ts + [EndToken] == [ts[0]] + (tail + [EndToken]);
    }
  }

  datatype Operator = OpUnion | OpConcat | OpStar | OpPlus | OpQuestion

  /** A syntax tree node: a token leaf, or an operator with optional
      children (a postfix operator only has a left child). */
  datatype Node = Leaf(token: Token) | Apply(op: Operator, left: Option<Node>, right: Option<Node>)

  predicate Binary(op: Operator) {
    op == OpUnion || op == OpConcat
  }

  /** The shape of every tree the parser builds: leaves are SYMBOL or DOT
      tokens, binary operators have both children and postfix operators
      only a left one. */
  predicate Shaped(t: Node) {
    match t
    case Leaf(tok) => tok.kind == Symbol || tok.kind == Dot
    case Apply(op, l, r) =>
      && l.Some? && Shaped(l.value)
      && (if Binary(op) then r.Some? && Shaped(r.value) else r.None?)
  }

  /** The parser's input: the tokens still to be handed out, and the token
      pushed back, if any. */
  datatype PState = PState(toks: seq<Token>, pushback: Option<Token>)

  /** The tokens the parser will read from a state, in order. */
  function Stream(st: PState): seq<Token> {
    (if st.pushback.Some? then [st.pushback.value] else []) + st.toks
  }

  /** A measure that every token other than END strictly decreases. */
  function Size(st: PState): nat {
    2 * |st.toks| + if st.pushback.Some? && st.pushback.value.kind != End then 1 else 0
  }

  /** `_next_token`: the pushed-back token if there is one, otherwise the
      lexer's next token (END for ever once the tokens are used up). */
  function Next(st: PState): (r: (Token, PState))
    ensures r.1.pushback.None?
    ensures Size(r.1) <= Size(st) && (r.0.kind != End ==> Size(r.1) < Size(st))
    ensures Size(PState(r.1.toks, Some(r.0))) <= Size(st)
    ensures Stream(st) != [] ==> r.0 == Stream(st)[0] && Stream(r.1) == Stream(st)[1..]
    ensures Stream(st) == [] ==> r.0 == EndToken && Stream(r.1) == []
  {
    if st.pushback.Some? then (st.pushback.value, PState(st.toks, None))
    else if st.toks == [] then (EndToken, st)
    else (st.toks[0], PState(st.toks[1..], None))
  }

  /** `_pushback_token`: fails with "pushback error" when a token is
      already pushed back. */
  function Pushback(st: PState, t: Token): (r: Result<PState>)
    ensures r.Ok? <==> st.pushback.None?
    ensures r.Ok? ==> Stream(r.value) == [t] + Stream(st)
    ensures r.Err? ==> r.error == PushbackError
  {
    if st.pushback.Some? then Err(PushbackError) else Ok(PState(st.toks, Some(t)))
  }

  /** The errors the parser can report; "pushback error" is not among them. */
  predicate ParseError(e: Error) {
    e == MissingTerm || e == MissingAfterUnion || e == MissingRParen
  }

  /** `_parse_expr`: terms separated by `|`, grouped to the left. */
  function ParseExpr(st: PState): (r: Result<(Node, PState)>)
    ensures r.Ok? ==> Size(r.value.1) <= Size(st) && Shaped(r.value.0)
    ensures r.Err? ==> ParseError(r.error)
    decreases Size(st), 3
  {
    var t :- ParseTerm(st);
    if t.0.None? then Err(MissingTerm) else ExprLoop(t.0.value, t.1)
  }

  function ExprLoop(acc: Node, st: PState): (r: Result<(Node, PState)>)
    requires Shaped(acc)
    ensures r.Ok? ==> Size(r.value.1) <= Size(st) && Shaped(r.value.0)
    ensures r.Err? ==> ParseError(r.error)
    decreases Size(st), 2
  {
    var (tok, st1) := Next(st);
    if tok.kind != Union then
      match Pushback(st1, tok)
      case Err(e) => Err(e)
      case Ok(st2) => Ok((acc, st2))
    else
      var t :- ParseTerm(st1);
      if t.0.None? then Err(MissingAfterUnion)
      else ExprLoop(Apply(OpUnion, Some(acc), t.0), t.1)
  }

  /** `_parse_term`: a possibly empty run of factors, grouped to the left. */
  function ParseTerm(st: PState): (r: Result<(Option<Node>, PState)>)
    ensures r.Ok? ==> Size(r.value.1) <= Size(st)
    ensures r.Ok? && r.value.0.Some? ==> Shaped(r.value.0.value)
    ensures r.Err? ==> ParseError(r.error)
    decreases Size(st), 2
  {
    var f :- ParseFactor(st);
    if f.0.None? then Ok((None, f.1))
    else
      var t :- TermLoop(f.0.value, f.1);
      Ok((Some(t.0), t.1))
  }

  function TermLoop(acc: Node, st: PState): (r: Result<(Node, PState)>)
    requires Shaped(acc)
    ensures r.Ok? ==> Size(r.value.1) <= Size(st) && Shaped(r.value.0)
    ensures r.Err? ==> ParseError(r.error)
    decreases Size(st), 2
  {
    var f :- ParseFactor(st);
    if f.0.None? then Ok((acc, f.1))
    else TermLoop(Apply(OpConcat, Some(acc), f.0), f.1)
  }

  /** `_parse_factor`: a symbol, a dot or a parenthesised expression,
      followed by any number of postfix operators; no factor when the next
      token starts none (that token is pushed back). */
  function ParseFactor(st: PState): (r: Result<(Option<Node>, PState)>)
    ensures r.Ok? ==> Size(r.value.1) <= Size(st)
    ensures r.Ok? && r.value.0.Some? ==> Size(r.value.1) < Size(st) && Shaped(r.value.0.value)
    ensures r.Err? ==> ParseError(r.error)
    decreases Size(st), 1
  {
    var (tok, st1) := Next(st);
    if tok.kind == Symbol || tok.kind == Dot then
      var e :- ExpLoop(Leaf(tok), st1);
      Ok((Some(e.0), e.1))
    else if tok.kind == LParen then
      var x :- ParseExpr(st1);
      var (close, st2) := Next(x.1);
      if close.kind != RParen then Err(MissingRParen)
      else
        var e :- ExpLoop(x.0, st2);
        Ok((Some(e.0), e.1))
    else
      match Pushback(st1, tok)
      case Err(e) => Err(e)
      case Ok(st2) => Ok((None, st2))
  }

  function ExpLoop(acc: Node, st: PState): (r: Result<(Node, PState)>)
    requires Shaped(acc)
    ensures r.Ok? ==> Size(r.value.1) <= Size(st) && Shaped(r.value.0)
    ensures r.Err? ==> ParseError(r.error)
    decreases Size(st), 1
  {
    var x :- ParseExponent(st);
    if x.0.None? then Ok((acc, x.1))
    else ExpLoop(Apply(x.0.value, Some(acc), None), x.1)
  }

  /** `_parse_exponent`: one postfix operator, or nothing (the token read
      is pushed back). */
  function ParseExponent(st: PState): (r: Result<(Option<Operator>, PState)>)
    ensures r.Ok? ==> Size(r.value.1) <= Size(st)
    ensures r.Ok? && r.value.0.Some? ==> Size(r.value.1) < Size(st) && !Binary(r.value.0.value)
    ensures r.Err? ==> ParseError(r.error)
    decreases Size(st), 0
  {
    var (tok, st1) := Next(st);
    if tok.kind == Star then Ok((Some(OpStar), st1))
    else if tok.kind == Plus then Ok((Some(OpPlus), st1))
    else if tok.kind == Question then Ok((Some(OpQuestion), st1))
    else
      match Pushback(st1, tok)
      case Err(e) => Err(e)
      case Ok(st2) => Ok((None, st2))
  }

  /** `Parser(regex).parse()`: an expression read from the start of the
      input; whatever follows it is left unread. */
  function Parse(regex: string): (r: Result<Node>)
    ensures r.Ok? ==> Shaped(r.value)
    ensures r.Err? ==> ParseError(r.error)
  {
    var x :- ParseExpr(PState(Lex(regex), None));
    Ok(x.0)
  }
}
