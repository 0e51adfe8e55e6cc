/** The evaluator builds, for every tree, an automaton whose language is the
    one the tree denotes. */
module EvalLang {
  import opened Wrappers
  import opened Words
  import opened NfaCore
  import opened NfaOps
  import opened NfaLang
  import opened Regex
  import opened Evaluator

  /** `n` is a valid automaton for the language of `t`. */
  ghost predicate Denotes(n: Nfa, t: Node) {
    Valid(n) && forall w :: Accepts(n, w) <==> Matches(t, w)
  }

  lemma AnyAcceptsOne(b: Nfa, w: Word)
    ensures AnyAccepts([b], w) <==> Accepts(b, w)
  {
    if Accepts(b, w) {
      assert [b][0] == b;
    }
  }

  /** One of the single-character automata accepts `w` exactly when `w` is
      one character of `cs`. */
  lemma SinglesLanguage(cs: string, base: nat, w: Word)
    ensures AnyAccepts(Singles(cs, base), w) <==> |w| == 1 && w[0] in cs
  {
    if AnyAccepts(Singles(cs, base), w) {
      SingleAccepted(cs, base, w);
    }
    if |w| == 1 && w[0] in cs {
      SingleAccepts(cs, base, w);
    }
  }

  lemma SingleAccepted(cs: string, base: nat, w: Word)
    requires AnyAccepts(Singles(cs, base), w)
    ensures |w| == 1 && w[0] in cs
  {
    var ns := Singles(cs, base);
    var i :| 0 <= i < |ns| && Accepts(ns[i], w);
    assert ns[i] == Single(cs, base, i);
    SingleLanguage(cs, base, i, w);
  }

  /** The automaton of the `i`-th character accepts that character alone. */
  lemma SingleLanguage(cs: string, base: nat, i: nat, w: Word)
    requires i < |cs|
    ensures Accepts(Single(cs, base, i), w) <==> w == [cs[i]]
  {
    FromStringLanguage([cs[i]], base + 2 * i, w);
  }

  lemma SingleAccepts(cs: string, base: nat, w: Word)
    requires |w| == 1 && w[0] in cs
    ensures AnyAccepts(Singles(cs, base), w)
  {
    var ns := Singles(cs, base);
    var i :| 0 <= i < |cs| && cs[i] == w[0];
    assert ns[i] == Single(cs, base, i) && w == [cs[i]];
    SingleLanguage(cs, base, i, w);
  }

  /** The automaton for DOT accepts exactly the one-character words over `cs`. */
  lemma AnyOfLanguage(cs: string, base: nat, w: Word)
    ensures Valid(AnyOf(cs, base).value)
    ensures Accepts(AnyOf(cs, base).value, w) <==> |w| == 1 && w[0] in cs
  {
    SinglesPlaced(cs, base + 2, {base, base + 1});
    assert Empty(base).Q + {base + 1} == {base, base + 1};
    UnionAllLanguage(Empty(base), Singles(cs, base + 2), base + 1, w);
    EmptyLanguage(base, w);
    SinglesLanguage(cs, base + 2, w);
  }

  lemma UnionNodeLanguage(a: Nfa, b: Nfa, lo: nat, mid: nat, next: nat, w: Word)
    requires lo <= mid <= next && Within(a, lo, mid) && Within(b, mid, next)
    requires Valid(a) && Valid(b)
    ensures Valid(UnionNode(a, b, lo, mid, next).0)
    ensures Accepts(UnionNode(a, b, lo, mid, next).0, w) <==> Accepts(a, w) || Accepts(b, w)
  {
    Apart(a, b, lo, mid, next);
    assert [b][1..] == [];
    UnionAllLanguage(a, [b], next, w);
    AnyAcceptsOne(b, w);
  }

  lemma ConcatNodeLanguage(a: Nfa, b: Nfa, lo: nat, mid: nat, next: nat, w: Word)
    requires lo <= mid <= next && Within(a, lo, mid) && Within(b, mid, next)
    requires Valid(a) && Valid(b)
    ensures Valid(ConcatNode(a, b, lo, mid, next).0)
    ensures Accepts(ConcatNode(a, b, lo, mid, next).0, w) <==>
            exists u, v :: w == u + v && Accepts(a, u) && Accepts(b, v)
  {
    Apart(a, b, lo, mid, next);
    ConcatValid(a, b);
    ConcatLanguage(a, b, w);
  }

  lemma StarNodeLanguage(a: Nfa, lo: nat, next: nat, w: Word)
    requires lo <= next && Within(a, lo, next) && Valid(a)
    ensures Valid(StarNode(a, lo, next).0)
    ensures Accepts(StarNode(a, lo, next).0, w) <==> StarOf(a, w)
  {
    StarValid(a, next);
    StarLanguage(a, next, w);
  }

  /** A word splits into words of the copy exactly when it splits into words
      of the original. */
  lemma CopyStarOf(a: Nfa, off: nat, w: Word)
    ensures StarOf(Copy(a, off), w) <==> StarOf(a, w)
  {
    forall v {
      CopyLanguage(a, off, v);
    }
  }

  lemma PlusNodeLanguage(a: Nfa, lo: nat, next: nat, w: Word)
    requires lo <= next && Within(a, lo, next) && Valid(a)
    ensures Valid(PlusNode(a, lo, next).0)
    ensures Accepts(PlusNode(a, lo, next).0, w) <==>
            exists u, v :: w == u + v && Accepts(a, u) && StarOf(a, v)
  {
    var c0 := Copy(a, next);
    var c := NfaOps.Star(c0, 2 * next);
    CopyValid(a, next);
    StarValid(c0, 2 * next);
    Apart(a, c, lo, next, 2 * next + 1);
    ConcatValid(a, c);
    ConcatLanguage(a, c, w);
    forall v
      ensures Accepts(c, v) <==> StarOf(a, v)
    {
      StarLanguage(c0, 2 * next, v);
      CopyStarOf(a, next, v);
    }
  }

  lemma QuestionNodeLanguage(a: Nfa, lo: nat, next: nat, w: Word)
    requires lo <= next && Within(a, lo, next) && Valid(a)
    ensures Valid(QuestionNode(a, lo, next).0)
    ensures Accepts(QuestionNode(a, lo, next).0, w) <==> w == [] || Accepts(a, w)
  {
    var e := FromString([], next);
    assert Within(e, next, NextHandle(next));
    EmptyWordLanguage(next, w);
    QuestionOf(a, e, lo, next, NextHandle(next), w, w == []);
  }

  /** The union of `a` with an automaton `e` that accepts `w` exactly when
      `b` holds. */
  lemma QuestionOf(a: Nfa, e: Nfa, lo: nat, mid: nat, hi: nat, w: Word, b: bool)
    requires lo <= mid <= hi && Within(a, lo, mid) && Valid(a)
    requires Within(e, mid, hi) && Valid(e) && (Accepts(e, w) <==> b)
    ensures Valid(UnionNode(a, e, lo, mid, hi).0)
    ensures Accepts(UnionNode(a, e, lo, mid, hi).0, w) <==> b || Accepts(a, w)
  {
    UnionNodeLanguage(a, e, lo, mid, hi, w);
  }

  /** The automaton of `from_string("")` accepts the empty word alone. */
  lemma EmptyWordLanguage(q: nat, w: Word)
    ensures Accepts(FromString([], q), w) <==> w == []
  {
    FromStringLanguage([], q, w);
  }

  lemma StarOfToIterated(a: Nfa, t: Node, w: Word)
    requires forall v :: Accepts(a, v) ==> Matches(t, v)
    requires StarOf(a, w)
    ensures Iterated(t, w)
  {
    var ws: seq<Word> :| Flatten(ws) == w && forall i :: 0 <= i < |ws| ==> Accepts(a, ws[i]);
    assert forall i :: 0 <= i < |ws| ==> Matches(t, ws[i]);
  }

  lemma IteratedToStarOf(a: Nfa, t: Node, w: Word)
    requires forall v :: Matches(t, v) ==> Accepts(a, v)
    requires Iterated(t, w)
    ensures StarOf(a, w)
  {
    var ws: seq<Word> :| Flatten(ws) == w && forall i :: 0 <= i < |ws| ==> Matches(t, ws[i]);
    assert forall i :: 0 <= i < |ws| ==> Accepts(a, ws[i]);
  }

  /** Splitting into words of an automaton and of a tree agree when the two
      have the same language. */
  lemma StarOfIterated(a: Nfa, t: Node, w: Word)
    requires forall v :: Accepts(a, v) <==> Matches(t, v)
    ensures StarOf(a, w) <==> Iterated(t, w)
  {
    if StarOf(a, w) {
      StarOfToIterated(a, t, w);
    }
    if Iterated(t, w) {
      IteratedToStarOf(a, t, w);
    }
  }

  lemma UnionDenotes(a: Nfa, l: Node, b: Nfa, r: Node, lo: nat, mid: nat, next: nat)
    requires lo <= mid <= next && Within(a, lo, mid) && Within(b, mid, next)
    requires Denotes(a, l) && Denotes(b, r)
    ensures Denotes(UnionNode(a, b, lo, mid, next).0, Apply(OpUnion, Some(l), Some(r)))
  {
    UnionNodeLanguage(a, b, lo, mid, next, []);
    forall w
      ensures Accepts(UnionNode(a, b, lo, mid, next).0, w) <==> Matches(Apply(OpUnion, Some(l), Some(r)), w)
    {
      UnionNodeLanguage(a, b, lo, mid, next, w);
      assert Matches(Apply(OpUnion, Some(l), Some(r)), w) <==> Matches(l, w) || Matches(r, w);
      assert Accepts(a, w) <==> Matches(l, w);
      assert Accepts(b, w) <==> Matches(r, w);
    }
  }

  lemma ConcatDenotes(a: Nfa, l: Node, b: Nfa, r: Node, lo: nat, mid: nat, next: nat)
    requires lo <= mid <= next && Within(a, lo, mid) && Within(b, mid, next)
    requires Denotes(a, l) && Denotes(b, r)
    ensures Denotes(ConcatNode(a, b, lo, mid, next).0, Apply(OpConcat, Some(l), Some(r)))
  {
    ConcatNodeLanguage(a, b, lo, mid, next, []);
    forall w
      ensures Accepts(ConcatNode(a, b, lo, mid, next).0, w) <==> Matches(Apply(OpConcat, Some(l), Some(r)), w)
    {
      ConcatNodeLanguage(a, b, lo, mid, next, w);
    }
  }

  lemma StarDenotes(a: Nfa, l: Node, r: Option<Node>, lo: nat, next: nat)
    requires lo <= next && Within(a, lo, next) && Denotes(a, l)
    ensures Denotes(StarNode(a, lo, next).0, Apply(OpStar, Some(l), r))
  {
    StarNodeLanguage(a, lo, next, []);
    forall w
      ensures Accepts(StarNode(a, lo, next).0, w) <==> Matches(Apply(OpStar, Some(l), r), w)
    {
      StarNodeLanguage(a, lo, next, w);
      StarOfIterated(a, l, w);
    }
  }

  lemma PlusDenotesAt(a: Nfa, l: Node, r: Option<Node>, lo: nat, next: nat, w: Word)
    requires lo <= next && Within(a, lo, next) && Valid(a)
    requires forall v :: Accepts(a, v) <==> Matches(l, v)
    requires forall v :: StarOf(a, v) <==> Iterated(l, v)
    ensures Accepts(PlusNode(a, lo, next).0, w) <==> Matches(Apply(OpPlus, Some(l), r), w)
  {
    PlusNodeLanguage(a, lo, next, w);
    SplitsAgree(a, l, w);
    PlusMatches(l, r, w);
  }

  lemma PlusMatches(l: Node, r: Option<Node>, w: Word)
    ensures Matches(Apply(OpPlus, Some(l), r), w) <==>
            exists u, v :: w == u + v && Matches(l, u) && Iterated(l, v)
  {
  }

  /** A split into a word of `a` and a word of its star is a split into a
      word of `l` and an iteration of `l`, when `a` and `l` agree. */
  lemma SplitsAgree(a: Nfa, l: Node, w: Word)
    requires forall v :: Accepts(a, v) <==> Matches(l, v)
    requires forall v :: StarOf(a, v) <==> Iterated(l, v)
    ensures (exists u, v :: w == u + v && Accepts(a, u) && StarOf(a, v)) <==>
            (exists u, v :: w == u + v && Matches(l, u) && Iterated(l, v))
  {
    if exists u, v :: w == u + v && Accepts(a, u) && StarOf(a, v) {
      var u, v :| w == u + v && Accepts(a, u) && StarOf(a, v);
      assert Matches(l, u) && Iterated(l, v);
    }
    if exists u, v :: w == u + v && Matches(l, u) && Iterated(l, v) {
      var u, v :| w == u + v && Matches(l, u) && Iterated(l, v);
      assert Accepts(a, u) && StarOf(a, v);
    }
  }

  lemma PlusDenotes(a: Nfa, l: Node, r: Option<Node>, lo: nat, next: nat)
    requires lo <= next && Within(a, lo, next) && Denotes(a, l)
    ensures Denotes(PlusNode(a, lo, next).0, Apply(OpPlus, Some(l), r))
  {
    PlusNodeLanguage(a, lo, next, []);
    forall v
      ensures StarOf(a, v) <==> Iterated(l, v)
    {
      StarOfIterated(a, l, v);
    }
    forall w
      ensures Accepts(PlusNode(a, lo, next).0, w) <==> Matches(Apply(OpPlus, Some(l), r), w)
    {
      PlusDenotesAt(a, l, r, lo, next, w);
    }
  }

  lemma QuestionDenotes(a: Nfa, l: Node, r: Option<Node>, lo: nat, next: nat)
    requires lo <= next && Within(a, lo, next) && Denotes(a, l)
    ensures Denotes(QuestionNode(a, lo, next).0, Apply(OpQuestion, Some(l), r))
  {
    QuestionNodeLanguage(a, lo, next, []);
    forall w
      ensures Accepts(QuestionNode(a, lo, next).0, w) <==> Matches(Apply(OpQuestion, Some(l), r), w)
    {
      QuestionNodeLanguage(a, lo, next, w);
      assert Matches(Apply(OpQuestion, Some(l), r), w) <==> w == [] || Matches(l, w);
      assert Accepts(a, w) <==> Matches(l, w);
    }
  }

  /** The operator step of `Node.eval` builds the language of the operator
      from the operands' languages. */
  lemma CombineLanguage(op: Operator, a: Nfa, l: Node, b: Option<Nfa>, r: Option<Node>, lo: nat, mid: nat, next: nat)
    requires lo <= mid <= next && Within(a, lo, mid) && (b.Some? ==> Within(b.value, mid, next))
    requires Denotes(a, l) && (b.Some? <==> r.Some?) && (b.Some? ==> Denotes(b.value, r.value))
    requires Combine(op, a, b, lo, mid, next).Ok?
    ensures Denotes(Combine(op, a, b, lo, mid, next).value.0, Apply(op, Some(l), r))
  {
    match op
    case OpUnion => UnionDenotes(a, l, b.value, r.value, lo, mid, next);
    case OpConcat => ConcatDenotes(a, l, b.value, r.value, lo, mid, next);
    case OpStar => StarDenotes(a, l, r, lo, next);
    case OpPlus => PlusDenotes(a, l, r, lo, next);
    case OpQuestion => QuestionDenotes(a, l, r, lo, next);
  }

  /** `Node.eval` builds an automaton for the language of the tree. */
  lemma {:induction false} EvalLanguage(t: Node, base: nat)
    requires Eval(t, base).Ok?
    ensures Denotes(Eval(t, base).value.0, t)
    decreases t
  {
    match t
    case Leaf(tok) =>
      if tok.kind == Symbol {
        forall w {
          FromStringLanguage(tok.lexeme, base, w);
        }
      } else {
        forall w {
          AnyOfLanguage(Printable, base, w);
        }
      }
    case Apply(op, l, r) =>
      EvalLanguage(l.value, base);
      var mid := Eval(l.value, base).value.1;
      if r.Some? {
        EvalLanguage(r.value, mid);
      }
      var next := if r.Some? then Eval(r.value, mid).value.1 else mid;
      var b := if r.Some? then Some(Eval(r.value, mid).value.0) else None;
      CombineLanguage(op, Eval(l.value, base).value.0, l.value, b, r, base, mid, next);
  }

  /** Every tree the parser builds evaluates without error. */
  lemma {:induction false} EvalShaped(t: Node, base: nat)
    requires Shaped(t)
    ensures Eval(t, base).Ok?
    decreases t
  {
    match t
    case Leaf(_) =>
    case Apply(op, l, r) =>
      EvalShaped(l.value, base);
      if r.Some? {
        EvalShaped(r.value, Eval(l.value, base).value.1);
      }
  }
}
