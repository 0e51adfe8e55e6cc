/** The evaluator of the newer revision (`Node.eval`): a syntax tree becomes
    an automaton built with the in-place combinators. The handles that the
    source allocates with `object()` come from a counter threaded through
    the evaluation: `Eval(t, base)` uses handles from `base` upwards and
    returns the first handle it left unused. */
module Evaluator {
  import opened Wrappers
  import opened Words
  import opened NfaCore
  import opened NfaOps
  import opened NfaLang
  import opened Regex

  /** Python's `string.printable`: digits, letters, punctuation and the six
      whitespace characters, 100 characters in all. */
  const Printable: string := "0123456789abcdefghijklmnopqrstuvwxyzABCDEFGHIJKLMNOPQRSTUVWXYZ!\"#$%&'()*+,-./:;<=>?@[\\]^_`{|}~ \t\n\r\U{000B}\U{000C}"

  /** Every handle of `n` lies in `[lo, hi)`. */
  predicate Within(n: Nfa, lo: nat, hi: nat) {
    forall q :: q in n.Q ==> lo <= q < hi
  }

  lemma Apart(a: Nfa, b: Nfa, lo: nat, mid: nat, hi: nat)
    requires Within(a, lo, mid) && Within(b, mid, hi)
    ensures a.Q !! b.Q && a.Q * b.Q == {}
  {
  }

  /** One `from_string` automaton per character of `cs`, two handles each,
      from `base` upwards. */
  function Singles(cs: string, base: nat): seq<Nfa> {
    seq(|cs|, i requires 0 <= i < |cs| => Single(cs, base, i))
  }

  /** The automaton of the `i`-th character of `cs`. */
  function Single(cs: string, base: nat, i: nat): Nfa
    requires i < |cs|
  {
    FromString([cs[i]], base + 2 * i)
  }

  lemma {:induction false} SinglesPlaced(cs: string, base: nat, x: set<nat>)
    requires forall q :: q in x ==> q < base
    ensures Separate(x, Singles(cs, base))
    ensures forall q :: q in States(Singles(cs, base)) ==> base <= q < base + 2 * |cs|
    ensures AllValid(Singles(cs, base))
    decreases |cs|
  {
    var ns := Singles(cs, base);
    if cs != [] {
      assert ns[1..] == Singles(cs[1..], base + 2);
      SinglesPlaced(cs[1..], base + 2, x + ns[0].Q);
    }
  }

  /** `empty()` united with one `from_string(c)` for every `c` of `cs`; a
      DOT leaf evaluates to this automaton for the printable characters. */
  function AnyOf(cs: string, base: nat): (r: Result<Nfa>)
    ensures r.Ok? && Within(r.value, base, base + 2 + 2 * |cs|)
  {
    SinglesPlaced(cs, base + 2, {base, base + 1});
    assert Empty(base).Q + {base + 1} == {base, base + 1};
    UnionAll(Empty(base), Singles(cs, base + 2), base + 1)
  }

  /** `a.update_union(b)` with the fresh start `next`. */
  function UnionNode(a: Nfa, b: Nfa, lo: nat, mid: nat, next: nat): (r: (Nfa, nat))
    requires lo <= mid <= next && Within(a, lo, mid) && Within(b, mid, next)
    ensures next <= r.1 && Within(r.0, lo, r.1)
  {
    Apart(a, b, lo, mid, next);
    assert [b][1..] == [];
    (UnionAll(a, [b], next).value, next + 1)
  }

  /** `a.update_concat(b)`. */
  function ConcatNode(a: Nfa, b: Nfa, lo: nat, mid: nat, next: nat): (r: (Nfa, nat))
    requires lo <= mid <= next && Within(a, lo, mid) && Within(b, mid, next)
    ensures next <= r.1 && Within(r.0, lo, r.1)
  {
    Apart(a, b, lo, mid, next);
    (Concat(a, b).value, next)
  }

  /** `a.update_star()` with the fresh start `next`. */
  function StarNode(a: Nfa, lo: nat, next: nat): (r: (Nfa, nat))
    requires lo <= next && Within(a, lo, next)
    ensures next <= r.1 && Within(r.0, lo, r.1)
  {
    (NfaOps.Star(a, next), next + 1)
  }

  /** `a_copy = a.copy(); a_copy.update_star(); a.update_concat(a_copy)`:
      the copy takes the handles `[lo + next, 2 * next)` and its fresh start
      is `2 * next`. */
  function PlusNode(a: Nfa, lo: nat, next: nat): (r: (Nfa, nat))
    requires lo <= next && Within(a, lo, next)
    ensures next <= r.1 && Within(r.0, lo, r.1)
  {
    var c := NfaOps.Star(Copy(a, next), 2 * next);
    Apart(a, c, lo, next, 2 * next + 1);
    (Concat(a, c).value, 2 * next + 1)
  }

  /** `a.update_union(NFA.from_string(""))`: the empty word's automaton is
      the handle `next`, the fresh start `next + 1`. */
  function QuestionNode(a: Nfa, lo: nat, next: nat): (r: (Nfa, nat))
    requires lo <= next && Within(a, lo, next)
    ensures next <= r.1 && Within(r.0, lo, r.1)
  {
    (UnionNode(a, FromString([], next), lo, next, NextHandle(next)).0, next + 2)
  }

  /** The handle allocated right after `q`. */
  function NextHandle(q: nat): nat {
    q + 1
  }

  /** The `match operator` of `Node.eval` once both operands are evaluated:
      `a` holds the handles `[lo, mid)`, the right operand `b`, if any, the
      handles `[mid, next)`, and new handles are taken from `next` on. The
      overlap checks of `update_union` and `update_concat` pass because the
      handle ranges are apart. A binary operator without a right operand
      fails, where the source fails on the missing attribute of `None`. */
  function Combine(op: Operator, a: Nfa, b: Option<Nfa>, lo: nat, mid: nat, next: nat): (r: Result<(Nfa, nat)>)
    requires lo <= mid <= next && Within(a, lo, mid) && (b.Some? ==> Within(b.value, mid, next))
    ensures r.Err? <==> Binary(op) && b.None?
    ensures r.Err? ==> r.error == MissingRightOperand
    ensures r.Ok? ==> next <= r.value.1 && Within(r.value.0, lo, r.value.1)
  {
    if Binary(op) && b.None? then Err(MissingRightOperand)
    else
      match op
      case OpUnion => Ok(UnionNode(a, b.value, lo, mid, next))
      case OpConcat => Ok(ConcatNode(a, b.value, lo, mid, next))
      case OpStar => Ok(StarNode(a, lo, next))
      case OpPlus => Ok(PlusNode(a, lo, next))
      case OpQuestion => Ok(QuestionNode(a, lo, next))
  }

  /** `Node.eval`: both operands are evaluated, left first, before a missing
      left operand is reported; a leaf other than SYMBOL or DOT is an
      invalid operand. */
  function Eval(t: Node, base: nat): (r: Result<(Nfa, nat)>)
    ensures r.Ok? ==> base <= r.value.1 && Within(r.value.0, base, r.value.1)
    ensures r.Err? ==> r.error in {MissingLeftOperand, MissingRightOperand, InvalidOperand}
    decreases t
  {
    match t
    case Leaf(tok) =>
      if tok.kind == Symbol then Ok((FromString(tok.lexeme, base), base + |tok.lexeme| + 1))
      else if tok.kind == Dot then Ok((AnyOf(Printable, base).value, base + 2 + 2 * |Printable|))
      else Err(InvalidOperand)
    case Apply(op, l, r) =>
      if l.Some? && Eval(l.value, base).Err? then Eval(l.value, base)
      else
        var mid := if l.Some? then Eval(l.value, base).value.1 else base;
        if r.Some? && Eval(r.value, mid).Err? then Eval(r.value, mid)
        else if l.None? then Err(MissingLeftOperand)
        else
          var next := if r.Some? then Eval(r.value, mid).value.1 else mid;
          var b := if r.Some? then Some(Eval(r.value, mid).value.0) else None;
          Combine(op, Eval(l.value, base).value.0, b, base, mid, next)
  }

  /** The language a tree denotes, as the source intends it: a SYMBOL leaf
      its lexeme, DOT any one printable character, and the operators union,
      concatenation, Kleene star, one-or-more and zero-or-one. */
  ghost predicate Matches(t: Node, w: Word)
    decreases t, 0
  {
    match t
    case Leaf(tok) =>
      if tok.kind == Symbol then w == tok.lexeme
      else tok.kind == Dot && |w| == 1 && w[0] in Printable
    case Apply(op, l, r) =>
      l.Some? &&
      match op
      case OpUnion => r.Some? && (Matches(l.value, w) || Matches(r.value, w))
      case OpConcat => r.Some? && exists u, v :: w == u + v && Matches(l.value, u) && Matches(r.value, v)
      case OpStar => Iterated(l.value, w)
      case OpPlus => exists u, v :: w == u + v && Matches(l.value, u) && Iterated(l.value, v)
      case OpQuestion => w == [] || Matches(l.value, w)
  }

  /** `w` splits into zero or more words of the language of `t`. */
  ghost predicate Iterated(t: Node, w: Word)
    decreases t, 1
  {
    exists ws: seq<Word> :: Flatten(ws) == w && forall i :: 0 <= i < |ws| ==> Matches(t, ws[i])
  }
}
