/** The NFA combinators of the older revision (top-level nfa.py). Each builds
    a new automaton from its operands and never checks that the operands'
    states are apart: where both tables hold an entry for a key, the first
    operand's entry is kept. Where the states are apart, `concat` and `union`
    agree with the newer combinators; where they are shared, as in `a + a`
    of the older facade, `concat` does not concatenate. `from_string` and
    `star` build the same automata as the newer `NFA.from_string` and
    `update_star`, and are modelled by `NfaOps.FromString` and
    `NfaOps.Star`. */
module LegacyNfa {
  import opened Wrappers
  import opened Words
  import opened NfaCore
  import opened NfaOps
  import opened NfaLang

  /** The state `from_alphabet` allocates for the symbol `c`: distinct
      symbols get distinct states, all above the start `base`. */
  function SymbolState(c: char, base: nat): nat {
    base + 1 + c as nat
  }

  /** `NFA.from_alphabet(cs)`: a start state with an edge on every symbol of
      `cs` to that symbol's own state, and those states accepting. */
  function FromAlphabet(cs: set<char>, base: nat): (r: Nfa)
    ensures r.S == cs && r.q0 == base && r.Q == {base} + r.F
    ensures forall q :: q in r.F <==> exists c :: c in cs && q == SymbolState(c, base)
  {
    Nfa({base} + (set c | c in cs :: SymbolState(c, base)), cs,
        map c | c in cs :: (base, Sym(c)) := {SymbolState(c, base)},
        base, set c | c in cs :: SymbolState(c, base))
  }

  /** The table of `from_alphabet` steps from the start on a symbol of the
      alphabet to that symbol's state, and nowhere else. */
  lemma FromAlphabetDelta(cs: set<char>, base: nat, p: nat, l: Label)
    ensures Delta(FromAlphabet(cs, base), p, l) ==
            (if p == base && l.Sym? && l.c in cs then {SymbolState(l.c, base)} else {})
  {
    var r := FromAlphabet(cs, base);
    if p == base && l.Sym? && l.c in cs {
      assert (p, l) == (base, Sym(l.c));
    }
  }

  lemma FromAlphabetValid(cs: set<char>, base: nat)
    ensures Valid(FromAlphabet(cs, base))
  {
    var r := FromAlphabet(cs, base);
    forall key | key in r.d
      ensures key.0 in r.Q && (key.1.Sym? ==> key.1.c in r.S) && r.d[key] <= r.Q
    {
      var c :| c in cs && key == (base, Sym(c));
      assert r.d[key] == {SymbolState(c, base)};
    }
  }

  /** `from_alphabet(cs)` accepts exactly the one-symbol words over `cs`. */
  lemma FromAlphabetLanguage(cs: set<char>, base: nat, w: Word)
    ensures Accepts(FromAlphabet(cs, base), w) <==> |w| == 1 && w[0] in cs
  {
    var r := FromAlphabet(cs, base);
    if |w| == 1 && w[0] in cs {
      var s := SymbolState(w[0], base);
      FromAlphabetDelta(cs, base, base, Sym(w[0]));
      assert Run(r, s, [], s, 0);
      RunSym(r, base, w[0], s, [], s, 0);
      assert [w[0]] + [] == w;
    }
    if Accepts(r, w) {
      var q: nat, k: nat :| q in r.F && Run(r, base, w, q, k);
      var s, eps := RunFirst(r, base, w, q, k);
      FromAlphabetDelta(cs, base, base, if eps then Eps else Sym(w[0]));
    }
  }

  /** `concat(other)`: both automata side by side, the first operand's table
      winning on a shared key, every accepting state of the first with an
      `Eps` edge to the start of the second, accepting the second's accepting
      states. Nothing checks that the states are apart. */
  function Concat(a: Nfa, b: Nfa): (r: Nfa)
    ensures r.Q == a.Q + b.Q && r.S == a.S + b.S && r.q0 == a.q0 && r.F == b.F
  {
    Nfa(a.Q + b.Q, a.S + b.S, AddEdges(b.d + a.d, a.F, Eps, b.q0), a.q0, b.F)
  }

  /** `concat` of valid automata is valid, shared states or not. */
  lemma ConcatValid(a: Nfa, b: Nfa)
    requires Valid(a) && Valid(b)
    ensures Valid(Concat(a, b))
  {
    var c := Concat(a, b);
    forall key | key in c.d
      ensures key.0 in c.Q && (key.1.Sym? ==> key.1.c in c.S) && c.d[key] <= c.Q
    {
      GetUnion(b.d, a.d, key.0, key.1);
    }
  }

  /** With the states apart, `concat` accepts the concatenations of a word
      of the first language with a word of the second. */
  lemma ConcatApart(a: Nfa, b: Nfa, w: Word)
    requires Valid(a) && Valid(b) && a.Q !! b.Q
    ensures Valid(Concat(a, b))
    ensures Accepts(Concat(a, b), w) <==> exists u, v :: w == u + v && Accepts(a, u) && Accepts(b, v)
  {
    ConcatValid(a, b);
    forall p, l
      ensures Delta(Concat(a, b), p, l) == Delta(ConcatRaw(a, b), p, l)
    {
      GetUnion(b.d, a.d, p, l);
      GetUnion(a.d, b.d, p, l);
    }
    SameLanguage(Concat(a, b), ConcatRaw(a, b));
    ConcatLanguage(a, b, w);
  }

  /** An automaton concatenated with itself keeps every word of its own
      language: the `Eps` edges from its accepting states lead back to its
      start, and its accepting states stay accepting. */
  lemma ConcatSelf(n: Nfa, w: Word)
    requires Valid(n) && Accepts(n, w)
    ensures Accepts(Concat(n, n), w)
  {
    var c := Concat(n, n);
    var q, k :| q in n.F && Run(n, n.q0, w, q, k);
    ValidClosed(n);
    forall s, l | s in n.Q
      ensures Delta(n, s, l) <= Delta(c, s, l)
    {
      GetUnion(n.d, n.d, s, l);
    }
    RunLift(n, c, n.Q, n.q0, w, q, k);
  }

  /** `union(other)` with the fresh start `q0`: both automata side by side,
      the first operand's table winning on a shared key, the new start with
      `Eps` edges to both starts, accepting both operands' accepting states.
      Nothing checks that the states are apart. */
  function Union(a: Nfa, b: Nfa, q0: nat): (r: Nfa)
    ensures r.Q == a.Q + b.Q + {q0} && r.S == a.S + b.S && r.q0 == q0 && r.F == a.F + b.F
  {
    Nfa(a.Q + b.Q + {q0}, a.S + b.S, AddEdges(AddEdges(b.d + a.d, {q0}, Eps, a.q0), {q0}, Eps, b.q0),
        q0, a.F + b.F)
  }

  /** The two-operand union of the newer combinators: a fresh start with
      `Eps` edges to both operands. */
  function UnionPair(a: Nfa, b: Nfa, q0: nat): Nfa {
    UnionStep(UnionStep(Empty(q0), a), b)
  }

  lemma UnionPairIsUnionAll(a: Nfa, b: Nfa, q0: nat)
    requires q0 !in a.Q && (a.Q + {q0}) * b.Q == {}
    ensures UnionAll(a, [b], q0) == Ok(UnionPair(a, b, q0))
  {
    var acc := UnionStep(Empty(q0), a);
    assert acc.Q == a.Q + {q0};
    assert [b][0] == b && [b][1..] == [];
    assert UnionFold(acc, [b]) == UnionFold(UnionStep(acc, b), []);
  }

  /** With the states apart and the start fresh, the written table and the
      newer one give every state the same destinations. */
  lemma UnionDeltaAt(a: Nfa, b: Nfa, q0: nat, p: nat, l: Label)
    requires Valid(a) && Valid(b) && a.Q !! b.Q && q0 !in a.Q && q0 !in b.Q
    ensures Delta(Union(a, b, q0), p, l) == Delta(UnionPair(a, b, q0), p, l)
  {
    GetUnion(b.d, a.d, p, l);
    GetUnion(AddEdges(map[] + a.d, {q0}, Eps, a.q0), b.d, p, l);
    DeltaValid(a, p, l);
    DeltaValid(b, p, l);
  }

  /** With the states apart and the start fresh, `union` accepts the union
      of the two languages. */
  lemma UnionApart(a: Nfa, b: Nfa, q0: nat, w: Word)
    requires Valid(a) && Valid(b) && a.Q !! b.Q && q0 !in a.Q && q0 !in b.Q
    ensures Valid(Union(a, b, q0))
    ensures Accepts(Union(a, b, q0), w) <==> Accepts(a, w) || Accepts(b, w)
  {
    var u := Union(a, b, q0);
    assert Separate(a.Q + {q0}, [b]) by {
      assert [b][1..] == [];
    }
    UnionPairIsUnionAll(a, b, q0);
    UnionAllLanguage(a, [b], q0, w);
    assert AnyAccepts([b], w) <==> Accepts(b, w) by {
      assert [b][0] == b;
    }
    forall p, l
      ensures Delta(u, p, l) == Delta(UnionPair(a, b, q0), p, l)
    {
      UnionDeltaAt(a, b, q0, p, l);
    }
    SameLanguage(u, UnionPair(a, b, q0));
    UnionValid(a, b, q0);
  }

  /** `union` of valid automata is valid, shared states or not. */
  lemma UnionValid(a: Nfa, b: Nfa, q0: nat)
    requires Valid(a) && Valid(b)
    ensures Valid(Union(a, b, q0))
  {
    var u := Union(a, b, q0);
    var t := b.d + a.d;
    forall key | key in t
      ensures key.0 in u.Q && (key.1.Sym? ==> key.1.c in u.S) && t[key] <= u.Q
    {
      if key in a.d {
        assert t[key] == a.d[key];
      } else {
        assert t[key] == b.d[key];
      }
    }
    forall key | key in u.d
      ensures key.0 in u.Q && (key.1.Sym? ==> key.1.c in u.S) && u.d[key] <= u.Q
    {
      assert u.d[key] == Get(u.d, key.0, key.1);
      assert Get(u.d, key.0, key.1) <= Get(t, key.0, key.1) + {a.q0, b.q0};
    }
  }
}
