/** The `Regular` facade of the older revision (top-level regular.py). A
    language is again a `RegularOps.Regular`, a DFA. Unlike the newer
    facade, intersection and every operator built on it demand equal
    alphabets and fail with "alphabet mismatch" otherwise, `|` falls back to
    an NFA union when the alphabets differ, `~` builds a new DFA on the
    same states, table and start with the accepting set flipped, `+`
    joins the two DFAs' state graphs as they are, and `Node.eval` builds a
    `Regular` for every node of the tree.

    In the source every state is a distinct `object()`, so two DFAs built
    separately never share a state; here that is the precondition that the
    handle sets are apart. */
module LegacyRegular {
  import opened Wrappers
  import opened Words
  import opened NfaCore
  import opened NfaOps
  import opened NfaLang
  import opened DfaCore
  import opened Subset
  import Product
  import opened Regex
  import opened Evaluator
  import opened EvalLang
  import opened RegularOps
  import LegacyNfa

  /** The start of the union round that adds the word `w` from `next`. */
  function RoundStart(w: Word, next: nat): nat {
    next + |w| + 1
  }

  /** The first handle left unused by that round. */
  function RoundEnd(w: Word, next: nat): nat {
    next + |w| + 2
  }

  /** The loop of `from_finite`: `nfa = nfa.union(NFA.from_string(w))` for
      every word in turn. `from_string(w)` takes the handles from `next` on
      and the new start the handle after them; the result comes with the
      first handle left unused. */
  function UnionWords(acc: Nfa, ws: seq<Word>, next: nat): (r: (Nfa, nat))
    ensures next <= r.1
    decreases |ws|
  {
    if ws == [] then (acc, next)
    else UnionWords(LegacyNfa.Union(acc, FromString(ws[0], next), RoundStart(ws[0], next)), ws[1..], RoundEnd(ws[0], next))
  }

  /** One round keeps the automaton valid and below the handles still
      unused, adds the word to the language and its characters to the
      alphabet. */
  lemma UnionWordStep(acc: Nfa, v: Word, next: nat, w: Word)
    requires Valid(acc) && Below(acc.Q, next)
    ensures Valid(LegacyNfa.Union(acc, FromString(v, next), RoundStart(v, next)))
    ensures Below(LegacyNfa.Union(acc, FromString(v, next), RoundStart(v, next)).Q, RoundEnd(v, next))
    ensures Accepts(LegacyNfa.Union(acc, FromString(v, next), RoundStart(v, next)), w) <==> Accepts(acc, w) || w == v
  {
    UnionWordPlaced(acc, v, next);
    LegacyNfa.UnionApart(acc, FromString(v, next), RoundStart(v, next), w);
    FromStringLanguage(v, next, w);
  }

  /** The word's states lie from `next` up to its start, all apart from the
      automaton so far. */
  lemma UnionWordPlaced(acc: Nfa, v: Word, next: nat)
    requires Below(acc.Q, next)
    ensures acc.Q !! FromString(v, next).Q
    ensures RoundStart(v, next) !in acc.Q && RoundStart(v, next) !in FromString(v, next).Q
    ensures Below(LegacyNfa.Union(acc, FromString(v, next), RoundStart(v, next)).Q, RoundEnd(v, next))
  {
    var s := FromString(v, next);
    var u := LegacyNfa.Union(acc, s, RoundStart(v, next));
    assert u.Q == acc.Q + s.Q + {RoundStart(v, next)};
    forall x | x in u.Q
      ensures x < RoundEnd(v, next)
    {
    }
  }

  /** The loop adds exactly the words to the language of the automaton it
      starts from. */
  lemma {:induction false} UnionWordsLanguage(acc: Nfa, ws: seq<Word>, next: nat, w: Word)
    requires Valid(acc) && Below(acc.Q, next)
    ensures Valid(UnionWords(acc, ws, next).0)
    ensures Accepts(UnionWords(acc, ws, next).0, w) <==> Accepts(acc, w) || w in ws
    decreases |ws|
  {
    if ws != [] {
      var u := LegacyNfa.Union(acc, FromString(ws[0], next), RoundStart(ws[0], next));
      UnionWordStep(acc, ws[0], next, w);
      UnionWordsLanguage(u, ws[1..], RoundEnd(ws[0], next), w);
      assert w in ws <==> w == ws[0] || w in ws[1..];
    }
  }

  /** The loop adds exactly the characters of the words to the alphabet. */
  lemma {:induction false} UnionWordsSymbols(acc: Nfa, ws: seq<Word>, next: nat, c: char)
    ensures c in UnionWords(acc, ws, next).0.S <==> c in acc.S || exists i :: 0 <= i < |ws| && c in ws[i]
    decreases |ws|
  {
    if ws != [] {
      var s := FromString(ws[0], next);
      var u := LegacyNfa.Union(acc, s, RoundStart(ws[0], next));
      UnionWordsSymbols(u, ws[1..], RoundEnd(ws[0], next), c);
      assert c in s.S <==> c in ws[0];
      if exists i :: 0 <= i < |ws| && c in ws[i] {
        var i :| 0 <= i < |ws| && c in ws[i];
        if i > 0 {
          assert c in ws[1..][i - 1];
        }
      }
      if exists i :: 0 <= i < |ws[1..]| && c in ws[1..][i] {
        var i :| 0 <= i < |ws[1..]| && c in ws[1..][i];
        assert c in ws[i + 1];
      }
    }
  }

  /** `Regular.from_finite`: `NFA.from_alphabet(set())`, which accepts
      nothing, united with `from_string(w)` for every word, then
      determinised. The words are taken as a sequence; order and repetition
      make no difference. */
  method FromFinite(ws: seq<Word>) returns (r: Regular)
    ensures Good(r)
    ensures forall w :: In(r, w) <==> w in ws
    ensures forall c :: c in r.dfa.S <==> exists i :: 0 <= i < |ws| && c in ws[i]
  {
    var e := LegacyNfa.FromAlphabet({}, 0);
    LegacyNfa.FromAlphabetValid({}, 0);
    assert e.F == {};
    var n := UnionWords(e, ws, 1).0;
    UnionWordsLanguage(e, ws, 1, []);
    forall w
      ensures Accepts(n, w) <==> w in ws
    {
      UnionWordsLanguage(e, ws, 1, w);
      LegacyNfa.FromAlphabetLanguage({}, 0, w);
    }
    forall c
      ensures c in n.S <==> exists i :: 0 <= i < |ws| && c in ws[i]
    {
      UnionWordsSymbols(e, ws, 1, c);
    }
    var D := FromNfa(n);
    r := Regular(D);
  }

  /** `a & b`: `DFA.intersection`, which fails unless the alphabets are
      equal. */
  method And(a: Regular, b: Regular) returns (r: Result<Regular>)
    requires Good(a) && Good(b)
    ensures r.Err? <==> a.dfa.S != b.dfa.S
    ensures r.Err? ==> r.error == AlphabetMismatch
    ensures r.Ok? ==> Good(r.value) && r.value.dfa.S == a.dfa.S
    ensures r.Ok? ==> forall w :: In(r.value, w) <==> In(a, w) && In(b, w)
  {
    var p := Product.CheckedProduct(Product.Both, a.dfa, b.dfa);
    if p.Err? {
      return Err(p.error);
    }
    r := Ok(Regular(p.value));
  }

  /** `a.dfa.copy().union(b.dfa)`: the first operand renamed from `o` on,
      above the handles of both, the second kept, and the new start `k`. */
  lemma CopyUnion(n1: Nfa, n2: Nfa, k: nat, o: nat, w: Word)
    requires Valid(n1) && Valid(n2) && Below(n1.Q, k) && Below(n2.Q, k) && k < o
    ensures Valid(LegacyNfa.Union(Copy(n1, o), n2, k))
    ensures Accepts(LegacyNfa.Union(Copy(n1, o), n2, k), w) <==> Accepts(n1, w) || Accepts(n2, w)
  {
    CopyValid(n1, o);
    var c := Copy(n1, o);
    assert c.Q !! n2.Q && k !in c.Q by {
      forall q | q in c.Q
        ensures q !in n2.Q && q != k
      {
      }
    }
    LegacyNfa.UnionApart(c, n2, k, w);
    CopyLanguage(n1, o, w);
  }

  /** `a | b`: the product union `DFA.union`, determinised again; when the
      alphabets differ the product fails and the source falls back to the
      NFA union of a copy of `a` with `b`. Either way the result is the
      union of the languages. */
  method Or(a: Regular, b: Regular) returns (r: Regular)
    requires Good(a) && Good(b)
    ensures Good(r) && r.dfa.S == a.dfa.S + b.dfa.S
    ensures forall w :: In(r, w) <==> In(a, w) || In(b, w)
  {
    var p := Product.CheckedProduct(Product.Either, a.dfa, b.dfa);
    var n: Nfa;
    if p.Ok? {
      n := Lift(p.value);
      LiftValid(p.value);
      forall w
        ensures Accepts(n, w) <==> In(a, w) || In(b, w)
      {
        LiftLanguage(p.value, w);
      }
    } else {
      var k := Fresh(a.dfa.Q + b.dfa.Q);
      FreshAbove(a.dfa.Q, b.dfa.Q);
      var o := k + 1;
      var n1, n2 := Lift(a.dfa), Lift(b.dfa);
      LiftValid(a.dfa);
      LiftValid(b.dfa);
      n := LegacyNfa.Union(Copy(n1, o), n2, k);
      CopyUnion(n1, n2, k, o, []);
      forall w
        ensures Accepts(n, w) <==> In(a, w) || In(b, w)
      {
        CopyUnion(n1, n2, k, o, w);
        LiftLanguage(a.dfa, w);
        LiftLanguage(b.dfa, w);
      }
    }
    var D := FromNfa(n);
    r := Regular(D);
  }

  /** `~a`: `a.dfa.complement()`, the accepting set flipped within the
      alphabet of `a`, in a new DFA on the states, table and start of `a`. */
  method Invert(a: Regular) returns (r: Regular)
    requires Good(a)
    ensures Good(r) && r.dfa.S == a.dfa.S && SameGraph(a, r)
    ensures forall w :: In(r, w) <==> Over(w, a.dfa.S) && !In(a, w)
  {
    var C := Complement(a.dfa);
    ComplementGood(a.dfa);
    forall w
      ensures DAccepts(C, w) <==> Over(w, a.dfa.S) && !In(a, w)
    {
      if Over(w, a.dfa.S) {
        ComplementLanguage(a.dfa, w);
      } else if DAccepts(C, w) {
        Product.WalkOver(C, C.q0, w);
      }
    }
    r := Regular(C);
  }

  /** `a` and `b` are drawn on one state graph: the same states, table and
      start, differing at most in the accepting states. Every `Regular` of
      the older facade has fresh states except `~a`, which keeps the graph
      of `a`, so this and apart states are the only ways two operands meet. */
  ghost predicate SameGraph(a: Regular, b: Regular) {
    a.dfa.Q == b.dfa.Q && a.dfa.d == b.dfa.d && a.dfa.q0 == b.dfa.q0
  }

  /** Zero or more words of `a`, one after another, followed by a word of `b`. */
  ghost predicate RepeatsThen(a: Regular, b: Regular, w: Word) {
    exists ws: seq<Word>, y: Word ::
      w == Flatten(ws) + y && (forall i :: 0 <= i < |ws| ==> In(a, ws[i])) && In(b, y)
  }

  /** The automaton the written `a + b` determinises. */
  function WrittenSum(a: Regular, b: Regular): Nfa {
    LegacyNfa.Concat(Lift(a.dfa), Lift(b.dfa))
  }

  /** The table of an automaton that reads symbols along the graph of `a`
      and whose only `Eps` edges lead from the accepting states of `a` to
      its start. */
  ghost predicate SumTable(n: Nfa, a: Regular) {
    && (forall p: nat :: Delta(n, p, Eps) == if p in a.dfa.F then {a.dfa.q0} else {})
    && (forall p: nat, c :: Delta(n, p, Sym(c)) == if (p, c) in a.dfa.d then {a.dfa.d[(p, c)]} else {})
  }

  /** On one graph, the written sum has that table. */
  lemma SumTableOf(a: Regular, b: Regular)
    requires SameGraph(a, b)
    ensures SumTable(WrittenSum(a, b), a)
  {
    var n1, n2 := Lift(a.dfa), Lift(b.dfa);
    forall p: nat
      ensures Delta(WrittenSum(a, b), p, Eps) == if p in a.dfa.F then {a.dfa.q0} else {}
    {
      GetUnion(n2.d, n1.d, p, Eps);
      LiftDelta(a.dfa, p, Eps);
      LiftDelta(b.dfa, p, Eps);
    }
    forall p: nat, c
      ensures Delta(WrittenSum(a, b), p, Sym(c)) == if (p, c) in a.dfa.d then {a.dfa.d[(p, c)]} else {}
    {
      GetUnion(n2.d, n1.d, p, Sym(c));
      LiftDelta(a.dfa, p, Sym(c));
      LiftDelta(b.dfa, p, Sym(c));
    }
  }

  /** A word of `a` in front of a word of the sum's language stays in it. */
  lemma RepeatsThenCons(a: Regular, b: Regular, u: Word, v: Word)
    requires In(a, u) && RepeatsThen(a, b, v)
    ensures RepeatsThen(a, b, u + v)
  {
    var ws: seq<Word>, y: Word :| v == Flatten(ws) + y && (forall i :: 0 <= i < |ws| ==> In(a, ws[i])) && In(b, y);
    var ws' := [u] + ws;
    assert ws'[1..] == ws;
    assert Flatten(ws') + y == u + v;
    assert forall i :: 0 <= i < |ws'| ==> In(a, ws'[i]);
  }

  /** A word of `b` alone is in the sum's language. */
  lemma RepeatsThenNone(a: Regular, b: Regular, y: Word)
    requires In(b, y)
    ensures RepeatsThen(a, b, y)
  {
    var ws: seq<Word> := [];
    assert y == Flatten(ws) + y;
  }

  /** Reading `u` from `p` ends in an accepting state of `D`. */
  predicate EndsIn(D: Dfa, p: nat, u: Word) {
    Walk(D, p, u).Some? && Walk(D, p, u).value in D.F
  }

  /** What a run of the written sum from `p` to the accepting state `f` of
      `b` reads: either a walk of the shared graph straight to `f`, or a walk
      to an accepting state of `a` followed by a word of the sum's language. */
  ghost predicate SumFrom(a: Regular, b: Regular, p: nat, w: Word, f: nat) {
    || Walk(b.dfa, p, w) == Some(f)
    || exists i :: 0 <= i <= |w| && EndsIn(a.dfa, p, w[..i]) && RepeatsThen(a, b, w[i..])
  }

  /** An `Eps` move from an accepting state of `a` back to the start. */
  lemma SumFromEps(a: Regular, b: Regular, p: nat, w: Word, f: nat)
    requires SameGraph(a, b) && p in a.dfa.F && f in b.dfa.F
    requires SumFrom(a, b, a.dfa.q0, w, f)
    ensures SumFrom(a, b, p, w, f)
  {
    if Walk(b.dfa, b.dfa.q0, w) == Some(f) {
      RepeatsThenNone(a, b, w);
    } else {
      var i :| 0 <= i <= |w| && EndsIn(a.dfa, a.dfa.q0, w[..i]) && RepeatsThen(a, b, w[i..]);
      TakeDrop(w, i);
      RepeatsThenCons(a, b, w[..i], w[i..]);
    }
    SumFromStart(a, b, p, w, f);
  }

  lemma SumFromStart(a: Regular, b: Regular, p: nat, w: Word, f: nat)
    requires p in a.dfa.F && RepeatsThen(a, b, w)
    ensures SumFrom(a, b, p, w, f)
  {
    assert EndsIn(a.dfa, p, w[..0]);
    assert w[0..] == w;
  }

  /** A move reading `c` along the shared table. */
  lemma SumFromSym(a: Regular, b: Regular, p: nat, c: char, w: Word, f: nat)
    requires SameGraph(a, b) && (p, c) in a.dfa.d
    requires SumFrom(a, b, a.dfa.d[(p, c)], w, f)
    ensures SumFrom(a, b, p, [c] + w, f)
  {
    var r := a.dfa.d[(p, c)];
    if Walk(b.dfa, r, w) == Some(f) {
      WalkStep(b.dfa, p, c, w);
    } else {
      var i :| 0 <= i <= |w| && EndsIn(a.dfa, r, w[..i]) && RepeatsThen(a, b, w[i..]);
      SumFromSymAt(a, b, p, c, w, i);
    }
  }

  lemma SumFromSymAt(a: Regular, b: Regular, p: nat, c: char, w: Word, i: nat)
    requires (p, c) in a.dfa.d && i <= |w|
    requires EndsIn(a.dfa, a.dfa.d[(p, c)], w[..i]) && RepeatsThen(a, b, w[i..])
    ensures EndsIn(a.dfa, p, ([c] + w)[..i + 1]) && RepeatsThen(a, b, ([c] + w)[i + 1..])
  {
    assert ([c] + w)[..i + 1] == [c] + w[..i];
    assert ([c] + w)[i + 1..] == w[i..];
    WalkStep(a.dfa, p, c, w[..i]);
  }

  /** Reading `c` and then `w` from `p` is reading `w` from the successor. */
  lemma WalkStep(D: Dfa, p: nat, c: char, w: Word)
    requires (p, c) in D.d
    ensures Walk(D, p, [c] + w) == Walk(D, D.d[(p, c)], w)
  {
    assert ([c] + w)[0] == c && ([c] + w)[1..] == w;
  }

  lemma {:induction false} SharedSplit(a: Regular, b: Regular, n: Nfa, p: nat, w: Word, f: nat, k: nat)
    requires SameGraph(a, b) && SumTable(n, a) && f in b.dfa.F && Run(n, p, w, f, k)
    ensures SumFrom(a, b, p, w, f)
    decreases k
  {
    if k > 0 {
      var r, eps := RunFirst(n, p, w, f, k);
      if eps {
        SharedSplit(a, b, n, r, w, f, k - 1);
        SumFromEps(a, b, p, w, f);
      } else {
        SharedSplit(a, b, n, r, w[1..], f, k - 1);
        assert w == [w[0]] + w[1..];
        SumFromSym(a, b, p, w[0], w[1..], f);
      }
    }
  }

  /** A walk of the graph of `a` is a run of an automaton with its table. */
  lemma {:induction false} WalkInSum(a: Regular, n: Nfa, p: nat, w: Word)
    requires SumTable(n, a) && Walk(a.dfa, p, w).Some?
    ensures Run(n, p, w, Walk(a.dfa, p, w).value, |w|)
    decreases |w|
  {
    if w != [] {
      var r := a.dfa.d[(p, w[0])];
      assert r in Delta(n, p, Sym(w[0]));
      WalkInSum(a, n, r, w[1..]);
      RunSym(n, p, w[0], r, w[1..], Walk(a.dfa, p, w).value, |w| - 1);
      assert [w[0]] + w[1..] == w;
    }
  }

  /** Every word of the sum's language has a run of the written sum. */
  lemma {:induction false} SharedJoin(a: Regular, b: Regular, n: Nfa, ws: seq<Word>, y: Word)
    requires SameGraph(a, b) && SumTable(n, a) && n.q0 == a.dfa.q0 && n.F == b.dfa.F
    requires (forall i :: 0 <= i < |ws| ==> In(a, ws[i])) && In(b, y)
    ensures Accepts(n, Flatten(ws) + y)
    decreases |ws|
  {
    if ws == [] {
      assert Flatten(ws) + y == y;
      WalkSameMap(a.dfa, b.dfa, a.dfa.q0, y);
      WalkInSum(a, n, a.dfa.q0, y);
    } else {
      SharedJoin(a, b, n, ws[1..], y);
      var rest := Flatten(ws[1..]) + y;
      var f: nat, k: nat :| f in n.F && Run(n, n.q0, rest, f, k);
      WalkInSum(a, n, a.dfa.q0, ws[0]);
      var g := Walk(a.dfa, a.dfa.q0, ws[0]).value;
      RunEps(n, g, a.dfa.q0, rest, f, k);
      RunAppend(n, a.dfa.q0, ws[0], g, |ws[0]|, rest, f, k + 1);
      assert Flatten(ws) + y == ws[0] + rest;
    }
  }

  /** An automaton with the sum's table, started at the start of `a` and
      accepting at the accepting states of `b`, accepts exactly zero or more
      words of `a` followed by a word of `b`. */
  lemma SumLanguage(a: Regular, b: Regular, n: Nfa, w: Word)
    requires SameGraph(a, b) && SumTable(n, a) && n.q0 == a.dfa.q0 && n.F == b.dfa.F
    ensures Accepts(n, w) <==> RepeatsThen(a, b, w)
  {
    if Accepts(n, w) {
      var f: nat, k: nat :| f in n.F && Run(n, n.q0, w, f, k);
      SharedSplit(a, b, n, n.q0, w, f, k);
      if Walk(b.dfa, b.dfa.q0, w) == Some(f) {
        RepeatsThenNone(a, b, w);
      } else {
        var i :| 0 <= i <= |w| && EndsIn(a.dfa, a.dfa.q0, w[..i]) && RepeatsThen(a, b, w[i..]);
        TakeDrop(w, i);
        RepeatsThenCons(a, b, w[..i], w[i..]);
      }
    }
    if RepeatsThen(a, b, w) {
      var ws: seq<Word>, y: Word :| w == Flatten(ws) + y && (forall i :: 0 <= i < |ws| ==> In(a, ws[i])) && In(b, y);
      SharedJoin(a, b, n, ws, y);
    }
  }

  /** On one graph the written sum accepts zero or more words of `a`
      followed by a word of `b`. */
  lemma SharedSumLanguage(a: Regular, b: Regular, w: Word)
    requires SameGraph(a, b)
    ensures Accepts(WrittenSum(a, b), w) <==> RepeatsThen(a, b, w)
  {
    SumTableOf(a, b);
    SumLanguage(a, b, WrittenSum(a, b), w);
  }

  /** `a + b` as written: `DFA.from_NFA(a.dfa.concat(b.dfa))`, the two state
      graphs joined as they are. Operands built apart have their states
      apart, and the result is the concatenation. Operands on one graph
      (`a + a`, `a + ~a`) get `Eps` edges from the accepting states of `a`
      back to their shared start, so the sum reads any number of words of
      `a` before the word of `b`: it keeps every word of `a` in `a + a`,
      and it holds the empty word in `a + ~a` whenever `a` does not. */
  method AddAsWritten(a: Regular, b: Regular) returns (r: Regular)
    requires Good(a) && Good(b)
    ensures Good(r) && r.dfa.S == a.dfa.S + b.dfa.S
    ensures a.dfa.Q !! b.dfa.Q ==>
              forall w :: In(r, w) <==> exists x, y :: w == x + y && In(a, x) && In(b, y)
    ensures SameGraph(a, b) ==> forall w :: In(r, w) <==> RepeatsThen(a, b, w)
    ensures a == b ==> forall w :: In(a, w) ==> In(r, w)
  {
    var n1, n2 := Lift(a.dfa), Lift(b.dfa);
    LiftValid(a.dfa);
    LiftValid(b.dfa);
    var n := LegacyNfa.Concat(n1, n2);
    LegacyNfa.ConcatValid(n1, n2);
    if a.dfa.Q !! b.dfa.Q {
      forall x
        ensures Accepts(n1, x) <==> In(a, x)
        ensures Accepts(n2, x) <==> In(b, x)
      {
        LiftLanguage(a.dfa, x);
        LiftLanguage(b.dfa, x);
      }
      forall w
        ensures Accepts(n, w) <==> exists x, y :: w == x + y && In(a, x) && In(b, y)
      {
        LegacyNfa.ConcatApart(n1, n2, w);
      }
    }
    if SameGraph(a, b) {
      forall w
        ensures Accepts(n, w) <==> RepeatsThen(a, b, w)
      {
        SharedSumLanguage(a, b, w);
      }
    }
    if a == b {
      forall w | In(a, w)
        ensures Accepts(n, w)
      {
        LiftLanguage(a.dfa, w);
        LegacyNfa.ConcatSelf(n1, w);
      }
    }
    var D := FromNfa(n);
    r := Regular(D);
  }

  /** `a - b`: `a & ~b`. With equal alphabets every word of `a` is over the
      alphabet of `b`, so this is the difference; otherwise the intersection
      fails. */
  method Sub(a: Regular, b: Regular) returns (r: Result<Regular>)
    requires Good(a) && Good(b)
    ensures r.Err? <==> a.dfa.S != b.dfa.S
    ensures r.Err? ==> r.error == AlphabetMismatch
    ensures r.Ok? ==> Good(r.value) && r.value.dfa.S == a.dfa.S
    ensures r.Ok? ==> forall w :: In(r.value, w) <==> In(a, w) && !In(b, w)
  {
    var nb := Invert(b);
    r := And(a, nb);
    if r.Ok? {
      forall w | In(a, w)
        ensures Over(w, b.dfa.S)
      {
        InOver(a, w);
      }
    }
  }

  /** `a ^ b`: `(a - b) | (b - a)`, the words in exactly one language; the
      first difference fails when the alphabets differ. */
  method Xor(a: Regular, b: Regular) returns (r: Result<Regular>)
    requires Good(a) && Good(b)
    ensures r.Err? <==> a.dfa.S != b.dfa.S
    ensures r.Err? ==> r.error == AlphabetMismatch
    ensures r.Ok? ==> Good(r.value) && r.value.dfa.S == a.dfa.S
    ensures r.Ok? ==> forall w :: In(r.value, w) <==> (In(a, w) <==> !In(b, w))
  {
    var x := Sub(a, b);
    if x.Err? {
      return x;
    }
    var y := Sub(b, a);
    var u := Or(x.value, y.value);
    r := Ok(u);
  }

  /** `a == b`: `not a - b and not b - a`, the same language; the
      differences fail when the alphabets differ. */
  method Eq(a: Regular, b: Regular) returns (r: Result<bool>)
    requires Good(a) && Good(b)
    ensures r.Err? <==> a.dfa.S != b.dfa.S
    ensures r.Err? ==> r.error == AlphabetMismatch
    ensures r.Ok? ==> (r.value <==> forall w :: In(a, w) <==> In(b, w))
  {
    var x := Sub(a, b);
    if x.Err? {
      return Err(x.error);
    }
    var y := Sub(b, a);
    var ex := Bool(x.value);
    var ey := Bool(y.value);
    r := Ok(!ex && !ey);
  }

  /** `a < b`: `not a - b`, which is inclusion, not the proper inclusion
      the class documents, exactly as in the newer facade; the difference
      fails when the alphabets differ. */
  method Lt(a: Regular, b: Regular) returns (r: Result<bool>)
    requires Good(a) && Good(b)
    ensures r.Err? <==> a.dfa.S != b.dfa.S
    ensures r.Err? ==> r.error == AlphabetMismatch
    ensures r.Ok? ==> (r.value <==> forall w :: In(a, w) ==> In(b, w))
  {
    var x := Sub(a, b);
    if x.Err? {
      return Err(x.error);
    }
    var ex := Bool(x.value);
    r := Ok(!ex);
  }

  /** `w` splits into zero or more words of `a`. */
  ghost predicate StarIn(a: Regular, w: Word) {
    exists ws: seq<Word> :: Flatten(ws) == w && forall i :: 0 <= i < |ws| ==> In(a, ws[i])
  }

  /** `Regular(DFA.from_NFA(a.dfa.star()))`, the new start above the states
      of `a`: the Kleene star. */
  method Starred(a: Regular) returns (r: Regular)
    requires Good(a)
    ensures Good(r) && r.dfa.S == a.dfa.S
    ensures forall w :: In(r, w) <==> StarIn(a, w)
  {
    var n1 := Lift(a.dfa);
    LiftValid(a.dfa);
    var k := Fresh(a.dfa.Q);
    var n := NfaOps.Star(n1, k);
    StarValid(n1, k);
    forall v
      ensures Accepts(n1, v) <==> In(a, v)
    {
      LiftLanguage(a.dfa, v);
    }
    forall w
      ensures Accepts(n, w) <==> StarIn(a, w)
    {
      StarLanguage(n1, k, w);
    }
    var D := FromNfa(n);
    r := Regular(D);
  }

  /** The one-character words over `cs`, the finite language `set(cs)` that
      a DOT leaf hands to `from_finite`. */
  function CharWords(cs: string): seq<Word> {
    seq(|cs|, i requires 0 <= i < |cs| => [cs[i]])
  }

  lemma CharWordsLanguage(cs: string, w: Word)
    ensures w in CharWords(cs) <==> |w| == 1 && w[0] in cs
  {
    var ws := CharWords(cs);
    if |w| == 1 && w[0] in cs {
      var i :| 0 <= i < |cs| && cs[i] == w[0];
      assert ws[i] == w;
    }
  }

  lemma CharWordsSymbols(cs: string, c: char)
    ensures (exists i :: 0 <= i < |CharWords(cs)| && c in CharWords(cs)[i]) <==> c in cs
  {
    var ws := CharWords(cs);
    if c in cs {
      var i :| 0 <= i < |cs| && cs[i] == c;
      assert c in ws[i];
    }
  }

  /** The characters a tree mentions: the alphabet the older `Node.eval`
      gives its language. A SYMBOL leaf mentions the characters of its
      lexeme, a DOT leaf the printable characters; an operator node those of
      its left operand and, for a binary operator, of its right one. */
  function Mentioned(t: Node): set<char>
    decreases t
  {
    match t
    case Leaf(tok) =>
      if tok.kind == Symbol then set c | c in tok.lexeme
      else if tok.kind == Dot then set c | c in Printable
      else {}
    case Apply(op, l, r) =>
      (if l.Some? then Mentioned(l.value) else {}) +
      (if Binary(op) && r.Some? then Mentioned(r.value) else {})
  }

  /** The error `Node.eval` raises on a tree, if any: the left operand's,
      then the right operand's, then a missing left operand, then a binary
      operator without a right operand, and at a leaf other than SYMBOL or
      DOT an invalid operand. */
  function EvalError(t: Node): Option<Error>
    decreases t
  {
    match t
    case Leaf(tok) => if tok.kind == Symbol || tok.kind == Dot then None else Some(InvalidOperand)
    case Apply(op, l, r) =>
      if l.Some? && EvalError(l.value).Some? then EvalError(l.value)
      else if r.Some? && EvalError(r.value).Some? then EvalError(r.value)
      else if l.None? then Some(MissingLeftOperand)
      else if Binary(op) && r.None? then Some(MissingRightOperand)
      else None
  }

  /** The newer evaluator fails exactly where `EvalError` says, with that
      error, whatever handle it starts from. */
  lemma {:induction false} EvalErrorAgrees(t: Node, base: nat)
    ensures Eval(t, base).Err? <==> EvalError(t).Some?
    ensures Eval(t, base).Err? ==> EvalError(t) == Some(Eval(t, base).error)
    decreases t
  {
    match t
    case Leaf(_) =>
    case Apply(op, l, r) =>
      if l.Some? {
        EvalErrorAgrees(l.value, base);
      }
      if r.Some? {
        var mid := if l.Some? && Eval(l.value, base).Ok? then Eval(l.value, base).value.1 else base;
        EvalErrorAgrees(r.value, mid);
      }
  }

  /** A leaf: `from_finite({lexeme})` for a SYMBOL, `from_finite(set(printable))`
      for a DOT, and an invalid operand otherwise. */
  method EvalLeaf(tok: Token) returns (r: Result<Regular>)
    ensures r.Err? <==> EvalError(Leaf(tok)).Some?
    ensures r.Err? ==> EvalError(Leaf(tok)) == Some(r.error)
    ensures r.Ok? ==> Good(r.value) && forall w :: In(r.value, w) <==> Matches(Leaf(tok), w)
    ensures r.Ok? ==> r.value.dfa.S == Mentioned(Leaf(tok))
  {
    if tok.kind == Symbol {
      var x := FromFinite([tok.lexeme]);
      assert forall c :: c in x.dfa.S <==> c in tok.lexeme by {
        assert [tok.lexeme][0] == tok.lexeme;
      }
      r := Ok(x);
    } else if tok.kind == Dot {
      var x := FromFinite(CharWords(Printable));
      forall w
        ensures In(x, w) <==> Matches(Leaf(tok), w)
      {
        CharWordsLanguage(Printable, w);
      }
      forall c
        ensures c in x.dfa.S <==> c in Mentioned(Leaf(tok))
      {
        CharWordsSymbols(Printable, c);
      }
      r := Ok(x);
    } else {
      r := Err(InvalidOperand);
    }
  }

  /** The `match operator` of the older `Node.eval`, once both operands are
      evaluated: `a | b`, `a + b`, the star of `a`, `a` followed by its
      star, and `a | from_finite({""})`. The operands of `+` are separately
      built languages, whose states are distinct objects, so `+` joins them
      as `RegularOps.Add` does. A binary operator without a right operand
      fails, where the source fails on `None`. */
  method ApplyOp(op: Operator, a: Regular, b: Option<Regular>, ghost l: Node, ghost rt: Option<Node>)
    returns (r: Result<Regular>)
    requires Good(a) && forall w :: In(a, w) <==> Matches(l, w)
    requires b.Some? <==> rt.Some?
    requires b.Some? ==> Good(b.value) && forall w :: In(b.value, w) <==> Matches(rt.value, w)
    ensures r.Err? <==> Binary(op) && b.None?
    ensures r.Err? ==> r.error == MissingRightOperand
    ensures r.Ok? ==> Good(r.value) && forall w :: In(r.value, w) <==> Matches(Apply(op, Some(l), rt), w)
    ensures r.Ok? ==> r.value.dfa.S == a.dfa.S + (if Binary(op) then b.value.dfa.S else {})
  {
    if Binary(op) && b.None? {
      return Err(MissingRightOperand);
    }
    match op
    case OpUnion =>
      var x := UnionOp(a, b.value, l, rt.value);
      r := Ok(x);
    case OpConcat =>
      var x := ConcatOp(a, b.value, l, rt.value);
      r := Ok(x);
    case OpStar =>
      var x := StarOp(a, l, rt);
      r := Ok(x);
    case OpPlus =>
      var x := PlusOp(a, l, rt);
      r := Ok(x);
    case OpQuestion =>
      var x := QuestionOp(a, l, rt);
      r := Ok(x);
  }

  /** `a | b` on operands denoting `l` and `rt`. */
  method UnionOp(a: Regular, b: Regular, ghost l: Node, ghost rt: Node) returns (r: Regular)
    requires Good(a) && forall w :: In(a, w) <==> Matches(l, w)
    requires Good(b) && forall w :: In(b, w) <==> Matches(rt, w)
    ensures Good(r) && forall w :: In(r, w) <==> Matches(Apply(OpUnion, Some(l), Some(rt)), w)
    ensures r.dfa.S == a.dfa.S + b.dfa.S
  {
    r := Or(a, b);
  }

  /** `a + b` on operands denoting `l` and `rt`. */
  method ConcatOp(a: Regular, b: Regular, ghost l: Node, ghost rt: Node) returns (r: Regular)
    requires Good(a) && forall w :: In(a, w) <==> Matches(l, w)
    requires Good(b) && forall w :: In(b, w) <==> Matches(rt, w)
    ensures Good(r) && forall w :: In(r, w) <==> Matches(Apply(OpConcat, Some(l), Some(rt)), w)
    ensures r.dfa.S == a.dfa.S + b.dfa.S
  {
    r := RegularOps.Add(a, b);
  }

  /** The star of an operand denoting `l`. */
  method StarOp(a: Regular, ghost l: Node, ghost rt: Option<Node>) returns (r: Regular)
    requires Good(a) && forall w :: In(a, w) <==> Matches(l, w)
    ensures Good(r) && forall w :: In(r, w) <==> Matches(Apply(OpStar, Some(l), rt), w)
    ensures r.dfa.S == a.dfa.S
  {
    r := Starred(a);
    StarredMatches(a, r, l);
    StarIterated(l, rt);
  }

  /** An operand denoting `l` followed by its star. */
  method PlusOp(a: Regular, ghost l: Node, ghost rt: Option<Node>) returns (r: Regular)
    requires Good(a) && forall w :: In(a, w) <==> Matches(l, w)
    ensures Good(r) && forall w :: In(r, w) <==> Matches(Apply(OpPlus, Some(l), rt), w)
    ensures r.dfa.S == a.dfa.S
  {
    var s := Starred(a);
    StarredMatches(a, s, l);
    r := RegularOps.Add(a, s);
    PlusMatches(a, s, r, l, rt);
  }

  /** A language denoting `l` followed by one denoting its iterations
      denotes one or more of `l`. */
  lemma PlusMatches(a: Regular, s: Regular, r: Regular, l: Node, rt: Option<Node>)
    requires forall w :: In(a, w) <==> Matches(l, w)
    requires forall w :: In(s, w) <==> Iterated(l, w)
    requires forall w :: In(r, w) <==> exists x, y :: w == x + y && In(a, x) && In(s, y)
    ensures forall w :: In(r, w) <==> Matches(Apply(OpPlus, Some(l), rt), w)
  {
    forall w
      ensures In(r, w) <==> Matches(Apply(OpPlus, Some(l), rt), w)
    {
      if In(r, w) {
        var x, y :| w == x + y && In(a, x) && In(s, y);
        assert Matches(l, x) && Iterated(l, y);
      }
      if Matches(Apply(OpPlus, Some(l), rt), w) {
        var x, y :| w == x + y && Matches(l, x) && Iterated(l, y);
        assert In(a, x) && In(s, y);
      }
    }
  }

  /** An operand denoting `l`, or the empty word. */
  method QuestionOp(a: Regular, ghost l: Node, ghost rt: Option<Node>) returns (r: Regular)
    requires Good(a) && forall w :: In(a, w) <==> Matches(l, w)
    ensures Good(r) && forall w :: In(r, w) <==> Matches(Apply(OpQuestion, Some(l), rt), w)
    ensures r.dfa.S == a.dfa.S
  {
    var e := FromFinite([[]]);
    assert e.dfa.S == {};
    r := Or(a, e);
  }

  /** The star of a language denoting `l` denotes the iterations of `l`. */
  lemma StarredMatches(a: Regular, s: Regular, l: Node)
    requires forall w :: In(a, w) <==> Matches(l, w)
    requires forall w :: In(s, w) <==> StarIn(a, w)
    ensures forall w :: In(s, w) <==> Iterated(l, w)
  {
  }

  /** A star node denotes the iterations of its operand. */
  lemma StarIterated(l: Node, rt: Option<Node>)
    ensures forall w :: Matches(Apply(OpStar, Some(l), rt), w) <==> Iterated(l, w)
  {
  }

  /** The older `Node.eval`: a SYMBOL leaf is `from_finite({lexeme})`, a DOT
      leaf `from_finite(set(printable))`, any other leaf an invalid operand;
      an operator node evaluates its left and then its right operand before
      it reports a missing left operand. It fails exactly where the newer
      evaluator does, with the same error, and otherwise denotes the tree. */
  method EvalTree(t: Node) returns (r: Result<Regular>)
    ensures r.Err? <==> EvalError(t).Some?
    ensures r.Err? ==> EvalError(t) == Some(r.error)
    ensures r.Ok? ==> Good(r.value) && forall w :: In(r.value, w) <==> Matches(t, w)
    ensures r.Ok? ==> r.value.dfa.S == Mentioned(t)
    decreases t
  {
    match t
    case Leaf(tok) =>
      r := EvalLeaf(tok);
    case Apply(op, l, rt) =>
      var a: Option<Regular> := None;
      if l.Some? {
        var x := EvalTree(l.value);
        if x.Err? {
          return x;
        }
        a := Some(x.value);
      }
      var b: Option<Regular> := None;
      if rt.Some? {
        var y := EvalTree(rt.value);
        if y.Err? {
          return y;
        }
        b := Some(y.value);
      }
      if a.None? {
        return Err(MissingLeftOperand);
      }
      r := ApplyOp(op, a.value, b, l.value, rt);
  }

  /** The older `Regular.from_regex`: parse, then evaluate the tree. */
  method FromRegex(regex: string) returns (r: Result<Regular>)
    ensures r.Err? <==> Parse(regex).Err?
    ensures r.Err? ==> r.error == Parse(regex).error
    ensures r.Ok? ==> Good(r.value) && forall w :: In(r.value, w) <==> Matches(Parse(regex).value, w)
    ensures r.Ok? ==> r.value.dfa.S == Mentioned(Parse(regex).value)
  {
    var p := Parse(regex);
    if p.Err? {
      return Err(p.error);
    }
    EvalShaped(p.value, 0);
    EvalErrorAgrees(p.value, 0);
    r := EvalTree(p.value);
  }

  /** `a + a` for `a = from_finite({"a"})`: as written the result contains
      `"a"`, which is not in the intended concatenation `{"aa"}`. */
  method AddWitness() returns (written: bool, intended: bool)
    ensures written && !intended
  {
    var a := FromFinite([['a']]);
    assert In(a, ['a']);
    OneWordTwice(a, ['a']);
    var x := AddAsWritten(a, a);
    var y := RegularOps.Add(a, a);
    written := Member(x, ['a']);
    intended := Member(y, ['a']);
  }

  /** A language of one non-empty word has no word that splits into two
      of its words. */
  lemma OneWordTwice(a: Regular, v: Word)
    requires v != [] && forall w :: In(a, w) <==> w == v
    ensures forall x, y :: x + y == v ==> !(In(a, x) && In(a, y))
  {
    forall x, y | x + y == v && In(a, x)
      ensures !In(a, y)
    {
      assert |x + y| == |x| + |y|;
    }
  }

  /** `a + ~a` for `a = from_finite({"a"})`: the two DFAs share their graph,
      so as written the empty word is in the sum, though it is in no
      concatenation of a word of `a` with a word of `~a`. */
  method AddInvertWitness() returns (written: bool, intended: bool)
    ensures written && !intended
  {
    var a := FromFinite([['a']]);
    var b := Invert(a);
    var x := AddAsWritten(a, b);
    var y := RegularOps.Add(a, b);
    assert !In(a, []) && In(b, []);
    RepeatsThenNone(a, b, []);
    forall u, v | u + v == []
      ensures !(In(a, u) && In(b, v))
    {
      assert |u + v| == 0 && u == [];
    }
    written := Member(x, []);
    intended := Member(y, []);
  }
}
