/** The `Regular` facade of the newer revision (src/regular/regular.py): a
    regular language held as a DFA, with the set operations of Python's
    operators. Operands that the source keeps apart by object identity are
    renamed here onto handle ranges above every state of both DFAs. */
module RegularOps {
  import opened Wrappers
  import opened Words
  import opened NfaCore
  import opened NfaOps
  import opened NfaLang
  import opened DfaCore
  import opened Subset
  import opened Product
  import opened Regex
  import opened Evaluator
  import opened EvalLang

  datatype Regular = Regular(dfa: Dfa)

  /** What every construction of the facade delivers: a well-formed, total
      DFA whose states are all reachable (as `DFA.from_NFA` builds them). */
  ghost predicate Good(a: Regular) {
    DValid(a.dfa) && Total(a.dfa) && AllReachable(a.dfa)
  }

  /** The language of `a`. */
  predicate In(a: Regular, w: Word) {
    DAccepts(a.dfa, w)
  }

  lemma InOver(a: Regular, w: Word)
    requires DValid(a.dfa) && In(a, w)
    ensures Over(w, a.dfa.S)
  {
    WalkOver(a.dfa, a.dfa.q0, w);
  }

  /** Every state of `s` lies below `k`. */
  predicate Below(s: set<nat>, k: nat) {
    forall q :: q in s ==> q < k
  }

  /** `Fresh` of a union is above both parts. */
  lemma FreshAbove(s: set<nat>, t: set<nat>)
    ensures Below(s, Fresh(s + t)) && Below(t, Fresh(s + t))
  {
    forall q | q in s ensures q < Fresh(s + t) {
      assert q in s + t;
    }
    forall q | q in t ensures q < Fresh(s + t) {
      assert q in s + t;
    }
  }

  /** Two automata on the ranges `[lo, mid)` and `[mid, hi)`, both above
      the handles `x`, are separate from `x` in that order. */
  lemma SeparatePair(x: set<nat>, a: Nfa, b: Nfa, lo: nat, mid: nat, hi: nat)
    requires Below(x, lo)
    requires lo <= mid && Within(a, lo, mid) && Within(b, mid, hi)
    ensures Separate(x, [a, b])
  {
    assert [a, b][1..] == [b] && [b][1..] == [];
    assert x * a.Q == {};
    assert (x + a.Q) * b.Q == {};
  }

  /** Copies of two valid automata below `k`, the first from `o1` and the
      second from `o2` at least `k` further, are valid and lie apart from
      each other and above `x`. */
  lemma CopiesApart(n1: Nfa, n2: Nfa, x: set<nat>, k: nat, o1: nat, o2: nat)
    requires Valid(n1) && Valid(n2) && Below(n1.Q, k) && Below(n2.Q, k)
    requires Below(x, o1) && o1 + k <= o2
    ensures Valid(Copy(n1, o1)) && Valid(Copy(n2, o2))
    ensures Separate(x, [Copy(n1, o1), Copy(n2, o2)])
  {
    CopyValid(n1, o1);
    CopyValid(n2, o2);
    SeparatePair(x, Copy(n1, o1), Copy(n2, o2), o1, o2, o2 + k);
  }

  /** `Empty(k)` united with two automata, the fresh start being `s`; an
      overlap, which the placement below rules out, leaves `Empty(k)`. */
  function UnionTwo(a: Nfa, b: Nfa, k: nat, s: nat): Nfa
    requires s != k
  {
    match UnionAll(Empty(k), [a, b], s)
    case Ok(n) => n
    case Err(_) => Empty(k)
  }

  lemma UnionOfTwo(a: Nfa, b: Nfa, k: nat, s: nat, w: Word)
    requires s != k && Valid(a) && Valid(b) && Separate({k, s}, [a, b])
    ensures Valid(UnionTwo(a, b, k, s)) && UnionTwo(a, b, k, s).S == a.S + b.S
    ensures Accepts(UnionTwo(a, b, k, s), w) <==> Accepts(a, w) || Accepts(b, w)
  {
    assert Empty(k).Q + {s} == {k, s};
    UnionAllLanguage(Empty(k), [a, b], s, w);
    EmptyLanguage(k, w);
    assert [a, b][1..] == [b] && [b][1..] == [];
    assert Symbols([b]) == b.S;
    AnyAcceptsTwo(a, b, w);
  }

  lemma AnyAcceptsTwo(a: Nfa, b: Nfa, w: Word)
    ensures AnyAccepts([a, b], w) <==> Accepts(a, w) || Accepts(b, w)
  {
    assert [a, b][0] == a && [a, b][1] == b;
  }

  /** Copies of two valid automata below `k`, placed from `o1` and `o2` above
      the handles `k` and `k + 1`, unite to the union of their languages. */
  lemma UnionOfCopies(n1: Nfa, n2: Nfa, k: nat, s: nat, o1: nat, o2: nat, w: Word)
    requires Valid(n1) && Valid(n2) && Below(n1.Q, k) && Below(n2.Q, k)
    requires k < s < o1 && o1 + k <= o2
    ensures Valid(UnionTwo(Copy(n1, o1), Copy(n2, o2), k, s))
    ensures UnionTwo(Copy(n1, o1), Copy(n2, o2), k, s).S == n1.S + n2.S
    ensures Accepts(UnionTwo(Copy(n1, o1), Copy(n2, o2), k, s), w) <==> Accepts(n1, w) || Accepts(n2, w)
  {
    CopiesApart(n1, n2, {k, s}, k, o1, o2);
    UnionOfTwo(Copy(n1, o1), Copy(n2, o2), k, s, w);
    CopyLanguage(n1, o1, w);
    CopyLanguage(n2, o2, w);
  }

  /** `from_string("")` at `k` followed by two automata; an overlap, which
      the placement below rules out, leaves the empty word's automaton. */
  function ConcatTwo(a: Nfa, b: Nfa, k: nat): Nfa {
    match ConcatAll(FromString([], k), [a, b])
    case Ok(n) => n
    case Err(_) => FromString([], k)
  }

  /** Three automata in a row of which the first accepts only the empty word
      accept the concatenations of the other two. */
  lemma ConcatOfThree(e: Nfa, a: Nfa, b: Nfa, w: Word)
    requires forall u :: Accepts(e, u) <==> u == []
    ensures ConcatOf([e, a, b], w) <==> exists x, y :: w == x + y && Accepts(a, x) && Accepts(b, y)
  {
    var ns := [e, a, b];
    assert ns[1..] == [a, b] && ns[1..][1..] == [b] && ns[1..][1..][1..] == [];
    if ConcatOf(ns, w) {
      var u, v :| w == u + v && Accepts(e, u) && ConcatOf([a, b], v);
      var x, v2 :| v == x + v2 && Accepts(a, x) && ConcatOf([b], v2);
      var y, z :| v2 == y + z && Accepts(b, y) && ConcatOf([], z);
      assert w == x + y;
    }
    if exists x, y :: w == x + y && Accepts(a, x) && Accepts(b, y) {
      var x, y :| w == x + y && Accepts(a, x) && Accepts(b, y);
      assert ConcatOf([], []);
      assert y == y + [];
      assert ConcatOf([b], y);
      assert ConcatOf([a, b], x + y);
      assert w == [] + (x + y);
    }
  }

  lemma ConcatOfTwo(a: Nfa, b: Nfa, k: nat, w: Word)
    requires Valid(a) && Valid(b) && Separate({k}, [a, b])
    ensures Valid(ConcatTwo(a, b, k)) && ConcatTwo(a, b, k).S == a.S + b.S
    ensures Accepts(ConcatTwo(a, b, k), w) <==> exists x, y :: w == x + y && Accepts(a, x) && Accepts(b, y)
  {
    var e := FromString([], k);
    assert e.Q == {k};
    ConcatAllLanguage(e, [a, b], w);
    assert [a, b][1..] == [b] && [b][1..] == [];
    assert Symbols([b]) == b.S;
    assert e.S == {};
    assert [e] + [a, b] == [e, a, b];
    forall u
      ensures Accepts(e, u) <==> u == []
    {
      FromStringLanguage([], k, u);
    }
    ConcatOfThree(e, a, b, w);
  }

  /** Copies of two valid automata below `k`, placed from `o1` and `o2` above
      the handle `k`, concatenate to the concatenation of their languages. */
  lemma ConcatOfCopies(n1: Nfa, n2: Nfa, k: nat, o1: nat, o2: nat, w: Word)
    requires Valid(n1) && Valid(n2) && Below(n1.Q, k) && Below(n2.Q, k)
    requires k + 1 <= o1 && o1 + k <= o2
    ensures Valid(ConcatTwo(Copy(n1, o1), Copy(n2, o2), k))
    ensures ConcatTwo(Copy(n1, o1), Copy(n2, o2), k).S == n1.S + n2.S
    ensures Accepts(ConcatTwo(Copy(n1, o1), Copy(n2, o2), k), w) <==>
            exists x, y :: w == x + y && Accepts(n1, x) && Accepts(n2, y)
  {
    var a := Copy(n1, o1);
    var b := Copy(n2, o2);
    CopiesApart(n1, n2, {k}, k, o1, o2);
    ConcatOfTwo(a, b, k, w);
    forall x
      ensures Accepts(a, x) <==> Accepts(n1, x)
      ensures Accepts(b, x) <==> Accepts(n2, x)
    {
      CopyLanguage(n1, o1, x);
      CopyLanguage(n2, o2, x);
    }
  }

  /** `a | b`: `nfa = NFA.empty(); nfa.update_union(a.dfa, b.dfa)`, then
      `DFA.from_NFA(nfa)`. The operands are renamed apart above `k`, which
      also covers `a.dfa is b.dfa`, where the source copies one side. */
  method Or(a: Regular, b: Regular) returns (r: Regular)
    requires Good(a) && Good(b)
    ensures Good(r) && r.dfa.S == a.dfa.S + b.dfa.S
    ensures forall w :: In(r, w) <==> In(a, w) || In(b, w)
  {
    var k := Fresh(a.dfa.Q + b.dfa.Q);
    FreshAbove(a.dfa.Q, b.dfa.Q);
    var s, o1, o2 := k + 1, k + 2, 2 * k + 2;
    var n1, n2 := Lift(a.dfa), Lift(b.dfa);
    LiftValid(a.dfa);
    LiftValid(b.dfa);
    var n := UnionTwo(Copy(n1, o1), Copy(n2, o2), k, s);
    UnionOfCopies(n1, n2, k, s, o1, o2, []);
    forall w
      ensures Accepts(n, w) <==> In(a, w) || In(b, w)
    {
      UnionOfCopies(n1, n2, k, s, o1, o2, w);
      LiftLanguage(a.dfa, w);
      LiftLanguage(b.dfa, w);
    }
    var D := FromNfa(n);
    r := Regular(D);
  }

  /** `a + b`: `nfa = NFA.from_string(""); nfa.update_concat(a.dfa, b.dfa)`,
      then `DFA.from_NFA(nfa)`, the operands renamed apart above `k`. */
  method Add(a: Regular, b: Regular) returns (r: Regular)
    requires Good(a) && Good(b)
    ensures Good(r) && r.dfa.S == a.dfa.S + b.dfa.S
    ensures forall w :: In(r, w) <==> exists x, y :: w == x + y && In(a, x) && In(b, y)
  {
    var k := Fresh(a.dfa.Q + b.dfa.Q);
    FreshAbove(a.dfa.Q, b.dfa.Q);
    var o1, o2 := k + 1, 2 * k + 1;
    var n1, n2 := Lift(a.dfa), Lift(b.dfa);
    LiftValid(a.dfa);
    LiftValid(b.dfa);
    var n := ConcatTwo(Copy(n1, o1), Copy(n2, o2), k);
    ConcatOfCopies(n1, n2, k, o1, o2, []);
    forall x
      ensures Accepts(n1, x) <==> In(a, x)
      ensures Accepts(n2, x) <==> In(b, x)
    {
      LiftLanguage(a.dfa, x);
      LiftLanguage(b.dfa, x);
    }
    forall w
      ensures Accepts(n, w) <==> exists x, y :: w == x + y && In(a, x) && In(b, y)
    {
      ConcatOfCopies(n1, n2, k, o1, o2, w);
    }
    var D := FromNfa(n);
    r := Regular(D);
  }

  /** `DFA.from_NFA(node.eval())` for a tree the parser builds. */
  method FromTree(t: Node) returns (r: Regular)
    requires Shaped(t)
    ensures Good(r)
    ensures forall w :: In(r, w) <==> Matches(t, w)
  {
    EvalShaped(t, 0);
    EvalLanguage(t, 0);
    var n := Eval(t, 0).value.0;
    var D := FromNfa(n);
    r := Regular(D);
  }

  /** `Regular.from_regex`: parse, evaluate and determinise; a parse error is
      passed on. */
  method FromRegex(regex: string) returns (r: Result<Regular>)
    ensures r.Err? <==> Parse(regex).Err?
    ensures r.Err? ==> r.error == Parse(regex).error
    ensures r.Ok? ==> Good(r.value) && forall w :: In(r.value, w) <==> Matches(Parse(regex).value, w)
  {
    var p := Parse(regex);
    if p.Err? {
      return Err(p.error);
    }
    var a := FromTree(p.value);
    r := Ok(a);
  }

  /** One `from_string` automaton per word of `ws`, placed one after the
      other from `base` upwards. */
  function Strings(ws: seq<Word>, base: nat): (ns: seq<Nfa>)
    ensures |ns| == |ws|
    decreases |ws|
  {
    if ws == [] then [] else [FromString(ws[0], base)] + Strings(ws[1..], base + |ws[0]| + 1)
  }

  lemma {:induction false} StringsPlaced(ws: seq<Word>, base: nat, x: set<nat>)
    requires forall q :: q in x ==> q < base
    ensures Separate(x, Strings(ws, base)) && AllValid(Strings(ws, base))
    decreases |ws|
  {
    var ns := Strings(ws, base);
    if ws != [] {
      var next := base + |ws[0]| + 1;
      assert ns[1..] == Strings(ws[1..], next);
      StringsPlaced(ws[1..], next, x + ns[0].Q);
      forall i | 0 <= i < |ns|
        ensures Valid(ns[i])
      {
        if i > 0 {
          assert ns[i] == ns[1..][i - 1];
        }
      }
    }
  }

  /** One of the automata accepts `w` exactly when `w` is one of the words. */
  lemma {:induction false} StringsLanguage(ws: seq<Word>, base: nat, w: Word)
    ensures AnyAccepts(Strings(ws, base), w) <==> w in ws
    decreases |ws|
  {
    var ns := Strings(ws, base);
    if ws != [] {
      var next := base + |ws[0]| + 1;
      assert ns[1..] == Strings(ws[1..], next);
      AnyAcceptsCons(ns, w);
      StringsLanguage(ws[1..], next, w);
      FromStringLanguage(ws[0], base, w);
      assert w in ws <==> w == ws[0] || w in ws[1..];
    }
  }

  /** The alphabet of the automata is the characters of the words. */
  lemma {:induction false} StringsSymbols(ws: seq<Word>, base: nat, c: char)
    ensures c in Symbols(Strings(ws, base)) <==> exists i :: 0 <= i < |ws| && c in ws[i]
    decreases |ws|
  {
    var ns := Strings(ws, base);
    if ws != [] {
      var next := base + |ws[0]| + 1;
      assert ns[1..] == Strings(ws[1..], next);
      StringsSymbols(ws[1..], next, c);
      if exists i :: 0 <= i < |ws| && c in ws[i] {
        var i :| 0 <= i < |ws| && c in ws[i];
        if i > 0 {
          assert c in ws[1..][i - 1];
        } else {
          var j :| 0 <= j < |ws[0]| && ws[0][j] == c;
          assert c in FromString(ws[0], base).S;
        }
      }
      if c in Symbols(ns[1..]) {
        var i :| 0 <= i < |ws[1..]| && c in ws[1..][i];
        assert c in ws[i + 1];
      }
      if c in ns[0].S {
        var j :| 0 <= j < |ws[0]| && ws[0][j] == c;
        assert c in ws[0];
      }
    }
  }

  /** `Regular.from_finite`: `NFA.empty()` united with `from_string(w)` for
      every word `w` of the finite language, then determinised. The words
      are taken as a sequence; order and repetition make no difference. */
  method FromFinite(ws: seq<Word>) returns (r: Regular)
    ensures Good(r)
    ensures forall w :: In(r, w) <==> w in ws
    ensures forall c :: c in r.dfa.S <==> exists i :: 0 <= i < |ws| && c in ws[i]
  {
    var ns := Strings(ws, 2);
    StringsPlaced(ws, 2, {0, 1});
    assert Empty(0).Q + {1} == {0, 1};
    var n := UnionAll(Empty(0), ns, 1).value;
    UnionAllLanguage(Empty(0), ns, 1, []);
    forall w
      ensures Accepts(n, w) <==> w in ws
    {
      UnionAllLanguage(Empty(0), ns, 1, w);
      EmptyLanguage(0, w);
      StringsLanguage(ws, 2, w);
    }
    forall c
      ensures c in n.S <==> exists i :: 0 <= i < |ws| && c in ws[i]
    {
      StringsSymbols(ws, 2, c);
    }
    var D := FromNfa(n);
    r := Regular(D);
  }

  /** `w in a` as written: `dfa.accept(w)`, whose lookup fails as soon as a
      character of `w` is outside the alphabet; that outcome is `None`. */
  method ContainsAsWritten(a: Regular, w: Word) returns (r: Option<bool>)
    requires Good(a)
    ensures r.None? <==> !Over(w, a.dfa.S)
    ensures r.Some? ==> (r.value <==> In(a, w))
  {
    r := Accept(a.dfa, w);
    LiftLanguage(a.dfa, w);
    if Walk(a.dfa, a.dfa.q0, w).Some? {
      WalkOver(a.dfa, a.dfa.q0, w);
    }
  }

  /** `w in a` as intended: a word with a character outside the alphabet is
      not in the language. */
  method Member(a: Regular, w: Word) returns (b: bool)
    requires Good(a)
    ensures b <==> In(a, w)
  {
    var r := ContainsAsWritten(a, w);
    b := r == Some(true);
    if r.None? && In(a, w) {
      InOver(a, w);
    }
  }

  /** `a & b`: `DFA.intersection`. */
  method And(a: Regular, b: Regular) returns (r: Regular)
    requires Good(a) && Good(b)
    ensures Good(r) && r.dfa.S == a.dfa.S + b.dfa.S
    ensures forall w :: In(r, w) <==> In(a, w) && In(b, w)
  {
    var D := Intersection(a.dfa, b.dfa);
    r := Regular(D);
  }

  /** Complementing keeps a total DFA total and every state reachable. */
  lemma ComplementGood(D: Dfa)
    requires DValid(D) && Total(D) && AllReachable(D)
    ensures DValid(Complement(D)) && Total(Complement(D)) && AllReachable(Complement(D))
  {
    var C := Complement(D);
    forall q | q in C.Q
      ensures exists w :: Walk(C, C.q0, w) == Some(q)
    {
      var w :| Walk(D, D.q0, w) == Some(q);
      WalkSameMap(D, C, D.q0, w);
    }
  }

  /** `~a`: `DFA.from_NFA(a.dfa)` with its accepting set flipped. The
      complement is taken within the alphabet of `a`. */
  method Invert(a: Regular) returns (r: Regular)
    requires Good(a)
    ensures Good(r) && r.dfa.S == a.dfa.S
    ensures forall w :: In(r, w) <==> Over(w, a.dfa.S) && !In(a, w)
  {
    LiftValid(a.dfa);
    var D := FromNfa(Lift(a.dfa));
    var C := Complement(D);
    ComplementGood(D);
    forall w
      ensures DAccepts(C, w) <==> Over(w, a.dfa.S) && !In(a, w)
    {
      LiftLanguage(a.dfa, w);
      if Over(w, D.S) {
        ComplementLanguage(D, w);
      } else if DAccepts(C, w) {
        WalkOver(C, C.q0, w);
      }
    }
    r := Regular(C);
  }

  /** `a - b` as written: `a & ~b`. Since `~b` is taken within the alphabet
      of `b`, a word of `a` with a character outside that alphabet is lost. */
  method SubAsWritten(a: Regular, b: Regular) returns (r: Regular)
    requires Good(a) && Good(b)
    ensures Good(r) && r.dfa.S == a.dfa.S + b.dfa.S
    ensures forall w :: In(r, w) <==> In(a, w) && Over(w, b.dfa.S) && !In(b, w)
  {
    var nb := Invert(b);
    r := And(a, nb);
  }

  /** `a - b` as intended: the words of `a` that are not in `b`, computed as
      the product that accepts where the first component does and the second
      does not. */
  method Sub(a: Regular, b: Regular) returns (r: Regular)
    requires Good(a) && Good(b)
    ensures Good(r) && r.dfa.S == a.dfa.S + b.dfa.S
    ensures forall w :: In(r, w) <==> In(a, w) && !In(b, w)
  {
    var D := Product.Product(FirstOnly, a.dfa, b.dfa);
    r := Regular(D);
  }

  /** `a ^ b` as written: `(a - b) | (b - a)` with the difference above. */
  method XorAsWritten(a: Regular, b: Regular) returns (r: Regular)
    requires Good(a) && Good(b)
    ensures Good(r)
    ensures forall w :: In(r, w) <==>
              (In(a, w) && Over(w, b.dfa.S) && !In(b, w)) || (In(b, w) && Over(w, a.dfa.S) && !In(a, w))
  {
    var x := SubAsWritten(a, b);
    var y := SubAsWritten(b, a);
    r := Or(x, y);
  }

  /** `a ^ b` as intended: the words in exactly one of the languages. */
  method Xor(a: Regular, b: Regular) returns (r: Regular)
    requires Good(a) && Good(b)
    ensures Good(r)
    ensures forall w :: In(r, w) <==> (In(a, w) <==> !In(b, w))
  {
    var x := Sub(a, b);
    var y := Sub(b, a);
    r := Or(x, y);
  }

  /** `bool(a)`: `not dfa.is_empty()`, which holds exactly when some word is
      in the language, because every state of the DFA is reachable. */
  method Bool(a: Regular) returns (r: bool)
    requires Good(a)
    ensures r <==> exists w :: In(a, w)
  {
    IsEmptyLanguage(a.dfa);
    r := !IsEmpty(a.dfa);
    if r {
      ghost var w :| DAccepts(a.dfa, w);
      assert In(a, w);
    }
  }

  /** `a == b` as written: both differences of the written `-` are empty. */
  method EqAsWritten(a: Regular, b: Regular) returns (r: bool)
    requires Good(a) && Good(b)
    ensures r <==> forall w :: (In(a, w) && Over(w, b.dfa.S) ==> In(b, w)) &&
                               (In(b, w) && Over(w, a.dfa.S) ==> In(a, w))
  {
    var x := SubAsWritten(a, b);
    var y := SubAsWritten(b, a);
    var ex := Bool(x);
    var ey := Bool(y);
    r := !ex && !ey;
  }

  /** `a == b` as intended: the same language. */
  method Eq(a: Regular, b: Regular) returns (r: bool)
    requires Good(a) && Good(b)
    ensures r <==> forall w :: In(a, w) <==> In(b, w)
  {
    var x := Sub(a, b);
    var y := Sub(b, a);
    var ex := Bool(x);
    var ey := Bool(y);
    r := !ex && !ey;
  }

  /** `a < b` as written: the written difference `a - b` is empty, which
      is inclusion (and only on words over the alphabet of `b`). */
  method LtAsWritten(a: Regular, b: Regular) returns (r: bool)
    requires Good(a) && Good(b)
    ensures r <==> forall w :: In(a, w) && Over(w, b.dfa.S) ==> In(b, w)
  {
    var x := SubAsWritten(a, b);
    var ex := Bool(x);
    r := !ex;
  }

  /** `a < b` as documented: proper inclusion. */
  method Lt(a: Regular, b: Regular) returns (r: bool)
    requires Good(a) && Good(b)
    ensures r <==> (forall w :: In(a, w) ==> In(b, w)) && exists w :: In(b, w) && !In(a, w)
  {
    var x := Sub(a, b);
    var y := Sub(b, a);
    var ex := Bool(x);
    var ey := Bool(y);
    r := !ex && ey;
  }
}
