/** The identities the test suites of both revisions assert about `Regular`
    (tests/test_regular.py, test/test_regular.py), stated for every operand
    rather than for the handful of literals the tests pick, and the
    witnesses of the defects of the written facade. */
module RegularLaws {
  import opened Wrappers
  import opened Words
  import opened Regex
  import opened RegexLaws
  import opened Evaluator
  import opened RegularOps

  function Postfix(op: Operator, t: Node): Node {
    Apply(op, Some(t), None)
  }

  function Cat(l: Node, r: Node): Node {
    Apply(OpConcat, Some(l), Some(r))
  }

  /** `from_regex` of the printed form of a tree denotes the tree. */
  method FromShown(t: Node) returns (r: Regular)
    requires Plain(t)
    ensures Good(r) && forall w :: In(r, w) <==> Matches(t, w)
  {
    ParseShow(t);
    var p := FromRegex(Show(t));
    r := p.value;
  }

  /** One or more of `t` is `t` followed by any number of `t`. */
  lemma PlusMatchesCat(t: Node, w: Word)
    ensures Matches(Postfix(OpPlus, t), w) <==> Matches(Cat(t, Postfix(OpStar, t)), w)
  {
  }

  /** `from_regex("a+") == from_regex("aa*")`, for every operand `a`. */
  method PlusIsConcatStar(t: Node) returns (e: bool)
    requires Plain(t)
    ensures e
  {
    var x := FromShown(Postfix(OpPlus, t));
    var y := FromShown(Cat(t, Postfix(OpStar, t)));
    forall w
      ensures In(x, w) <==> In(y, w)
    {
      PlusMatchesCat(t, w);
    }
    e := Eq(x, y);
  }

  /** A word splitting into no words of any language: the empty word is in
      every iteration. */
  lemma IteratedEmpty(t: Node)
    ensures Iterated(t, [])
  {
    var ws: seq<Word> := [];
    assert Flatten(ws) == [];
  }

  lemma IteratedOne(t: Node, w: Word)
    requires Matches(t, w)
    ensures Iterated(t, w)
  {
    var ws: seq<Word> := [w];
    assert Flatten(ws) == w + Flatten([]);
  }

  /** `from_regex("a+") != from_regex("a*")` and `from_regex("aa*") !=
      from_regex("a*")` when `a` excludes the empty word: the empty word
      tells them apart. */
  method PlusIsNotStar(t: Node) returns (xz: bool, yz: bool)
    requires Plain(t) && !Matches(t, [])
    ensures !xz && !yz
  {
    var x := FromShown(Postfix(OpPlus, t));
    var y := FromShown(Cat(t, Postfix(OpStar, t)));
    var z := FromShown(Postfix(OpStar, t));
    PlusMatchesCat(t, []);
    IteratedEmpty(t);
    assert In(z, []);
    xz := Eq(x, z);
    yz := Eq(y, z);
  }

  /** The single-symbol regular expression `s`. */
  function Sym(s: string): Node {
    Leaf(Token(Symbol, s))
  }

  /** For a symbol `a`: `a` is inside `a?` and `a?` inside `a*`. */
  lemma SymbolChain(c: char)
    ensures forall w :: Matches(Sym([c]), w) ==> Matches(Postfix(OpQuestion, Sym([c])), w)
    ensures forall w :: Matches(Postfix(OpQuestion, Sym([c])), w) ==> Matches(Postfix(OpStar, Sym([c])), w)
  {
    var t := Sym([c]);
    IteratedEmpty(t);
    forall w | Matches(t, w)
      ensures Iterated(t, w)
    {
      IteratedOne(t, w);
    }
  }

  /** For a symbol `a`: the empty word is in `a?` but not in `a`, and `aa`
      is in `a*` but not in `a?`. */
  lemma SymbolChainProper(c: char)
    ensures Matches(Postfix(OpQuestion, Sym([c])), []) && !Matches(Sym([c]), [])
    ensures Matches(Postfix(OpStar, Sym([c])), [c, c]) && !Matches(Postfix(OpQuestion, Sym([c])), [c, c])
  {
    var t := Sym([c]);
    var ws: seq<Word> := [[c], [c]];
    assert Flatten(ws) == [c, c] by {
      assert Flatten(ws) == [c] + ([c] + Flatten([]));
    }
    assert Iterated(t, [c, c]);
  }

  /** `from_regex("a") < from_regex("a?") < from_regex("a*")` and
      `from_regex("a") < from_regex("a*")` for a symbol `a`, with `<` read
      as proper inclusion. */
  method SubsetChain(c: char) returns (xy: bool, yz: bool, xz: bool)
    ensures xy && yz && xz
  {
    var t := Sym([c]);
    assert Plain(t);
    var x := FromShown(t);
    var y := FromShown(Postfix(OpQuestion, t));
    var z := FromShown(Postfix(OpStar, t));
    SymbolChain(c);
    SymbolChainProper(c);
    xy := Lt(x, y);
    yz := Lt(y, z);
    xz := Lt(x, z);
  }

  /** `a | a == a`. */
  method OrIdempotent(a: Regular) returns (e: bool)
    requires Good(a)
    ensures e
  {
    var x := Or(a, a);
    e := Eq(x, a);
  }

  /** `a & a == a`. */
  method AndIdempotent(a: Regular) returns (e: bool)
    requires Good(a)
    ensures e
  {
    var x := And(a, a);
    e := Eq(x, a);
  }

  /** `~(~a) == a`: a word of `a` is over the alphabet of `a`. */
  method InvertTwice(a: Regular) returns (e: bool)
    requires Good(a)
    ensures e
  {
    var x := Invert(a);
    var y := Invert(x);
    forall w | In(a, w)
      ensures Over(w, a.dfa.S)
    {
      InOver(a, w);
    }
    e := Eq(y, a);
  }

  /** `from_finite({u}) + from_finite({v}) == from_finite({u + v})`; the test
      takes `u = v = "a"`. */
  method AddWords(u: Word, v: Word) returns (e: bool)
    ensures e
  {
    var a := FromFinite([u]);
    var b := FromFinite([v]);
    var ab := FromFinite([u + v]);
    var x := Add(a, b);
    e := Eq(x, ab);
  }

  /** `a - a == from_finite(set())`. */
  method SubSelf(a: Regular) returns (e: bool)
    requires Good(a)
    ensures e
  {
    var x := Sub(a, a);
    var none := FromFinite([]);
    e := Eq(x, none);
  }

  /** `a + from_finite({""}) == a`. */
  method AddEmptyWord(a: Regular) returns (e: bool)
    requires Good(a)
    ensures e
  {
    var one := FromFinite([[]]);
    var x := Add(a, one);
    forall w
      ensures In(x, w) <==> In(a, w)
    {
      if In(a, w) {
        assert w == w + [] && In(one, []);
      }
      if In(x, w) {
        var p, q :| w == p + q && In(a, p) && In(one, q);
        assert q == [] && w == p;
      }
    }
    e := Eq(x, a);
  }

  /** `a + from_finite(set()) == from_finite(set())`. */
  method AddNothing(a: Regular) returns (e: bool)
    requires Good(a)
    ensures e
  {
    var none := FromFinite([]);
    var x := Add(a, none);
    e := Eq(x, none);
  }

  /** `a + (b | c) == a + b | a + c`. */
  method Distributes(a: Regular, b: Regular, c: Regular) returns (e: bool)
    requires Good(a) && Good(b) && Good(c)
    ensures e
  {
    var bc := Or(b, c);
    var x := Add(a, bc);
    var ab := Add(a, b);
    var ac := Add(a, c);
    var y := Or(ab, ac);
    e := Eq(x, y);
  }

  /** `from_finite({"x"}) - from_finite({""})`: empty as written, `{"x"}`
      as intended. The right operand has an empty alphabet, so the product
      never looks a symbol up in the sink's place. */
  method SubWitness() returns (written: bool, intended: bool)
    ensures !written && intended
  {
    var x := FromFinite([['x']]);
    var e := FromFinite([[]]);
    var d1 := SubAsWritten(x, e);
    var d2 := Sub(x, e);
    assert e.dfa.S == {};
    forall w
      ensures !In(d1, w)
    {
      OverNothing(w);
    }
    assert ['x'] != [];
    assert In(d2, ['x']);
    written := Bool(d1);
    intended := Bool(d2);
  }

  /** `from_finite({"x"}) ^ from_finite({""})`: `{""}` as written, so
      without `"x"`, and `{"x", ""}` as intended. */
  method XorWitness() returns (written: bool, intended: bool)
    ensures !written && intended
  {
    var x := FromFinite([['x']]);
    var e := FromFinite([[]]);
    var d1 := XorAsWritten(x, e);
    var d2 := Xor(x, e);
    assert e.dfa.S == {};
    assert ['x'] != [] && ['x'][0] !in e.dfa.S;
    assert In(x, ['x']) && !In(e, ['x']);
    written := Member(d1, ['x']);
    intended := Member(d2, ['x']);
  }

  /** `from_finite({"x"}) == from_finite(set())`: true as written, false as
      intended. */
  method EqWitness() returns (written: bool, intended: bool)
    ensures written && !intended
  {
    var x := FromFinite([['x']]);
    var none := FromFinite([]);
    assert none.dfa.S == {};
    assert In(x, ['x']) && !In(none, ['x']);
    assert ['x'] != [] && ['x'][0] !in none.dfa.S;
    forall w
      ensures !(In(x, w) && Over(w, none.dfa.S))
    {
      OverNothing(w);
    }
    written := EqAsWritten(x, none);
    intended := Eq(x, none);
  }

  /** `"b" in from_finite({"a"})`: the lookup fails as written; the answer
      is false as intended. */
  method ContainsWitness() returns (written: Option<bool>, intended: bool)
    ensures written.None? && !intended
  {
    var a := FromFinite([['a']]);
    assert 'b' !in a.dfa.S;
    assert ['b'][0] !in a.dfa.S;
    written := ContainsAsWritten(a, ['b']);
    intended := Member(a, ['b']);
  }

  /** `a < a` holds as written for every `a`, although `<` is documented as
      proper inclusion. */
  method LtWitness(a: Regular) returns (written: bool, intended: bool)
    requires Good(a)
    ensures written && !intended
  {
    written := LtAsWritten(a, a);
    intended := Lt(a, a);
  }
}
