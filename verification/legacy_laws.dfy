/** The identities the older test suite (test/test_regular.py) asserts about
    the older `Regular`, stated for every operand the printer can show. Every
    comparison there is between languages over the same characters, so none
    of them fails with "alphabet mismatch". Building `a?` goes through the
    `|` fallback and its `copy()`, which the older revision lacks; the model
    supplies the newer renaming copy there. */
module LegacyLaws {
  import opened Wrappers
  import opened Words
  import opened Regex
  import opened RegexLaws
  import opened Evaluator
  import RegularOps
  import opened LegacyRegular
  import opened RegularLaws

  /** The older `from_regex` of the printed form of a tree denotes the tree
      and has the characters it mentions as its alphabet. */
  method FromShownLegacy(t: Node) returns (r: RegularOps.Regular)
    requires Plain(t)
    ensures RegularOps.Good(r) && forall w :: RegularOps.In(r, w) <==> Matches(t, w)
    ensures r.dfa.S == Mentioned(t)
  {
    ParseShow(t);
    var p := LegacyRegular.FromRegex(Show(t));
    r := p.value;
  }

  /** `from_regex("a+") == from_regex("aa*")`, and both differ from
      `from_regex("a*")` when `a` excludes the empty word. */
  method TestEqual(t: Node) returns (xy: Result<bool>, xz: Result<bool>, yz: Result<bool>)
    requires Plain(t) && !Matches(t, [])
    ensures xy == Ok(true) && xz == Ok(false) && yz == Ok(false)
  {
    var x := FromShownLegacy(Postfix(OpPlus, t));
    var y := FromShownLegacy(Cat(t, Postfix(OpStar, t)));
    var z := FromShownLegacy(Postfix(OpStar, t));
    forall w
      ensures RegularOps.In(x, w) <==> RegularOps.In(y, w)
    {
      PlusMatchesCat(t, w);
    }
    IteratedEmpty(t);
    assert RegularOps.In(z, []);
    xy := LegacyRegular.Eq(x, y);
    xz := LegacyRegular.Eq(x, z);
    yz := LegacyRegular.Eq(y, z);
  }

  /** `from_regex("a") < from_regex("a?") < from_regex("a*")` and
      `from_regex("a") < from_regex("a*")` for a symbol `a`. */
  method TestSubset(c: char) returns (xy: Result<bool>, yz: Result<bool>, xz: Result<bool>)
    ensures xy == Ok(true) && yz == Ok(true) && xz == Ok(true)
  {
    var t := RegularLaws.Sym([c]);
    assert Plain(t);
    var x := FromShownLegacy(t);
    var y := FromShownLegacy(Postfix(OpQuestion, t));
    var z := FromShownLegacy(Postfix(OpStar, t));
    SymbolChain(c);
    xy := LegacyRegular.Lt(x, y);
    yz := LegacyRegular.Lt(y, z);
    xz := LegacyRegular.Lt(x, z);
  }
}
