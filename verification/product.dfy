/** Product constructions of two DFAs (`DFA.intersection` in
    src/regular/dfa.py, `DFA.intersection` and `DFA.union` in dfa.py). A
    product state is a pair of component states; a component that meets a
    symbol outside its alphabet, or a missing entry, moves to the sink
    `None`, which no symbol leaves and which is never accepting. Pairs are
    numbered in the order they are discovered. */
module Product {
  import opened Wrappers
  import opened Words
  import opened DfaCore

  /** Which pairs accept: both components (intersection), either component
      (union), or the first but not the second (difference). */
  datatype Mode = Both | Either | FirstOnly

  function Combine(mode: Mode, a: bool, b: bool): bool {
    match mode
    case Both => a && b
    case Either => a || b
    case FirstOnly => a && !b
  }

  type Pair = (Option<nat>, Option<nat>)

  /** One component move, with `None` as the absorbing sink. */
  function Move(D: Dfa, x: Option<nat>, s: char): Option<nat> {
    if x.Some? && s in D.S && (x.value, s) in D.d then Some(D.d[(x.value, s)]) else None
  }

  function PairMove(D1: Dfa, D2: Dfa, p: Pair, s: char): Pair {
    (Move(D1, p.0, s), Move(D2, p.1, s))
  }

  /** A component run through the padded alphabet. */
  function SinkWalk(D: Dfa, x: Option<nat>, w: Word): Option<nat>
    decreases |w|
  {
    if w == [] then x else SinkWalk(D, Move(D, x, w[0]), w[1..])
  }

  /** Once in the sink, a component stays there. */
  lemma {:induction false} SinkAbsorbs(D: Dfa, w: Word)
    ensures SinkWalk(D, None, w) == None
    decreases |w|
  {
    if w != [] {
      SinkAbsorbs(D, w[1..]);
    }
  }

  /** Padding changes nothing for a component of a valid DFA: from a state,
      the padded run is the component's own run. */
  lemma {:induction false} SinkWalkIsWalk(D: Dfa, q: nat, w: Word)
    requires DValid(D)
    ensures SinkWalk(D, Some(q), w) == Walk(D, q, w)
    decreases |w|
  {
    if w != [] {
      if (q, w[0]) in D.d {
        SinkWalkIsWalk(D, D.d[(q, w[0])], w[1..]);
      } else {
        SinkAbsorbs(D, w[1..]);
      }
    }
  }

  /** A valid DFA only accepts words over its alphabet. */
  lemma {:induction false} WalkOver(D: Dfa, q: nat, w: Word)
    requires DValid(D) && Walk(D, q, w).Some?
    ensures Over(w, D.S)
    decreases |w|
  {
    if w != [] {
      WalkOver(D, D.d[(q, w[0])], w[1..]);
    }
  }

  /** The component states together with the sink. */
  function Opts(Q: set<nat>): (r: set<Option<nat>>)
    ensures forall x :: x in r <==> x.None? || x.value in Q
  {
    var r := (set q | q in Q :: Some(q)) + {None};
    assert forall x: Option<nat> :: x.Some? && x.value in Q ==> x in r by {
      forall x: Option<nat> | x.Some? && x.value in Q
        ensures x in r
      {
        assert x == Some(x.value);
      }
    }
    r
  }

  function Grid(D1: Dfa, D2: Dfa): (r: set<Pair>)
    ensures forall p :: p in r <==> p.0 in Opts(D1.Q) && p.1 in Opts(D2.Q)
  {
    set x, y | x in Opts(D1.Q) && y in Opts(D2.Q) :: (x, y)
  }

  /** Whether the pair at a product state accepts. */
  predicate Good(mode: Mode, D1: Dfa, D2: Dfa, p: Pair) {
    Combine(mode, p.0.Some? && p.0.value in D1.F, p.1.Some? && p.1.value in D2.F)
  }

  ghost predicate Entry(D1: Dfa, D2: Dfa, pairs: seq<Pair>, trans: map<(nat, char), nat>, key: (nat, char))
    requires key in trans
  {
    && key.0 < |pairs| && key.1 in D1.S + D2.S && trans[key] < |pairs|
    && pairs[trans[key]] == PairMove(D1, D2, pairs[key.0], key.1)
  }

  /** The state of the product construction while pair `i` is expanded and
      the symbols of `todo` are still to be tried from it. */
  ghost predicate Inv(D1: Dfa, D2: Dfa, pairs: seq<Pair>, trans: map<(nat, char), nat>,
                      par: seq<(nat, char)>, i: nat, todo: set<char>)
  {
    && 0 < |pairs| && i <= |pairs| && |par| == |pairs| && todo <= D1.S + D2.S
    && pairs[0] == (Some(D1.q0), Some(D2.q0))
    && Distinct(pairs)
    && (forall j :: 0 <= j < |pairs| ==> pairs[j] in Grid(D1, D2))
    && (forall key :: key in trans ==> Entry(D1, D2, pairs, trans, key) && (key.0 < i || (key.0 == i && key.1 !in todo)))
    && (forall j, c :: 0 <= j < i && c in D1.S + D2.S ==> (j, c) in trans)
    && (forall c :: c in D1.S + D2.S && c !in todo ==> (i, c) in trans)
    && (forall j :: 0 < j < |pairs| ==> par[j].0 < j && par[j] in trans && trans[par[j]] == j)
  }

  lemma PairsBounded(D1: Dfa, D2: Dfa, pairs: seq<Pair>)
    requires Distinct(pairs)
    requires forall j :: 0 <= j < |pairs| ==> pairs[j] in Grid(D1, D2)
    ensures |pairs| <= |Grid(D1, D2)|
  {
    DistinctBounded(pairs, Grid(D1, D2));
  }

  lemma InvInit(D1: Dfa, D2: Dfa)
    requires DValid(D1) && DValid(D2)
    ensures Inv(D1, D2, [(Some(D1.q0), Some(D2.q0))], map[], [(0, 'a')], 0, D1.S + D2.S)
    ensures 1 <= |Grid(D1, D2)|
  {
    PairsBounded(D1, D2, [(Some(D1.q0), Some(D2.q0))]);
  }

  lemma InvKnown(D1: Dfa, D2: Dfa, pairs: seq<Pair>, trans: map<(nat, char), nat>, par: seq<(nat, char)>,
                 i: nat, todo: set<char>, c: char, j: nat)
    requires Inv(D1, D2, pairs, trans, par, i, todo) && i < |pairs| && c in todo
    requires j < |pairs| && pairs[j] == PairMove(D1, D2, pairs[i], c)
    ensures Inv(D1, D2, pairs, trans[(i, c) := j], par, i, todo - {c})
  {
    var t := trans[(i, c) := j];
    forall key: (nat, char) | key in t
      ensures Entry(D1, D2, pairs, t, key) && (key.0 < i || (key.0 == i && key.1 !in todo - {c}))
    {
      if key != (i, c) {
        assert Entry(D1, D2, pairs, trans, key);
      }
    }
  }

  lemma InvNew(D1: Dfa, D2: Dfa, pairs: seq<Pair>, trans: map<(nat, char), nat>, par: seq<(nat, char)>,
               i: nat, todo: set<char>, c: char, nb: Pair)
    requires DValid(D1) && DValid(D2)
    requires Inv(D1, D2, pairs, trans, par, i, todo) && i < |pairs| && c in todo
    requires nb !in pairs && nb == PairMove(D1, D2, pairs[i], c)
    ensures Inv(D1, D2, pairs + [nb], trans[(i, c) := |pairs|], par + [(i, c)], i, todo - {c})
    ensures |pairs + [nb]| <= |Grid(D1, D2)|
  {
    var s := pairs + [nb];
    var t := trans[(i, c) := |pairs|];
    forall key: (nat, char) | key in t
      ensures Entry(D1, D2, s, t, key) && (key.0 < i || (key.0 == i && key.1 !in todo - {c}))
    {
      if key != (i, c) {
        assert Entry(D1, D2, pairs, trans, key);
        assert s[key.0] == pairs[key.0] && s[trans[key]] == pairs[trans[key]];
      }
    }
    assert Distinct(s) by {
      forall a, b | 0 <= a < b < |s|
        ensures s[a] != s[b]
      {
        if b == |pairs| {
          assert s[a] == pairs[a];
        }
      }
    }
    assert nb in Grid(D1, D2);
    PairsBounded(D1, D2, s);
  }

  function Accepting(mode: Mode, D1: Dfa, D2: Dfa, pairs: seq<Pair>): (F: set<nat>)
    ensures forall j: nat :: j in F <==> j < |pairs| && Good(mode, D1, D2, pairs[j])
  {
    set j: nat | j < |pairs| && Good(mode, D1, D2, pairs[j])
  }

  /** Reading `w` from product state `j` lands on the pair of padded
      component runs; the move is defined exactly for words over the joint
      alphabet. */
  lemma {:induction false} WalkPairs(D1: Dfa, D2: Dfa, pairs: seq<Pair>, trans: map<(nat, char), nat>,
                                      par: seq<(nat, char)>, P: Dfa, j: nat, w: Word)
    requires Inv(D1, D2, pairs, trans, par, |pairs|, D1.S + D2.S) && P.d == trans && j < |pairs|
    ensures Walk(P, j, w).Some? <==> Over(w, D1.S + D2.S)
    ensures Walk(P, j, w).Some? ==>
              Walk(P, j, w).value < |pairs|
              && pairs[Walk(P, j, w).value] == (SinkWalk(D1, pairs[j].0, w), SinkWalk(D2, pairs[j].1, w))
    decreases |w|
  {
    if w != [] && w[0] in D1.S + D2.S {
      var j' := trans[(j, w[0])];
      assert Entry(D1, D2, pairs, trans, (j, w[0]));
      WalkPairs(D1, D2, pairs, trans, par, P, j', w[1..]);
    }
  }

  /** The finished product accepts `w` exactly when the mode combines the
      components' verdicts to true. */
  lemma ProductLanguage(mode: Mode, D1: Dfa, D2: Dfa, pairs: seq<Pair>, P: Dfa, w: Word)
    requires DValid(D1) && DValid(D2) && 0 < |pairs| && pairs[0] == (Some(D1.q0), Some(D2.q0))
    requires P.q0 == 0 && P.F == Accepting(mode, D1, D2, pairs)
    requires Walk(P, 0, w).Some? <==> Over(w, D1.S + D2.S)
    requires Walk(P, 0, w).Some? ==>
               Walk(P, 0, w).value < |pairs|
               && pairs[Walk(P, 0, w).value] == (SinkWalk(D1, pairs[0].0, w), SinkWalk(D2, pairs[0].1, w))
    ensures DAccepts(P, w) <==> Combine(mode, DAccepts(D1, w), DAccepts(D2, w))
  {
    SinkWalkIsWalk(D1, D1.q0, w);
    SinkWalkIsWalk(D2, D2.q0, w);
    if Walk(D1, D1.q0, w).Some? {
      WalkOver(D1, D1.q0, w);
    }
    if Walk(D2, D2.q0, w).Some? {
      WalkOver(D2, D2.q0, w);
    }
  }

  lemma {:induction false} ProductReach(D1: Dfa, D2: Dfa, pairs: seq<Pair>, trans: map<(nat, char), nat>,
                                         par: seq<(nat, char)>, P: Dfa, j: nat) returns (w: Word)
    requires Inv(D1, D2, pairs, trans, par, |pairs|, D1.S + D2.S) && P.d == trans && j < |pairs|
    ensures Walk(P, 0, w) == Some(j)
    decreases j
  {
    if j == 0 {
      w := [];
    } else {
      var (p, c) := par[j];
      var u := ProductReach(D1, D2, pairs, trans, par, P, p);
      w := u + [c];
      WalkAppend(P, 0, u, [c]);
    }
  }

  /** The product over the joint alphabet `D1.S + D2.S`, expanding every
      reachable pair once: a valid, total DFA whose every state is reachable
      and whose language is the two languages combined by `mode`. */
  method Product(mode: Mode, D1: Dfa, D2: Dfa) returns (P: Dfa)
    requires DValid(D1) && DValid(D2)
    ensures DValid(P) && Total(P) && AllReachable(P)
    ensures P.S == D1.S + D2.S && P.q0 == 0
    ensures forall w :: DAccepts(P, w) <==> Combine(mode, DAccepts(D1, w), DAccepts(D2, w))
  {
    var S := D1.S + D2.S;
    var pairs: seq<Pair> := [(Some(D1.q0), Some(D2.q0))];
    var trans: map<(nat, char), nat> := map[];
    ghost var par: seq<(nat, char)> := [(0, 'a')];
    InvInit(D1, D2);
    var i := 0;
    while i < |pairs|
      invariant Inv(D1, D2, pairs, trans, par, i, S) && |pairs| <= |Grid(D1, D2)|
      decreases |Grid(D1, D2)| - i
    {
      var todo := S;
      while todo != {}
        invariant Inv(D1, D2, pairs, trans, par, i, todo) && i < |pairs| <= |Grid(D1, D2)|
        decreases |todo|
      {
        var c :| c in todo;
        var nb := PairMove(D1, D2, pairs[i], c);
        if nb in pairs {
          var j :| 0 <= j < |pairs| && pairs[j] == nb;
          InvKnown(D1, D2, pairs, trans, par, i, todo, c, j);
          trans := trans[(i, c) := j];
        } else {
          InvNew(D1, D2, pairs, trans, par, i, todo, c, nb);
          trans := trans[(i, c) := |pairs|];
          par := par + [(i, c)];
          pairs := pairs + [nb];
        }
        todo := todo - {c};
      }
      i := i + 1;
    }
    P := Dfa(Range(0, |pairs|), S, trans, 0, Accepting(mode, D1, D2, pairs));
    forall w ensures DAccepts(P, w) <==> Combine(mode, DAccepts(D1, w), DAccepts(D2, w)) {
      WalkPairs(D1, D2, pairs, trans, par, P, 0, w);
      ProductLanguage(mode, D1, D2, pairs, P, w);
    }
    forall q | q in P.Q ensures exists w :: Walk(P, P.q0, w) == Some(q) {
      var w := ProductReach(D1, D2, pairs, trans, par, P, q);
    }
    forall key | key in P.d ensures key.0 in P.Q && key.1 in P.S && P.d[key] in P.Q {
      assert Entry(D1, D2, pairs, trans, key);
    }
  }

  /** `intersection` of the newer revision: the product over the joint
      alphabet, accepting where both components accept. */
  method Intersection(D1: Dfa, D2: Dfa) returns (P: Dfa)
    requires DValid(D1) && DValid(D2)
    ensures DValid(P) && Total(P) && AllReachable(P) && P.S == D1.S + D2.S
    ensures forall w :: DAccepts(P, w) <==> DAccepts(D1, w) && DAccepts(D2, w)
  {
    P := Product(Both, D1, D2);
  }

  /** The products of the older revision: when the alphabets differ they
      fail with "alphabet mismatch"; otherwise they are the product above,
      accepting where both (intersection) or either (union) component
      accepts. */
  method CheckedProduct(mode: Mode, D1: Dfa, D2: Dfa) returns (r: Result<Dfa>)
    requires DValid(D1) && DValid(D2)
    ensures r.Err? <==> D1.S != D2.S
    ensures r.Err? ==> r.error == AlphabetMismatch
    ensures r.Ok? ==> DValid(r.value) && Total(r.value) && AllReachable(r.value) && r.value.S == D1.S
    ensures r.Ok? ==> forall w :: DAccepts(r.value, w) <==> Combine(mode, DAccepts(D1, w), DAccepts(D2, w))
  {
    if D1.S != D2.S {
      return Err(AlphabetMismatch);
    }
    var P := Product(mode, D1, D2);
    r := Ok(P);
  }
}
