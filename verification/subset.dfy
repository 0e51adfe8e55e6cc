/** The subset construction `DFA.from_NFA` (src/regular/dfa.py): every DFA
    state stands for an `Eps`-closed set of NFA states, discovered in
    breadth-first order from the closure of the start state. Subsets are
    numbered in the order they are discovered; the number is the DFA state. */
module Subset {
  import opened Wrappers
  import opened Words
  import opened NfaCore
  import opened Closure
  import opened DfaCore

  /** The states one edge reading `c` leads to from some state of `X`. */
  function Step(n: Nfa, X: set<nat>, c: char): (r: set<nat>)
    ensures forall t :: t in r <==> exists q :: q in X && t in Delta(n, q, Sym(c))
  {
    set q, t | q in X && t in Delta(n, q, Sym(c)) :: t
  }

  lemma StepValid(n: Nfa, X: set<nat>, c: char)
    requires Valid(n)
    ensures Step(n, X, c) <= n.Q
  {
    forall t | t in Step(n, X, c)
      ensures t in n.Q
    {
      var q :| q in X && t in Delta(n, q, Sym(c));
      DeltaValid(n, q, Sym(c));
    }
  }

  /** `Y` is exactly the `Eps`-closure of `R`. */
  ghost predicate IsClosure(n: Nfa, Y: set<nat>, R: set<nat>) {
    forall q :: q in Y <==> EpsFrom(n, R, q)
  }

  /** Some run reading `w` leads from a state of `X` to `q`. */
  ghost predicate Hits(n: Nfa, X: set<nat>, w: Word, q: nat) {
    exists p, k :: p in X && Run(n, p, w, q, k)
  }

  /** Reading nothing from an `Eps`-closed set stays inside it. */
  lemma HitsNil(n: Nfa, X: set<nat>, q: nat)
    requires EpsClosed(n, X)
    ensures Hits(n, X, [], q) <==> q in X
  {
    if Hits(n, X, [], q) {
      var p, k :| p in X && Run(n, p, [], q, k);
      EpsClosedRun(n, X, p, q, k);
    }
    if q in X {
      assert Run(n, q, [], q, 0);
    }
  }

  lemma {:induction false} HitsForward(n: Nfa, X: set<nat>, Y: set<nat>, c: char, p: nat, w: Word, q: nat, k: nat)
    requires EpsClosed(n, X) && IsClosure(n, Y, Step(n, X, c))
    requires p in X && Run(n, p, [c] + w, q, k)
    ensures Hits(n, Y, w, q)
    decreases k
  {
    var r, eps := RunFirst(n, p, [c] + w, q, k);
    if eps {
      HitsForward(n, X, Y, c, r, w, q, k - 1);
    } else {
      assert ([c] + w)[0] == c && ([c] + w)[1..] == w;
      assert r in Step(n, X, c);
      assert Run(n, r, [], r, 0);
      assert r in Y;
    }
  }

  lemma HitsBack(n: Nfa, X: set<nat>, Y: set<nat>, c: char, p: nat, w: Word, q: nat, k: nat)
    requires IsClosure(n, Y, Step(n, X, c))
    requires p in Y && Run(n, p, w, q, k)
    ensures Hits(n, X, [c] + w, q)
  {
    assert EpsFrom(n, Step(n, X, c), p);
    var s: nat, k0: nat :| s in Step(n, X, c) && Run(n, s, [], p, k0);
    var x :| x in X && s in Delta(n, x, Sym(c));
    RunAppend(n, s, [], p, k0, w, q, k);
    assert [] + w == w;
    RunSym(n, x, c, s, w, q, k0 + k);
  }

  /** One DFA move: the runs reading `c` then `w` from `X` are the runs
      reading `w` from the closure of `Step(n, X, c)`. */
  lemma HitsStep(n: Nfa, X: set<nat>, Y: set<nat>, c: char, w: Word)
    requires EpsClosed(n, X) && IsClosure(n, Y, Step(n, X, c))
    ensures forall q :: Hits(n, X, [c] + w, q) <==> Hits(n, Y, w, q)
  {
    forall q
      ensures Hits(n, X, [c] + w, q) <==> Hits(n, Y, w, q)
    {
      if Hits(n, X, [c] + w, q) {
        var p, k :| p in X && Run(n, p, [c] + w, q, k);
        HitsForward(n, X, Y, c, p, w, q, k);
      }
      if Hits(n, Y, w, q) {
        var p, k :| p in Y && Run(n, p, w, q, k);
        HitsBack(n, X, Y, c, p, w, q, k);
      }
    }
  }

  /** A recorded transition: from a discovered subset on a symbol of the
      alphabet to the discovered subset that is the closure of its step. */
  ghost predicate Entry(n: Nfa, subs: seq<set<nat>>, trans: map<(nat, char), nat>, key: (nat, char))
    requires key in trans
  {
    && key.0 < |subs| && key.1 in n.S && trans[key] < |subs|
    && IsClosure(n, subs[trans[key]], Step(n, subs[key.0], key.1))
  }

  /** The state of the construction while subset `i` is expanded and the
      symbols of `todo` are still to be tried from it: subsets are distinct
      closed sets of states, the first one is the closure of the start, rows
      before `i` are complete, and every later subset was discovered from an
      earlier one (`par` records the transition that discovered it). */
  ghost predicate Inv(n: Nfa, subs: seq<set<nat>>, trans: map<(nat, char), nat>, par: seq<(nat, char)>,
                      i: nat, todo: set<char>)
  {
    && 0 < |subs| && i <= |subs| && |par| == |subs| && todo <= n.S
    && IsClosure(n, subs[0], {n.q0})
    && Distinct(subs)
    && (forall j :: 0 <= j < |subs| ==> subs[j] <= n.Q && EpsClosed(n, subs[j]))
    && (forall key :: key in trans ==> Entry(n, subs, trans, key) && (key.0 < i || (key.0 == i && key.1 !in todo)))
    && (forall j, c :: 0 <= j < i && c in n.S ==> (j, c) in trans)
    && (forall c :: c in n.S && c !in todo ==> (i, c) in trans)
    && (forall j :: 0 < j < |subs| ==> par[j].0 < j && par[j] in trans && trans[par[j]] == j)
  }

  /** The closed subsets of the states are no more than the subsets. */
  lemma SubsBounded(n: Nfa, subs: seq<set<nat>>)
    requires Distinct(subs)
    requires forall j :: 0 <= j < |subs| ==> subs[j] <= n.Q
    ensures |subs| <= |Pow(n.Q)|
  {
    forall j | 0 <= j < |subs|
      ensures subs[j] in Pow(n.Q)
    {
      InPow(subs[j], n.Q);
    }
    DistinctBounded(subs, Pow(n.Q));
  }

  lemma InvInit(n: Nfa, start: set<nat>)
    requires Valid(n) && start <= n.Q && EpsClosed(n, start) && IsClosure(n, start, {n.q0})
    ensures Inv(n, [start], map[], [(0, 'a')], 0, n.S)
    ensures 1 <= |Pow(n.Q)|
  {
    SubsBounded(n, [start]);
  }

  /** The closure found was discovered before: record the edge to it. */
  lemma InvKnown(n: Nfa, subs: seq<set<nat>>, trans: map<(nat, char), nat>, par: seq<(nat, char)>,
                 i: nat, todo: set<char>, c: char, j: nat)
    requires Inv(n, subs, trans, par, i, todo) && i < |subs| && c in todo
    requires j < |subs| && IsClosure(n, subs[j], Step(n, subs[i], c))
    ensures Inv(n, subs, trans[(i, c) := j], par, i, todo - {c})
  {
    var t := trans[(i, c) := j];
    forall key: (nat, char) | key in t
      ensures Entry(n, subs, t, key) && (key.0 < i || (key.0 == i && key.1 !in todo - {c}))
    {
      if key != (i, c) {
        assert Entry(n, subs, trans, key);
      }
    }
  }

  /** The closure found is new: append it and record the edge to it. */
  lemma InvNew(n: Nfa, subs: seq<set<nat>>, trans: map<(nat, char), nat>, par: seq<(nat, char)>,
               i: nat, todo: set<char>, c: char, nb: set<nat>)
    requires Inv(n, subs, trans, par, i, todo) && i < |subs| && c in todo
    requires nb !in subs && nb <= n.Q && EpsClosed(n, nb) && IsClosure(n, nb, Step(n, subs[i], c))
    ensures Inv(n, subs + [nb], trans[(i, c) := |subs|], par + [(i, c)], i, todo - {c})
    ensures |subs + [nb]| <= |Pow(n.Q)|
  {
    var s := subs + [nb];
    var t := trans[(i, c) := |subs|];
    forall key: (nat, char) | key in t
      ensures Entry(n, s, t, key) && (key.0 < i || (key.0 == i && key.1 !in todo - {c}))
    {
      if key != (i, c) {
        assert Entry(n, subs, trans, key);
        assert s[key.0] == subs[key.0] && s[trans[key]] == subs[trans[key]];
      }
    }
    assert Distinct(s) by {
      forall a, b | 0 <= a < b < |s|
        ensures s[a] != s[b]
      {
        if b == |subs| {
          assert s[a] == subs[a];
        }
      }
    }
    SubsBounded(n, s);
  }

  /** Every `DFA` state: the index of a discovered subset. */
  function Accepting(n: Nfa, subs: seq<set<nat>>): (F: set<nat>)
    ensures forall j: nat :: j in F <==> j < |subs| && subs[j] * n.F != {}
  {
    set j: nat | j < |subs| && subs[j] * n.F != {}
  }

  /** Reading `w` from state `j` of the finished automaton lands on the
      subset of the states the NFA can reach from `subs[j]` reading `w`;
      the move is defined exactly for words over the alphabet. */
  lemma {:induction false} WalkHits(n: Nfa, subs: seq<set<nat>>, trans: map<(nat, char), nat>,
                                     par: seq<(nat, char)>, D: Dfa, j: nat, w: Word)
    requires Inv(n, subs, trans, par, |subs|, n.S) && D.d == trans && j < |subs|
    ensures Walk(D, j, w).Some? <==> Over(w, n.S)
    ensures Walk(D, j, w).Some? ==>
              Walk(D, j, w).value < |subs| && forall q :: q in subs[Walk(D, j, w).value] <==> Hits(n, subs[j], w, q)
    decreases |w|
  {
    if w == [] {
      forall q ensures q in subs[j] <==> Hits(n, subs[j], w, q) {
        HitsNil(n, subs[j], q);
      }
    } else if w[0] in n.S {
      var c := w[0];
      var j' := trans[(j, c)];
      assert Entry(n, subs, trans, (j, c));
      WalkHits(n, subs, trans, par, D, j', w[1..]);
      assert [c] + w[1..] == w;
      HitsStep(n, subs[j], subs[j'], c, w[1..]);
    }
  }

  /** The runs from the closure of the start are the runs from the start. */
  lemma StartHits(n: Nfa, X0: set<nat>, w: Word, q: nat)
    requires IsClosure(n, X0, {n.q0})
    ensures Hits(n, X0, w, q) <==> exists k :: Run(n, n.q0, w, q, k)
  {
    if Hits(n, X0, w, q) {
      var p, k :| p in X0 && Run(n, p, w, q, k);
      var k0 :| Run(n, n.q0, [], p, k0);
      RunAppend(n, n.q0, [], p, k0, w, q, k);
      assert [] + w == w;
    }
    if exists k :: Run(n, n.q0, w, q, k) {
      var k :| Run(n, n.q0, w, q, k);
      assert Run(n, n.q0, [], n.q0, 0);
      assert EpsFrom(n, {n.q0}, n.q0);
      assert n.q0 in X0 && Run(n, n.q0, w, q, k);
    }
  }

  /** The finished automaton accepts exactly the words of the NFA, given
      what reading a word from its start state yields. */
  lemma BuiltLanguage(n: Nfa, subs: seq<set<nat>>, D: Dfa, w: Word)
    requires Valid(n) && 0 < |subs| && IsClosure(n, subs[0], {n.q0})
    requires D.q0 == 0 && D.F == Accepting(n, subs)
    requires Walk(D, 0, w).Some? <==> Over(w, n.S)
    requires Walk(D, 0, w).Some? ==>
               Walk(D, 0, w).value < |subs| && forall q :: q in subs[Walk(D, 0, w).value] <==> Hits(n, subs[0], w, q)
    ensures DAccepts(D, w) <==> Accepts(n, w)
  {
    if DAccepts(D, w) {
      var m := Walk(D, 0, w).value;
      var q :| q in subs[m] * n.F;
      StartHits(n, subs[0], w, q);
    }
    if Accepts(n, w) {
      var q, k :| q in n.F && Run(n, n.q0, w, q, k);
      RunValid(n, n.q0, w, q, k);
      assert exists k' :: Run(n, n.q0, w, q, k');
      StartHits(n, subs[0], w, q);
      assert Hits(n, subs[0], w, q);
      var m := Walk(D, 0, w).value;
      assert q in subs[m] * n.F;
    }
  }

  /** Every state of the finished automaton is reached by some word: the
      word that discovered it. */
  lemma {:induction false} BuiltReach(n: Nfa, subs: seq<set<nat>>, trans: map<(nat, char), nat>,
                                       par: seq<(nat, char)>, D: Dfa, j: nat) returns (w: Word)
    requires Inv(n, subs, trans, par, |subs|, n.S) && D.d == trans && j < |subs|
    ensures Walk(D, 0, w) == Some(j)
    decreases j
  {
    if j == 0 {
      w := [];
    } else {
      var (p, c) := par[j];
      var u := BuiltReach(n, subs, trans, par, D, p);
      w := u + [c];
      WalkAppend(D, 0, u, [c]);
    }
  }

  /** `from_NFA`: a valid, total DFA over the NFA's alphabet whose every
      state is reachable and that accepts exactly the NFA's words. */
  method FromNfa(n: Nfa) returns (D: Dfa)
    requires Valid(n)
    ensures DValid(D) && Total(D) && AllReachable(D)
    ensures D.S == n.S && D.q0 == 0
    ensures forall w :: DAccepts(D, w) <==> Accepts(n, w)
  {
    var start := EClose(n, {n.q0});
    var subs := [start];
    var trans: map<(nat, char), nat> := map[];
    ghost var par: seq<(nat, char)> := [(0, 'a')];
    InvInit(n, start);
    var i := 0;
    while i < |subs|
      invariant Inv(n, subs, trans, par, i, n.S) && |subs| <= |Pow(n.Q)|
      decreases |Pow(n.Q)| - i
    {
      var todo := n.S;
      while todo != {}
        invariant Inv(n, subs, trans, par, i, todo) && i < |subs| <= |Pow(n.Q)|
        decreases |todo|
      {
        var c :| c in todo;
        StepValid(n, subs[i], c);
        var nb := EClose(n, Step(n, subs[i], c));
        if nb in subs {
          var j :| 0 <= j < |subs| && subs[j] == nb;
          InvKnown(n, subs, trans, par, i, todo, c, j);
          trans := trans[(i, c) := j];
        } else {
          InvNew(n, subs, trans, par, i, todo, c, nb);
          trans := trans[(i, c) := |subs|];
          par := par + [(i, c)];
          subs := subs + [nb];
        }
        todo := todo - {c};
      }
      i := i + 1;
    }
    D := Dfa(Range(0, |subs|), n.S, trans, 0, Accepting(n, subs));
    forall w ensures DAccepts(D, w) <==> Accepts(n, w) {
      WalkHits(n, subs, trans, par, D, 0, w);
      BuiltLanguage(n, subs, D, w);
    }
    forall q | q in D.Q ensures exists w :: Walk(D, D.q0, w) == Some(q) {
      var w := BuiltReach(n, subs, trans, par, D, q);
    }
    forall key | key in D.d ensures key.0 in D.Q && key.1 in D.S && D.d[key] in D.Q {
      assert Entry(n, subs, trans, key);
    }
  }
}
