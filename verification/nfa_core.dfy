/** The automaton record shared by both revisions of the engine, its
    transition lookup, its well-formedness invariant and its language.

    States are natural-number handles. A transition key pairs a state with a
    label, which is either a symbol or the empty-string label `Eps`. */
module NfaCore {
  import opened Words

  datatype Label = Eps | Sym(c: char)

  /** The 5-tuple (Q, S, d, q0, F); entries of `d` that map to the empty set
      may be omitted. */
  datatype Nfa = Nfa(Q: set<nat>, S: set<char>, d: Table, q0: nat, F: set<nat>)

  type Table = map<(nat, Label), set<nat>>

  /** The destinations of `q` on `l` in a table: the stored set, or the empty
      set when the table has no entry for the key. */
  function Get(d: Table, q: nat, l: Label): (r: set<nat>)
    ensures (q, l) in d ==> r == d[(q, l)]
    ensures (q, l) !in d ==> r == {}
  {
    if (q, l) in d then d[(q, l)] else {}
  }

  /** The transition lookup of an automaton: a missing entry is the empty set. */
  function Delta(n: Nfa, q: nat, l: Label): (r: set<nat>)
    ensures (q, l) in n.d ==> r == n.d[(q, l)]
    ensures (q, l) !in n.d ==> r == {}
  {
    Get(n.d, q, l)
  }

  /** The table `d` with one more destination `t` on label `l` for every state
      of `src`; this is the effect of adding those transitions one by one. */
  function AddEdges(d: Table, src: set<nat>, l: Label, t: nat): (r: Table)
    ensures forall p, m :: Get(r, p, m) == Get(d, p, m) + (if m == l && p in src then {t} else {})
    ensures forall key :: key in r <==> key in d || (key.1 == l && key.0 in src)
  {
    map key | key in d.Keys + (set s | s in src :: (s, l)) ::
      if key.1 == l && key.0 in src then Get(d, key.0, l) + {t} else d[key]
  }

  /** Lookup in the union of two tables whose keys are on disjoint states. */
  lemma GetUnion(d1: Table, d2: Table, p: nat, l: Label)
    ensures (p, l) !in d2 ==> Get(d1 + d2, p, l) == Get(d1, p, l)
    ensures (p, l) in d2 ==> Get(d1 + d2, p, l) == Get(d2, p, l)
  {
  }

  /** The automaton invariant: the start and accepting states are states,
      every key is keyed on a state and on a label of the alphabet (or `Eps`),
      and every destination is a state. */
  ghost predicate Valid(n: Nfa) {
    && n.q0 in n.Q
    && n.F <= n.Q
    && forall key :: key in n.d ==>
         && key.0 in n.Q
         && (key.1.Sym? ==> key.1.c in n.S)
         && n.d[key] <= n.Q
  }

  lemma DeltaValid(n: Nfa, p: nat, l: Label)
    requires Valid(n)
    ensures Delta(n, p, l) <= n.Q
    ensures Delta(n, p, l) != {} ==> p in n.Q && (l.Sym? ==> l.c in n.S)
  {
  }

  /** A valid automaton's state set is closed under its transitions. */
  lemma ValidClosed(n: Nfa)
    requires Valid(n)
    ensures forall s, l :: s in n.Q ==> Delta(n, s, l) <= n.Q
  {
    forall s, l | s in n.Q
      ensures Delta(n, s, l) <= n.Q
    {
      DeltaValid(n, s, l);
    }
  }

  /** No transition of `n` leads to `q`. */
  ghost predicate NoEdgeInto(n: Nfa, q: nat) {
    forall p, l :: q !in Delta(n, p, l)
  }

  /** A run of exactly `k` moves from `p` to `q` reading `w`; a move either
      follows an `Eps` edge or reads the next character. */
  ghost predicate Run(n: Nfa, p: nat, w: Word, q: nat, k: nat)
    decreases k
  {
    if k == 0 then p == q && w == []
    else exists r ::
      || (r in Delta(n, p, Eps) && Run(n, r, w, q, k - 1))
      || (w != [] && r in Delta(n, p, Sym(w[0])) && Run(n, r, w[1..], q, k - 1))
  }

  /** The language of `n`: words read by some run from the start state to an
      accepting state. */
  ghost predicate Accepts(n: Nfa, w: Word) {
    exists q, k :: q in n.F && Run(n, n.q0, w, q, k)
  }

  /** The states reachable from `p` by moves that read nothing. */
  ghost predicate EpsReach(n: Nfa, p: nat, q: nat) {
    exists k :: Run(n, p, [], q, k)
  }

  /** The first move of a run of at least one move: an `Eps` edge when `eps`,
      otherwise an edge reading the first character. */
  lemma RunFirst(n: Nfa, p: nat, w: Word, q: nat, k: nat) returns (r: nat, eps: bool)
    requires k > 0 && Run(n, p, w, q, k)
    ensures eps ==> r in Delta(n, p, Eps) && Run(n, r, w, q, k - 1)
    ensures !eps ==> w != [] && r in Delta(n, p, Sym(w[0])) && Run(n, r, w[1..], q, k - 1)
  {
    r :| || (r in Delta(n, p, Eps) && Run(n, r, w, q, k - 1))
         || (w != [] && r in Delta(n, p, Sym(w[0])) && Run(n, r, w[1..], q, k - 1));
    eps := r in Delta(n, p, Eps) && Run(n, r, w, q, k - 1);
  }

  /** The converse of `RunFirst`: a first move followed by a run is a run. */
  lemma RunCons(n: Nfa, p: nat, r: nat, eps: bool, w: Word, q: nat, k: nat)
    requires k > 0
    requires eps ==> r in Delta(n, p, Eps) && Run(n, r, w, q, k - 1)
    requires !eps ==> w != [] && r in Delta(n, p, Sym(w[0])) && Run(n, r, w[1..], q, k - 1)
    ensures Run(n, p, w, q, k)
  {
  }

  lemma RunEps(n: Nfa, p: nat, r: nat, w: Word, q: nat, k: nat)
    requires r in Delta(n, p, Eps) && Run(n, r, w, q, k)
    ensures Run(n, p, w, q, k + 1)
  {
  }

  lemma RunSym(n: Nfa, p: nat, c: char, r: nat, w: Word, q: nat, k: nat)
    requires r in Delta(n, p, Sym(c)) && Run(n, r, w, q, k)
    ensures Run(n, p, [c] + w, q, k + 1)
  {
    var cw := [c] + w;
    assert cw != [] && cw[0] == c && cw[1..] == w;
    assert r in Delta(n, p, Sym(cw[0])) && Run(n, r, cw[1..], q, k);
  }

  /** Runs compose: reading `u` then `v` is reading `u + v`. */
  lemma {:induction false} RunAppend(n: Nfa, p: nat, u: Word, m: nat, k1: nat, v: Word, q: nat, k2: nat)
    requires Run(n, p, u, m, k1) && Run(n, m, v, q, k2)
    ensures Run(n, p, u + v, q, k1 + k2)
    decreases k1
  {
    if k1 == 0 {
      assert u + v == v;
    } else {
      var r :| || (r in Delta(n, p, Eps) && Run(n, r, u, m, k1 - 1))
               || (u != [] && r in Delta(n, p, Sym(u[0])) && Run(n, r, u[1..], m, k1 - 1));
      if r in Delta(n, p, Eps) && Run(n, r, u, m, k1 - 1) {
        RunAppend(n, r, u, m, k1 - 1, v, q, k2);
        RunEps(n, p, r, u + v, q, k1 - 1 + k2);
      } else {
        RunAppend(n, r, u[1..], m, k1 - 1, v, q, k2);
        assert u + v == [u[0]] + (u[1..] + v);
        RunSym(n, p, u[0], r, u[1..] + v, q, k1 - 1 + k2);
      }
    }
  }

  /** In a valid automaton a run that moves at least once ends in a state,
      and it reads only alphabet symbols. */
  lemma {:induction false} RunValid(n: Nfa, p: nat, w: Word, q: nat, k: nat)
    requires Valid(n) && Run(n, p, w, q, k)
    ensures k > 0 ==> q in n.Q
    ensures k == 0 ==> q == p
    ensures Over(w, n.S)
    decreases k
  {
    if k > 0 {
      var r :| || (r in Delta(n, p, Eps) && Run(n, r, w, q, k - 1))
               || (w != [] && r in Delta(n, p, Sym(w[0])) && Run(n, r, w[1..], q, k - 1));
      if r in Delta(n, p, Eps) && Run(n, r, w, q, k - 1) {
        DeltaValid(n, p, Eps);
        RunValid(n, r, w, q, k - 1);
      } else {
        DeltaValid(n, p, Sym(w[0]));
        RunValid(n, r, w[1..], q, k - 1);
        assert forall i :: 1 <= i < |w| ==> w[i] == w[1..][i - 1];
      }
    }
  }

  /** Runs of `b` that start in a set `x` closed under `b`'s edges, on which
      `a` and `b` have the same edges, are runs of `a` that stay in `x`. */
  lemma {:induction false} RunRestrict(a: Nfa, b: Nfa, x: set<nat>, p: nat, w: Word, q: nat, k: nat)
    requires forall s, l :: s in x ==> Delta(b, s, l) <= x
    requires forall s, l :: s in x ==> Delta(b, s, l) == Delta(a, s, l)
    requires p in x && Run(b, p, w, q, k)
    ensures Run(a, p, w, q, k) && q in x
    decreases k
  {
    if k > 0 {
      var r :| || (r in Delta(b, p, Eps) && Run(b, r, w, q, k - 1))
               || (w != [] && r in Delta(b, p, Sym(w[0])) && Run(b, r, w[1..], q, k - 1));
      if r in Delta(b, p, Eps) && Run(b, r, w, q, k - 1) {
        RunRestrict(a, b, x, r, w, q, k - 1);
        RunEps(a, p, r, w, q, k - 1);
      } else {
        RunRestrict(a, b, x, r, w[1..], q, k - 1);
        RunSym(a, p, w[0], r, w[1..], q, k - 1);
        assert [w[0]] + w[1..] == w;
      }
    }
  }

  /** Runs of `a` that start in a set `x` closed under `a`'s edges are runs
      of `b` when `b` keeps every edge `a` has on `x`. */
  lemma {:induction false} RunLift(a: Nfa, b: Nfa, x: set<nat>, p: nat, w: Word, q: nat, k: nat)
    requires forall s, l :: s in x ==> Delta(a, s, l) <= x
    requires forall s, l :: s in x ==> Delta(a, s, l) <= Delta(b, s, l)
    requires p in x && Run(a, p, w, q, k)
    ensures Run(b, p, w, q, k) && q in x
    decreases k
  {
    if k > 0 {
      var r :| || (r in Delta(a, p, Eps) && Run(a, r, w, q, k - 1))
               || (w != [] && r in Delta(a, p, Sym(w[0])) && Run(a, r, w[1..], q, k - 1));
      if r in Delta(a, p, Eps) && Run(a, r, w, q, k - 1) {
        RunLift(a, b, x, r, w, q, k - 1);
        RunEps(b, p, r, w, q, k - 1);
      } else {
        RunLift(a, b, x, r, w[1..], q, k - 1);
        RunSym(b, p, w[0], r, w[1..], q, k - 1);
        assert [w[0]] + w[1..] == w;
      }
    }
  }

  /** Two automata with the same lookup on every key have the same runs. */
  lemma {:induction false} RunSameDelta(a: Nfa, b: Nfa, p: nat, w: Word, q: nat, k: nat)
    requires forall s, l :: Delta(a, s, l) == Delta(b, s, l)
    requires Run(a, p, w, q, k)
    ensures Run(b, p, w, q, k)
    decreases k
  {
    if k > 0 {
      var r :| || (r in Delta(a, p, Eps) && Run(a, r, w, q, k - 1))
               || (w != [] && r in Delta(a, p, Sym(w[0])) && Run(a, r, w[1..], q, k - 1));
      if r in Delta(a, p, Eps) && Run(a, r, w, q, k - 1) {
        RunSameDelta(a, b, r, w, q, k - 1);
        RunEps(b, p, r, w, q, k - 1);
      } else {
        RunSameDelta(a, b, r, w[1..], q, k - 1);
        RunSym(b, p, w[0], r, w[1..], q, k - 1);
        assert [w[0]] + w[1..] == w;
      }
    }
  }

  /** Automata with the same lookup, start and accepting states accept the
      same words. */
  lemma SameLanguage(a: Nfa, b: Nfa)
    requires forall s, l :: Delta(a, s, l) == Delta(b, s, l)
    requires a.q0 == b.q0 && a.F == b.F
    ensures forall w :: Accepts(a, w) <==> Accepts(b, w)
  {
    forall w | Accepts(a, w)
      ensures Accepts(b, w)
    {
      var q, k :| q in a.F && Run(a, a.q0, w, q, k);
      RunSameDelta(a, b, a.q0, w, q, k);
    }
    forall w | Accepts(b, w)
      ensures Accepts(a, w)
    {
      var q, k :| q in b.F && Run(b, b.q0, w, q, k);
      RunSameDelta(b, a, b.q0, w, q, k);
    }
  }
}
