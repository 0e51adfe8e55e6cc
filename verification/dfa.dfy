/** Deterministic automata (src/regular/dfa.py): a partial transition map
    from a state and a character to one state. A DFA is also an NFA through
    the lifting its constructor performs. */
module DfaCore {
  import opened Wrappers
  import opened Words
  import opened NfaCore

  datatype Dfa = Dfa(Q: set<nat>, S: set<char>, d: map<(nat, char), nat>, q0: nat, F: set<nat>)

  /** The start and accepting states are states, and every entry is keyed on
      a state and an alphabet symbol and leads to a state. */
  ghost predicate DValid(D: Dfa) {
    && D.q0 in D.Q
    && D.F <= D.Q
    && forall key :: key in D.d ==> key.0 in D.Q && key.1 in D.S && D.d[key] in D.Q
  }

  /** Every state has a successor on every alphabet symbol. */
  ghost predicate Total(D: Dfa) {
    forall q, c :: q in D.Q && c in D.S ==> (q, c) in D.d
  }

  /** The state reached from `q` after reading `w`, or `None` as soon as an
      entry is missing (where the lookup in the source fails). */
  function Walk(D: Dfa, q: nat, w: Word): Option<nat>
    decreases |w|
  {
    if w == [] then Some(q)
    else if (q, w[0]) in D.d then Walk(D, D.d[(q, w[0])], w[1..])
    else None
  }

  /** The language of a DFA. */
  predicate DAccepts(D: Dfa, w: Word) {
    Walk(D, D.q0, w).Some? && Walk(D, D.q0, w).value in D.F
  }

  /** Every state can be reached from the start. */
  ghost predicate AllReachable(D: Dfa) {
    forall q :: q in D.Q ==> exists w :: Walk(D, D.q0, w) == Some(q)
  }

  lemma {:induction false} WalkTotal(D: Dfa, q: nat, w: Word)
    requires DValid(D) && Total(D) && q in D.Q && Over(w, D.S)
    ensures Walk(D, q, w).Some? && Walk(D, q, w).value in D.Q
    decreases |w|
  {
    if w != [] {
      assert w[0] in D.S;
      WalkTotal(D, D.d[(q, w[0])], w[1..]);
    }
  }

  lemma {:induction false} WalkAppend(D: Dfa, q: nat, u: Word, v: Word)
    requires Walk(D, q, u).Some?
    ensures Walk(D, q, u + v) == Walk(D, Walk(D, q, u).value, v)
    decreases |u|
  {
    if u == [] {
      assert u + v == v;
    } else {
      assert (u + v)[0] == u[0] && (u + v)[1..] == u[1..] + v;
      WalkAppend(D, D.d[(q, u[0])], u[1..], v);
    }
  }

  /** The table the constructor builds: each target lifted to a singleton
      set, and an empty `Eps` set for every state. */
  function LiftTable(D: Dfa): Table {
    map key | key in (set k | k in D.d :: (k.0, Sym(k.1))) + (set q | q in D.Q :: (q, Eps)) ::
      if key.1.Sym? && (key.0, key.1.c) in D.d then {D.d[(key.0, key.1.c)]} else {}
  }

  /** `DFA.__init__`: the DFA as an NFA. */
  function Lift(D: Dfa): (n: Nfa)
    ensures n.Q == D.Q && n.S == D.S && n.q0 == D.q0 && n.F == D.F
  {
    Nfa(D.Q, D.S, LiftTable(D), D.q0, D.F)
  }

  /** The lifted automaton has no `Eps` edges and exactly one edge per
      entry of the map. */
  lemma LiftDelta(D: Dfa, q: nat, l: Label)
    ensures l == Eps ==> Delta(Lift(D), q, l) == {}
    ensures l.Sym? ==> Delta(Lift(D), q, l) == if (q, l.c) in D.d then {D.d[(q, l.c)]} else {}
  {
    if l.Sym? && (q, l.c) in D.d {
      assert (q, l) in (set k | k in D.d :: (k.0, Sym(k.1)));
    }
  }

  lemma LiftValid(D: Dfa)
    requires DValid(D)
    ensures Valid(Lift(D))
  {
    var n := Lift(D);
    forall key | key in n.d
      ensures key.0 in n.Q && (key.1.Sym? ==> key.1.c in n.S) && n.d[key] <= n.Q
    {
      if key.1.Sym? {
        var k :| k in D.d && (k.0, Sym(k.1)) == key;
      }
    }
  }

  lemma {:induction false} LiftRun(D: Dfa, p: nat, w: Word, q: nat, k: nat)
    requires Run(Lift(D), p, w, q, k)
    ensures Walk(D, p, w) == Some(q)
    decreases k
  {
    if k > 0 {
      var r, eps := RunFirst(Lift(D), p, w, q, k);
      LiftDelta(D, p, Eps);
      assert !eps;
      LiftDelta(D, p, Sym(w[0]));
      LiftRun(D, r, w[1..], q, k - 1);
    }
  }

  lemma {:induction false} WalkRun(D: Dfa, p: nat, w: Word)
    requires Walk(D, p, w).Some?
    ensures Run(Lift(D), p, w, Walk(D, p, w).value, |w|)
    decreases |w|
  {
    if w != [] {
      var r := D.d[(p, w[0])];
      WalkRun(D, r, w[1..]);
      LiftDelta(D, p, Sym(w[0]));
      RunSym(Lift(D), p, w[0], r, w[1..], Walk(D, p, w).value, |w| - 1);
      assert [w[0]] + w[1..] == w;
    }
  }

  /** The DFA and its lifting accept the same words. */
  lemma LiftLanguage(D: Dfa, w: Word)
    ensures Accepts(Lift(D), w) <==> DAccepts(D, w)
  {
    if Accepts(Lift(D), w) {
      var q, k :| q in D.F && Run(Lift(D), D.q0, w, q, k);
      LiftRun(D, D.q0, w, q, k);
    }
    if DAccepts(D, w) {
      WalkRun(D, D.q0, w);
    }
  }

  /** `accept(string)`: one transition per character from the start, then
      the membership of the final state in `F`. A missing entry makes the
      lookup fail; that outcome is `None`. */
  method Accept(D: Dfa, w: Word) returns (r: Option<bool>)
    ensures r == Some(true) <==> Accepts(Lift(D), w)
    ensures r.None? <==> Walk(D, D.q0, w).None?
    ensures DValid(D) && Total(D) && Over(w, D.S) ==> r.Some?
  {
    var q := D.q0;
    var i := 0;
    while i < |w|
      invariant 0 <= i <= |w|
      invariant Walk(D, D.q0, w) == Walk(D, q, w[i..])
    {
      if (q, w[i]) !in D.d {
        assert w[i..][0] == w[i];
        LiftLanguage(D, w);
        if DValid(D) && Total(D) && Over(w, D.S) {
          WalkTotal(D, D.q0, w);
        }
        return None;
      }
      assert w[i..][0] == w[i] && w[i..][1..] == w[i + 1..];
      q := D.d[(q, w[i])];
      i := i + 1;
    }
    LiftLanguage(D, w);
    r := Some(q in D.F);
  }

  /** `complement()`: the same states, alphabet, transitions and start, with
      the accepting set `Q - F`. */
  function Complement(D: Dfa): (r: Dfa)
    ensures r.Q == D.Q && r.S == D.S && r.d == D.d && r.q0 == D.q0
    ensures forall q :: q in r.F <==> q in D.Q && q !in D.F
  {
    Dfa(D.Q, D.S, D.d, D.q0, D.Q - D.F)
  }

  /** On words over its alphabet, complementing a valid total DFA flips
      acceptance. */
  lemma ComplementLanguage(D: Dfa, w: Word)
    requires DValid(D) && Total(D) && Over(w, D.S)
    ensures DAccepts(Complement(D), w) <==> !DAccepts(D, w)
  {
    WalkTotal(D, D.q0, w);
    WalkSameMap(D, Complement(D), D.q0, w);
  }

  /** Runs only look at the transition map. */
  lemma {:induction false} WalkSameMap(D: Dfa, E: Dfa, q: nat, w: Word)
    requires D.d == E.d
    ensures Walk(D, q, w) == Walk(E, q, w)
    decreases |w|
  {
    if w != [] && (q, w[0]) in D.d {
      WalkSameMap(D, E, D.d[(q, w[0])], w[1..]);
    }
  }

  /** Complementing twice gives back the automaton. */
  lemma ComplementTwice(D: Dfa)
    requires DValid(D)
    ensures Complement(Complement(D)) == D
  {
  }

  /** `is_empty()` is `F == {}`. */
  function IsEmpty(D: Dfa): bool {
    D.F == {}
  }

  /** When every state is reachable, `F == {}` is exactly an empty language. */
  lemma IsEmptyLanguage(D: Dfa)
    requires DValid(D) && AllReachable(D)
    ensures IsEmpty(D) <==> forall w :: !DAccepts(D, w)
  {
    if !IsEmpty(D) {
      var q :| q in D.F;
      var w :| Walk(D, D.q0, w) == Some(q);
      assert DAccepts(D, w);
    }
  }
}
