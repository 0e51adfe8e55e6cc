/** Worklist explorations of an automaton: the epsilon closure used by the
    subset construction (`E` inside `DFA.from_NFA`, src/regular/dfa.py) and
    the breadth-first state iteration behind `NFA.is_empty`
    (src/regular/nfa.py). Only the visited set matters, so the queue is a
    set of states still to expand. */
module Closure {
  import opened Words
  import opened NfaCore

  /** `q` is reached from some state of `R` by moves that read nothing. */
  ghost predicate EpsFrom(n: Nfa, R: set<nat>, q: nat) {
    exists p, k :: p in R && Run(n, p, [], q, k)
  }

  /** No `Eps` edge leaves `X`. */
  ghost predicate EpsClosed(n: Nfa, X: set<nat>) {
    forall p, r :: p in X && r in Delta(n, p, Eps) ==> r in X
  }

  lemma EpsStep(n: Nfa, R: set<nat>, q: nat, r: nat)
    requires EpsFrom(n, R, q) && r in Delta(n, q, Eps)
    ensures EpsFrom(n, R, r)
  {
    var p, k :| p in R && Run(n, p, [], q, k);
    RunEps(n, q, r, [], r, 0);
    RunAppend(n, p, [], q, k, [], r, 1);
  }

  lemma EpsRefl(n: Nfa, R: set<nat>)
    ensures forall q :: q in R ==> EpsFrom(n, R, q)
  {
    forall q | q in R
      ensures EpsFrom(n, R, q)
    {
      assert Run(n, q, [], q, 0);
    }
  }

  lemma EpsSuccessors(n: Nfa, R: set<nat>, q: nat)
    requires EpsFrom(n, R, q)
    ensures forall r :: r in Delta(n, q, Eps) ==> EpsFrom(n, R, r)
  {
    forall r | r in Delta(n, q, Eps)
      ensures EpsFrom(n, R, r)
    {
      EpsStep(n, R, q, r);
    }
  }

  /** A set closed under `Eps` edges keeps every run that reads nothing. */
  lemma {:induction false} EpsClosedRun(n: Nfa, X: set<nat>, p: nat, q: nat, k: nat)
    requires EpsClosed(n, X) && p in X && Run(n, p, [], q, k)
    ensures q in X
    decreases k
  {
    if k > 0 {
      var r, eps := RunFirst(n, p, [], q, k);
      assert eps;
      EpsClosedRun(n, X, r, q, k - 1);
    }
  }

  /** Every state of `E` is reached from `R`, and `Eps` edges leave `E`
      only from states still to expand. */
  ghost predicate CloseInv(n: Nfa, R: set<nat>, E: set<nat>, todo: set<nat>) {
    && todo <= E && R <= E && E <= n.Q
    && (forall q :: q in E ==> EpsFrom(n, R, q))
    && (forall q, r :: q in E && q !in todo && r in Delta(n, q, Eps) ==> r in E)
  }

  lemma CloseInvStep(n: Nfa, R: set<nat>, E: set<nat>, todo: set<nat>, q: nat)
    requires Valid(n) && CloseInv(n, R, E, todo) && q in todo
    ensures CloseInv(n, R, E + (Delta(n, q, Eps) - E), (todo - {q}) + (Delta(n, q, Eps) - E))
    ensures || |n.Q - (E + (Delta(n, q, Eps) - E))| < |n.Q - E|
            || (|n.Q - (E + (Delta(n, q, Eps) - E))| == |n.Q - E|
                && |(todo - {q}) + (Delta(n, q, Eps) - E)| < |todo|)
  {
    EpsSuccessors(n, R, q);
    DeltaValid(n, q, Eps);
    WorklistProgress(n.Q, E, todo, q, Delta(n, q, Eps) - E);
  }

  lemma CloseInvDone(n: Nfa, R: set<nat>, E: set<nat>)
    requires CloseInv(n, R, E, {})
    ensures EpsClosed(n, E)
    ensures forall q :: q in E <==> EpsFrom(n, R, q)
  {
    ClosureLeast(n, R, E);
  }

  /** `E(R)`: the states reachable from `R` through zero or more `Eps` edges.
      It contains `R` and is closed under `Eps` edges. */
  method EClose(n: Nfa, R: set<nat>) returns (E: set<nat>)
    requires Valid(n) && R <= n.Q
    ensures R <= E && E <= n.Q && EpsClosed(n, E)
    ensures forall q :: q in E <==> EpsFrom(n, R, q)
  {
    E := R;
    var todo := R;
    EpsRefl(n, R);
    while todo != {}
      invariant CloseInv(n, R, E, todo)
      decreases |n.Q - E|, |todo|
    {
      var q :| q in todo;
      var added := Delta(n, q, Eps) - E;
      CloseInvStep(n, R, E, todo, q);
      E := E + added;
      todo := (todo - {q}) + added;
    }
    CloseInvDone(n, R, E);
  }

  /** Every `Eps`-closed superset of `R` holds all of the closure: the
      closure is the least such set. */
  lemma ClosureLeast(n: Nfa, R: set<nat>, X: set<nat>)
    requires R <= X && EpsClosed(n, X)
    ensures forall q :: EpsFrom(n, R, q) ==> q in X
  {
    forall q | EpsFrom(n, R, q)
      ensures q in X
    {
      var p, k :| p in R && Run(n, p, [], q, k);
      EpsClosedRun(n, X, p, q, k);
    }
  }

  /** `q` is reachable from the start by some run. */
  ghost predicate Reach(n: Nfa, q: nat) {
    exists w, k :: Run(n, n.q0, w, q, k)
  }

  /** The successors `__iter__` visits from `q`: along `Eps` and along every
      symbol of the alphabet. */
  function Succ(n: Nfa, q: nat): (r: set<nat>)
    ensures forall l, t :: t in Delta(n, q, l) && (l.Sym? ==> l.c in n.S) ==> t in r
    ensures forall t :: t in r ==> t in Delta(n, q, Eps) || exists c :: c in n.S && t in Delta(n, q, Sym(c))
  {
    Delta(n, q, Eps) + (set c, t | c in n.S && t in Delta(n, q, Sym(c)) :: t)
  }

  lemma SuccRun(n: Nfa, q: nat, t: nat) returns (w: Word)
    requires t in Succ(n, q)
    ensures Run(n, q, w, t, 1)
  {
    if t in Delta(n, q, Eps) {
      w := [];
      RunEps(n, q, t, [], t, 0);
    } else {
      var c :| c in n.S && t in Delta(n, q, Sym(c));
      w := [c];
      RunSym(n, q, c, t, [], t, 0);
    }
  }

  lemma ReachStep(n: Nfa, q: nat, t: nat)
    requires Reach(n, q) && t in Succ(n, q)
    ensures Reach(n, t)
  {
    var w, k :| Run(n, n.q0, w, q, k);
    var v := SuccRun(n, q, t);
    RunAppend(n, n.q0, w, q, k, v, t, 1);
  }

  /** A set closed under `Succ` keeps every run of a valid automaton. */
  lemma {:induction false} SuccClosedRun(n: Nfa, X: set<nat>, p: nat, w: Word, q: nat, k: nat)
    requires Valid(n)
    requires forall s, t :: s in X && t in Succ(n, s) ==> t in X
    requires p in X && Run(n, p, w, q, k)
    ensures q in X
    decreases k
  {
    if k > 0 {
      var r, eps := RunFirst(n, p, w, q, k);
      var l := if eps then Eps else Sym(w[0]);
      DeltaValid(n, p, l);
      assert r in Succ(n, p);
      SuccClosedRun(n, X, r, if eps then w else w[1..], q, k - 1);
    }
  }

  /** The states `__iter__` yields: breadth-first from the start, along `Eps`
      and alphabet edges, each reachable state once. */
  method Reachable(n: Nfa) returns (vis: set<nat>)
    requires Valid(n)
    ensures forall q :: q in vis <==> Reach(n, q)
  {
    vis := {n.q0};
    var todo := {n.q0};
    assert Run(n, n.q0, [], n.q0, 0);
    while todo != {}
      invariant todo <= vis <= n.Q
      invariant n.q0 in vis
      invariant forall q :: q in vis ==> Reach(n, q)
      invariant forall q, t :: q in vis && q !in todo && t in Succ(n, q) ==> t in vis
      decreases |n.Q - vis|, |todo|
    {
      var q :| q in todo;
      todo := todo - {q};
      var added := Succ(n, q) - vis;
      forall t | t in added
        ensures Reach(n, t) && t in n.Q
      {
        ReachStep(n, q, t);
        var w := SuccRun(n, q, t);
        RunValid(n, q, w, t, 1);
      }
      Grow(n.Q, vis, added);
      vis := vis + added;
      todo := todo + added;
    }
    forall q | Reach(n, q)
      ensures q in vis
    {
      var w, k :| Run(n, n.q0, w, q, k);
      SuccClosedRun(n, vis, n.q0, w, q, k);
    }
  }

  /** Some word is accepted iff some accepting state is reachable. */
  lemma AcceptsReach(n: Nfa)
    ensures (exists w :: Accepts(n, w)) <==> exists q :: q in n.F && Reach(n, q)
  {
    if exists w :: Accepts(n, w) {
      var w :| Accepts(n, w);
      var q, k :| q in n.F && Run(n, n.q0, w, q, k);
      assert Reach(n, q);
    }
    if exists q :: q in n.F && Reach(n, q) {
      var q :| q in n.F && Reach(n, q);
      var w, k :| Run(n, n.q0, w, q, k);
      assert Accepts(n, w);
    }
  }

  /** `is_empty()`: no accepting state among the reachable ones, which is
      exactly an empty language. */
  method IsEmpty(n: Nfa) returns (b: bool)
    requires Valid(n)
    ensures b <==> forall w :: !Accepts(n, w)
  {
    var vis := Reachable(n);
    b := vis * n.F == {};
    AcceptsReach(n);
    if exists q :: q in n.F && Reach(n, q) {
      ghost var q :| q in n.F && Reach(n, q);
      assert q in vis * n.F;
    }
    if vis * n.F != {} {
      ghost var q :| q in vis * n.F;
      assert q in n.F && Reach(n, q);
    }
  }
}
