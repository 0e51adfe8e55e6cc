/** Language theorems for the combinators of the newer revision: each
    combinator builds an automaton for the intended language operation. */
module NfaLang {
  import opened Wrappers
  import opened Words
  import opened NfaCore
  import opened NfaOps

  /** Membership in the Kleene star of the language of `a`. */
  ghost predicate StarOf(a: Nfa, w: Word) {
    exists ws: seq<Word> :: Flatten(ws) == w && forall i :: 0 <= i < |ws| ==> Accepts(a, ws[i])
  }

  /** `empty()` accepts nothing. */
  lemma EmptyLanguage(q: nat, w: Word)
    ensures !Accepts(Empty(q), w)
  {
  }

  lemma {:induction false} ChainRun(w: Word, base: nat, i: nat)
    requires i <= |w|
    ensures Run(FromString(w, base), base + i, w[i..], base + |w|, |w| - i)
    decreases |w| - i
  {
    var n := FromString(w, base);
    if i < |w| {
      ChainRun(w, base, i + 1);
      assert base + i + 1 in Delta(n, base + i, Sym(w[i]));
      RunSym(n, base + i, w[i], base + i + 1, w[i + 1..], base + |w|, |w| - i - 1);
      assert [w[i]] + w[i + 1..] == w[i..];
    }
  }

  lemma {:induction false} ChainOnly(w: Word, base: nat, i: nat, v: Word, k: nat)
    requires i <= |w| && Run(FromString(w, base), base + i, v, base + |w|, k)
    ensures v == w[i..]
    decreases k
  {
    var n := FromString(w, base);
    if k == 0 {
      assert i == |w|;
    } else {
      var r, eps := RunFirst(n, base + i, v, base + |w|, k);
      assert r == base + i + 1 && !eps && v[0] == w[i];
      ChainOnly(w, base, i + 1, v[1..], k - 1);
      assert v == [v[0]] + v[1..];
      assert w[i..] == [w[i]] + w[i + 1..];
    }
  }

  /** `from_string(w)` accepts exactly `w`. */
  lemma FromStringLanguage(w: Word, base: nat, v: Word)
    ensures Accepts(FromString(w, base), v) <==> v == w
  {
    if v == w {
      ChainRun(w, base, 0);
    }
    if Accepts(FromString(w, base), v) {
      var q, k :| q in FromString(w, base).F && Run(FromString(w, base), base, v, q, k);
      ChainOnly(w, base, 0, v, k);
    }
  }

  lemma {:induction false} CopyRunForward(n: Nfa, off: nat, p: nat, w: Word, q: nat, k: nat)
    requires Run(n, p, w, q, k)
    ensures Run(Copy(n, off), p + off, w, q + off, k)
    decreases k
  {
    if k > 0 {
      var r, eps := RunFirst(n, p, w, q, k);
      var rest := if eps then w else w[1..];
      CopyDelta(n, off, p, if eps then Eps else Sym(w[0]));
      CopyRunForward(n, off, r, rest, q, k - 1);
      RunCons(Copy(n, off), p + off, r + off, eps, w, q + off, k);
    }
  }

  lemma CopyShifted(n: Nfa, off: nat)
    ensures forall s, l :: s >= off ==> Delta(Copy(n, off), s, l) == ShiftSet(Delta(n, s - off, l), off)
  {
    forall s, l | s >= off
      ensures Delta(Copy(n, off), s, l) == ShiftSet(Delta(n, s - off, l), off)
    {
      CopyDelta(n, off, s - off, l);
    }
  }

  /** A run of an automaton `c` whose edges out of states from `off` on are
      those of `n` shifted by `off` is, shifted back, a run of `n`. */
  lemma {:induction false} ShiftRunBack(n: Nfa, c: Nfa, off: nat, p: nat, w: Word, q: nat, k: nat)
    requires forall s, l :: s >= off ==> Delta(c, s, l) == ShiftSet(Delta(n, s - off, l), off)
    requires Run(c, p + off, w, q + off, k)
    ensures Run(n, p, w, q, k)
    decreases k
  {
    if k > 0 {
      var r, eps := RunFirst(c, p + off, w, q + off, k);
      var rest := if eps then w else w[1..];
      var l := if eps then Eps else Sym(w[0]);
      assert Delta(c, p + off, l) == ShiftSet(Delta(n, p, l), off);
      var r0: nat := r - off;
      ShiftRunBack(n, c, off, r0, rest, q, k - 1);
      RunCons(n, p, r0, eps, w, q, k);
    }
  }

  /** `copy()` accepts the same language as the original. */
  lemma CopyLanguage(n: Nfa, off: nat, w: Word)
    ensures Accepts(Copy(n, off), w) <==> Accepts(n, w)
  {
    if Accepts(n, w) {
      CopyAccepts(n, off, w);
    }
    if Accepts(Copy(n, off), w) {
      CopyAcceptsBack(n, off, w);
    }
  }

  lemma CopyAccepts(n: Nfa, off: nat, w: Word)
    requires Accepts(n, w)
    ensures Accepts(Copy(n, off), w)
  {
    var q, k :| q in n.F && Run(n, n.q0, w, q, k);
    CopyRunForward(n, off, n.q0, w, q, k);
    assert q + off in Copy(n, off).F;
  }

  lemma CopyAcceptsBack(n: Nfa, off: nat, w: Word)
    requires Accepts(Copy(n, off), w)
    ensures Accepts(n, w)
  {
    var c := Copy(n, off);
    var q, k :| q in c.F && Run(c, c.q0, w, q, k);
    var q0: nat := q - off;
    assert q == q0 + off && q0 in n.F;
    CopyShifted(n, off);
    ShiftRunBack(n, c, off, n.q0, w, q0, k);
  }

  /** Runs of either operand are runs of the joined automaton. */
  lemma ConcatLiftA(a: Nfa, b: Nfa, p: nat, w: Word, q: nat, k: nat)
    requires Valid(a) && Valid(b) && a.Q !! b.Q
    requires p in a.Q && Run(a, p, w, q, k)
    ensures Run(ConcatRaw(a, b), p, w, q, k)
  {
    ConcatDelta(a, b);
    ValidClosed(a);
    RunLift(a, ConcatRaw(a, b), a.Q, p, w, q, k);
  }

  lemma ConcatLiftB(a: Nfa, b: Nfa, p: nat, w: Word, q: nat, k: nat)
    requires Valid(a) && Valid(b) && a.Q !! b.Q
    requires p in b.Q && Run(b, p, w, q, k)
    ensures Run(ConcatRaw(a, b), p, w, q, k)
  {
    ConcatDelta(a, b);
    ValidClosed(b);
    RunLift(b, ConcatRaw(a, b), b.Q, p, w, q, k);
  }

  /** A run of `c` that starts inside `b.Q`, where `c` behaves like `b`, is a
      run of `b`. */
  lemma StayInside(b: Nfa, c: Nfa, r: nat, w: Word, q: nat, k: nat)
    requires Valid(b)
    requires forall s, l :: s in b.Q ==> Delta(c, s, l) == Delta(b, s, l)
    requires r in b.Q && Run(c, r, w, q, k)
    ensures Run(b, r, w, q, k) && q in b.Q
  {
    ValidClosed(b);
    RunRestrict(b, c, b.Q, r, w, q, k);
  }

  /** Any automaton `c` that behaves like `b` inside `b.Q` and like `a`
      plus epsilon edges from `a.F` to `b.q0` inside `a.Q`: a run from the
      first part into the second crosses exactly once, along one of the
      added edges. */
  lemma {:induction false} SplitRun(a: Nfa, b: Nfa, c: Nfa, p: nat, w: Word, q: nat, k: nat)
      returns (u: Word, v: Word, f: nat, k1: nat, k2: nat)
    requires Valid(a) && Valid(b) && a.Q !! b.Q
    requires forall s, l :: s in a.Q ==>
      Delta(c, s, l) == Delta(a, s, l) + (if l == Eps && s in a.F then {b.q0} else {})
    requires forall s, l :: s in b.Q ==> Delta(c, s, l) == Delta(b, s, l)
    requires p in a.Q && q in b.Q && Run(c, p, w, q, k)
    ensures w == u + v && f in a.F && Run(a, p, u, f, k1) && Run(b, b.q0, v, q, k2)
    decreases k
  {
    if k == 0 {
      assert false;
    } else {
      var r, eps := RunFirst(c, p, w, q, k);
      var l := if eps then Eps else Sym(w[0]);
      assert Delta(c, p, l) == Delta(a, p, l) + (if l == Eps && p in a.F then {b.q0} else {});
      DeltaValid(a, p, l);
      if eps && r !in Delta(a, p, Eps) {
        StayInside(b, c, r, w, q, k - 1);
        u, v, f, k1, k2 := [], w, p, 0, k - 1;
      } else if eps {
        u, v, f, k1, k2 := SplitRun(a, b, c, r, w, q, k - 1);
        RunEps(a, p, r, u, f, k1);
        k1 := k1 + 1;
      } else {
        var u1;
        u1, v, f, k1, k2 := SplitRun(a, b, c, r, w[1..], q, k - 1);
        RunSym(a, p, w[0], r, u1, f, k1);
        u, k1 := [w[0]] + u1, k1 + 1;
        assert w == u + v;
      }
    }
  }

  /** Once the overlap check passes, `update_concat(other)` accepts exactly
      the concatenations of a word of the first language with a word of the
      second. */
  lemma ConcatLanguage(a: Nfa, b: Nfa, w: Word)
    requires Valid(a) && Valid(b) && a.Q !! b.Q
    ensures Accepts(ConcatRaw(a, b), w) <==>
            exists u, v :: w == u + v && Accepts(a, u) && Accepts(b, v)
  {
    if Accepts(ConcatRaw(a, b), w) {
      var u, v := ConcatAcceptsSplit(a, b, w);
    }
    if exists u, v :: w == u + v && Accepts(a, u) && Accepts(b, v) {
      var u, v :| w == u + v && Accepts(a, u) && Accepts(b, v);
      ConcatAcceptsJoin(a, b, u, v);
    }
  }

  lemma ConcatAcceptsSplit(a: Nfa, b: Nfa, w: Word) returns (u: Word, v: Word)
    requires Valid(a) && Valid(b) && a.Q !! b.Q
    requires Accepts(ConcatRaw(a, b), w)
    ensures w == u + v && Accepts(a, u) && Accepts(b, v)
  {
    var c := ConcatRaw(a, b);
    var q: nat, k: nat :| q in c.F && Run(c, c.q0, w, q, k);
    ConcatDelta(a, b);
    var f, k1, k2;
    u, v, f, k1, k2 := SplitRun(a, b, c, a.q0, w, q, k);
  }

  lemma ConcatAcceptsJoin(a: Nfa, b: Nfa, u: Word, v: Word)
    requires Valid(a) && Valid(b) && a.Q !! b.Q
    requires Accepts(a, u) && Accepts(b, v)
    ensures Accepts(ConcatRaw(a, b), u + v)
  {
    var c := ConcatRaw(a, b);
    var f: nat, k1: nat :| f in a.F && Run(a, a.q0, u, f, k1);
    var q: nat, k2: nat :| q in b.F && Run(b, b.q0, v, q, k2);
    ConcatDeltaAt(a, b, f, Eps);
    ConcatLiftA(a, b, a.q0, u, f, k1);
    ConcatLiftB(a, b, b.q0, v, q, k2);
    RunEps(c, f, b.q0, v, q, k2);
    RunAppend(c, a.q0, u, f, k1, v, q, k2 + 1);
  }

  /** A run of `c`, where `c` behaves like `a` plus `Eps` edges from `a.F`
      back to `a.q0`, that starts inside `a.Q` splits into a run of `a` to an
      accepting state followed by words of the language of `a`. */
  lemma {:induction false} StarSplit(a: Nfa, c: Nfa, p: nat, w: Word, q: nat, k: nat)
      returns (u: Word, f: nat, k1: nat, ws: seq<Word>)
    requires Valid(a)
    requires forall s, l :: s in a.Q ==>
      Delta(c, s, l) == Delta(a, s, l) + (if l == Eps && s in a.F then {a.q0} else {})
    requires p in a.Q && (q in a.F || q !in a.Q) && Run(c, p, w, q, k)
    ensures w == u + Flatten(ws) && f in a.F && Run(a, p, u, f, k1)
    ensures forall i :: 0 <= i < |ws| ==> Accepts(a, ws[i])
    decreases k
  {
    if k == 0 {
      u, f, k1, ws := [], p, 0, [];
    } else {
      var r, eps := RunFirst(c, p, w, q, k);
      var l := if eps then Eps else Sym(w[0]);
      assert Delta(c, p, l) == Delta(a, p, l) + (if l == Eps && p in a.F then {a.q0} else {});
      DeltaValid(a, p, l);
      if r !in Delta(a, p, l) {
        var u1, f1, k2, ws1 := StarSplit(a, c, a.q0, w, q, k - 1);
        u, f, k1, ws := [], p, 0, [u1] + ws1;
        AcceptsCons(a, u1, f1, k2, ws1);
      } else if eps {
        u, f, k1, ws := StarSplit(a, c, r, w, q, k - 1);
        RunEps(a, p, r, u, f, k1);
        k1 := k1 + 1;
      } else {
        var u1;
        u1, f, k1, ws := StarSplit(a, c, r, w[1..], q, k - 1);
        RunSym(a, p, w[0], r, u1, f, k1);
        u, k1 := [w[0]] + u1, k1 + 1;
        assert w == u + Flatten(ws);
      }
    }
  }

  lemma AcceptsCons(a: Nfa, u: Word, f: nat, k: nat, ws: seq<Word>)
    requires f in a.F && Run(a, a.q0, u, f, k)
    requires forall i :: 0 <= i < |ws| ==> Accepts(a, ws[i])
    ensures Flatten([u] + ws) == u + Flatten(ws)
    ensures forall i :: 0 <= i < |[u] + ws| ==> Accepts(a, ([u] + ws)[i])
  {
    assert ([u] + ws)[1..] == ws;
  }

  /** From an accepting hub `h` of `c` with an `Eps` edge to `a.q0`, `c` reads
      any concatenation of words of the language of `a`. */
  lemma {:induction false} StarBuild(a: Nfa, c: Nfa, h: nat, ws: seq<Word>) returns (f: nat, k: nat)
    requires Valid(a)
    requires forall s, l :: s in a.Q ==> Delta(a, s, l) <= Delta(c, s, l)
    requires forall s :: s in a.F ==> s in c.F && a.q0 in Delta(c, s, Eps)
    requires h in c.F && a.q0 in Delta(c, h, Eps)
    requires forall i :: 0 <= i < |ws| ==> Accepts(a, ws[i])
    ensures f in c.F && Run(c, h, Flatten(ws), f, k)
    decreases |ws|
  {
    if ws == [] {
      f, k := h, 0;
    } else {
      assert Accepts(a, ws[0]);
      var f1: nat, k1: nat :| f1 in a.F && Run(a, a.q0, ws[0], f1, k1);
      ValidClosed(a);
      RunLift(a, c, a.Q, a.q0, ws[0], f1, k1);
      RunEps(c, h, a.q0, ws[0], f1, k1);
      var k2;
      f, k2 := StarBuild(a, c, f1, ws[1..]);
      RunAppend(c, h, ws[0], f1, k1 + 1, Flatten(ws[1..]), f, k2);
      k := k1 + 1 + k2;
    }
  }

  /** `update_star()` accepts exactly the Kleene star of the language. */
  lemma StarLanguage(a: Nfa, q0: nat, w: Word)
    requires Valid(a) && q0 !in a.Q
    ensures Accepts(Star(a, q0), w) <==> StarOf(a, w)
  {
    if Accepts(Star(a, q0), w) {
      var ws := StarAcceptsSplit(a, q0, w);
    }
    if StarOf(a, w) {
      var ws: seq<Word> :| Flatten(ws) == w && forall i :: 0 <= i < |ws| ==> Accepts(a, ws[i]);
      StarAcceptsBuild(a, q0, ws);
    }
  }

  lemma StarAcceptsSplit(a: Nfa, q0: nat, w: Word) returns (ws: seq<Word>)
    requires Valid(a) && q0 !in a.Q
    requires Accepts(Star(a, q0), w)
    ensures Flatten(ws) == w && forall i :: 0 <= i < |ws| ==> Accepts(a, ws[i])
  {
    var c := Star(a, q0);
    var q: nat, k: nat :| q in c.F && Run(c, q0, w, q, k);
    if k == 0 {
      ws := [];
    } else {
      StarDelta(a, q0);
      var r, eps := RunFirst(c, q0, w, q, k);
      assert eps && r == a.q0;
      var u, f, k1, ws1 := StarSplit(a, c, a.q0, w, q, k - 1);
      ws := [u] + ws1;
      AcceptsCons(a, u, f, k1, ws1);
    }
  }

  lemma StarAcceptsBuild(a: Nfa, q0: nat, ws: seq<Word>)
    requires Valid(a) && q0 !in a.Q
    requires forall i :: 0 <= i < |ws| ==> Accepts(a, ws[i])
    ensures Accepts(Star(a, q0), Flatten(ws))
  {
    StarDelta(a, q0);
    var f, k := StarBuild(a, Star(a, q0), q0, ws);
  }

  /** Some automaton of `ns` accepts `w`. */
  ghost predicate AnyAccepts(ns: seq<Nfa>, w: Word) {
    exists i :: 0 <= i < |ns| && Accepts(ns[i], w)
  }

  ghost predicate AllValid(ns: seq<Nfa>) {
    forall i :: 0 <= i < |ns| ==> Valid(ns[i])
  }

  /** Away from its start, which nothing enters, `c` behaves like `acc`: a run
      of `c` from such a state is a run of `acc` that never comes back to the
      start. */
  lemma AvoidStart(acc: Nfa, c: Nfa, r: nat, w: Word, q: nat, k: nat)
    requires Valid(acc) && NoEdgeInto(acc, acc.q0)
    requires forall s, l :: s in acc.Q && s != acc.q0 ==> Delta(c, s, l) == Delta(acc, s, l)
    requires r in acc.Q && r != acc.q0 && Run(c, r, w, q, k)
    ensures Run(acc, r, w, q, k) && q in acc.Q && q != acc.q0
  {
    var x := acc.Q - {acc.q0};
    forall s, l | s in x
      ensures Delta(c, s, l) <= x && Delta(c, s, l) == Delta(acc, s, l)
    {
      DeltaValid(acc, s, l);
    }
    RunRestrict(acc, c, x, r, w, q, k);
  }

  /** One round of `update_union` adds the language of `b`, provided nothing
      enters the start of `acc`. */
  lemma UnionStepLanguage(acc: Nfa, b: Nfa, w: Word)
    requires Valid(acc) && Valid(b) && acc.Q !! b.Q && NoEdgeInto(acc, acc.q0)
    ensures Accepts(UnionStep(acc, b), w) <==> Accepts(acc, w) || Accepts(b, w)
  {
    var c := UnionStep(acc, b);
    UnionStepDelta(acc, b);
    if Accepts(acc, w) {
      var q: nat, k: nat :| q in acc.F && Run(acc, acc.q0, w, q, k);
      ValidClosed(acc);
      RunLift(acc, c, acc.Q, acc.q0, w, q, k);
    }
    if Accepts(b, w) {
      var q: nat, k: nat :| q in b.F && Run(b, b.q0, w, q, k);
      ValidClosed(b);
      RunLift(b, c, b.Q, b.q0, w, q, k);
      RunEps(c, acc.q0, b.q0, w, q, k);
    }
    if Accepts(c, w) {
      UnionStepSplit(acc, b, w);
    }
  }

  lemma UnionStepSplit(acc: Nfa, b: Nfa, w: Word)
    requires Valid(acc) && Valid(b) && acc.Q !! b.Q && NoEdgeInto(acc, acc.q0)
    requires Accepts(UnionStep(acc, b), w)
    ensures Accepts(acc, w) || Accepts(b, w)
  {
    var c := UnionStep(acc, b);
    var q: nat, k: nat :| q in c.F && Run(c, acc.q0, w, q, k);
    if k == 0 {
      assert Run(acc, acc.q0, w, q, 0);
    } else {
      UnionStepDelta(acc, b);
      var r, eps := RunFirst(c, acc.q0, w, q, k);
      var l := if eps then Eps else Sym(w[0]);
      assert Delta(c, acc.q0, l) == Delta(acc, acc.q0, l) + (if l == Eps then {b.q0} else {});
      if r in Delta(acc, acc.q0, l) {
        UnionFirstInAcc(acc, b, r, eps, w, q, k);
      } else {
        StayInside(b, c, r, w, q, k - 1);
      }
    }
  }

  lemma UnionFirstInAcc(acc: Nfa, b: Nfa, r: nat, eps: bool, w: Word, q: nat, k: nat)
    requires Valid(acc) && Valid(b) && acc.Q !! b.Q && NoEdgeInto(acc, acc.q0) && k > 0
    requires eps ==> r in Delta(acc, acc.q0, Eps) && Run(UnionStep(acc, b), r, w, q, k - 1)
    requires !eps ==> w != [] && r in Delta(acc, acc.q0, Sym(w[0])) && Run(UnionStep(acc, b), r, w[1..], q, k - 1)
    ensures Run(acc, acc.q0, w, q, k) && q in acc.Q
  {
    var l := if eps then Eps else Sym(w[0]);
    DeltaValid(acc, acc.q0, l);
    UnionStepDelta(acc, b);
    var rest := if eps then w else w[1..];
    AvoidStart(acc, UnionStep(acc, b), r, rest, q, k - 1);
    RunCons(acc, acc.q0, r, eps, w, q, k);
  }

  /** A union round keeps the start of `acc` free of incoming edges. */
  lemma UnionStepNoEdge(acc: Nfa, b: Nfa)
    requires Valid(acc) && Valid(b) && acc.Q !! b.Q && NoEdgeInto(acc, acc.q0)
    ensures NoEdgeInto(UnionStep(acc, b), acc.q0)
  {
    forall p, l
      ensures acc.q0 !in Delta(UnionStep(acc, b), p, l)
    {
      UnionStepDeltaAt(acc, b, p, l);
      DeltaValid(b, p, l);
    }
  }

  /** The loop of `update_union` accepts the language of `acc` together with
      the languages of all operands. */
  lemma {:induction false} UnionFoldLanguage(acc: Nfa, others: seq<Nfa>, w: Word)
    requires Valid(acc) && NoEdgeInto(acc, acc.q0) && AllValid(others) && Separate(acc.Q, others)
    ensures UnionFold(acc, others).Ok? && Valid(UnionFold(acc, others).value)
    ensures Accepts(UnionFold(acc, others).value, w) <==> Accepts(acc, w) || AnyAccepts(others, w)
    decreases |others|
  {
    if others != [] {
      var b := others[0];
      assert Valid(b) && acc.Q * b.Q == {};
      Disjoint(acc.Q, b.Q);
      UnionStepValid(acc, b);
      UnionStepNoEdge(acc, b);
      UnionStepLanguage(acc, b, w);
      assert AllValid(others[1..]) by {
        forall i | 0 <= i < |others[1..]|
          ensures Valid(others[1..][i])
        {
          assert others[1..][i] == others[i + 1];
        }
      }
      UnionFoldLanguage(UnionStep(acc, b), others[1..], w);
      AnyAcceptsCons(others, w);
    }
  }

  lemma AnyAcceptsCons(ns: seq<Nfa>, w: Word)
    requires ns != []
    ensures AnyAccepts(ns, w) <==> Accepts(ns[0], w) || AnyAccepts(ns[1..], w)
  {
    if AnyAccepts(ns, w) {
      var i :| 0 <= i < |ns| && Accepts(ns[i], w);
      if i > 0 {
        assert ns[1..][i - 1] == ns[i];
      }
    }
    if AnyAccepts(ns[1..], w) {
      var i :| 0 <= i < |ns[1..]| && Accepts(ns[1..][i], w);
      assert ns[1..][i] == ns[i + 1];
    }
  }

  /** `update_union(*others)` accepts the union of its own language and the
      languages of the operands, once the overlap checks pass. */
  lemma UnionAllLanguage(n: Nfa, others: seq<Nfa>, q0: nat, w: Word)
    requires Valid(n) && q0 !in n.Q && AllValid(others)
    requires others == [] || Separate(n.Q + {q0}, others)
    ensures UnionAll(n, others, q0).Ok? && Valid(UnionAll(n, others, q0).value)
    ensures Accepts(UnionAll(n, others, q0).value, w) <==> Accepts(n, w) || AnyAccepts(others, w)
  {
    if others != [] {
      var e := Empty(q0);
      UnionStepValid(e, n);
      UnionStepNoEdge(e, n);
      UnionStepLanguage(e, n, w);
      EmptyLanguage(q0, w);
      assert UnionStep(e, n).Q == n.Q + {q0};
      UnionFoldLanguage(UnionStep(e, n), others, w);
    }
  }

  /** Membership in the concatenation of the languages of `ns`, in order. */
  ghost predicate ConcatOf(ns: seq<Nfa>, w: Word)
    decreases |ns|
  {
    if ns == [] then w == []
    else exists u, v :: w == u + v && Accepts(ns[0], u) && ConcatOf(ns[1..], v)
  }

  lemma ConcatOfCons(x: Nfa, rest: seq<Nfa>, u: Word, v: Word)
    requires Accepts(x, u) && ConcatOf(rest, v)
    ensures ConcatOf([x] + rest, u + v)
  {
    assert ([x] + rest)[1..] == rest;
  }

  lemma ConcatOfHead(x: Nfa, rest: seq<Nfa>, w: Word) returns (u: Word, v: Word)
    requires ConcatOf([x] + rest, w)
    ensures w == u + v && Accepts(x, u) && ConcatOf(rest, v)
  {
    assert ([x] + rest)[1..] == rest;
    u, v :| w == u + v && Accepts(x, u) && ConcatOf(rest, v);
  }

  /** Joining the first two automata of a list leaves the concatenated
      language of the list unchanged. */
  lemma ConcatOfRegroup(n: Nfa, b: Nfa, rest: seq<Nfa>, w: Word)
    requires Valid(n) && Valid(b) && n.Q !! b.Q
    ensures ConcatOf([ConcatRaw(n, b)] + rest, w) <==> ConcatOf([n] + ([b] + rest), w)
  {
    if ConcatOf([ConcatRaw(n, b)] + rest, w) {
      RegroupSplit(n, b, rest, w);
    }
    if ConcatOf([n] + ([b] + rest), w) {
      RegroupJoin(n, b, rest, w);
    }
  }

  lemma RegroupSplit(n: Nfa, b: Nfa, rest: seq<Nfa>, w: Word)
    requires Valid(n) && Valid(b) && n.Q !! b.Q
    requires ConcatOf([ConcatRaw(n, b)] + rest, w)
    ensures ConcatOf([n] + ([b] + rest), w)
  {
    var u, v := ConcatOfHead(ConcatRaw(n, b), rest, w);
    var u1, u2 := ConcatAcceptsSplit(n, b, u);
    ConcatOfCons(b, rest, u2, v);
    AppendAssoc(u1, u2, v);
    ConcatOfCons(n, [b] + rest, u1, u2 + v);
  }

  lemma RegroupJoin(n: Nfa, b: Nfa, rest: seq<Nfa>, w: Word)
    requires Valid(n) && Valid(b) && n.Q !! b.Q
    requires ConcatOf([n] + ([b] + rest), w)
    ensures ConcatOf([ConcatRaw(n, b)] + rest, w)
  {
    var u1, v1 := ConcatOfHead(n, [b] + rest, w);
    var u2, v := ConcatOfHead(b, rest, v1);
    ConcatAcceptsJoin(n, b, u1, u2);
    AppendAssoc(u1, u2, v);
    ConcatOfCons(ConcatRaw(n, b), rest, u1 + u2, v);
  }

  /** The loop of `update_concat` accepts the concatenation of its own
      language with the operands' languages, in order. */
  lemma {:induction false} ConcatAllLanguage(n: Nfa, others: seq<Nfa>, w: Word)
    requires Valid(n) && AllValid(others) && Separate(n.Q, others)
    ensures ConcatAll(n, others).Ok? && Valid(ConcatAll(n, others).value)
    ensures Accepts(ConcatAll(n, others).value, w) <==> ConcatOf([n] + others, w)
    decreases |others|
  {
    if others == [] {
      assert [n] + others == [n] && [n][1..] == [];
      if Accepts(n, w) {
        assert w == w + [] && ConcatOf([], []);
      }
      if ConcatOf([n], w) {
        var u, v :| w == u + v && Accepts(n, u) && ConcatOf([], v);
        assert w == u;
      }
    } else {
      var b := others[0];
      var rest := others[1..];
      assert Valid(b) && n.Q * b.Q == {};
      Disjoint(n.Q, b.Q);
      ConcatValid(n, b);
      assert AllValid(rest) by {
        forall i | 0 <= i < |rest|
          ensures Valid(rest[i])
        {
          assert rest[i] == others[i + 1];
        }
      }
      ConcatAllLanguage(ConcatRaw(n, b), rest, w);
      ConcatOfRegroup(n, b, rest, w);
      assert others == [b] + rest;
    }
  }
}
