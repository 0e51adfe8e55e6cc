/** The NFA combinators of the newer revision (`update_*` methods), written
    as pure functions that return the updated automaton. A fresh state that the
    source allocates with `object()` is a handle the caller supplies, with the
    precondition that it is not already a state of the automaton. */
module NfaOps {
  import opened Wrappers
  import opened Words
  import opened NfaCore

  /** `NFA.empty()`: one non-accepting start state and no transitions. */
  function Empty(q: nat): (r: Nfa)
    ensures Valid(r) && r.Q == {q} && r.F == {} && r.S == {}
    ensures forall p, l :: Delta(r, p, l) == {}
  {
    Nfa({q}, {}, map[], q, {})
  }

  /** The transitions of `from_string(w)`: state `base+i` steps to
      `base+i+1` on `w[i]`, and nothing else is stored. */
  function Chain(w: Word, base: nat): (d: Table)
    ensures forall p: nat, l :: Get(d, p, l) ==
              (if base <= p < base + |w| && l == Sym(w[p - base]) then {p + 1} else {})
    ensures forall key :: key in d ==> base <= key.0 < base + |w| && key.1 == Sym(w[key.0 - base])
    decreases |w|
  {
    if w == [] then map[]
    else
      var rest := Chain(w[1..], base + 1);
      var d := rest[(base, Sym(w[0])) := {base + 1}];
      assert forall p: nat, l :: Get(d, p, l) ==
               (if base <= p < base + |w| && l == Sym(w[p - base]) then {p + 1} else {}) by {
        forall p: nat, l
          ensures Get(d, p, l) ==
                  (if base <= p < base + |w| && l == Sym(w[p - base]) then {p + 1} else {})
        {
          if p == base {
            assert (p, l) !in rest;
          } else {
            assert Get(d, p, l) == Get(rest, p, l);
            if base + 1 <= p < base + |w| {
              assert w[1..][p - (base + 1)] == w[p - base];
            }
          }
        }
      }
      assert forall key :: key in d ==> base <= key.0 < base + |w| && key.1 == Sym(w[key.0 - base]) by {
        forall key | key in d
          ensures base <= key.0 < base + |w| && key.1 == Sym(w[key.0 - base])
        {
          if key in rest {
            assert w[1..][key.0 - (base + 1)] == w[key.0 - base];
          }
        }
      }
      d
  }

  /** `NFA.from_string(w)`: the chain `base, base+1, ..., base+|w|`; the start
      is the first state and the only accepting state is the last, so the
      empty word gives one state that is both. */
  function FromString(w: Word, base: nat): (r: Nfa)
    ensures Valid(r)
    ensures forall q :: q in r.Q <==> base <= q <= base + |w|
    ensures r.S == set i | 0 <= i < |w| :: w[i]
    ensures r.q0 == base && r.F == {base + |w|}
    ensures forall p: nat, l :: Delta(r, p, l) ==
              (if base <= p < base + |w| && l == Sym(w[p - base]) then {p + 1} else {})
  {
    var r := Nfa(Range(base, base + |w| + 1), set i | 0 <= i < |w| :: w[i], Chain(w, base), base, {base + |w|});
    assert Valid(r) by {
      forall key | key in r.d
        ensures key.0 in r.Q && (key.1.Sym? ==> key.1.c in r.S) && r.d[key] <= r.Q
      {
        var i := key.0 - base;
        assert key.1 == Sym(w[i]);
        assert r.d[key] == Get(r.d, key.0, key.1) == {key.0 + 1};
      }
    }
    r
  }

  /** The handles of `s` moved up by `off`. */
  function ShiftSet(s: set<nat>, off: nat): (r: set<nat>)
    ensures forall q :: q in r <==> q >= off && q - off in s
  {
    set q | q in s :: q + off
  }

  /** The table of `copy()`: every key and destination renamed by `off`. */
  function ShiftTable(d: Table, off: nat): Table {
    map key | key in d :: (key.0 + off, key.1) := ShiftSet(d[key], off)
  }

  lemma ShiftTableHas(d: Table, off: nat, p: nat, l: Label)
    requires (p, l) in d
    ensures (p + off, l) in ShiftTable(d, off)
    ensures ShiftTable(d, off)[(p + off, l)] == ShiftSet(d[(p, l)], off)
  {
    var key := (p, l);
    assert (key.0 + off, key.1) == (p + off, l);
  }

  lemma ShiftTableKey(d: Table, off: nat, key: (nat, Label))
    requires key in ShiftTable(d, off)
    ensures key.0 >= off && (key.0 - off, key.1) in d
  {
  }

  /** Lookups in the renamed table are the renamed lookups, and states below
      the offset have no transitions. */
  lemma ShiftTableGet(d: Table, off: nat)
    ensures forall p: nat, l :: Get(ShiftTable(d, off), p + off, l) == ShiftSet(Get(d, p, l), off)
    ensures forall p: nat, l :: p < off ==> Get(ShiftTable(d, off), p, l) == {}
    ensures forall key :: key in ShiftTable(d, off) ==> key.0 >= off && (key.0 - off, key.1) in d
  {
    forall p: nat, l
      ensures Get(ShiftTable(d, off), p + off, l) == ShiftSet(Get(d, p, l), off)
    {
      if (p, l) in d {
        ShiftTableHas(d, off, p, l);
      } else if (p + off, l) in ShiftTable(d, off) {
        ShiftTableKey(d, off, (p + off, l));
      }
    }
    forall p: nat, l | p < off
      ensures Get(ShiftTable(d, off), p, l) == {}
    {
      if (p, l) in ShiftTable(d, off) {
        ShiftTableKey(d, off, (p, l));
      }
    }
    forall key | key in ShiftTable(d, off)
      ensures key.0 >= off && (key.0 - off, key.1) in d
    {
      ShiftTableKey(d, off, key);
    }
  }

  /** `NFA.copy()`: the same automaton with every state `q` renamed to
      `q + off`, a bijection onto the states at or above `off`. */
  function Copy(n: Nfa, off: nat): (r: Nfa)
    ensures r.Q == ShiftSet(n.Q, off) && r.S == n.S
    ensures r.q0 == n.q0 + off && r.F == ShiftSet(n.F, off)
  {
    Nfa(ShiftSet(n.Q, off), n.S, ShiftTable(n.d, off), n.q0 + off, ShiftSet(n.F, off))
  }

  /** The copy's transitions are the original's, renamed; states below the
      offset have none. */
  lemma CopyDelta(n: Nfa, off: nat, p: nat, l: Label)
    ensures Delta(Copy(n, off), p + off, l) == ShiftSet(Delta(n, p, l), off)
    ensures p < off ==> Delta(Copy(n, off), p, l) == {}
  {
    ShiftTableGet(n.d, off);
  }

  /** The copy of a valid automaton is valid. */
  lemma CopyValid(n: Nfa, off: nat)
    requires Valid(n)
    ensures Valid(Copy(n, off))
  {
    ShiftTableGet(n.d, off);
    var r := Copy(n, off);
    forall key | key in r.d
      ensures key.0 in r.Q && (key.1.Sym? ==> key.1.c in r.S) && r.d[key] <= r.Q
    {
      var p: nat := key.0 - off;
      ShiftTableHas(n.d, off, p, key.1);
    }
  }

  /** The union of two tables keyed on disjoint states of two valid automata
      looks up each state in its own automaton's table. */
  lemma GetDisjoint(a: Nfa, b: Nfa, p: nat, l: Label)
    requires Valid(a) && Valid(b) && a.Q !! b.Q
    ensures p !in b.Q ==> Get(a.d + b.d, p, l) == Delta(a, p, l)
    ensures p in b.Q ==> Get(a.d + b.d, p, l) == Delta(b, p, l)
  {
    GetUnion(a.d, b.d, p, l);
  }

  /** The automaton of `update_concat(other)` once the overlap check passed:
      the union of both, started at `a`'s start, accepting `b`'s accepting
      states, with an `Eps` edge from every accepting state of `a` to `b`'s
      start. */
  function ConcatRaw(a: Nfa, b: Nfa): Nfa {
    Nfa(a.Q + b.Q, a.S + b.S, AddEdges(a.d + b.d, a.F, Eps, b.q0), a.q0, b.F)
  }

  /** `update_concat(other)`: fails with "states overlap" when the state sets
      meet. */
  function Concat(a: Nfa, b: Nfa): (r: Result<Nfa>)
    ensures r.Err? <==> a.Q * b.Q != {}
    ensures r.Err? ==> r.error == StatesOverlap
    ensures r.Ok? ==> r.value.Q == a.Q + b.Q && r.value.S == a.S + b.S
    ensures r.Ok? ==> r.value.q0 == a.q0 && r.value.F == b.F
  {
    if a.Q * b.Q != {} then Err(StatesOverlap) else Ok(ConcatRaw(a, b))
  }

  lemma ConcatValid(a: Nfa, b: Nfa)
    requires Valid(a) && Valid(b) && a.Q !! b.Q
    ensures Valid(ConcatRaw(a, b))
  {
    var c := ConcatRaw(a, b);
    forall key | key in c.d
      ensures key.0 in c.Q && (key.1.Sym? ==> key.1.c in c.S) && c.d[key] <= c.Q
    {
      GetDisjoint(a, b, key.0, key.1);
    }
  }

  /** In the concatenation a state of the first operand keeps its edges and,
      if accepting, gains an `Eps` edge to the second operand's start; a state
      of the second operand keeps exactly its edges. */
  lemma ConcatDeltaAt(a: Nfa, b: Nfa, p: nat, l: Label)
    requires Valid(a) && Valid(b) && a.Q !! b.Q
    ensures p !in b.Q ==>
      Delta(ConcatRaw(a, b), p, l) == Delta(a, p, l) + (if l == Eps && p in a.F then {b.q0} else {})
    ensures p in b.Q ==> Delta(ConcatRaw(a, b), p, l) == Delta(b, p, l)
  {
    GetDisjoint(a, b, p, l);
  }

  lemma ConcatDelta(a: Nfa, b: Nfa)
    requires Valid(a) && Valid(b) && a.Q !! b.Q
    ensures forall p, l :: p in a.Q ==>
      Delta(ConcatRaw(a, b), p, l) == Delta(a, p, l) + (if l == Eps && p in a.F then {b.q0} else {})
    ensures forall p, l :: p in b.Q ==> Delta(ConcatRaw(a, b), p, l) == Delta(b, p, l)
  {
    forall p, l
      ensures p in a.Q ==>
        Delta(ConcatRaw(a, b), p, l) == Delta(a, p, l) + (if l == Eps && p in a.F then {b.q0} else {})
      ensures p in b.Q ==> Delta(ConcatRaw(a, b), p, l) == Delta(b, p, l)
    {
      ConcatDeltaAt(a, b, p, l);
    }
  }

  /** The automaton of `update_star()` with fresh start `q0`: the new start is
      accepting and has an `Eps` edge to the old start, and so has every old
      accepting state. */
  function Star(a: Nfa, q0: nat): (r: Nfa)
    requires q0 !in a.Q
    ensures r.Q == a.Q + {q0} && r.S == a.S && r.q0 == q0 && r.F == a.F + {q0}
  {
    Nfa(a.Q + {q0}, a.S, AddEdges(a.d, a.F + {q0}, Eps, a.q0), q0, a.F + {q0})
  }

  lemma StarValid(a: Nfa, q0: nat)
    requires Valid(a) && q0 !in a.Q
    ensures Valid(Star(a, q0))
  {
  }

  /** In the starred automaton an old state keeps its edges and, if
      accepting, gains an `Eps` edge back to the old start; the fresh start
      has only its `Eps` edge to the old start. */
  lemma StarDeltaAt(a: Nfa, q0: nat, p: nat, l: Label)
    requires Valid(a) && q0 !in a.Q
    ensures p != q0 ==>
      Delta(Star(a, q0), p, l) == Delta(a, p, l) + (if l == Eps && p in a.F then {a.q0} else {})
    ensures Delta(Star(a, q0), q0, l) == (if l == Eps then {a.q0} else {})
  {
    assert (q0, l) !in a.d;
  }

  lemma StarDelta(a: Nfa, q0: nat)
    requires Valid(a) && q0 !in a.Q
    ensures forall p, l :: p in a.Q ==>
      Delta(Star(a, q0), p, l) == Delta(a, p, l) + (if l == Eps && p in a.F then {a.q0} else {})
    ensures forall l :: Delta(Star(a, q0), q0, l) == (if l == Eps then {a.q0} else {})
  {
    forall p, l
      ensures p in a.Q ==>
        Delta(Star(a, q0), p, l) == Delta(a, p, l) + (if l == Eps && p in a.F then {a.q0} else {})
      ensures Delta(Star(a, q0), q0, l) == (if l == Eps then {a.q0} else {})
    {
      StarDeltaAt(a, q0, p, l);
    }
  }

  /** One round of the loop of `update_union`: `b`'s states, symbols, table and
      accepting states join `acc`, and `acc`'s start gains an `Eps` edge to
      `b`'s start. */
  function UnionStep(acc: Nfa, b: Nfa): Nfa {
    Nfa(acc.Q + b.Q, acc.S + b.S, AddEdges(acc.d + b.d, {acc.q0}, Eps, b.q0), acc.q0, acc.F + b.F)
  }

  lemma UnionStepValid(acc: Nfa, b: Nfa)
    requires Valid(acc) && Valid(b) && acc.Q !! b.Q
    ensures Valid(UnionStep(acc, b))
  {
    var c := UnionStep(acc, b);
    forall key | key in c.d
      ensures key.0 in c.Q && (key.1.Sym? ==> key.1.c in c.S) && c.d[key] <= c.Q
    {
      GetDisjoint(acc, b, key.0, key.1);
    }
  }

  /** In one union round a state of `acc` keeps its edges and the start gains
      an `Eps` edge to `b`'s start; a state of `b` keeps exactly its edges. */
  lemma UnionStepDeltaAt(acc: Nfa, b: Nfa, p: nat, l: Label)
    requires Valid(acc) && Valid(b) && acc.Q !! b.Q
    ensures p !in b.Q ==>
      Delta(UnionStep(acc, b), p, l) == Delta(acc, p, l) + (if l == Eps && p == acc.q0 then {b.q0} else {})
    ensures p in b.Q ==> Delta(UnionStep(acc, b), p, l) == Delta(b, p, l)
  {
    GetDisjoint(acc, b, p, l);
  }

  lemma UnionStepDelta(acc: Nfa, b: Nfa)
    requires Valid(acc) && Valid(b) && acc.Q !! b.Q
    ensures forall p, l :: p in acc.Q ==>
      Delta(UnionStep(acc, b), p, l) == Delta(acc, p, l) + (if l == Eps && p == acc.q0 then {b.q0} else {})
    ensures forall p, l :: p in b.Q ==> Delta(UnionStep(acc, b), p, l) == Delta(b, p, l)
  {
    forall p, l
      ensures p in acc.Q ==>
        Delta(UnionStep(acc, b), p, l) == Delta(acc, p, l) + (if l == Eps && p == acc.q0 then {b.q0} else {})
      ensures p in b.Q ==> Delta(UnionStep(acc, b), p, l) == Delta(b, p, l)
    {
      UnionStepDeltaAt(acc, b, p, l);
    }
  }

  /** The disjointness `update_union` and `update_concat` check, operand by
      operand, against the states accumulated so far. */
  predicate Separate(x: set<nat>, ns: seq<Nfa>)
    decreases |ns|
  {
    ns == [] || (x * ns[0].Q == {} && Separate(x + ns[0].Q, ns[1..]))
  }

  /** The handles of all automata of `ns`. */
  function States(ns: seq<Nfa>): set<nat>
    decreases |ns|
  {
    if ns == [] then {} else ns[0].Q + States(ns[1..])
  }

  /** The symbols of all automata of `ns`. */
  function Symbols(ns: seq<Nfa>): set<char>
    decreases |ns|
  {
    if ns == [] then {} else ns[0].S + Symbols(ns[1..])
  }

  /** The loop of `update_union` over `others`. */
  function UnionFold(acc: Nfa, others: seq<Nfa>): (r: Result<Nfa>)
    ensures r.Ok? <==> Separate(acc.Q, others)
    ensures r.Err? ==> r.error == StatesOverlap
    ensures r.Ok? ==> r.value.q0 == acc.q0
    ensures r.Ok? ==> r.value.Q == acc.Q + States(others) && r.value.S == acc.S + Symbols(others)
    decreases |others|
  {
    if others == [] then Ok(acc)
    else if acc.Q * others[0].Q != {} then Err(StatesOverlap)
    else UnionFold(UnionStep(acc, others[0]), others[1..])
  }

  /** `update_union(*others)` with fresh start `q0`: no operands leave the
      automaton unchanged; otherwise a fresh start gets `Eps` edges to the old
      start and to each operand's start. */
  function UnionAll(n: Nfa, others: seq<Nfa>, q0: nat): (r: Result<Nfa>)
    requires q0 !in n.Q
    ensures others == [] ==> r == Ok(n)
    ensures r.Ok? <==> (others == [] || Separate(n.Q + {q0}, others))
    ensures r.Err? ==> r.error == StatesOverlap
    ensures r.Ok? && others != [] ==> r.value.Q == n.Q + {q0} + States(others)
    ensures r.Ok? ==> r.value.S == n.S + Symbols(others)
  {
    if others == [] then Ok(n)
    else
      assert UnionStep(Empty(q0), n).Q == n.Q + {q0};
      UnionFold(UnionStep(Empty(q0), n), others)
  }

  /** The loop of `update_concat` over `others`. */
  function ConcatAll(n: Nfa, others: seq<Nfa>): (r: Result<Nfa>)
    ensures r.Ok? <==> Separate(n.Q, others)
    ensures r.Err? ==> r.error == StatesOverlap
    ensures r.Ok? ==> r.value.q0 == n.q0
    ensures r.Ok? ==> r.value.Q == n.Q + States(others) && r.value.S == n.S + Symbols(others)
    decreases |others|
  {
    if others == [] then Ok(n)
    else if n.Q * others[0].Q != {} then Err(StatesOverlap)
    else ConcatAll(ConcatRaw(n, others[0]), others[1..])
  }
}
