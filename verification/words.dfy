/** Words over characters and the finite-set facts the constructions rely on. */
module Words {

  type Word = seq<char>

  /** True iff every character of `w` belongs to the alphabet `s`. */
  predicate Over(w: Word, s: set<char>) {
    forall i :: 0 <= i < |w| ==> w[i] in s
  }

  /** The empty word is the only word over the empty alphabet. */
  lemma OverNothing(w: Word)
    ensures Over(w, {}) <==> w == []
  {
    if w != [] {
      var none: set<char> := {};
      assert w[0] !in none;
      assert !Over(w, none);
    }
  }

  /** A word is its first `i` characters followed by the rest. */
  lemma TakeDrop(w: Word, i: nat)
    requires i <= |w|
    ensures w[..i] + w[i..] == w
  {
  }

  /** The concatenation of a sequence of words. */
  function Flatten(ws: seq<Word>): Word {
    if ws == [] then [] else ws[0] + Flatten(ws[1..])
  }

  lemma {:induction false} FlattenAppend(ws: seq<Word>, vs: seq<Word>)
    ensures Flatten(ws + vs) == Flatten(ws) + Flatten(vs)
  {
    if ws == [] {
      assert ws + vs == vs;
    } else {
      assert (ws + vs)[1..] == ws[1..] + vs;
      FlattenAppend(ws[1..], vs);
    }
  }

  lemma AppendAssoc(a: Word, b: Word, c: Word)
    ensures (a + b) + c == a + (b + c)
  {
  }

  /** The handles `lo, lo+1, ..., hi-1`. */
  function Range(lo: nat, hi: nat): (r: set<nat>)
    ensures forall q :: q in r <==> lo <= q < hi
    decreases hi - lo
  {
    if lo >= hi then {} else {lo} + Range(lo + 1, hi)
  }

  /** An element of `s` no smaller than any other: the largest handle in use. */
  function Max(s: set<nat>): (m: nat)
    requires s != {}
    ensures m in s && forall x :: x in s ==> x <= m
  {
    MaxExists(s);
    var m :| m in s && forall x :: x in s ==> x <= m;
    m
  }

  lemma MaxExists(s: set<nat>)
    requires s != {}
    ensures exists m :: m in s && forall x :: x in s ==> x <= m
  {
    var m := MaxOf(s);
  }

  lemma {:induction false} MaxOf(s: set<nat>) returns (m: nat)
    requires s != {}
    ensures m in s && forall x :: x in s ==> x <= m
    decreases |s|
  {
    var x :| x in s;
    var rest := s - {x};
    if rest == {} {
      assert s == {x};
      m := x;
    } else {
      var r := MaxOf(rest);
      m := if x <= r then r else x;
      forall y | y in s
        ensures y <= m
      {
        if y != x {
          assert y in rest;
        }
      }
    }
  }

  lemma Disjoint(a: set<nat>, b: set<nat>)
    requires a * b == {}
    ensures a !! b
  {
    forall x | x in a
      ensures x !in b
    {
      assert x !in a * b;
    }
  }

  /** A handle above every handle of `s`, used as a freshly allocated state. */
  function Fresh(s: set<nat>): (r: nat)
    ensures r !in s && forall x :: x in s ==> x < r
  {
    if s == {} then 0 else Max(s) + 1
  }

  /** A fixed element of a non-empty set, used to define `Pow`. */
  ghost function Pick<T>(s: set<T>): T
    requires s != {}
  {
    var x :| x in s; x
  }

  /** The finite set of all subsets of `s`. */
  ghost function Pow<T>(s: set<T>): set<set<T>>
    decreases s
  {
    if s == {} then {{}}
    else
      var x := Pick(s);
      var p := Pow(s - {x});
      p + set t | t in p :: t + {x}
  }

  lemma {:induction false} InPow<T>(t: set<T>, s: set<T>)
    requires t <= s
    ensures t in Pow(s)
    decreases s
  {
    if s == {} {
      assert t == {};
    } else {
      var x := Pick(s);
      InPow(t - {x}, s - {x});
      if x in t {
        assert t == (t - {x}) + {x};
      } else {
        assert t == t - {x};
      }
    }
  }

  /** No element occurs twice in `xs`. */
  predicate Distinct<T(==)>(xs: seq<T>) {
    forall i, j :: 0 <= i < j < |xs| ==> xs[i] != xs[j]
  }

  function Elems<T>(xs: seq<T>): set<T> {
    set i | 0 <= i < |xs| :: xs[i]
  }

  lemma {:induction false} DistinctCard<T>(xs: seq<T>)
    requires Distinct(xs)
    ensures |Elems(xs)| == |xs|
  {
    if xs != [] {
      var ys := xs[..|xs| - 1];
      var z := xs[|xs| - 1];
      DistinctCard(ys);
      assert Elems(xs) == Elems(ys) + {z};
      assert z !in Elems(ys);
    }
  }

  /** A duplicate-free sequence drawn from a finite set is no longer than the set. */
  lemma DistinctBounded<T>(xs: seq<T>, u: set<T>)
    requires Distinct(xs)
    requires forall i :: 0 <= i < |xs| ==> xs[i] in u
    ensures |xs| <= |u|
  {
    DistinctCard(xs);
    assert Elems(xs) <= u;
    SubsetCard(Elems(xs), u);
  }

  /** Adding new elements of a universe shrinks what is left of it. */
  lemma Grow<T>(u: set<T>, v: set<T>, x: set<T>)
    requires x <= u && x !! v
    ensures |u - (v + x)| + |x| == |u - v|
  {
    assert u - v == (u - (v + x)) + x;
    assert (u - (v + x)) !! x;
  }

  /** One round of a worklist exploration inside the universe `u`: expanding
      `q` removes it from the worklist and adds the new elements `x` to both
      the visited set and the worklist. Either fewer elements of the universe
      remain unvisited, or as many remain and the worklist is shorter. */
  lemma WorklistProgress<T>(u: set<T>, vis: set<T>, todo: set<T>, q: T, x: set<T>)
    requires q in todo && todo <= vis && x <= u && x !! vis
    ensures || |u - (vis + x)| < |u - vis|
            || (|u - (vis + x)| == |u - vis| && |(todo - {q}) + x| < |todo|)
  {
    Grow(u, vis, x);
    if x == {} {
      assert (todo - {q}) + x == todo - {q};
    }
  }

  lemma SubsetCard<T>(a: set<T>, b: set<T>)
    requires a <= b
    ensures |a| <= |b|
  {
    assert b == a + (b - a);
  }
}
