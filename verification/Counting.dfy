/** Cardinality facts about injective sequences of indices. */
module Counting {

  ghost predicate Distinct(s: seq<nat>) {
    forall i, j :: 0 <= i < j < |s| ==> s[i] != s[j]
  }

  ghost function Elems(s: seq<nat>): set<nat> {
    set x | x in s
  }

  ghost function Upto(m: nat): (r: set<nat>)
    ensures forall x: nat :: x in r <==> x < m
  {
    if m == 0 then {} else Upto(m - 1) + {m - 1}
  }

  lemma {:induction false} UptoSize(m: nat)
    ensures |Upto(m)| == m
  {
    if m > 0 {
      UptoSize(m - 1);
    }
  }

  lemma {:induction false} DistinctSize(s: seq<nat>)
    requires Distinct(s)
    ensures |Elems(s)| == |s|
  {
    if |s| > 0 {
      var t := s[..|s| - 1];
      DistinctSize(t);
      assert Elems(s) == Elems(t) + {s[|s| - 1]};
    }
  }

  lemma SubsetSize(a: set<nat>, b: set<nat>)
    requires a <= b
    ensures |a| <= |b|
  {
    assert b == a + (b - a);
  }

  /** Distinct indices below m are at most m. */
  lemma Pigeonhole(s: seq<nat>, m: nat)
    requires Distinct(s)
    requires forall i :: 0 <= i < |s| ==> s[i] < m
    ensures |s| <= m
  {
    DistinctSize(s);
    UptoSize(m);
    SubsetSize(Elems(s), Upto(m));
  }

  ghost function Image(a: set<nat>, f: map<nat, nat>): set<nat>
    requires a <= f.Keys
  {
    set x | x in a :: f[x]
  }

  /** The image of a set under a map injective on it has the same size. */
  lemma {:induction false} ImageSize(a: set<nat>, f: map<nat, nat>)
    requires a <= f.Keys
    requires forall x, y :: x in a && y in a && x != y ==> f[x] != f[y]
    ensures |Image(a, f)| == |a|
    decreases a
  {
    if a != {} {
      var x :| x in a;
      ImageSize(a - {x}, f);
      assert Image(a, f) == Image(a - {x}, f) + {f[x]};
    }
  }
}
