/** The static adjacency structure shared by the three kernels, and the
    counting facts about finite sets of vertex ids and colours that their
    capacity and colour bounds rest on. */
module Graphs {

  /** A graph in compressed-sparse-row form. Vertices are 1..n; the
      neighbours of v are edges[ver[v] .. ver[v+1]). Index 0 of `ver` is
      never read, and `ver[n+1]` closes the range of vertex n, so `ver`
      holds n + 2 entries. */
  datatype Graph = Graph(n: nat, ver: seq<int>, edges: seq<int>) {

    /** Every neighbour range lies inside `edges` (`ver` is non-decreasing
        on 1..n+1 and stays within the bounds of `edges`) and every entry of
        `edges` is a vertex. */
    predicate Valid() {
      |ver| == n + 2 &&
      (forall v :: 1 <= v <= n + 1 ==> 0 <= ver[v] <= |edges|) &&
      (forall v, w :: 1 <= v <= w <= n + 1 ==> ver[v] <= ver[w]) &&
      (forall j :: 0 <= j < |edges| ==> 1 <= edges[j] <= n)
    }

    /** No vertex lists itself as a neighbour. */
    predicate Loopless()
      requires Valid()
    {
      forall v, j :: 1 <= v <= n && ver[v] <= j < ver[v + 1] ==> edges[j] != v
    }

    /** w is listed among the neighbours of u. */
    predicate Adjacent(u: int, w: int)
      requires Valid() && 1 <= u <= n
    {
      exists j :: ver[u] <= j < ver[u + 1] && edges[j] == w
    }

    /** Every edge is listed in both directions. */
    predicate Symmetric()
      requires Valid()
    {
      forall u, j :: 1 <= u <= n && ver[u] <= j < ver[u + 1] ==> Adjacent(edges[j], u)
    }

    /** The length of the neighbour range of v (parallel edges counted). */
    function Degree(v: int): nat
      requires Valid() && 1 <= v <= n
    {
      ver[v + 1] - ver[v]
    }
  }
}

module Counting {

  lemma SubsetCard(a: set<int>, b: set<int>)
    requires a <= b
    ensures |a| <= |b|
  {
    assert b == a + (b - a);
  }

  /** A set of ids drawn from lo..hi-1 has at most hi - lo members. */
  lemma {:induction false} BoundedSetCard(a: set<int>, lo: int, hi: int)
    requires lo <= hi
    requires forall x :: x in a ==> lo <= x < hi
    ensures |a| <= hi - lo
    decreases hi - lo
  {
    if lo < hi {
      BoundedSetCard(a - {hi - 1}, lo, hi - 1);
    } else {
      assert a == {};
    }
  }

  /** A set that holds every id of lo..hi-1 has at least hi - lo members. */
  lemma {:induction false} CoveringSetCard(a: set<int>, lo: int, hi: int)
    requires lo <= hi
    requires forall x :: lo <= x < hi ==> x in a
    ensures |a| >= hi - lo
    decreases hi - lo
  {
    if lo < hi {
      CoveringSetCard(a - {hi - 1}, lo, hi - 1);
    }
  }

  /** The distinct values of a sequence. */
  function Values(s: seq<int>): set<int> {
    set x | x in s
  }

  /** A sequence holds at most as many distinct values as it has entries. */
  lemma {:induction false} ValuesCard(s: seq<int>)
    ensures |Values(s)| <= |s|
  {
    if s != [] {
      ValuesCard(s[1..]);
      assert Values(s) == Values(s[1..]) + {s[0]};
    } else {
      assert Values(s) == {};
    }
  }
}
