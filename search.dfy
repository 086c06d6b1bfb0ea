/** What the two breadth-first searches share: the walk-based meaning of a
    search result, the invariants of a level-synchronous search, the
    initialisation, and the discovery round that expands one frontier into
    the next. Vertex 1 is the root. */
module Search {
  import opened Graphs
  import Counting

  /** There is a walk of exactly k edges from the root to w. */
  ghost predicate ReachIn(g: Graph, w: int, k: nat)
    requires g.Valid()
    decreases k
  {
    if k == 0 then w == 1
    else exists u :: 1 <= u <= g.n && ReachIn(g, u, k - 1) && g.Adjacent(u, w)
  }

  ghost predicate Reachable(g: Graph, w: int)
    requires g.Valid()
  {
    exists k: nat :: ReachIn(g, w, k)
  }

  /** k is the length of a shortest walk from the root to w. */
  ghost predicate IsDistance(g: Graph, w: int, k: int)
    requires g.Valid()
  {
    k >= 0 && ReachIn(g, w, k) && forall k': nat :: k' < k ==> !ReachIn(g, w, k')
  }

  /** The parent and distance arrays (as sequences indexed by vertex) form
      a search tree rooted at 1: the root is its own parent at distance 0,
      a vertex is unvisited (-1) in both arrays or in neither, and every
      other visited vertex hangs off a visited neighbour one level closer
      to the root. */
  ghost predicate Tree(g: Graph, p: seq<int>, d: seq<int>)
    requires g.Valid() && 1 <= g.n < |p| && g.n < |d|
  {
    p[1] == 1 && d[1] == 0 &&
    (forall w :: 1 <= w <= g.n ==> (p[w] == -1 <==> d[w] == -1)) &&
    (forall w :: 1 <= w <= g.n && p[w] != -1 ==> d[w] >= 0) &&
    (forall w {:trigger HangsOffParent(g, p, d, w)} :: 2 <= w <= g.n && p[w] != -1 ==> HangsOffParent(g, p, d, w))
  }

  /** The parent of w is a visited vertex that lists w as a neighbour and
      lies one level closer to the root. */
  ghost predicate HangsOffParent(g: Graph, p: seq<int>, d: seq<int>, w: int)
    requires g.Valid() && g.n < |p| && g.n < |d| && 1 <= w <= g.n
  {
    1 <= p[w] <= g.n && p[p[w]] != -1 && g.Adjacent(p[w], w) && d[w] == d[p[w]] + 1
  }

  /** Every vertex visited in the earlier state (p0, d0) still has the
      parent and distance it had then: a visited mark never reverts. */
  ghost predicate KeepsVisited(g: Graph, p0: seq<int>, d0: seq<int>, p: seq<int>, d: seq<int>)
    requires g.n < |p0| && g.n < |d0| && g.n < |p| && g.n < |d|
  {
    forall w :: 1 <= w <= g.n && p0[w] != -1 ==> p[w] == p0[w] && d[w] == d0[w]
  }

  /** F is the frontier of level r: it lists, once each, exactly the
      vertices at distance r, and no vertex has been placed deeper. */
  ghost predicate Level(g: Graph, d: seq<int>, r: int, F: seq<int>)
    requires g.Valid() && g.n < |d|
  {
    (forall k :: 0 <= k < |F| ==> 1 <= F[k] <= g.n && d[F[k]] == r) &&
    (forall k, l :: 0 <= k < l < |F| ==> F[k] != F[l]) &&
    (forall w :: 1 <= w <= g.n && d[w] == r ==> w in F) &&
    (forall w :: 1 <= w <= g.n && d[w] != -1 ==> d[w] <= r)
  }

  /** Every vertex above level r has all its neighbours visited, none of
      them more than one level deeper. */
  ghost predicate Closed(g: Graph, d: seq<int>, r: int)
    requires g.Valid() && g.n < |d|
  {
    forall u {:trigger NeighboursSettled(g, d, u)} :: 1 <= u <= g.n && 0 <= d[u] < r ==> NeighboursSettled(g, d, u)
  }

  /** Every neighbour of u is visited, at most one level below u. */
  ghost predicate NeighboursSettled(g: Graph, d: seq<int>, u: int)
    requires g.Valid() && g.n < |d| && 1 <= u <= g.n
  {
    forall j :: g.ver[u] <= j < g.ver[u + 1] ==> 0 <= d[g.edges[j]] <= d[u] + 1
  }

  /** The vertices whose parent entry is set. */
  ghost function VisitedSet(p: seq<int>, n: nat): set<int>
    requires n < |p|
  {
    set w | 1 <= w <= n && p[w] != -1
  }

  /** The result both searches promise: a search tree in which exactly the
      vertices reachable from the root are visited, each at its
      shortest-walk distance. */
  ghost predicate ShortestPathTree(g: Graph, p: seq<int>, d: seq<int>)
    requires g.Valid() && 1 <= g.n < |p| && g.n < |d|
  {
    Tree(g, p, d) &&
    forall w :: 1 <= w <= g.n ==>
      (p[w] != -1 <==> Reachable(g, w)) && (p[w] != -1 ==> IsDistance(g, w, d[w]))
  }

  /** Following parent pointers back to the root gives a walk as long as
      the recorded distance. */
  lemma {:induction false} TreeWalk(g: Graph, p: seq<int>, d: seq<int>, w: int)
    requires g.Valid() && 1 <= g.n < |p| && g.n < |d|
    requires Tree(g, p, d)
    requires 1 <= w <= g.n && p[w] != -1
    ensures d[w] >= 0 && ReachIn(g, w, d[w])
    decreases d[w]
  {
    if w != 1 {
      assert HangsOffParent(g, p, d, w);
      TreeWalk(g, p, d, p[w]);
      assert ReachIn(g, p[w], d[w] - 1);
    }
  }

  /** Once every vertex above level r has all its neighbours visited at
      most one level deeper, and nothing lies at level r or below, any walk
      from the root ends at a visited vertex whose distance is no longer
      than the walk. */
  lemma {:induction false} WalkBound(g: Graph, d: seq<int>, r: int, w: int, k: nat)
    requires g.Valid() && 1 <= g.n < |d|
    requires d[1] == 0 && Closed(g, d, r)
    requires forall u :: 1 <= u <= g.n && d[u] != -1 ==> d[u] < r
    requires ReachIn(g, w, k)
    ensures 1 <= w <= g.n && 0 <= d[w] <= k
    decreases k
  {
    if k > 0 {
      var u :| 1 <= u <= g.n && ReachIn(g, u, k - 1) && g.Adjacent(u, w);
      WalkBound(g, d, r, u, k - 1);
      assert NeighboursSettled(g, d, u);
    }
  }

  /** A search whose frontier at level r is empty has computed shortest
      distances, and left every unreachable vertex unvisited. */
  lemma SearchComplete(g: Graph, p: seq<int>, d: seq<int>, r: int)
    requires g.Valid() && 1 <= g.n < |p| && g.n < |d|
    requires Tree(g, p, d) && Level(g, d, r, []) && Closed(g, d, r)
    ensures ShortestPathTree(g, p, d)
  {
    forall w | 1 <= w <= g.n
      ensures (p[w] != -1 <==> Reachable(g, w)) && (p[w] != -1 ==> IsDistance(g, w, d[w]))
    {
      if p[w] != -1 {
        TreeWalk(g, p, d, w);
        forall k': nat | k' < d[w] ensures !ReachIn(g, w, k') {
          if ReachIn(g, w, k') {
            WalkBound(g, d, r, w, k');
          }
        }
      } else if Reachable(g, w) {
        var k: nat :| ReachIn(g, w, k);
        WalkBound(g, d, r, w, k);
      }
    }
  }

  /** Hanging an unvisited neighbour w under a visited vertex v keeps the
      search tree a search tree. */
  lemma TreeExtend(g: Graph, p: seq<int>, d: seq<int>, v: int, w: int)
    requires g.Valid() && 1 <= g.n < |p| && g.n < |d|
    requires Tree(g, p, d)
    requires 1 <= v <= g.n && p[v] != -1 && 1 <= w <= g.n && p[w] == -1 && g.Adjacent(v, w)
    ensures Tree(g, p[w := v], d[w := d[v] + 1])
  {
    var p', d' := p[w := v], d[w := d[v] + 1];
    forall x | 2 <= x <= g.n && p'[x] != -1
      ensures HangsOffParent(g, p', d', x)
    {
      if x != w {
        assert HangsOffParent(g, p, d, x);
        var y := p[x];
        assert y != w;
        assert p'[x] == y && p'[y] == p[y] && d'[x] == d[x] && d'[y] == d[y];
      } else {
        assert v != w;
        assert p'[w] == v && p'[v] == p[v] && d'[w] == d[v] + 1 && d'[v] == d[v];
      }
    }
  }

  /** Marking an unvisited vertex adds exactly that vertex to the visited
      set, which can never hold more than n vertices. */
  lemma VisitedAdd(p: seq<int>, n: nat, w: int, v: int)
    requires n < |p| && 1 <= w <= n && p[w] == -1 && v != -1
    ensures VisitedSet(p[w := v], n) == VisitedSet(p, n) + {w}
    ensures |VisitedSet(p[w := v], n)| == |VisitedSet(p, n)| + 1 <= n
  {
    assert VisitedSet(p[w := v], n) == VisitedSet(p, n) + {w};
    Counting.BoundedSetCard(VisitedSet(p[w := v], n), 1, n + 1);
  }

  lemma VisitedBound(p: seq<int>, n: nat)
    requires n < |p|
    ensures |VisitedSet(p, n)| <= n
  {
    Counting.BoundedSetCard(VisitedSet(p, n), 1, n + 1);
  }
}
