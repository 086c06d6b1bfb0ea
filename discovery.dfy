/** The operations the two breadth-first searches share: initialisation
    and the discovery round that expands the frontier of one level into the
    frontier of the next, proved against the search invariants. */
module Discovery {
  import opened Graphs
  import opened Search

  /** Initialisation: every vertex unvisited except the root, which is its
      own parent at distance 0 and the whole first frontier; the published
      frontier size (T[num_threads], here T[1]) is 1. */
  method InitSearch(g: Graph, p: array<int>, dist: array<int>, S: array<int>, T: array<int>, nt: nat)
    requires g.Valid() && g.n >= 1
    requires p.Length > g.n && dist.Length > g.n && S.Length >= 1 && T.Length > nt
    requires p != dist && p != S && p != T && dist != S && dist != T && S != T
    modifies p, dist, S, T
    ensures p[1] == 1 && dist[1] == 0 && S[0] == 1 && T[nt] == 1
    ensures forall i :: 2 <= i <= g.n ==> p[i] == -1 && dist[i] == -1
    ensures forall i :: 0 <= i < p.Length && !(1 <= i <= g.n) ==> p[i] == old(p[i])
    ensures forall i :: 0 <= i < dist.Length && !(1 <= i <= g.n) ==> dist[i] == old(dist[i])
    ensures forall i :: 1 <= i < S.Length ==> S[i] == old(S[i])
    ensures forall i :: 0 <= i < T.Length && i != nt ==> T[i] == old(T[i])
    ensures Tree(g, p[..], dist[..]) && Level(g, dist[..], 0, S[..1]) && Closed(g, dist[..], 0)
    ensures VisitedSet(p[..], g.n) == {1}
  {
    for i := 1 to g.n + 1
      modifies p, dist
      invariant forall k :: 1 <= k < i ==> p[k] == -1 && dist[k] == -1
      invariant forall k :: 0 <= k < p.Length && !(1 <= k < i) ==> p[k] == old(p[k])
      invariant forall k :: 0 <= k < dist.Length && !(1 <= k < i) ==> dist[k] == old(dist[k])
    {
      p[i] := -1;
      dist[i] := -1;
    }
    p[1] := 1;
    dist[1] := 0;
    S[0] := 1;
    T[nt] := 1;
    assert VisitedSet(p[..], g.n) == {1};
  }

  /** The scan of v's neighbour range has handled the entries before j:
      compared with the state (P0, D0, B0) before the scan, visited
      vertices are untouched, every newly visited vertex is listed once in
      b[numW0..numW] with parent v at distance D0[v] + 1, the earlier part
      of the buffer is untouched, and every handled neighbour is visited. */
  ghost predicate ScanState(g: Graph, v: int, P0: seq<int>, D0: seq<int>, B0: seq<int>,
                            p: seq<int>, d: seq<int>, b: seq<int>, numW0: int, numW: int, j: int)
    requires g.Valid() && 1 <= v <= g.n
    requires g.n < |P0| == |p| && g.n < |D0| == |d| && |B0| == |b|
  {
    g.ver[v] <= j <= g.ver[v + 1] && 0 <= numW0 <= numW <= |b| &&
    (forall w :: 1 <= w <= g.n && P0[w] != -1 ==> p[w] == P0[w] && d[w] == D0[w]) &&
    (forall w :: 1 <= w <= g.n && P0[w] == -1 && p[w] != -1 ==> w in b[numW0..numW]) &&
    (forall k :: numW0 <= k < numW ==>
       1 <= b[k] <= g.n && P0[b[k]] == -1 && p[b[k]] == v && d[b[k]] == D0[v] + 1) &&
    (forall k, l :: numW0 <= k < l < numW ==> b[k] != b[l]) &&
    (forall k :: 0 <= k < numW0 ==> b[k] == B0[k]) &&
    (forall j' :: g.ver[v] <= j' < j ==> p[g.edges[j']] != -1)
  }

  /** Handling an already visited neighbour changes nothing. */
  lemma ScanSkip(g: Graph, v: int, P0: seq<int>, D0: seq<int>, B0: seq<int>,
                 p: seq<int>, d: seq<int>, b: seq<int>, numW0: int, numW: int, j: int)
    requires g.Valid() && 1 <= v <= g.n
    requires g.n < |P0| == |p| && g.n < |D0| == |d| && |B0| == |b|
    requires g.ver[v] <= j < g.ver[v + 1] && p[g.edges[j]] != -1
    requires ScanState(g, v, P0, D0, B0, p, d, b, numW0, numW, j)
    ensures ScanState(g, v, P0, D0, B0, p, d, b, numW0, numW, j + 1)
  {
  }

  /** Handling an unvisited neighbour w = edges[j] by discovering it keeps
      the scan state. */
  lemma ScanVisit(g: Graph, v: int, P0: seq<int>, D0: seq<int>, B0: seq<int>,
                  p: seq<int>, d: seq<int>, b: seq<int>, numW0: int, numW: int, j: int,
                  p': seq<int>, d': seq<int>, b': seq<int>, numW': int)
    requires g.Valid() && 1 <= v <= g.n
    requires g.n < |P0| == |p| && g.n < |D0| == |d| && |B0| == |b|
    requires g.ver[v] <= j < g.ver[v + 1] && p[g.edges[j]] == -1 && numW < |b|
    requires P0[v] != -1
    requires ScanState(g, v, P0, D0, B0, p, d, b, numW0, numW, j)
    requires p' == p[g.edges[j] := v] && d' == d[g.edges[j] := d[v] + 1] && b' == b[numW := g.edges[j]]
    requires numW' == numW + 1
    ensures ScanState(g, v, P0, D0, B0, p', d', b', numW0, numW', j + 1)
  {
    var w := g.edges[j];
    assert b'[numW0..numW + 1] == b[numW0..numW] + [w];
  }

  /** Lines 54-56: w gets parent v and distance dist[v] + 1 and is stored
      at dst[numW]; nothing else changes. */
  method Discover(p: array<int>, dist: array<int>, dst: array<int>, v: int, w: int, numW: int)
    requires p != dist && dst != p && dst != dist
    requires 0 <= v < dist.Length && 0 <= w < p.Length && w < dist.Length && 0 <= numW < dst.Length
    modifies p, dist, dst
    ensures p[..] == old(p[..])[w := v]
    ensures dist[..] == old(dist[..])[w := old(dist[..])[v] + 1]
    ensures dst[..] == old(dst[..])[numW := w]
  {
    p[w] := v;
    dist[w] := dist[v] + 1;
    dst[numW] := w;
  }

  /** The discovery of an unvisited neighbour edges[j] of v, seen as a
      step of the neighbour scan. */
  method VisitNeighbour(g: Graph, p: array<int>, dist: array<int>, v: int, dst: array<int>, j: int,
                        numW: int, ghost P0: seq<int>, ghost D0: seq<int>, ghost B0: seq<int>,
                        ghost numW0: int)
    returns (numW': int)
    requires g.Valid() && g.n >= 1
    requires p.Length > g.n && dist.Length > g.n && dst.Length >= g.n
    requires p != dist && dst != p && dst != dist
    requires |P0| == p.Length && |D0| == dist.Length && |B0| == dst.Length
    requires 1 <= v <= g.n && p[v] != -1 && P0[v] != -1 && g.ver[v] <= j < g.ver[v + 1]
    requires p[g.edges[j]] == -1
    requires Tree(g, p[..], dist[..])
    requires 0 <= numW < |VisitedSet(p[..], g.n)|
    requires ScanState(g, v, P0, D0, B0, p[..], dist[..], dst[..], numW0, numW, j)
    modifies p, dist, dst
    ensures Tree(g, p[..], dist[..])
    ensures numW' == numW + 1 && |VisitedSet(p[..], g.n)| == |VisitedSet(old(p[..]), g.n)| + 1 <= g.n
    ensures ScanState(g, v, P0, D0, B0, p[..], dist[..], dst[..], numW0, numW', j + 1)
  {
    var w := g.edges[j];
    assert g.Adjacent(v, w);
    ghost var p1, d1, b1 := p[..], dist[..], dst[..];
    VisitedAdd(p1, g.n, w, v);
    TreeExtend(g, p1, d1, v, w);
    ScanVisit(g, v, P0, D0, B0, p1, d1, b1, numW0, numW, j, p1[w := v], d1[w := d1[v] + 1], b1[numW := w], numW + 1);
    Discover(p, dist, dst, v, w, numW);
    numW' := numW + 1;
  }

  /** Lines 51-58 of the discovery loop for one frontier vertex v: every
      unvisited neighbour w gets parent v and distance dist[v] + 1 and is
      appended to dst[numW0..]. */
  method ExpandVertex(g: Graph, p: array<int>, dist: array<int>, v: int, dst: array<int>, numW0: int)
    returns (numW: int)
    requires g.Valid() && g.n >= 1
    requires p.Length > g.n && dist.Length > g.n && dst.Length >= g.n
    requires p != dist && dst != p && dst != dist
    requires 1 <= v <= g.n && p[v] != -1
    requires Tree(g, p[..], dist[..])
    requires 0 <= numW0 < |VisitedSet(p[..], g.n)|
    modifies p, dist, dst
    ensures Tree(g, p[..], dist[..])
    ensures numW0 <= numW < |VisitedSet(p[..], g.n)| <= g.n
    ensures |VisitedSet(p[..], g.n)| - numW == |VisitedSet(old(p[..]), g.n)| - numW0
    ensures ScanState(g, v, old(p[..]), old(dist[..]), old(dst[..]), p[..], dist[..], dst[..], numW0, numW, g.ver[v + 1])
  {
    ghost var P0, D0, B0 := p[..], dist[..], dst[..];
    ghost var V0 := |VisitedSet(P0, g.n)|;
    VisitedBound(p[..], g.n);
    numW := numW0;
    for j := g.ver[v] to g.ver[v + 1]
      invariant p[v] != -1
      invariant Tree(g, p[..], dist[..])
      invariant numW0 <= numW < |VisitedSet(p[..], g.n)| <= g.n
      invariant |VisitedSet(p[..], g.n)| - numW == V0 - numW0
      invariant ScanState(g, v, P0, D0, B0, p[..], dist[..], dst[..], numW0, numW, j)
    {
      if p[g.edges[j]] == -1 {
        numW := VisitNeighbour(g, p, dist, v, dst, j, numW, P0, D0, B0, numW0);
      } else {
        ScanSkip(g, v, P0, D0, B0, p[..], dist[..], dst[..], numW0, numW, j);
      }
    }
  }

  /** Every neighbour of u is visited. */
  ghost predicate NeighboursVisited(g: Graph, p: seq<int>, u: int)
    requires g.Valid() && g.n < |p| && 1 <= u <= g.n
  {
    forall j :: g.ver[u] <= j < g.ver[u + 1] ==> p[g.edges[j]] != -1
  }

  /** A discovery round over the frontier F has handled F[..i]: compared
      with the state (P0, D0) at the start of the round, visited vertices
      are untouched, and b[..numW] lists, once each, exactly the newly
      visited vertices, all at level r + 1; every handled frontier vertex
      has all its neighbours visited. */
  ghost predicate RoundState(g: Graph, r: int, P0: seq<int>, D0: seq<int>, F: seq<int>,
                             p: seq<int>, d: seq<int>, b: seq<int>, numW: int, i: int)
    requires g.Valid() && g.n < |P0| == |p| && g.n < |D0| == |d|
  {
    0 <= i <= |F| && 0 <= numW <= |b| &&
    (forall w :: 1 <= w <= g.n && P0[w] != -1 ==> p[w] == P0[w] && d[w] == D0[w]) &&
    (forall w :: 1 <= w <= g.n && P0[w] == -1 && p[w] != -1 ==> w in b[..numW]) &&
    (forall k :: 0 <= k < numW ==> 1 <= b[k] <= g.n && P0[b[k]] == -1 && p[b[k]] != -1 && d[b[k]] == r + 1) &&
    (forall k, l :: 0 <= k < l < numW ==> b[k] != b[l]) &&
    (forall k :: 0 <= k < i ==> 1 <= F[k] <= g.n && NeighboursVisited(g, p, F[k]))
  }

  /** After the scan of F[i], every newly visited vertex is listed in the
      buffer. */
  lemma RoundListed(g: Graph, r: int, P0: seq<int>, D0: seq<int>, F: seq<int>,
                  p1: seq<int>, d1: seq<int>, b1: seq<int>, numW1: int,
                  p2: seq<int>, d2: seq<int>, b2: seq<int>, numW2: int, i: int)
    requires g.Valid() && g.n < |P0| == |p1| == |p2| && g.n < |D0| == |d1| == |d2| && |b1| == |b2|
    requires 0 <= i < |F| && 1 <= F[i] <= g.n && P0[F[i]] != -1 && D0[F[i]] == r
    requires RoundState(g, r, P0, D0, F, p1, d1, b1, numW1, i)
    requires ScanState(g, F[i], p1, d1, b1, p2, d2, b2, numW1, numW2, g.ver[F[i] + 1])
    ensures forall w :: 1 <= w <= g.n && P0[w] == -1 && p2[w] != -1 ==> w in b2[..numW2]
  {
    forall w | 1 <= w <= g.n && P0[w] == -1 && p2[w] != -1
      ensures w in b2[..numW2]
    {
      if p1[w] != -1 {
        assert w in b1[..numW1];
        var k :| 0 <= k < numW1 && b1[k] == w;
        assert b2[..numW2][k] == w;
      } else {
        assert w in b2[numW1..numW2];
        var k :| numW1 <= k < numW2 && b2[k] == w;
        assert b2[..numW2][k] == w;
      }
    }
  }

  /** After the scan of F[i], the buffer lists distinct newly visited
      vertices of level r + 1. */
  lemma RoundEntries(g: Graph, r: int, P0: seq<int>, D0: seq<int>, F: seq<int>,
                  p1: seq<int>, d1: seq<int>, b1: seq<int>, numW1: int,
                  p2: seq<int>, d2: seq<int>, b2: seq<int>, numW2: int, i: int)
    requires g.Valid() && g.n < |P0| == |p1| == |p2| && g.n < |D0| == |d1| == |d2| && |b1| == |b2|
    requires 0 <= i < |F| && 1 <= F[i] <= g.n && P0[F[i]] != -1 && D0[F[i]] == r
    requires RoundState(g, r, P0, D0, F, p1, d1, b1, numW1, i)
    requires ScanState(g, F[i], p1, d1, b1, p2, d2, b2, numW1, numW2, g.ver[F[i] + 1])
    ensures forall k :: 0 <= k < numW2 ==>
              1 <= b2[k] <= g.n && P0[b2[k]] == -1 && p2[b2[k]] != -1 && d2[b2[k]] == r + 1
    ensures forall k, l :: 0 <= k < l < numW2 ==> b2[k] != b2[l]
  {
    var v := F[i];
    assert d1[v] == r;
    forall k | 0 <= k < numW2
      ensures 1 <= b2[k] <= g.n && P0[b2[k]] == -1 && p2[b2[k]] != -1 && d2[b2[k]] == r + 1
    {
      if k < numW1 {
        assert b2[k] == b1[k] && p1[b1[k]] != -1;
      } else {
        assert p1[b2[k]] == -1;
      }
    }
    forall k, l | 0 <= k < l < numW2
      ensures b2[k] != b2[l]
    {
      if l < numW1 {
        assert b1[k] != b1[l];
      } else if k < numW1 {
        assert p1[b1[k]] != -1 && p1[b2[l]] == -1;
      }
    }
  }

  /** Scanning the neighbours of the next frontier vertex F[i] extends the
      round by one vertex. */
  lemma RoundStep(g: Graph, r: int, P0: seq<int>, D0: seq<int>, F: seq<int>,
                  p1: seq<int>, d1: seq<int>, b1: seq<int>, numW1: int,
                  p2: seq<int>, d2: seq<int>, b2: seq<int>, numW2: int, i: int)
    requires g.Valid() && g.n < |P0| == |p1| == |p2| && g.n < |D0| == |d1| == |d2| && |b1| == |b2|
    requires 0 <= i < |F| && 1 <= F[i] <= g.n && P0[F[i]] != -1 && D0[F[i]] == r
    requires RoundState(g, r, P0, D0, F, p1, d1, b1, numW1, i)
    requires ScanState(g, F[i], p1, d1, b1, p2, d2, b2, numW1, numW2, g.ver[F[i] + 1])
    ensures RoundState(g, r, P0, D0, F, p2, d2, b2, numW2, i + 1)
  {
    RoundListed(g, r, P0, D0, F, p1, d1, b1, numW1, p2, d2, b2, numW2, i);
    RoundEntries(g, r, P0, D0, F, p1, d1, b1, numW1, p2, d2, b2, numW2, i);
    forall k | 0 <= k < i + 1
      ensures 1 <= F[k] <= g.n && NeighboursVisited(g, p2, F[k])
    {
      if k < i {
        assert NeighboursVisited(g, p1, F[k]);
      }
    }
  }

  /** A round that has handled its whole frontier leaves b[..numW] as the
      next frontier and closes level r. */
  lemma RoundDone(g: Graph, r: int, P0: seq<int>, D0: seq<int>, F: seq<int>,
                  p: seq<int>, d: seq<int>, b: seq<int>, numW: int)
    requires g.Valid() && 1 <= g.n < |P0| == |p| && g.n < |D0| == |d|
    requires Tree(g, P0, D0) && Level(g, D0, r, F) && Closed(g, D0, r)
    requires Tree(g, p, d) && RoundState(g, r, P0, D0, F, p, d, b, numW, |F|)
    ensures Level(g, d, r + 1, b[..numW]) && Closed(g, d, r + 1)
  {
    forall u | 1 <= u <= g.n && 0 <= d[u] < r + 1
      ensures NeighboursSettled(g, d, u)
    {
      assert P0[u] != -1;
      if D0[u] < r {
        assert NeighboursSettled(g, D0, u);
      } else {
        var k :| 0 <= k < |F| && F[k] == u;
        assert NeighboursVisited(g, p, u);
      }
    }
  }

  /** Lines 49-59 (and 69-79 of the alternative search): one discovery
      round. Every vertex of the frontier src[..cnt], which lists exactly
      the vertices at level r, has its unvisited neighbours discovered into
      dst[..numW]; afterwards dst[..numW] lists exactly the vertices at
      level r + 1, level r is closed, and no visited vertex has changed its
      parent or distance. */
  method Expand(g: Graph, p: array<int>, dist: array<int>, src: array<int>, cnt: int, dst: array<int>,
                ghost r: int)
    returns (numW: int)
    requires g.Valid() && g.n >= 1
    requires p.Length > g.n && dist.Length > g.n && dst.Length >= g.n && 0 <= cnt <= src.Length
    requires p != dist && p != src && p != dst && dist != src && dist != dst && src != dst
    requires Tree(g, p[..], dist[..]) && Level(g, dist[..], r, src[..cnt]) && Closed(g, dist[..], r)
    modifies p, dist, dst
    ensures 0 <= numW && |VisitedSet(p[..], g.n)| == |VisitedSet(old(p[..]), g.n)| + numW <= g.n
    ensures Tree(g, p[..], dist[..]) && Level(g, dist[..], r + 1, dst[..numW]) && Closed(g, dist[..], r + 1)
    ensures KeepsVisited(g, old(p[..]), old(dist[..]), p[..], dist[..])
  {
    ghost var P0, D0, F := p[..], dist[..], src[..cnt];
    ghost var V0 := |VisitedSet(P0, g.n)|;
    assert 1 in VisitedSet(P0, g.n);
    VisitedBound(P0, g.n);
    numW := 0;
    for i := 0 to cnt
      invariant Tree(g, p[..], dist[..])
      invariant 0 <= numW < |VisitedSet(p[..], g.n)| <= g.n
      invariant |VisitedSet(p[..], g.n)| - numW == V0
      invariant RoundState(g, r, P0, D0, F, p[..], dist[..], dst[..], numW, i)
    {
      var v := src[i];
      assert F[i] == v;
      ghost var p1, d1, b1, numW1 := p[..], dist[..], dst[..], numW;
      numW := ExpandVertex(g, p, dist, v, dst, numW);
      RoundStep(g, r, P0, D0, F, p1, d1, b1, numW1, p[..], dist[..], dst[..], numW, i);
    }
    RoundDone(g, r, P0, D0, F, p[..], dist[..], dst[..], numW);
  }
}
