/** The level-synchronous parallel breadth-first search (pbfs): every
    round the team expands the shared frontier S[0..T[num_threads]) into
    thread-local buffers, and the buffers are merged back into S at
    prefix-sum offsets to form the next frontier. */
module ParallelBfs {
  import opened Graphs
  import opened Search
  import opened Discovery
  import opened FrontierMerge

  /** One iteration of the outer loop (lines 46-86): the team expands the
      frontier of level r held in S[0..T[num_threads]) into its local
      buffer, publishes the count (line 61) and merges the buffer back into
      S (lines 66-80), so that S[0..T[num_threads]) holds the frontier of
      level r + 1. A vertex visited before the round keeps its parent and
      distance. The counter reset of line 82 is implicit: every round
      starts its buffer at 0. */
  method Round(g: Graph, p: array<int>, dist: array<int>, S: array<int>, T: array<int>, localS: array<int>,
               ghost r: int)
    requires g.Valid() && g.n >= 1
    requires p.Length > g.n && dist.Length > g.n && S.Length >= g.n && T.Length > NumThreads && localS.Length == g.n
    requires p != dist && p != S && p != T && dist != S && dist != T && S != T
    requires localS != p && localS != dist && localS != S && localS != T
    requires 0 <= T[NumThreads] <= g.n
    requires Tree(g, p[..], dist[..]) && Level(g, dist[..], r, S[..T[NumThreads]]) && Closed(g, dist[..], r)
    modifies p, dist, S, T, localS
    ensures 0 <= T[NumThreads] <= g.n
    ensures Tree(g, p[..], dist[..]) && Level(g, dist[..], r + 1, S[..T[NumThreads]]) && Closed(g, dist[..], r + 1)
    ensures |VisitedSet(p[..], g.n)| == |VisitedSet(old(p[..]), g.n)| + T[NumThreads] <= g.n
    ensures KeepsVisited(g, old(p[..]), old(dist[..]), p[..], dist[..])
  {
    var localNumW := Expand(g, p, dist, S, T[NumThreads], localS, r);
    T[ThreadId] := localNumW;
    MergeOwn(S, T, localS, T[ThreadId]);
  }

  /** The whole kernel, run by a team of one. When the frontier count
      T[num_threads] reaches 0, exactly the vertices reachable from vertex
      1 are visited, each with its shortest-walk distance and a parent one
      level closer to the root. */
  method Pbfs(g: Graph, p: array<int>, dist: array<int>, S: array<int>, T: array<int>)
    requires g.Valid() && g.n >= 1
    requires p.Length > g.n && dist.Length > g.n && S.Length >= g.n && T.Length > NumThreads
    requires p != dist && p != S && p != T && dist != S && dist != T && S != T
    modifies p, dist, S, T
    ensures ShortestPathTree(g, p[..], dist[..])
    ensures T[NumThreads] == 0
  {
    InitSearch(g, p, dist, S, T, NumThreads);
    VisitedBound(p[..], g.n);
    var localS := new int[g.n];
    ghost var level := 0;
    while T[NumThreads] != 0
      invariant 0 <= T[NumThreads] <= g.n
      invariant Tree(g, p[..], dist[..]) && Level(g, dist[..], level, S[..T[NumThreads]]) && Closed(g, dist[..], level)
      invariant |VisitedSet(p[..], g.n)| <= g.n
      decreases g.n - |VisitedSet(p[..], g.n)|, T[NumThreads]
    {
      Round(g, p, dist, S, T, localS, level);
      level := level + 1;
    }
    SearchComplete(g, p[..], dist[..], level);
  }
}
