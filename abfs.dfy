/** The alternative parallel breadth-first search (abfs): the shared
    frontier S[0..T[num_threads]) is handed out to the threads, each thread
    then searches k levels on its own, keeping what it discovers in its
    private buffers (swapped after every level), and only the last level's
    discoveries are merged back into S. */
module AlternativeBfs {
  import opened Graphs
  import opened Search
  import opened Discovery
  import opened FrontierMerge

  /** k: the number of levels a thread searches between two merges. */
  const Rounds: nat := 2

  /** Lines 58-62: the thread copies its share of the shared frontier (with
      a team of one, all of it) into its buffer local_S. */
  method Distribute(S: array<int>, cnt: int, localS: array<int>) returns (numR: int)
    requires 0 <= cnt <= S.Length && cnt <= localS.Length && S != localS
    modifies localS
    ensures numR == cnt && localS[..numR] == S[..cnt]
    ensures forall i :: numR <= i < localS.Length ==> localS[i] == old(localS[i])
  {
    numR := 0;
    for i := 0 to cnt
      invariant numR == i
      invariant forall k :: 0 <= k < i ==> localS[k] == S[k]
      invariant forall k :: i <= k < localS.Length ==> localS[k] == old(localS[k])
    {
      localS[numR] := S[i];
      numR := numR + 1;
    }
  }

  /** Lines 66-86: Rounds discovery rounds on the thread's own buffers.
      Each round expands front[0..numR) into back, the two buffers are
      swapped (lines 80-82), and the count found is kept for the next round
      and published in T[thread_id] (lines 83-85). Afterwards front holds
      the frontier Rounds levels further down, and every vertex visited
      before keeps its parent and distance. */
  method LocalLevels(g: Graph, p: array<int>, dist: array<int>, T: array<int>,
                     localS: array<int>, localT: array<int>, numR0: int, ghost r: int)
    returns (front: array<int>, back: array<int>, numR: int)
    requires g.Valid() && g.n >= 1
    requires p.Length > g.n && dist.Length > g.n && T.Length > NumThreads
    requires localS.Length == g.n && localT.Length == g.n
    requires p != dist && p != T && dist != T
    requires localS != p && localS != dist && localS != T
    requires localT != p && localT != dist && localT != T && localS != localT
    requires 0 <= numR0 <= g.n
    requires Tree(g, p[..], dist[..]) && Level(g, dist[..], r, localS[..numR0]) && Closed(g, dist[..], r)
    modifies p, dist, T, localS, localT
    ensures (front == localS && back == localT) || (front == localT && back == localS)
    ensures 0 <= numR <= g.n && T[ThreadId] == numR
    ensures forall i :: 0 <= i < T.Length && i != ThreadId ==> T[i] == old(T[i])
    ensures Tree(g, p[..], dist[..]) && Level(g, dist[..], r + Rounds, front[..numR]) && Closed(g, dist[..], r + Rounds)
    ensures |VisitedSet(old(p[..]), g.n)| <= |VisitedSet(p[..], g.n)| <= g.n
    ensures |VisitedSet(p[..], g.n)| == |VisitedSet(old(p[..]), g.n)| ==> numR == 0
    ensures KeepsVisited(g, old(p[..]), old(dist[..]), p[..], dist[..])
  {
    ghost var V0 := |VisitedSet(p[..], g.n)|;
    ghost var P0, D0 := p[..], dist[..];
    VisitedBound(p[..], g.n);
    front, back, numR := localS, localT, numR0;
    for k := 0 to Rounds
      invariant (front == localS && back == localT) || (front == localT && back == localS)
      invariant 0 <= numR <= g.n
      invariant Tree(g, p[..], dist[..]) && Level(g, dist[..], r + k, front[..numR]) && Closed(g, dist[..], r + k)
      invariant V0 <= |VisitedSet(p[..], g.n)| <= g.n
      invariant forall i :: 0 <= i < T.Length && i != ThreadId ==> T[i] == old(T[i])
      invariant k > 0 ==> T[ThreadId] == numR && (|VisitedSet(p[..], g.n)| == V0 ==> numR == 0)
      invariant KeepsVisited(g, P0, D0, p[..], dist[..])
    {
      var numW := Expand(g, p, dist, front, numR, back, r + k);
      front, back := back, front;
      numR := numW;
      T[ThreadId] := numW;
    }
  }

  /** One iteration of the outer loop (lines 55-104): distribute the
      frontier of level r, search Rounds levels on the thread's own
      buffers, and merge the last level found back into S (lines 90-103).
      S then holds the frontier of level r + Rounds; vertices visited before
      keep their parents and distances. The buffers come back
      swapped or not, as the pointer swaps left them. */
  method SearchAhead(g: Graph, p: array<int>, dist: array<int>, S: array<int>, T: array<int>,
                     localS: array<int>, localT: array<int>, ghost r: int)
    returns (front: array<int>, back: array<int>)
    requires g.Valid() && g.n >= 1
    requires p.Length > g.n && dist.Length > g.n && S.Length >= g.n && T.Length > NumThreads
    requires localS.Length == g.n && localT.Length == g.n
    requires p != dist && p != S && p != T && dist != S && dist != T && S != T
    requires localS != p && localS != dist && localS != S && localS != T
    requires localT != p && localT != dist && localT != S && localT != T && localS != localT
    requires 0 <= T[NumThreads] <= g.n
    requires Tree(g, p[..], dist[..]) && Level(g, dist[..], r, S[..T[NumThreads]]) && Closed(g, dist[..], r)
    modifies p, dist, S, T, localS, localT
    ensures (front == localS && back == localT) || (front == localT && back == localS)
    ensures 0 <= T[NumThreads] <= g.n
    ensures Tree(g, p[..], dist[..]) && Level(g, dist[..], r + Rounds, S[..T[NumThreads]])
    ensures Closed(g, dist[..], r + Rounds)
    ensures |VisitedSet(old(p[..]), g.n)| <= |VisitedSet(p[..], g.n)| <= g.n
    ensures |VisitedSet(p[..], g.n)| == |VisitedSet(old(p[..]), g.n)| ==> T[NumThreads] == 0
    ensures KeepsVisited(g, old(p[..]), old(dist[..]), p[..], dist[..])
  {
    var numR := Distribute(S, T[NumThreads], localS);
    front, back, numR := LocalLevels(g, p, dist, T, localS, localT, numR, r);
    MergeOwn(S, T, front, T[ThreadId]);
  }

  /** The whole kernel, run by a team of one. When the merged frontier
      count T[num_threads] reaches 0, exactly the vertices reachable from
      vertex 1 are visited, each with its shortest-walk distance and a
      parent one level closer to the root. */
  method Abfs(g: Graph, p: array<int>, dist: array<int>, S: array<int>, T: array<int>)
    requires g.Valid() && g.n >= 1
    requires p.Length > g.n && dist.Length > g.n && S.Length >= g.n && T.Length > NumThreads
    requires p != dist && p != S && p != T && dist != S && dist != T && S != T
    modifies p, dist, S, T
    ensures ShortestPathTree(g, p[..], dist[..])
    ensures T[NumThreads] == 0
  {
    InitSearch(g, p, dist, S, T, NumThreads);
    VisitedBound(p[..], g.n);
    var localS := new int[g.n];
    var localT := new int[g.n];
    ghost var level := 0;
    while T[NumThreads] != 0
      invariant fresh(localS) && fresh(localT) && localS != localT
      invariant localS.Length == g.n && localT.Length == g.n
      invariant 0 <= T[NumThreads] <= g.n
      invariant Tree(g, p[..], dist[..]) && Level(g, dist[..], level, S[..T[NumThreads]]) && Closed(g, dist[..], level)
      invariant |VisitedSet(p[..], g.n)| <= g.n
      decreases g.n - |VisitedSet(p[..], g.n)|, T[NumThreads]
    {
      localS, localT := SearchAhead(g, p, dist, S, T, localS, localT, level);
      level := level + Rounds;
    }
    SearchComplete(g, p[..], dist[..], level);
  }
}
