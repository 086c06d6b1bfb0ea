/** Two places where pggc.c indexes its scratch array local_c outside the
    memory it owns. Each is stated here for the code as written; the model
    in GreedyColouring uses the corrected form. */
module ColouringFindings {
  import opened Graphs
  import opened GreedyColouring

  /** Lines 52-57 (and 121-126): the last slot of local_c the first-fit
      scan reads. It stops at the first free colour, or runs to slot n
      when every colour is marked. The scan reaches slot n exactly when
      colours 1..n-1 are all marked. */
  function LastSlotRead(marked: set<int>, n: int): (r: int)
    requires 1 <= n
    ensures 1 <= r <= n
    ensures r == n <==> forall x :: 1 <= x < n ==> x in marked
  {
    var c := FirstFree(marked, 1, n);
    if c == -1 then n else c
  }

  /** local_c is allocated with n slots (line 24), so slot n is past its
      end. On the graph with one vertex and no edges, colouring vertex 1
      already reads slot 1 = n. */
  lemma ScratchOverrun()
    ensures var g := Graph(1, [0, 0, 0], []);
            g.Valid() && Forbidden(g, [0, -1], 1) == {} && LastSlotRead(Forbidden(g, [0, -1], 1), g.n) == g.n
  {
    var g := Graph(1, [0, 0, 0], []);
    assert Marked(g, [0, -1], 1, 0) == {};
  }

  /** Line 118: the slots of local_c the recolouring step writes for v.
      Unlike lines 47 and 130 it does not skip uncoloured neighbours, so
      slot -1 is written exactly when some neighbour of v is uncoloured. */
  ghost function MarkedAsWritten(g: Graph, res: seq<int>, v: int): (r: set<int>)
    requires g.Valid() && g.n < |res| && 1 <= v <= g.n
    ensures Forbidden(g, res, v) <= r
    ensures -1 in r <==> exists k :: g.ver[v] <= k < g.ver[v + 1] && res[g.edges[k]] == -1
  {
    var r := set k | g.ver[v] <= k < g.ver[v + 1] :: res[g.edges[k]];
    assert forall k :: g.ver[v] <= k < g.ver[v + 1] && res[g.edges[k]] == -1 ==> res[g.edges[k]] in r;
    r
  }

  /** The path 1 - 2 - 3 is a loop-free graph in the form the kernel
      expects. */
  lemma PathValid()
    ensures var g := Graph(3, [0, 0, 1, 3, 4], [2, 1, 3, 2]);
            g.Valid() && g.Loopless()
  {
    var g := Graph(3, [0, 0, 1, 3, 4], [2, 1, 3, 2]);
    assert g.ver[1] == 0 && g.ver[2] == 1 && g.ver[3] == 3 && g.ver[4] == 4;
    assert forall v :: 1 <= v <= 4 ==> v - 1 <= g.ver[v] <= v;
    forall v, j | 1 <= v <= 3 && g.ver[v] <= j < g.ver[v + 1]
      ensures g.edges[j] != v
    {
      assert (v == 1 && j == 0) || (v == 2 && (j == 1 || j == 2)) || (v == 3 && j == 3);
    }
  }

  /** Every edge of the path 1 - 2 - 3 is listed in both directions. */
  lemma PathSymmetric()
    requires Graph(3, [0, 0, 1, 3, 4], [2, 1, 3, 2]).Valid()
    ensures Graph(3, [0, 0, 1, 3, 4], [2, 1, 3, 2]).Symmetric()
  {
    var g := Graph(3, [0, 0, 1, 3, 4], [2, 1, 3, 2]);
    forall u, j | 1 <= u <= 3 && g.ver[u] <= j < g.ver[u + 1]
      ensures g.Adjacent(g.edges[j], u)
    {
      if u == 1 {
        assert j == 0 && g.edges[1] == 1;
      } else if u == 2 && j == 1 {
        assert g.edges[0] == 2;
      } else if u == 2 {
        assert j == 2 && g.edges[3] == 2;
      } else {
        assert j == 3 && g.edges[2] == 3;
      }
    }
  }

  /** On the all-1 path, the detection rule flags vertices 1 and 2 (each
      has a neighbour above it with the same colour) but not vertex 3, whose
      only neighbour 2 was uncoloured before its turn. */
  lemma PathFlags(L: seq<int>)
    requires Graph(3, [0, 0, 1, 3, 4], [2, 1, 3, 2]).Valid()
    requires FlagsBelow(Graph(3, [0, 0, 1, 3, 4], [2, 1, 3, 2]), [0, 1, 1, 1], L, 4)
    ensures 1 in L && 2 in L && 3 !in L
  {
    var g := Graph(3, [0, 0, 1, 3, 4], [2, 1, 3, 2]);
    var R0 := [0, 1, 1, 1];
    assert g.ver[1] == 0 && g.ver[2] == 1 && g.ver[3] == 3 && g.ver[4] == 4;
    assert FlagRule(g, R0, L, 1) by { assert R0[g.edges[0]] == R0[1]; }
    assert FlagRule(g, R0, L, 2) by { assert R0[g.edges[2]] == R0[2]; }
    assert !FlagRule(g, R0, L, 3) by {
      forall k | g.ver[3] <= k < g.ver[4]
        ensures g.edges[k] < 3 && g.edges[k] in L
      {
        assert k == 3;
      }
    }
  }

  /** An increasing list of 1s and 2s holding both is [1, 2]. */
  lemma IncreasingOneTwo(L: seq<int>)
    requires forall a, b :: 0 <= a < b < |L| ==> L[a] < L[b]
    requires forall a :: 0 <= a < |L| ==> L[a] == 1 || L[a] == 2
    requires 1 in L && 2 in L
    ensures L == [1, 2]
  {
    var a :| 0 <= a < |L| && L[a] == 1;
    var b :| 0 <= b < |L| && L[b] == 2;
    assert a != b && L[0] == 1;
    assert L[1] == 2;
  }

  /** The path 1 - 2 - 3, an input the kernel accepts (loop-free, every
      edge listed in both directions), entering the repair loop with every
      vertex holding colour 1 (three threads that colour the three vertices
      at once all see uncoloured neighbours). Whatever detection leaves
      behind is forced by its rule: vertices 1 and 2 are listed and
      uncoloured, vertex 3 keeps its colour, and so recolouring vertex 1
      writes slot -1. */
  lemma RecolourOverrun(L: seq<int>, res: seq<int>)
    requires Graph(3, [0, 0, 1, 3, 4], [2, 1, 3, 2]).Valid() && |res| == 4
    requires Flagged(Graph(3, [0, 0, 1, 3, 4], [2, 1, 3, 2]), [0, 1, 1, 1], L, res)
    ensures L == [1, 2] && res == [0, -1, -1, 1]
    ensures -1 in MarkedAsWritten(Graph(3, [0, 0, 1, 3, 4], [2, 1, 3, 2]), res, 1)
    ensures var g := Graph(3, [0, 0, 1, 3, 4], [2, 1, 3, 2]);
            g.Loopless() && g.Symmetric()
  {
    PathOutcome(L, res);
    PathValid();
    PathSymmetric();
  }

  /** The parts of the detection outcome that fix it on the all-1 path:
      the listed vertices rise, lie in 1..3 and follow the rule, and
      exactly they are uncoloured. */
  lemma PathOutcome(L: seq<int>, res: seq<int>)
    requires Graph(3, [0, 0, 1, 3, 4], [2, 1, 3, 2]).Valid() && |res| == 4
    requires forall a, b :: 0 <= a < b < |L| ==> L[a] < L[b]
    requires forall a :: 0 <= a < |L| ==> 1 <= L[a] <= 3
    requires FlagsBelow(Graph(3, [0, 0, 1, 3, 4], [2, 1, 3, 2]), [0, 1, 1, 1], L, 4)
    requires forall x :: 0 <= x < |res| ==> res[x] == (if x in L then -1 else [0, 1, 1, 1][x])
    ensures L == [1, 2] && res == [0, -1, -1, 1]
    ensures -1 in MarkedAsWritten(Graph(3, [0, 0, 1, 3, 4], [2, 1, 3, 2]), res, 1)
  {
    var g := Graph(3, [0, 0, 1, 3, 4], [2, 1, 3, 2]);
    PathFlags(L);
    IncreasingOneTwo(L);
    assert res[0] == 0 && res[1] == -1 && res[2] == -1 && res[3] == 1;
    assert res == [0, -1, -1, 1];
    assert g.ver[1] <= 0 < g.ver[2] && res[g.edges[0]] == -1;
  }
}
