/** The parallel greedy graph colouring (pggc): a first-fit colouring of
    all vertices, then a repair loop that uncolours every vertex still
    clashing with a neighbour, gathers those vertices into S with the
    prefix-sum merge, recolours them first-fit and re-checks every edge.
    Colours are 1..n; -1 marks an uncoloured vertex. The scratch array
    local_c maps a colour to the neighbour holding it, or to -1 when the
    colour is free. */
module GreedyColouring {
  import opened Graphs
  import opened FrontierMerge
  import Counting

  /** The smallest colour in c..n outside forb, or -1 when every colour of
      c..n is taken. */
  function FirstFree(forb: set<int>, c: int, n: int): (r: int)
    requires 1 <= c
    ensures r == -1 || (c <= r <= n && r !in forb)
    ensures r == -1 ==> forall x :: c <= x <= n ==> x in forb
    ensures r != -1 ==> forall x :: c <= x < r ==> x in forb
    decreases n + 1 - c
  {
    if c > n then -1
    else if c !in forb then c
    else FirstFree(forb, c + 1, n)
  }

  /** The colours of the already coloured neighbours found in
      edges[ver[v] .. hi). */
  ghost function Marked(g: Graph, res: seq<int>, v: int, hi: int): set<int>
    requires g.Valid() && g.n < |res| && 1 <= v <= g.n && g.ver[v] <= hi <= g.ver[v + 1]
  {
    set k | g.ver[v] <= k < hi && res[g.edges[k]] != -1 :: res[g.edges[k]]
  }

  /** The colours v may not take: those of its coloured neighbours. */
  ghost function Forbidden(g: Graph, res: seq<int>, v: int): set<int>
    requires g.Valid() && g.n < |res| && 1 <= v <= g.n
  {
    Marked(g, res, v, g.ver[v + 1])
  }

  /** Every vertex is uncoloured or holds a colour of 1..n no larger than
      its neighbour count plus one. */
  ghost predicate InRange(g: Graph, res: seq<int>)
    requires g.Valid() && g.n < |res|
  {
    forall x :: 1 <= x <= g.n ==> res[x] == -1 || (1 <= res[x] <= g.n && res[x] <= g.Degree(x) + 1)
  }

  /** Every vertex holds a colour. */
  ghost predicate Complete(g: Graph, res: seq<int>)
    requires g.Valid() && g.n < |res|
  {
    forall x :: 1 <= x <= g.n ==> res[x] != -1
  }

  /** No neighbour of u has u's colour. */
  ghost predicate NoClashAt(g: Graph, res: seq<int>, u: int)
    requires g.Valid() && g.n < |res| && 1 <= u <= g.n
  {
    forall k :: g.ver[u] <= k < g.ver[u + 1] ==> res[g.edges[k]] != res[u]
  }

  /** Every coloured vertex differs in colour from all its neighbours. */
  ghost predicate ProperOnColoured(g: Graph, res: seq<int>)
    requires g.Valid() && g.n < |res|
  {
    forall u {:trigger NoClashAt(g, res, u)} :: 1 <= u <= g.n && res[u] != -1 ==> NoClashAt(g, res, u)
  }

  /** No vertex shares its colour with a neighbour. */
  ghost predicate NoConflict(g: Graph, res: seq<int>)
    requires g.Valid() && g.n < |res|
  {
    forall u {:trigger NoClashAt(g, res, u)} :: 1 <= u <= g.n ==> NoClashAt(g, res, u)
  }

  /** Every slot of the scratch array is free. */
  ghost predicate Clear(c: seq<int>) {
    forall i :: 0 <= i < |c| ==> c[i] == -1
  }

  /** Scanning one more neighbour adds its colour, if it has one. */
  lemma MarkedStep(g: Graph, res: seq<int>, v: int, hi: int)
    requires g.Valid() && g.n < |res| && 1 <= v <= g.n && g.ver[v] <= hi < g.ver[v + 1]
    ensures Marked(g, res, v, hi + 1) ==
            Marked(g, res, v, hi) + (if res[g.edges[hi]] != -1 then {res[g.edges[hi]]} else {})
  {
  }

  /** A vertex with no self-loop always finds a free colour among 1..n,
      and the first free one is at most its neighbour count plus one. */
  lemma {:induction false} FreeColourExists(g: Graph, res: seq<int>, v: int)
    requires g.Valid() && g.Loopless() && g.n < |res| && 1 <= v <= g.n
    ensures 1 <= FirstFree(Forbidden(g, res, v), 1, g.n) <= g.Degree(v) + 1
  {
    var F := Forbidden(g, res, v);
    var lo := g.ver[v];
    var nb := seq(g.Degree(v), k requires 0 <= k < g.Degree(v) => res[g.edges[lo + k]]);
    var others := seq(g.n - 1, k requires 0 <= k < g.n - 1 => res[if k + 1 < v then k + 1 else k + 2]);
    forall x | x in F
      ensures x in Counting.Values(nb) && x in Counting.Values(others)
    {
      var k :| lo <= k < g.ver[v + 1] && res[g.edges[k]] != -1 && res[g.edges[k]] == x;
      assert nb[k - lo] == x;
      var w := g.edges[k];
      assert w != v;
      var i := if w < v then w - 1 else w - 2;
      assert others[i] == x;
    }
    Counting.ValuesCard(nb);
    Counting.ValuesCard(others);
    Counting.SubsetCard(F, Counting.Values(nb));
    Counting.SubsetCard(F, Counting.Values(others));
    var r := FirstFree(F, 1, g.n);
    if r == -1 {
      Counting.CoveringSetCard(F, 1, g.n + 1);
      assert false;
    }
    Counting.CoveringSetCard(F, 1, r);
  }

  /** A vertex without a self-loop that takes a colour outside its
      forbidden set clashes with none of its neighbours. */
  lemma OwnColourFree(g: Graph, res: seq<int>, v: int, c: int)
    requires g.Valid() && g.Loopless() && g.n < |res| && 1 <= v <= g.n
    requires 1 <= c && c !in Forbidden(g, res, v)
    ensures NoClashAt(g, res[v := c], v)
  {
    forall k | g.ver[v] <= k < g.ver[v + 1]
      ensures res[v := c][g.edges[k]] != c
    {
      var w := g.edges[k];
      assert w != v;
      if res[w] != -1 {
        assert res[w] in Forbidden(g, res, v);
      }
    }
  }

  /** A coloured vertex u other than v, clash-free before, stays clash-free
      when v takes a colour that u does not hold: u lists v only if v lists
      u, and then u's colour is forbidden for v. */
  lemma OtherColourFree(g: Graph, res: seq<int>, v: int, c: int, u: int)
    requires g.Valid() && g.Symmetric() && g.n < |res| && 1 <= v <= g.n
    requires c !in Forbidden(g, res, v)
    requires 1 <= u <= g.n && u != v && res[u] != -1 && NoClashAt(g, res, u)
    ensures NoClashAt(g, res[v := c], u)
  {
    var res' := res[v := c];
    forall k | g.ver[u] <= k < g.ver[u + 1]
      ensures res'[g.edges[k]] != res'[u]
    {
      var w := g.edges[k];
      if w == v {
        assert g.Adjacent(v, u);
        var k' :| g.ver[v] <= k' < g.ver[v + 1] && g.edges[k'] == u;
        assert res[g.edges[k']] in Marked(g, res, v, g.ver[v + 1]);
      } else {
        assert res'[w] == res[w] != res[u] == res'[u];
      }
    }
  }

  /** Colouring v with a colour outside its forbidden set keeps the
      coloured vertices properly coloured, as every edge is listed in both
      directions. */
  lemma ColourKeepsProper(g: Graph, res: seq<int>, v: int, c: int)
    requires g.Valid() && g.Loopless() && g.Symmetric() && g.n < |res| && 1 <= v <= g.n
    requires ProperOnColoured(g, res) && 1 <= c && c !in Forbidden(g, res, v)
    ensures ProperOnColoured(g, res[v := c])
  {
    var res' := res[v := c];
    forall u | 1 <= u <= g.n && res'[u] != -1
      ensures NoClashAt(g, res', u)
    {
      if u == v {
        OwnColourFree(g, res, v, c);
      } else {
        assert NoClashAt(g, res, u);
        OtherColourFree(g, res, v, c, u);
      }
    }
  }

  /** Giving v its first free colour keeps every colour in range and the
      coloured vertices properly coloured. */
  lemma ColourStep(g: Graph, R: seq<int>, v: int)
    requires g.Valid() && g.Loopless() && g.Symmetric() && g.n < |R| && 1 <= v <= g.n
    requires InRange(g, R) && ProperOnColoured(g, R)
    ensures InRange(g, R[v := FirstFree(Forbidden(g, R, v), 1, g.n)])
    ensures ProperOnColoured(g, R[v := FirstFree(Forbidden(g, R, v), 1, g.n)])
  {
    FreeColourExists(g, R, v);
    ColourKeepsProper(g, R, v, FirstFree(Forbidden(g, R, v), 1, g.n));
  }

  /** Lines 31-33: every slot of local_c is set free. */
  method ClearScratch(localC: array<int>)
    modifies localC
    ensures Clear(localC[..])
  {
    for i := 0 to localC.Length
      invariant forall k :: 0 <= k < i ==> localC[k] == -1
    {
      localC[i] := -1;
    }
  }

  /** Lines 45-50 (116-119 when recolouring): every colour held by a
      neighbour of v is marked in local_c with that neighbour. */
  method MarkForbidden(g: Graph, result: array<int>, localC: array<int>, v: int)
    requires g.Valid() && result.Length > g.n && localC.Length == g.n + 1 && 1 <= v <= g.n
    requires result != localC && InRange(g, result[..]) && Clear(localC[..])
    modifies localC
    ensures forall c :: 0 <= c <= g.n ==> (localC[c] != -1 <==> c in Forbidden(g, result[..], v))
  {
    for j := g.ver[v] to g.ver[v + 1]
      invariant forall c :: 0 <= c <= g.n ==> (localC[c] != -1 <==> c in Marked(g, result[..], v, j))
    {
      MarkedStep(g, result[..], v, j);
      var w := g.edges[j];
      if result[w] != -1 {
        localC[result[w]] := w;
      }
    }
  }

  /** Lines 52-57 (121-126 when recolouring): the first free slot among
      colours 1..n, or -1 when there is none. */
  method FirstFit(localC: array<int>, n: nat) returns (c: int)
    requires localC.Length == n + 1
    ensures c == -1 || (1 <= c <= n && localC[c] == -1)
    ensures c != -1 ==> forall x :: 1 <= x < c ==> localC[x] != -1
    ensures c == -1 ==> forall x :: 1 <= x <= n ==> localC[x] != -1
  {
    var j := 1;
    while j <= n && localC[j] != -1
      invariant 1 <= j <= n + 1
      invariant forall x :: 1 <= x < j ==> localC[x] != -1
    {
      j := j + 1;
    }
    c := if j <= n then j else -1;
  }

  /** Lines 59-64 (128-133 when recolouring): the slots the mark loop set
      are freed again, which leaves local_c all free. */
  method UnmarkForbidden(g: Graph, result: array<int>, localC: array<int>, v: int)
    requires g.Valid() && result.Length > g.n && localC.Length == g.n + 1 && 1 <= v <= g.n
    requires result != localC && InRange(g, result[..])
    requires forall c :: 0 <= c < localC.Length && localC[c] != -1 ==> c in Forbidden(g, result[..], v)
    modifies localC
    ensures Clear(localC[..])
  {
    for j := g.ver[v] to g.ver[v + 1]
      invariant forall c :: 0 <= c < localC.Length && localC[c] != -1 ==>
                  c in Forbidden(g, result[..], v) && c !in Marked(g, result[..], v, j)
    {
      MarkedStep(g, result[..], v, j);
      var w := g.edges[j];
      if result[w] != -1 {
        localC[result[w]] := -1;
      }
    }
  }

  /** Lines 45-64 (and 116-133): v takes the smallest colour not held by
      any of its neighbours, which exists and is at most its neighbour
      count plus one; local_c is all free again afterwards. */
  method ColourVertex(g: Graph, result: array<int>, localC: array<int>, v: int)
    requires g.Valid() && g.Loopless() && result.Length > g.n && localC.Length == g.n + 1 && 1 <= v <= g.n
    requires result != localC && InRange(g, result[..]) && Clear(localC[..])
    modifies result, localC
    ensures result[..] == old(result[..])[v := FirstFree(Forbidden(g, old(result[..]), v), 1, g.n)]
    ensures 1 <= result[v] <= g.Degree(v) + 1 && result[v] <= g.n
    ensures Clear(localC[..])
  {
    ghost var R0 := result[..];
    ghost var F := Forbidden(g, R0, v);
    FreeColourExists(g, R0, v);
    MarkForbidden(g, result, localC, v);
    var c := FirstFit(localC, g.n);
    assert c == FirstFree(F, 1, g.n);
    result[v] := c;
    assert forall k :: g.ver[v] <= k < g.ver[v + 1] ==> g.edges[k] != v;
    assert Forbidden(g, result[..], v) == F;
    UnmarkForbidden(g, result, localC, v);
  }

  /** Lines 76-84 (and 145-152): the scan of i's neighbours that stops at
      the first one sharing i's colour; it stops at ver[i+1] exactly when
      i has no clash. */
  method FindClash(g: Graph, result: array<int>, i: int) returns (j: int)
    requires g.Valid() && result.Length > g.n && 1 <= i <= g.n
    ensures g.ver[i] <= j <= g.ver[i + 1]
    ensures forall k :: g.ver[i] <= k < j ==> result[g.edges[k]] != result[i]
    ensures j < g.ver[i + 1] ==> result[g.edges[j]] == result[i]
    ensures j < g.ver[i + 1] <==> !NoClashAt(g, result[..], i)
  {
    j := g.ver[i];
    while j < g.ver[i + 1] && result[g.edges[j]] != result[i]
      invariant g.ver[i] <= j <= g.ver[i + 1]
      invariant forall k :: g.ver[i] <= k < j ==> result[g.edges[k]] != result[i]
    {
      j := j + 1;
    }
  }

  /** Lines 36-39: every vertex starts uncoloured. */
  method Uncolour(result: array<int>, n: nat)
    requires result.Length > n
    modifies result
    ensures forall x :: 0 <= x < result.Length ==> result[x] == (if 1 <= x <= n then -1 else old(result[x]))
  {
    for i := 1 to n + 1
      invariant forall x :: 0 <= x < result.Length ==> result[x] == (if 1 <= x < i then -1 else old(result[x]))
    {
      result[i] := -1;
    }
  }

  /** The vertices i..n in increasing order. */
  function Upto(i: int, n: int): (r: seq<int>)
    requires 1 <= i <= n + 1
    ensures |r| == n + 1 - i && forall k :: 0 <= k < |r| ==> r[k] == i + k
  {
    seq(n + 1 - i, k requires 0 <= k < n + 1 - i => i + k)
  }

  /** When no vertex is coloured, all of 1..n are pending. */
  lemma AllPending(g: Graph, res: seq<int>)
    requires g.Valid() && g.n < |res|
    requires forall x :: 1 <= x <= g.n ==> res[x] == -1
    ensures Pending(g, res, Upto(1, g.n))
  {
    var L := Upto(1, g.n);
    forall x | 1 <= x <= g.n
      ensures x in L
    {
      assert L[x - 1] == x;
    }
  }

  /** The colours of v's neighbours numbered below v: the neighbours the
      first pass, run in order, has coloured before it reaches v. */
  ghost function LowerForbidden(g: Graph, res: seq<int>, v: int): set<int>
    requires g.Valid() && g.n < |res| && 1 <= v <= g.n
  {
    set k | g.ver[v] <= k < g.ver[v + 1] && g.edges[k] < v :: res[g.edges[k]]
  }

  /** Every vertex below i holds the smallest colour that none of its
      lower-numbered neighbours holds. */
  ghost predicate FirstFitBelow(g: Graph, res: seq<int>, i: int)
    requires g.Valid() && g.n < |res|
  {
    forall x :: 1 <= x < i && x <= g.n ==> res[x] == FirstFree(LowerForbidden(g, res, x), 1, g.n)
  }

  /** With exactly the vertices i..n uncoloured, the colours i may not
      take are those of its lower-numbered neighbours. */
  lemma LowerIsForbidden(g: Graph, R: seq<int>, i: int)
    requires g.Valid() && g.Loopless() && g.n < |R| && 1 <= i <= g.n
    requires forall x :: 1 <= x <= g.n ==> (R[x] == -1 <==> i <= x)
    ensures Forbidden(g, R, i) == LowerForbidden(g, R, i)
  {
    forall c | c in Forbidden(g, R, i)
      ensures c in LowerForbidden(g, R, i)
    {
      var k :| g.ver[i] <= k < g.ver[i + 1] && R[g.edges[k]] != -1 && R[g.edges[k]] == c;
    }
    forall c | c in LowerForbidden(g, R, i)
      ensures c in Forbidden(g, R, i)
    {
      var k :| g.ver[i] <= k < g.ver[i + 1] && g.edges[k] < i && R[g.edges[k]] == c;
    }
  }

  /** Colouring i leaves the colours of every lower neighbour of a vertex
      below i as they were, so the first-fit prefix extends to i + 1 when i
      takes the first colour its lower neighbours leave free. */
  lemma FirstFitExtend(g: Graph, R: seq<int>, i: int, c: int)
    requires g.Valid() && g.n < |R| && 1 <= i <= g.n
    requires FirstFitBelow(g, R, i) && c == FirstFree(LowerForbidden(g, R, i), 1, g.n)
    ensures FirstFitBelow(g, R[i := c], i + 1)
  {
    var R' := R[i := c];
    forall x | 1 <= x < i + 1 && x <= g.n
      ensures R'[x] == FirstFree(LowerForbidden(g, R', x), 1, g.n)
    {
      assert LowerForbidden(g, R', x) == LowerForbidden(g, R, x);
    }
  }

  /** When exactly the vertices i..n are pending, giving i its first free
      colour extends the first-fit prefix to i + 1. */
  lemma FirstFitStep(g: Graph, R: seq<int>, i: int)
    requires g.Valid() && g.Loopless() && g.n < |R| && 1 <= i <= g.n
    requires Pending(g, R, Upto(i, g.n)) && FirstFitBelow(g, R, i)
    ensures FirstFitBelow(g, R[i := FirstFree(Forbidden(g, R, i), 1, g.n)], i + 1)
  {
    var L := Upto(i, g.n);
    forall x | 1 <= x <= g.n
      ensures R[x] == -1 <==> i <= x
    {
      if i <= x {
        assert L[x - i] == x;
      }
    }
    LowerIsForbidden(g, R, i);
    FirstFitExtend(g, R, i, FirstFree(Forbidden(g, R, i), 1, g.n));
  }

  /** One step of the first pass: with exactly i..n pending and the
      vertices below i coloured first-fit, giving i its first free colour
      keeps the colouring in range and proper among coloured vertices,
      leaves i + 1..n pending and extends the first-fit prefix to i + 1. */
  lemma ColourInOrder(g: Graph, R: seq<int>, i: int)
    requires g.Valid() && g.Loopless() && g.Symmetric() && g.n < |R| && 1 <= i <= g.n
    requires InRange(g, R) && ProperOnColoured(g, R)
    requires Pending(g, R, Upto(i, g.n)) && FirstFitBelow(g, R, i)
    ensures InRange(g, R[i := FirstFree(Forbidden(g, R, i), 1, g.n)])
    ensures ProperOnColoured(g, R[i := FirstFree(Forbidden(g, R, i), 1, g.n)])
    ensures Pending(g, R[i := FirstFree(Forbidden(g, R, i), 1, g.n)], Upto(i + 1, g.n))
    ensures FirstFitBelow(g, R[i := FirstFree(Forbidden(g, R, i), 1, g.n)], i + 1)
  {
    assert Upto(i, g.n)[0] == i && Upto(i, g.n)[1..] == Upto(i + 1, g.n);
    FirstFitStep(g, R, i);
    ColourNext(g, R, Upto(i, g.n));
  }

  /** The first-fit condition fixes the colouring: two colourings that both
      meet it on the vertices below i agree on those vertices. */
  lemma {:induction false} FirstFitAgree(g: Graph, r1: seq<int>, r2: seq<int>, i: int)
    requires g.Valid() && g.n < |r1| && g.n < |r2| && 1 <= i <= g.n + 1
    requires FirstFitBelow(g, r1, i) && FirstFitBelow(g, r2, i)
    ensures forall x :: 1 <= x < i ==> r1[x] == r2[x]
    decreases i
  {
    if i > 1 {
      var x := i - 1;
      FirstFitAgree(g, r1, r2, x);
      assert LowerForbidden(g, r1, x) == LowerForbidden(g, r2, x);
    }
  }

  /** Lines 43-65: the first pass colours the vertices in order, each with
      the smallest colour its coloured neighbours leave free, which are its
      lower-numbered neighbours. Run in order, the pass yields the one
      first-fit colouring (FirstFitAgree), and it is already proper. */
  method ColourAll(g: Graph, result: array<int>, localC: array<int>)
    requires g.Valid() && g.Loopless() && g.Symmetric()
    requires result.Length > g.n && localC.Length == g.n + 1 && result != localC
    requires forall x :: 1 <= x <= g.n ==> result[x] == -1
    requires Clear(localC[..])
    modifies result, localC
    ensures Complete(g, result[..]) && InRange(g, result[..]) && NoConflict(g, result[..])
    ensures FirstFitBelow(g, result[..], g.n + 1)
    ensures Clear(localC[..])
    ensures forall x :: 0 <= x < result.Length && !(1 <= x <= g.n) ==> result[x] == old(result[x])
  {
    AllPending(g, result[..]);
    for i := 1 to g.n + 1
      invariant Pending(g, result[..], Upto(i, g.n)) && FirstFitBelow(g, result[..], i)
      invariant InRange(g, result[..]) && ProperOnColoured(g, result[..]) && Clear(localC[..])
      invariant forall x :: 0 <= x < result.Length && !(1 <= x <= g.n) ==> result[x] == old(result[x])
    {
      ColourInOrder(g, result[..], i);
      ColourVertex(g, result, localC, i);
    }
    PendingDone(g, result[..], Upto(g.n + 1, g.n));
  }

  /** The rule of lines 76-83 for vertex x, given the vertices L the scan
      has listed: at x's turn some neighbour shares x's starting colour
      and has not been uncoloured already, that is, it is not a listed
      vertex below x. */
  ghost predicate FlagRule(g: Graph, R0: seq<int>, L: seq<int>, x: int)
    requires g.Valid() && g.n < |R0| && 1 <= x <= g.n
  {
    exists k :: g.ver[x] <= k < g.ver[x + 1] && R0[g.edges[k]] == R0[x] && !(g.edges[k] < x && g.edges[k] in L)
  }

  /** Each vertex below i is listed in L exactly when the rule flags it. */
  ghost predicate FlagsBelow(g: Graph, R0: seq<int>, L: seq<int>, i: int)
    requires g.Valid() && g.n < |R0|
  {
    forall x :: 1 <= x < i && x <= g.n ==> (x in L <==> FlagRule(g, R0, L, x))
  }

  /** The state of the detection scan before vertex i: local_S[0..count)
      lists, in increasing order, the vertices below i that the rule flags,
      each of which clashed in the starting colouring R0; exactly those are
      uncoloured; and no coloured vertex below i clashes with a neighbour. */
  ghost predicate DetectState(g: Graph, R0: seq<int>, L: seq<int>, res: seq<int>, count: int, i: int)
    requires g.Valid() && g.n < |R0| && |res| == |R0|
  {
    0 <= count < i <= g.n + 1 && count <= |L| &&
    (forall a, b :: 0 <= a < b < count ==> L[a] < L[b]) &&
    (forall a :: 0 <= a < count ==> 1 <= L[a] < i && !NoClashAt(g, R0, L[a])) &&
    FlagsBelow(g, R0, L[..count], i) &&
    (forall x :: 0 <= x < |res| ==> res[x] == (if x in L[..count] then -1 else R0[x])) &&
    (forall u {:trigger NoClashAt(g, res, u)} :: 1 <= u < i && res[u] != -1 ==> NoClashAt(g, res, u))
  }

  /** A vertex without a clash is passed over. */
  lemma DetectSkip(g: Graph, R0: seq<int>, L: seq<int>, res: seq<int>, count: int, i: int)
    requires g.Valid() && g.n < |R0| && |res| == |R0| && i <= g.n
    requires DetectState(g, R0, L, res, count, i) && NoClashAt(g, res, i)
    ensures DetectState(g, R0, L, res, count, i + 1)
  {
    SkipNotFlagged(g, R0, L[..count], res, i);
    FlagsSkip(g, R0, L[..count], i);
  }

  /** Passing over a vertex the rule does not flag extends the rule's
      agreement to i + 1. */
  lemma FlagsSkip(g: Graph, R0: seq<int>, Lc: seq<int>, i: int)
    requires g.Valid() && g.n < |R0| && 1 <= i <= g.n
    requires FlagsBelow(g, R0, Lc, i) && i !in Lc && !FlagRule(g, R0, Lc, i)
    ensures FlagsBelow(g, R0, Lc, i + 1)
  {
  }

  /** A vertex the scan passes over is not flagged by the rule: every
      neighbour sharing its starting colour is a listed vertex below it. */
  lemma SkipNotFlagged(g: Graph, R0: seq<int>, Lc: seq<int>, res: seq<int>, i: int)
    requires g.Valid() && g.n < |R0| && |res| == |R0| && 1 <= i <= g.n
    requires forall x :: 0 <= x < |res| ==> res[x] == (if x in Lc then -1 else R0[x])
    requires forall a :: 0 <= a < |Lc| ==> Lc[a] < i
    requires NoClashAt(g, res, i)
    ensures !FlagRule(g, R0, Lc, i)
  {
    forall k | g.ver[i] <= k < g.ver[i + 1] && R0[g.edges[k]] == R0[i]
      ensures g.edges[k] < i && g.edges[k] in Lc
    {
      assert i !in Lc;
      assert res[g.edges[k]] != res[i];
    }
  }

  /** A vertex whose neighbour at edges[j] shares its colour is listed and
      uncoloured; its clash was already there in R0. */
  lemma DetectFlag(g: Graph, R0: seq<int>, L: seq<int>, res: seq<int>, count: int, i: int, j: int,
                   L': seq<int>, res': seq<int>)
    requires g.Valid() && g.n < |R0| && |res| == |R0| && i <= g.n && Complete(g, R0)
    requires DetectState(g, R0, L, res, count, i) && count < |L|
    requires g.ver[i] <= j < g.ver[i + 1] && res[g.edges[j]] == res[i]
    requires L' == L[count := i] && res' == res[i := -1]
    ensures DetectState(g, R0, L', res', count + 1, i + 1)
  {
    assert L'[..count + 1] == L[..count] + [i];
    var w := g.edges[j];
    assert i !in L[..count];
    assert res[i] == R0[i] != -1;
    assert w !in L[..count];
    assert R0[w] == R0[i];
    forall u | 1 <= u < i + 1 && res'[u] != -1
      ensures NoClashAt(g, res', u)
    {
      assert NoClashAt(g, res, u);
    }
    FlagFound(g, R0, L[..count], res, i, j);
    FlagsExtend(g, R0, L[..count], i);
  }

  /** A vertex the scan lists is flagged by the rule: the neighbour found
      shares its colour and was not uncoloured before. */
  lemma FlagFound(g: Graph, R0: seq<int>, Lc: seq<int>, res: seq<int>, i: int, j: int)
    requires g.Valid() && g.n < |R0| && |res| == |R0| && 1 <= i <= g.n && R0[i] != -1
    requires forall x :: 0 <= x < |res| ==> res[x] == (if x in Lc then -1 else R0[x])
    requires i !in Lc && g.ver[i] <= j < g.ver[i + 1] && res[g.edges[j]] == res[i]
    ensures FlagRule(g, R0, Lc + [i], i)
  {
    var w := g.edges[j];
    assert w !in Lc && R0[w] == R0[i];
    assert !(w < i && w in Lc + [i]);
  }

  /** Listing a flagged vertex i extends the rule's agreement to i + 1. */
  lemma FlagsExtend(g: Graph, R0: seq<int>, Lc: seq<int>, i: int)
    requires g.Valid() && g.n < |R0| && 1 <= i <= g.n
    requires FlagsBelow(g, R0, Lc, i) && i !in Lc && FlagRule(g, R0, Lc + [i], i)
    ensures FlagsBelow(g, R0, Lc + [i], i + 1)
  {
    forall x | 1 <= x < i
      ensures x in Lc + [i] <==> FlagRule(g, R0, Lc + [i], x)
    {
      FlagRuleIgnoresLater(g, R0, Lc, i, x);
    }
  }

  /** Listing i does not change how the rule treats a vertex below i. */
  lemma FlagRuleIgnoresLater(g: Graph, R0: seq<int>, L: seq<int>, i: int, x: int)
    requires g.Valid() && g.n < |R0| && 1 <= x < i
    requires x <= g.n
    ensures FlagRule(g, R0, L + [i], x) <==> FlagRule(g, R0, L, x)
  {
    forall k | g.ver[x] <= k < g.ver[x + 1] && g.edges[k] < x
      ensures g.edges[k] in L + [i] <==> g.edges[k] in L
    {
    }
  }

  /** Every vertex listed in L clashed with a neighbour in R0. */
  ghost predicate Clashed(g: Graph, R0: seq<int>, L: seq<int>)
    requires g.Valid() && g.n < |R0|
  {
    forall a :: 0 <= a < |L| ==> 1 <= L[a] <= g.n && !NoClashAt(g, R0, L[a])
  }

  /** The outcome of detection: L lists, in increasing order, exactly the
      vertices the rule flags, each of which clashed in R0; exactly they are
      uncoloured in res, every other vertex
      keeps its R0 colour, and no coloured vertex of res clashes. */
  ghost predicate Flagged(g: Graph, R0: seq<int>, L: seq<int>, res: seq<int>)
    requires g.Valid() && g.n < |R0| && |res| == |R0|
  {
    (forall a, b :: 0 <= a < b < |L| ==> L[a] < L[b]) &&
    Clashed(g, R0, L) && FlagsBelow(g, R0, L, g.n + 1) &&
    (forall x :: 0 <= x < |res| ==> res[x] == (if x in L then -1 else R0[x])) &&
    ProperOnColoured(g, res)
  }

  /** The scan over all vertices ends in the outcome of detection. */
  lemma DetectDone(g: Graph, R0: seq<int>, L: seq<int>, res: seq<int>, count: int)
    requires g.Valid() && g.n < |R0| && |res| == |R0|
    requires DetectState(g, R0, L, res, count, g.n + 1)
    ensures count <= g.n && Flagged(g, R0, L[..count], res)
  {
  }

  /** After detection from a complete, in-range colouring, the list holds
      exactly the uncoloured vertices, every colour is still in range, and
      a vertex either keeps its colour or is uncoloured. */
  lemma FlaggedPending(g: Graph, R0: seq<int>, L: seq<int>, res: seq<int>)
    requires g.Valid() && g.n < |R0| && |res| == |R0|
    requires Complete(g, R0) && InRange(g, R0) && Flagged(g, R0, L, res)
    ensures Pending(g, res, L) && InRange(g, res) && ProperOnColoured(g, res)
    ensures forall x :: 0 <= x < |res| ==> res[x] == R0[x] || (1 <= x <= g.n && res[x] == -1)
  {
    forall x | 0 <= x < |res| && res[x] != R0[x]
      ensures 1 <= x <= g.n && res[x] == -1
    {
      var a :| 0 <= a < |L| && L[a] == x;
    }
  }

  /** Lines 79-81: i is listed at local_S[count] and uncoloured. */
  method Flag(localS: array<int>, result: array<int>, count: int, i: int)
    requires 0 <= count < localS.Length && 0 <= i < result.Length && localS != result
    modifies localS, result
    ensures localS[..] == old(localS[..])[count := i]
    ensures result[..] == old(result[..])[i := -1]
  {
    localS[count] := i;
    result[i] := -1;
  }

  /** Lines 73-85: every vertex that, at its turn, still shares its colour
      with a neighbour is uncoloured and listed in local_S, in increasing
      order; exactly the vertices the rule flags are listed.
      Afterwards no coloured vertex clashes with a neighbour, and every
      listed vertex had a clash in the colouring it started from. */
  method Detect(g: Graph, result: array<int>, localS: array<int>) returns (count: int)
    requires g.Valid() && result.Length > g.n && localS.Length >= g.n && result != localS
    requires Complete(g, result[..])
    modifies result, localS
    ensures 0 <= count <= g.n && Flagged(g, old(result[..]), localS[..count], result[..])
  {
    ghost var R0 := result[..];
    count := 0;
    DetectStart(g, R0, localS[..]);
    for i := 1 to g.n + 1
      invariant DetectState(g, R0, localS[..], result[..], count, i)
    {
      count := ScanVertex(g, result, localS, count, i, R0);
    }
    DetectDone(g, R0, localS[..], result[..], count);
  }

  /** Lines 76-84 for one vertex i: if some neighbour shares i's colour, i
      is listed at local_S[count] and uncoloured; otherwise nothing
      changes. Either way the detection invariant moves on to i + 1. */
  method ScanVertex(g: Graph, result: array<int>, localS: array<int>, count: int, i: int, ghost R0: seq<int>)
    returns (count': int)
    requires g.Valid() && result.Length > g.n && localS.Length >= g.n && result != localS
    requires |R0| == result.Length && Complete(g, R0) && 1 <= i <= g.n
    requires DetectState(g, R0, localS[..], result[..], count, i)
    modifies result, localS
    ensures DetectState(g, R0, localS[..], result[..], count', i + 1)
  {
    ghost var L, res := localS[..], result[..];
    var j := FindClash(g, result, i);
    if j < g.ver[i + 1] {
      DetectFlag(g, R0, L, res, count, i, j, L[count := i], res[i := -1]);
      Flag(localS, result, count, i);
      count' := count + 1;
    } else {
      DetectSkip(g, R0, L, res, count, i);
      count' := count;
    }
  }

  /** Before the scan nothing is listed and the colouring is R0. */
  lemma DetectStart(g: Graph, R0: seq<int>, L: seq<int>)
    requires g.Valid() && g.n < |R0|
    ensures DetectState(g, R0, L, R0, 0, 1)
  {
  }

  /** L lists, once each, exactly the uncoloured vertices. */
  ghost predicate Pending(g: Graph, res: seq<int>, L: seq<int>)
    requires g.Valid() && g.n < |res|
  {
    (forall a, b :: 0 <= a < b < |L| ==> L[a] != L[b]) &&
    (forall a :: 0 <= a < |L| ==> 1 <= L[a] <= g.n) &&
    (forall x :: 1 <= x <= g.n ==> (res[x] == -1 <==> x in L))
  }

  /** Colouring the first listed vertex leaves the rest of the list as
      the uncoloured vertices. */
  lemma PendingStep(g: Graph, res: seq<int>, L: seq<int>, c: int)
    requires g.Valid() && g.n < |res| && Pending(g, res, L) && |L| > 0 && c != -1
    ensures Pending(g, res[L[0] := c], L[1..])
  {
    forall x | 1 <= x <= g.n
      ensures res[L[0] := c][x] == -1 <==> x in L[1..]
    {
      if x in L[1..] {
        var a :| 1 <= a < |L| && L[a] == x;
      }
    }
  }

  /** Giving the first pending vertex its first free colour keeps the
      colouring in range and clash-free among coloured vertices, and leaves
      the rest of the list pending. */
  lemma ColourNext(g: Graph, R: seq<int>, L: seq<int>)
    requires g.Valid() && g.Loopless() && g.Symmetric() && g.n < |R|
    requires InRange(g, R) && ProperOnColoured(g, R) && Pending(g, R, L) && |L| > 0
    ensures InRange(g, R[L[0] := FirstFree(Forbidden(g, R, L[0]), 1, g.n)])
    ensures ProperOnColoured(g, R[L[0] := FirstFree(Forbidden(g, R, L[0]), 1, g.n)])
    ensures Pending(g, R[L[0] := FirstFree(Forbidden(g, R, L[0]), 1, g.n)], L[1..])
  {
    ColourStep(g, R, L[0]);
    FreeColourExists(g, R, L[0]);
    PendingStep(g, R, L, FirstFree(Forbidden(g, R, L[0]), 1, g.n));
  }

  /** With nothing left on the list, every vertex is coloured. */
  lemma PendingDone(g: Graph, res: seq<int>, L: seq<int>)
    requires g.Valid() && g.n < |res| && Pending(g, res, L) && L == []
    ensures Complete(g, res)
  {
  }

  /** Lines 73-108: the clashing vertices are detected and uncoloured, and
      their list is merged into S[0..T[num_threads]). Afterwards S lists
      exactly the uncoloured vertices, which are exactly the vertices the
      rule flags, each of which clashed before, and no coloured vertex
      clashes with a neighbour. */
  method CollectClashes(g: Graph, result: array<int>, S: array<int>, T: array<int>, localS: array<int>)
    requires g.Valid() && result.Length > g.n && S.Length >= g.n && T.Length > NumThreads && localS.Length == g.n
    requires result != S && result != T && result != localS && S != T && S != localS && T != localS
    requires Complete(g, result[..]) && InRange(g, result[..])
    modifies result, S, T, localS
    ensures 0 <= T[NumThreads] <= g.n && Pending(g, result[..], S[..T[NumThreads]])
    ensures Clashed(g, old(result[..]), S[..T[NumThreads]]) && FlagsBelow(g, old(result[..]), S[..T[NumThreads]], g.n + 1)
    ensures T[ThreadId] == T[NumThreads]
    ensures forall x :: 0 <= x < result.Length ==> result[x] == old(result[x]) || (1 <= x <= g.n && result[x] == -1)
    ensures InRange(g, result[..]) && ProperOnColoured(g, result[..])
  {
    ghost var R0 := result[..];
    var count := Detect(g, result, localS);
    ghost var L := localS[..count];
    T[ThreadId] := count;
    MergeOwn(S, T, localS, T[ThreadId]);
    assert S[..T[NumThreads]] == L;
    FlaggedPending(g, R0, L, result[..]);
  }

  /** The colours of the neighbours of L[a] that are not among L[a..]:
      when the recolouring reaches L[a], exactly those neighbours hold a
      colour. */
  ghost function ListForbidden(g: Graph, res: seq<int>, L: seq<int>, a: int): set<int>
    requires g.Valid() && g.n < |res| && 0 <= a < |L| && 1 <= L[a] <= g.n
  {
    set k | g.ver[L[a]] <= k < g.ver[L[a] + 1] && g.edges[k] !in L[a..] :: res[g.edges[k]]
  }

  /** Each of the first i listed vertices holds the smallest colour that
      no neighbour coloured before its turn holds. */
  ghost predicate FirstFitInList(g: Graph, res: seq<int>, L: seq<int>, i: int)
    requires g.Valid() && g.n < |res| && 0 <= i <= |L|
    requires forall a :: 0 <= a < |L| ==> 1 <= L[a] <= g.n
  {
    forall a :: 0 <= a < i ==> res[L[a]] == FirstFree(ListForbidden(g, res, L, a), 1, g.n)
  }

  /** With exactly L[i..] uncoloured, the colours L[i] may not take are
      those of its neighbours outside L[i..], whichever colour L[i] then
      takes. */
  lemma ListIsForbidden(g: Graph, R: seq<int>, L: seq<int>, i: int, c: int)
    requires g.Valid() && g.n < |R| && 0 <= i < |L| && Pending(g, R, L[i..])
    ensures Forbidden(g, R, L[i]) == ListForbidden(g, R[L[i] := c], L, i)
  {
    assert L[i..][0] == L[i];
    var v := L[i];
    forall x | x in Forbidden(g, R, v)
      ensures x in ListForbidden(g, R[v := c], L, i)
    {
      var k :| g.ver[v] <= k < g.ver[v + 1] && R[g.edges[k]] != -1 && R[g.edges[k]] == x;
      assert g.edges[k] !in L[i..];
    }
    forall x | x in ListForbidden(g, R[v := c], L, i)
      ensures x in Forbidden(g, R, v)
    {
      var k :| g.ver[v] <= k < g.ver[v + 1] && g.edges[k] !in L[i..] && R[v := c][g.edges[k]] == x;
      assert g.edges[k] != v;
    }
  }

  /** Colouring L[i] leaves alone every vertex that an earlier listed
      vertex's rule looks at, so the first-fit prefix extends to i + 1. */
  lemma ListExtend(g: Graph, R: seq<int>, L: seq<int>, i: int, c: int)
    requires g.Valid() && g.n < |R| && 0 <= i < |L|
    requires forall a :: 0 <= a < |L| ==> 1 <= L[a] <= g.n
    requires forall a, b :: 0 <= a < b < |L| ==> L[a] != L[b]
    requires FirstFitInList(g, R, L, i) && c == FirstFree(ListForbidden(g, R[L[i] := c], L, i), 1, g.n)
    ensures FirstFitInList(g, R[L[i] := c], L, i + 1)
  {
    var R' := R[L[i] := c];
    forall a | 0 <= a < i
      ensures R'[L[a]] == FirstFree(ListForbidden(g, R', L, a), 1, g.n)
    {
      assert L[a..][i - a] == L[i];
      assert ListForbidden(g, R', L, a) == ListForbidden(g, R, L, a);
    }
  }

  /** One step of the recolouring: with exactly L[i..] uncoloured, giving
      L[i] its first free colour makes the first i + 1 listed vertices
      first-fit in list order. */
  lemma ListStep(g: Graph, R: seq<int>, L: seq<int>, i: int)
    requires g.Valid() && g.n < |R| && 0 <= i < |L|
    requires forall a :: 0 <= a < |L| ==> 1 <= L[a] <= g.n
    requires forall a, b :: 0 <= a < b < |L| ==> L[a] != L[b]
    requires Pending(g, R, L[i..]) && FirstFitInList(g, R, L, i)
    ensures FirstFitInList(g, R[L[i] := FirstFree(Forbidden(g, R, L[i]), 1, g.n)], L, i + 1)
  {
    var c := FirstFree(Forbidden(g, R, L[i]), 1, g.n);
    ListIsForbidden(g, R, L, i, c);
    ListExtend(g, R, L, i, c);
  }

  /** One step of the recolouring: with exactly L[i..] uncoloured, giving
      L[i] its first free colour keeps the colouring in range and proper
      among coloured vertices, leaves exactly L[i + 1..] uncoloured and
      extends the list-order first-fit prefix to i + 1. */
  lemma RecolourNext(g: Graph, R: seq<int>, L: seq<int>, i: int)
    requires g.Valid() && g.Loopless() && g.Symmetric() && g.n < |R| && 0 <= i < |L|
    requires forall a :: 0 <= a < |L| ==> 1 <= L[a] <= g.n
    requires forall a, b :: 0 <= a < b < |L| ==> L[a] != L[b]
    requires InRange(g, R) && ProperOnColoured(g, R)
    requires Pending(g, R, L[i..]) && FirstFitInList(g, R, L, i)
    ensures InRange(g, R[L[i] := FirstFree(Forbidden(g, R, L[i]), 1, g.n)])
    ensures ProperOnColoured(g, R[L[i] := FirstFree(Forbidden(g, R, L[i]), 1, g.n)])
    ensures Pending(g, R[L[i] := FirstFree(Forbidden(g, R, L[i]), 1, g.n)], L[i + 1..])
    ensures FirstFitInList(g, R[L[i] := FirstFree(Forbidden(g, R, L[i]), 1, g.n)], L, i + 1)
  {
    assert L[i..][0] == L[i] && L[i..][1..] == L[i + 1..];
    ListStep(g, R, L, i);
    ColourNext(g, R, L[i..]);
  }

  /** Lines 113-134: the listed vertices, exactly the uncoloured ones, are
      coloured again first-fit, one after another, each with the smallest
      colour no neighbour holds at its turn. The marking step guards
      against uncoloured neighbours (see Findings). Afterwards the colouring
      is complete and proper, and only listed vertices have changed. */
  method Recolour(g: Graph, result: array<int>, localC: array<int>, S: array<int>, T: array<int>)
    requires g.Valid() && g.Loopless() && g.Symmetric()
    requires result.Length > g.n && localC.Length == g.n + 1 && T.Length > NumThreads
    requires result != localC && S != result && S != localC && T != result && T != localC
    requires 0 <= T[NumThreads] <= S.Length && Pending(g, result[..], S[..T[NumThreads]])
    requires InRange(g, result[..]) && ProperOnColoured(g, result[..]) && Clear(localC[..])
    modifies result, localC
    ensures Complete(g, result[..]) && InRange(g, result[..]) && NoConflict(g, result[..])
    ensures FirstFitInList(g, result[..], S[..T[NumThreads]], T[NumThreads])
    ensures Clear(localC[..])
    ensures forall x :: 0 <= x < result.Length && x !in S[..T[NumThreads]] ==> result[x] == old(result[x])
  {
    ghost var L := S[..T[NumThreads]];
    assert L[0..] == L;
    for i := 0 to T[NumThreads]
      invariant Pending(g, result[..], L[i..]) && FirstFitInList(g, result[..], L, i)
      invariant InRange(g, result[..]) && ProperOnColoured(g, result[..]) && Clear(localC[..])
      invariant forall x :: 0 <= x < result.Length && x !in L ==> result[x] == old(result[x])
    {
      var v := S[i];
      RecolourNext(g, result[..], L, i);
      ColourVertex(g, result, localC, v);
    }
    PendingDone(g, result[..], L[T[NumThreads]..]);
  }

  /** Lines 136-154: the success flag T[num_threads] is cleared and set
      again as soon as some vertex shares its colour with a neighbour; the
      scan stops looking once the flag is set. */
  method Recheck(g: Graph, result: array<int>, T: array<int>)
    requires g.Valid() && result.Length > g.n && T.Length > NumThreads && result != T
    modifies T
    ensures T[NumThreads] == (if NoConflict(g, result[..]) then 0 else 1)
    ensures forall k :: 0 <= k < T.Length && k != NumThreads ==> T[k] == old(T[k])
  {
    T[NumThreads] := 0;
    for i := 1 to g.n + 1
      invariant T[NumThreads] == 0 || (T[NumThreads] == 1 && !NoConflict(g, result[..]))
      invariant T[NumThreads] == 0 ==>
                  forall u {:trigger NoClashAt(g, result[..], u)} :: 1 <= u < i ==> NoClashAt(g, result[..], u)
      invariant forall k :: 0 <= k < T.Length && k != NumThreads ==> T[k] == old(T[k])
    {
      if T[NumThreads] == 0 {
        var j := FindClash(g, result, i);
        if j < g.ver[i + 1] {
          T[NumThreads] := 1;
        }
      }
    }
  }

  /** One iteration of the repair loop (lines 69-156): detect and uncolour
      the clashing vertices, merge their list into S (lines 87-108),
      recolour them and check the result. A round started from any
      complete colouring ends with a proper one and the flag cleared. The
      vertices listed in S[0..T[thread_id]) are exactly those the detection
      rule flags; each of them then holds the first colour free at its turn
      in the list, and every other vertex keeps its colour. */
  method RepairRound(g: Graph, result: array<int>, S: array<int>, T: array<int>,
                     localS: array<int>, localC: array<int>)
    requires g.Valid() && g.Loopless() && g.Symmetric()
    requires result.Length > g.n && S.Length >= g.n && T.Length > NumThreads
    requires localS.Length == g.n && localC.Length == g.n + 1
    requires result != S && result != T && result != localS && result != localC
    requires S != T && S != localS && S != localC && T != localS && T != localC && localS != localC
    requires Complete(g, result[..]) && InRange(g, result[..]) && Clear(localC[..])
    modifies result, S, T, localS, localC
    ensures Complete(g, result[..]) && InRange(g, result[..]) && NoConflict(g, result[..])
    ensures Clear(localC[..]) && T[NumThreads] == 0
    ensures forall x :: 0 <= x < result.Length ==>
              result[x] == old(result[x]) || (1 <= x <= g.n && !NoClashAt(g, old(result[..]), x))
    ensures 0 <= T[ThreadId] <= g.n && Clashed(g, old(result[..]), S[..T[ThreadId]])
    ensures FlagsBelow(g, old(result[..]), S[..T[ThreadId]], g.n + 1)
    ensures FirstFitInList(g, result[..], S[..T[ThreadId]], T[ThreadId])
    ensures forall x :: 0 <= x < result.Length && x !in S[..T[ThreadId]] ==> result[x] == old(result[x])
  {
    ghost var R0 := result[..];
    CollectClashes(g, result, S, T, localS);
    ghost var L := S[..T[NumThreads]];
    ghost var R1 := result[..];
    Recolour(g, result, localC, S, T);
    forall x | 0 <= x < result.Length && result[x] != R0[x]
      ensures 1 <= x <= g.n && !NoClashAt(g, R0, x)
    {
      assert x in L;
      var a :| 0 <= a < |L| && L[a] == x;
    }
    Recheck(g, result, T);
  }

  /** The whole kernel, run by a team of one: colour every vertex first-fit,
      then repair until the check finds no clash. On a loop-free graph
      whose edges are listed in both directions it ends with every vertex
      coloured 1..n, no colour above the vertex's neighbour count plus
      one, and no two neighbours sharing a colour. Run by one thread, the
      first pass is already proper, so the repair round changes nothing
      and the result is the first-fit colouring in vertex order. */
  method Pggc(g: Graph, result: array<int>, S: array<int>, T: array<int>)
    requires g.Valid() && g.Loopless() && g.Symmetric()
    requires result.Length > g.n && S.Length >= g.n && T.Length > NumThreads
    requires result != S && result != T && S != T
    modifies result, S, T
    ensures Complete(g, result[..]) && InRange(g, result[..]) && NoConflict(g, result[..])
    ensures FirstFitBelow(g, result[..], g.n + 1)
    ensures T[NumThreads] == 0
  {
    var localC := new int[g.n + 1];
    var localS := new int[g.n];
    ClearScratch(localC);
    Uncolour(result, g.n);
    ColourAll(g, result, localC);
    T[NumThreads] := 1;
    while T[NumThreads] != 0
      invariant Complete(g, result[..]) && InRange(g, result[..]) && Clear(localC[..])
      invariant NoConflict(g, result[..]) && FirstFitBelow(g, result[..], g.n + 1)
      invariant 0 <= T[NumThreads] <= 1
      decreases T[NumThreads]
    {
      ghost var R := result[..];
      RepairRound(g, result, S, T, localS, localC);
      assert result[..] == R;
    }
  }
}
