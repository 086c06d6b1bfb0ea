# Parallel graph kernels: breadth-first search and greedy colouring

This project models three OpenMP kernels. Each works on a graph in
compressed-sparse-row form. Vertices are numbered 1..n, and the neighbours
of `v` are `edges[ver[v] .. ver[v+1])`.

- **`pbfs`** is a level-synchronous breadth-first search from vertex 1.
  - Each round scans the frontier `S[0..T[num_threads])`.
  - Every unvisited neighbour gets a parent and a distance, and goes into
    the thread's buffer `local_S`.
  - The buffers are merged back into `S` at exclusive prefix-sum offsets.
  - The search stops when the new frontier is empty.
- **`abfs`** is the same search, except that each thread runs `k = 2`
  levels on its own.
  - It swaps its private buffers `local_S` and `local_T` after every level.
  - Only the last level's discoveries are merged back into `S`.
- **`pggc`** is a greedy graph colouring.
  - The first pass gives every vertex the smallest colour of 1..n that no
    coloured neighbour holds. It uses a scratch array `local_c` that is
    marked, and then cleared at the same slots.
  - The repair loop then does the following, until no two neighbours share
    a colour:
    1. It uncolours every vertex that still clashes with a neighbour.
    2. It gathers those vertices into `S` with the same prefix-sum merge.
    3. It recolours them first-fit.
    4. It re-checks every edge.

## How the model is built

- **Threads.** Every kernel is modelled as run by a team of one
  (`ThreadId = 0`, `NumThreads = 1`). This is a legal schedule of the
  OpenMP code.
- **The merge.** The merge is also modelled for a whole team run in
  thread-id order (`FrontierMerge.MergeTeam`), over a sequence of
  per-thread buffers. It is proved to place buffer `t` at offset
  `Σ |buf[0..t)|`, in disjoint ranges.
- **Graph and arrays.**
  - The graph is a value: `Graphs.Graph`, with `Valid` for the shape the
    code indexes.
    - `ver` holds n + 2 entries and is non-decreasing on 1..n+1.
    - Every entry of `edges` lies in 1..n.
  - `p`, `dist`, `S`, `T`, `result` and the thread-local buffers are
    arrays, updated in place by methods with loop invariants.
  - The buffer swap of `abfs` is a swap of array references.
- **What the searches are proved against.** Both searches are proved to
  compute the specification `Search.ShortestPathTree`, defined by walks:
  - a vertex is visited exactly when some walk from vertex 1 reaches it;
  - its distance is the length of a shortest such walk;
  - its parent is a neighbour one level closer to vertex 1.
- **What the colouring is proved against.** The colouring is proved to
  end with a colouring that is:
  - complete;
  - proper (`NoConflict`);
  - in range: 1..n, and at most the vertex's neighbour count plus one
    (`InRange`).

  It needs a graph without self-loops whose edges are listed in both
  directions. The header of `pggc.c` states the second requirement. With a
  self-loop, the repair loop never ends.

## Model

| member | source | states |
|---|---|---|
| Discovery.InitSearch | src/BFS/pbfs.c:27-44 | every vertex but 1 is unvisited in `p` and `dist`; vertex 1 is its own parent at distance 0; `S[0] = 1` and `T[num_threads] = 1`; together these form a search tree whose level-0 frontier is exactly `[1]` (same code as src/BFS/abfs.c:35-53) |
| Discovery.Discover | src/BFS/pbfs.c:54-56 | `w` gets parent `v` and distance `dist[v] + 1` and is stored at `local_S[local_num_w]`; nothing else changes |
| Discovery.VisitNeighbour | src/BFS/pbfs.c:53-56 | discovering an unvisited neighbour keeps the search tree; the visited set grows by exactly one and stays within n |
| Discovery.ScanVisit | src/BFS/pbfs.c:52-57 | the scan invariant survives the discovery of an unvisited neighbour |
| Discovery.ExpandVertex | src/BFS/pbfs.c:51-58 | after the scan of `v`'s neighbours every neighbour is visited; each newly visited vertex is appended once, with parent `v` and distance `dist[v] + 1`; visited vertices are untouched; the buffer count grows exactly as the visited set does |
| Discovery.RoundListed | src/BFS/pbfs.c:49-59 | after one more frontier vertex is scanned, every newly visited vertex is in the buffer |
| Discovery.RoundEntries | src/BFS/pbfs.c:49-59 | the buffer entries stay distinct; all are new and lie at level r + 1 |
| Discovery.RoundStep | src/BFS/pbfs.c:49-59 | the discovery round's invariant is kept by the scan of one frontier vertex |
| Discovery.RoundDone | src/BFS/pbfs.c:49-59 | once the whole frontier of level r is scanned, the buffer lists exactly the vertices at level r + 1, once each, and no vertex of level r or above has an unvisited neighbour |
| Discovery.Expand | src/BFS/pbfs.c:49-59 | one discovery round turns the frontier of level r into the frontier of level r + 1; it keeps the search tree and leaves visited vertices unchanged; the visited set grows by the count found (also src/BFS/abfs.c:69-79) |
| Search.TreeExtend | src/BFS/pbfs.c:53-55 | hanging an unvisited neighbour under a visited vertex, one level deeper, keeps the search tree |
| Search.VisitedAdd | src/BFS/pbfs.c:53-54 | marking an unvisited vertex adds exactly that vertex to the visited set, which never holds more than n vertices |
| Search.VisitedBound | src/BFS/pbfs.c:46 | at most n vertices can be visited; this bounds the number of rounds |
| Search.TreeWalk | src/BFS/pbfs.c:54-55 | following parent pointers back to vertex 1 gives a walk as long as the recorded distance |
| Search.WalkBound | src/BFS/pbfs.c:46-59 | once every settled level has all its neighbours visited, every walk from vertex 1 ends at a visited vertex no further than the walk's length |
| Search.SearchComplete | src/BFS/pbfs.c:46 | when the frontier is empty, the visited vertices are exactly those reachable from vertex 1, each at its shortest-walk distance; unreachable vertices keep -1 |
| FrontierMerge.PrefixSum | src/BFS/pbfs.c:67-70 | the thread's `prefix_sum` is the sum of the counts published by the lower thread ids |
| FrontierMerge.MergeThread | src/BFS/pbfs.c:66-80 | the thread's buffer is copied to `S[prefix_sum ..)` and nothing else of `S` changes; the last thread publishes `prefix_sum + count` into `T[num_threads]` |
| FrontierMerge.MergeOwn | src/BFS/pbfs.c:61-80 | with a team of one, the buffer prefix becomes `S[0..count)` and `T[num_threads] = count` |
| FrontierMerge.MergeTeam | src/BFS/pbfs.c:61-80 | for a whole team run in thread-id order: `T[0..nt)` holds the buffer lengths, `S` starts with the buffers laid end to end, `T[nt]` is the total, and the rest of `S` is untouched |
| FrontierMerge.PrefixSumIsOffset | src/BFS/pbfs.c:67-70 | the prefix sum of the published counts is the offset `Σ |buf[0..t)|` |
| FrontierMerge.SumOfLengths | src/BFS/pbfs.c:77-80 | the total the last thread publishes is the number of entries in all buffers |
| FrontierMerge.OffsetStep | src/BFS/pbfs.c:72-75 | thread t + 1 starts writing where thread t stops |
| FrontierMerge.OffsetMonotone | src/BFS/pbfs.c:72-75 | offsets never decrease with the thread id and never pass the total |
| FrontierMerge.PlacedAtOffset | src/BFS/pbfs.c:72-75 | entry i of buffer t lands at position offset(t) + i, inside the total |
| FrontierMerge.RangesDisjoint | src/BFS/pbfs.c:72-75 | the target ranges of two threads do not overlap, and each lies within `[0, T[num_threads])` |
| ParallelBfs.Round | src/BFS/pbfs.c:46-86 | one round turns the frontier of level r in `S[0..T[num_threads])` into the frontier of level r + 1; the visited set grows by the new frontier size, and every vertex visited before keeps its parent and distance |
| ParallelBfs.Pbfs | src/BFS/pbfs.c:22-88 | the kernel ends with `T[num_threads] = 0`; `p` and `dist` then form a shortest-path tree of exactly the vertices reachable from vertex 1 |
| AlternativeBfs.Distribute | src/BFS/abfs.c:58-62 | `local_S[0..local_num_r)` is the frontier `S[0..T[num_threads])` in order, and `local_num_r` is its size |
| AlternativeBfs.LocalLevels | src/BFS/abfs.c:66-86 | after the k local rounds with buffer swaps, the front buffer lists exactly the frontier k levels further down; `T[thread_id]` holds its size; once a frontier empties, the count published stays 0; every vertex visited before keeps its parent and distance |
| AlternativeBfs.SearchAhead | src/BFS/abfs.c:55-104 | one outer iteration moves `S[0..T[num_threads])` from the frontier of level r to that of level r + k; every vertex visited before keeps its parent and distance, the visited set is at least as large as before, and when its size does not grow, `T[num_threads]` is 0 |
| AlternativeBfs.Abfs | src/BFS/abfs.c:28-108 | the kernel ends with `T[num_threads] = 0`; `p` and `dist` then form a shortest-path tree of exactly the vertices reachable from vertex 1 |
| GreedyColouring.FirstFree | src/GreedyGraphColoring/pggc.c:52-57 | the result is the smallest colour of c..n outside the forbidden set, or -1 exactly when every colour of c..n is forbidden |
| GreedyColouring.FreeColourExists | src/GreedyGraphColoring/pggc.c:52-57 | for a vertex without a self-loop, the first free colour exists and is at most its neighbour count plus one (pigeonhole) |
| GreedyColouring.ColourKeepsProper | src/GreedyGraphColoring/pggc.c:54 | giving v a colour that none of its neighbours holds keeps every coloured vertex clash-free, as each edge is listed both ways |
| GreedyColouring.ColourStep | src/GreedyGraphColoring/pggc.c:43-65 | giving v its first free colour keeps the colouring in range and clash-free among coloured vertices |
| GreedyColouring.OwnColourFree | src/GreedyGraphColoring/pggc.c:52-57 | on a loop-free graph, v given a colour outside its forbidden set clashes with none of its neighbours |
| GreedyColouring.OtherColourFree | src/GreedyGraphColoring/pggc.c:14 | when edges are listed both ways, giving v a colour none of its neighbours holds creates no clash at any other coloured vertex that had none |
| GreedyColouring.ColourNext | src/GreedyGraphColoring/pggc.c:113-134 | colouring the first vertex of the pending list with its first free colour keeps the colouring in range and proper among coloured vertices, and leaves exactly the rest of the list pending |
| GreedyColouring.PendingStep | src/GreedyGraphColoring/pggc.c:114-126 | once the head of the pending list has a colour, exactly the tail remains uncoloured |
| GreedyColouring.PendingDone | src/GreedyGraphColoring/pggc.c:114 | when no vertex is pending, every vertex is coloured |
| GreedyColouring.AllPending | src/GreedyGraphColoring/pggc.c:36-44 | after the reset, every vertex 1..n is pending, in ascending order |
| GreedyColouring.MarkedStep | src/GreedyGraphColoring/pggc.c:45-50 | scanning one more neighbour adds its colour to the marked set when it has one |
| GreedyColouring.ClearScratch | src/GreedyGraphColoring/pggc.c:31-33 | every slot of `local_c` is free |
| GreedyColouring.MarkForbidden | src/GreedyGraphColoring/pggc.c:45-50 | a slot of `local_c` is marked exactly when a neighbour of v holds that colour |
| GreedyColouring.FirstFit | src/GreedyGraphColoring/pggc.c:52-57 | the index found is the first free slot of 1..n, or -1 when every slot is marked |
| GreedyColouring.UnmarkForbidden | src/GreedyGraphColoring/pggc.c:59-64 | resetting the slots of the neighbours' colours leaves `local_c` all free again |
| GreedyColouring.ColourVertex | src/GreedyGraphColoring/pggc.c:45-64 | v, and only v, takes the smallest colour no neighbour holds at that moment; it lies in 1..n and is at most the neighbour count plus one; `local_c` is all free afterwards |
| GreedyColouring.Uncolour | src/GreedyGraphColoring/pggc.c:36-39 | `result[1..n]` is all -1 and the rest of `result` is untouched |
| GreedyColouring.LowerIsForbidden | src/GreedyGraphColoring/pggc.c:44-50 | when exactly the vertices i..n are uncoloured, the colours marked for i are exactly those of its lower-numbered neighbours |
| GreedyColouring.FirstFitExtend | src/GreedyGraphColoring/pggc.c:43-65 | giving i the first colour its lower neighbours leave free extends the first-fit prefix from the vertices below i to those below i + 1 |
| GreedyColouring.FirstFitStep | src/GreedyGraphColoring/pggc.c:45-57 | with exactly i..n pending, the first free colour of i keeps every vertex up to i first-fit with respect to its lower neighbours |
| GreedyColouring.ColourInOrder | src/GreedyGraphColoring/pggc.c:43-65 | one step of the first pass keeps the colouring in range and proper among coloured vertices, leaves exactly i + 1..n pending and extends the first-fit prefix |
| GreedyColouring.FirstFitAgree | src/GreedyGraphColoring/pggc.c:43-65 | two colourings that are both first-fit in vertex order agree on every vertex: the first pass has one possible outcome |
| GreedyColouring.ColourAll | src/GreedyGraphColoring/pggc.c:43-65 | the first pass, run in order, colours every vertex; each vertex holds the smallest colour none of its lower-numbered neighbours holds; the colours are in range and no two neighbours share one |
| GreedyColouring.FindClash | src/GreedyGraphColoring/pggc.c:76-84 | the scan stops at the first neighbour sharing i's colour; it reaches the end of the range exactly when i has no clash |
| GreedyColouring.DetectSkip | src/GreedyGraphColoring/pggc.c:75-85 | passing over a vertex without a clash keeps the detection invariant, including that the vertices listed so far are exactly those the flag rule picks |
| GreedyColouring.SkipNotFlagged | src/GreedyGraphColoring/pggc.c:76-84 | a vertex the scan passes over is not flagged by the rule: every neighbour sharing its starting colour is a lower vertex already listed and uncoloured |
| GreedyColouring.FlagsSkip | src/GreedyGraphColoring/pggc.c:75-85 | passing over a vertex the rule does not flag keeps the list equal to the rule's choice up to the next vertex |
| GreedyColouring.DetectFlag | src/GreedyGraphColoring/pggc.c:78-82 | listing and uncolouring a clashing vertex keeps the detection invariant, including the flag rule; its clash existed in the starting colouring |
| GreedyColouring.FlagFound | src/GreedyGraphColoring/pggc.c:78-80 | a vertex the scan lists is flagged by the rule: the neighbour found shares its starting colour and is not a listed vertex below it |
| GreedyColouring.FlagsExtend | src/GreedyGraphColoring/pggc.c:75-85 | listing a vertex the rule flags keeps the list equal to the rule's choice up to the next vertex |
| GreedyColouring.FlagRuleIgnoresLater | src/GreedyGraphColoring/pggc.c:76-83 | whether the rule flags a vertex depends only on which lower vertices are listed, so listing a later vertex does not change it |
| GreedyColouring.Flag | src/GreedyGraphColoring/pggc.c:79-81 | i is stored at `local_S[count]` and uncoloured; nothing else changes |
| GreedyColouring.DetectStart | src/GreedyGraphColoring/pggc.c:73 | before the scan nothing is listed, the colouring is the starting one, and the detection invariant holds |
| GreedyColouring.ScanVertex | src/GreedyGraphColoring/pggc.c:76-84 | scanning one vertex lists and uncolours it when some neighbour shares its colour and otherwise changes nothing; the detection invariant, with the flag rule, moves to the next vertex |
| GreedyColouring.DetectDone | src/GreedyGraphColoring/pggc.c:74-85 | when the scan has passed vertex n, at most n vertices were listed and the detection outcome holds of them: the list is exactly what the flag rule picks |
| GreedyColouring.FlaggedPending | src/GreedyGraphColoring/pggc.c:73-85 | after detection on a complete, in-range colouring, exactly the listed vertices are uncoloured, the rest keep their colours, and no coloured vertex clashes |
| GreedyColouring.Detect | src/GreedyGraphColoring/pggc.c:73-85 | the listed vertices are exactly those the scan must flag (a neighbour shares the starting colour and is not a lower vertex already uncoloured), once each in ascending order; each had a clash in the starting colouring; exactly they are uncoloured; no coloured vertex still clashes |
| GreedyColouring.CollectClashes | src/GreedyGraphColoring/pggc.c:73-108 | after detection and the merge, `S[0..T[num_threads])` lists once each exactly the uncoloured vertices, which are those the flag rule picks; each clashed before, no coloured vertex clashes, and `T[thread_id]` equals `T[num_threads]` |
| GreedyColouring.ListIsForbidden | src/GreedyGraphColoring/pggc.c:116-120 | with exactly the listed vertices from position i on uncoloured, the colours marked for `S[i]` are those of its neighbours not listed at or after i |
| GreedyColouring.ListExtend | src/GreedyGraphColoring/pggc.c:113-134 | colouring `S[i]` with the first colour its earlier-coloured neighbours leave free extends the list-order first-fit prefix to i + 1 |
| GreedyColouring.ListStep | src/GreedyGraphColoring/pggc.c:116-126 | with exactly `S[i..]` uncoloured, giving `S[i]` its first free colour makes the first i + 1 listed vertices first-fit in list order |
| GreedyColouring.RecolourNext | src/GreedyGraphColoring/pggc.c:113-134 | one recolouring step keeps the colouring in range and proper among coloured vertices, leaves exactly the rest of the list uncoloured, and extends the list-order first-fit prefix |
| GreedyColouring.Recolour | src/GreedyGraphColoring/pggc.c:113-134 | each listed vertex, in list order, takes the smallest colour none of its neighbours holds at its turn (those outside the rest of the list); the colouring is then complete, in range and proper, and unlisted vertices are untouched |
| GreedyColouring.Recheck | src/GreedyGraphColoring/pggc.c:136-154 | `T[num_threads]` ends 0 exactly when no vertex shares its colour with a neighbour, and 1 otherwise |
| GreedyColouring.RepairRound | src/GreedyGraphColoring/pggc.c:69-156 | from any complete, in-range colouring, one round ends with a proper colouring and `T[num_threads] = 0`; `S[0..T[thread_id])` lists exactly the vertices the flag rule picks, each of which clashed; each takes the first colour free at its turn in the list, and every other vertex keeps its colour |
| GreedyColouring.Pggc | src/GreedyGraphColoring/pggc.c:21-157 | on a loop-free graph whose edges are listed both ways, the kernel ends with every vertex coloured in 1..min(n, neighbour count + 1), no two neighbours sharing a colour, each vertex holding the smallest colour none of its lower-numbered neighbours holds (the repair round changes nothing), and `T[num_threads] = 0` |
| ColouringFindings.LastSlotRead | src/GreedyGraphColoring/pggc.c:52-57 | the first-fit scan reads up to slot n exactly when colours 1..n-1 are all marked |
| ColouringFindings.ScratchOverrun | src/GreedyGraphColoring/pggc.c:24 | with one vertex and no edges, the scan already reads slot 1 = n |
| ColouringFindings.MarkedAsWritten | src/GreedyGraphColoring/pggc.c:116-119 | the slots the recolour marking writes include slot -1 exactly when some neighbour is uncoloured |
| ColouringFindings.RecolourOverrun | src/GreedyGraphColoring/pggc.c:113-119 | the path 1-2-3 is a valid, loop-free input with every edge listed both ways; with every vertex coloured 1, any outcome detection can reach lists exactly vertices 1 and 2 and leaves the colouring `[_, -1, -1, 1]`; recolouring 1 then writes slot -1 |
| ColouringFindings.PathFlags | src/GreedyGraphColoring/pggc.c:75-85 | on the path 1-2-3 coloured all 1, the flag rule picks vertices 1 and 2 and not vertex 3 |
| ColouringFindings.PathOutcome | src/GreedyGraphColoring/pggc.c:75-85 | on the path 1-2-3 coloured all 1, an increasing list that follows the flag rule is `[1, 2]`, the colouring left is `[_, -1, -1, 1]`, and vertex 1 then has an uncoloured neighbour |
| ColouringFindings.PathValid | src/GreedyGraphColoring/pggc.c:13-14 | the path 1-2-3 is a well-formed graph without self-loops |
| ColouringFindings.PathSymmetric | src/GreedyGraphColoring/pggc.c:14 | given that it is well formed, the path 1-2-3 lists every edge in both directions, as pggc.c:14 requires of `edges` |

## Left out

- The OpenMP machinery is not modelled: the `omp for` work sharing, the
  barriers, `single`, `critical`, and the thread numbers. Every kernel
  runs as a team of one. The merge for a whole team is proved only as
  `FrontierMerge.MergeTeam`, with the threads run in thread-id order; the
  kernels use `MergeOwn`.
- The data races of the parallel discovery (on `p` and `dist`) and of
  the parallel colouring (on `result`) do not arise under that schedule.
  They are not modelled.
- `malloc` and `free` become fresh arrays. The missing `free` in `pggc` is
  not modelled.
- The reset `local_num_w = 0` (src/BFS/pbfs.c:82, src/BFS/abfs.c:85) is
  implicit: every discovery round starts its count at 0.
- The kernels take the graph as given. `Graphs.Graph.Valid` states what
  the code indexes. The array-size comments in the headers (`ver` of
  length n) are not followed.
- GreedyColouring.Pggc: requires a loop-free graph whose edges are listed in
  both directions. With a self-loop a vertex always clashes with itself and
  the repair loop never ends. Without symmetry, recolouring can create new
  clashes.
- GreedyColouring.RepairRound: under the team-of-one schedule the first pass
  already yields a proper colouring, so the repair loop runs once and finds
  nothing. The round is proved for any complete, in-range starting
  colouring, such as a parallel first pass may leave.
- GreedyColouring.Pggc: models `local_c` with n + 1 slots and guards the
  recolour marking against uncoloured neighbours. The code as written
  indexes outside `local_c` in both places (see Findings).

## Findings

| source | as written | input that shows it | evidently intended | confidence | as-written member | corrected member |
|---|---|---|---|---|---|---|
| src/GreedyGraphColoring/pggc.c:24 | `local_c` is allocated with n slots, but the first-fit scan (lines 52-53, 121-122) reads slots 1..n | one vertex, no edges: colouring vertex 1 reads `local_c[1]`, one past the end | n + 1 slots, so that colours 1..n all have a slot | high (not executed) | ColouringFindings.ScratchOverrun | GreedyColouring.FirstFit |
| src/GreedyGraphColoring/pggc.c:118 | the recolour marking writes `local_c[result[w]]` without the `result[w] != -1` guard of lines 47 and 130 | path 1-2-3, every vertex coloured 1 (three threads colouring at once): vertices 1 and 2 are uncoloured and listed, so recolouring 1 writes `local_c[-1]` | skip uncoloured neighbours, as the first pass does | high (not executed) | ColouringFindings.RecolourOverrun | GreedyColouring.MarkForbidden |
