/** The merge step that all three kernels share: each thread publishes the
    number of entries in its private buffer into T[thread_id], computes the
    exclusive prefix sum of T over the lower thread ids, copies its buffer
    into the shared array S at that offset, and the last thread publishes
    the total into T[num_threads].

    The per-thread buffers are modelled as a sequence of sequences, one per
    thread, in thread-id order. */
module FrontierMerge {

  /** The kernels are modelled with a team of one thread. */
  const NumThreads: nat := 1
  const ThreadId: nat := 0

  /** The sum of a sequence of counts, accumulated front to back. */
  function Sum(s: seq<int>): int {
    if s == [] then 0 else Sum(s[..|s| - 1]) + s[|s| - 1]
  }

  /** The count each thread publishes: the length of its buffer. */
  function Lengths(bufs: seq<seq<int>>): seq<int> {
    seq(|bufs|, t requires 0 <= t < |bufs| => |bufs[t]|)
  }

  /** The number of entries in all buffers together. */
  function Total(bufs: seq<seq<int>>): nat {
    if bufs == [] then 0 else Total(bufs[..|bufs| - 1]) + |bufs[|bufs| - 1]|
  }

  /** The buffers laid end to end in thread-id order: the shared array
      after the merge. */
  function Flatten(bufs: seq<seq<int>>): (r: seq<int>)
    ensures |r| == Total(bufs)
  {
    if bufs == [] then [] else Flatten(bufs[..|bufs| - 1]) + bufs[|bufs| - 1]
  }

  /** Where thread t starts writing: the entries of threads 0..t-1. */
  function Offset(bufs: seq<seq<int>>, t: nat): nat
    requires t <= |bufs|
  {
    Total(bufs[..t])
  }

  /** The prefix sum a thread computes over the published counts is its
      offset. */
  lemma {:induction false} PrefixSumIsOffset(bufs: seq<seq<int>>, t: nat)
    requires t <= |bufs|
    ensures Sum(Lengths(bufs)[..t]) == Offset(bufs, t)
    decreases t
  {
    if t > 0 {
      PrefixSumIsOffset(bufs, t - 1);
      assert Lengths(bufs)[..t][..t - 1] == Lengths(bufs)[..t - 1];
      assert bufs[..t][..t - 1] == bufs[..t - 1];
    }
  }

  /** The total published by the last thread is the number of entries in
      all buffers. */
  lemma SumOfLengths(bufs: seq<seq<int>>)
    ensures Sum(Lengths(bufs)) == Total(bufs)
  {
    PrefixSumIsOffset(bufs, |bufs|);
    assert Lengths(bufs)[..|bufs|] == Lengths(bufs);
    assert bufs[..|bufs|] == bufs;
  }

  /** Thread t+1 starts where thread t ends. */
  lemma OffsetStep(bufs: seq<seq<int>>, t: nat)
    requires t < |bufs|
    ensures Offset(bufs, t + 1) == Offset(bufs, t) + |bufs[t]|
  {
    assert bufs[..t + 1][..t] == bufs[..t];
  }

  /** Offsets never decrease with the thread id and never pass the total. */
  lemma {:induction false} OffsetMonotone(bufs: seq<seq<int>>, t: nat, u: nat)
    requires t <= u <= |bufs|
    ensures Offset(bufs, t) <= Offset(bufs, u) <= Total(bufs)
    decreases |bufs| - t
  {
    if t < |bufs| {
      OffsetStep(bufs, t);
      if t < u {
        OffsetMonotone(bufs, t + 1, u);
      } else {
        OffsetMonotone(bufs, t + 1, |bufs|);
      }
    } else {
      assert bufs[..t] == bufs;
    }
  }

  /** Entry i of buffer t lands at position Offset(t) + i of the merged
      array. */
  lemma {:induction false} PlacedAtOffset(bufs: seq<seq<int>>, t: nat, i: nat)
    requires t < |bufs| && i < |bufs[t]|
    ensures Offset(bufs, t) + i < Total(bufs)
    ensures Flatten(bufs)[Offset(bufs, t) + i] == bufs[t][i]
    decreases |bufs|
  {
    var m := |bufs| - 1;
    var pre := bufs[..m];
    if t < m {
      assert pre[..t] == bufs[..t];
      PlacedAtOffset(pre, t, i);
    } else {
      assert bufs[..t] == pre;
    }
  }

  /** The target ranges of two different threads do not overlap, and every
      range lies inside [0, total). */
  lemma RangesDisjoint(bufs: seq<seq<int>>, t: nat, u: nat)
    requires t < u < |bufs|
    ensures Offset(bufs, t) + |bufs[t]| <= Offset(bufs, u)
    ensures Offset(bufs, u) + |bufs[u]| <= Total(bufs)
  {
    OffsetStep(bufs, t);
    OffsetStep(bufs, u);
    OffsetMonotone(bufs, t + 1, u);
    OffsetMonotone(bufs, u + 1, |bufs|);
  }

  /** The exclusive prefix sum of T[0..tid) that each thread computes
      before copying its buffer. */
  method PrefixSum(T: array<int>, tid: nat) returns (prefix: int)
    requires tid <= T.Length
    ensures prefix == Sum(T[..tid])
  {
    prefix := 0;
    for i := 0 to tid
      invariant prefix == Sum(T[..i])
    {
      assert T[..i + 1][..i] == T[..i];
      prefix := prefix + T[i];
    }
  }

  /** One thread's part of the merge, run after the barrier that follows
      the publication of every count: copy `local` (the valid prefix of the
      thread's buffer) to S at the prefix-sum offset; the last thread also
      publishes the total. */
  method MergeThread(S: array<int>, T: array<int>, tid: nat, nt: nat, local: seq<int>)
    requires S != T
    requires tid < nt < T.Length
    requires 0 <= Sum(T[..tid]) && Sum(T[..tid]) + |local| <= S.Length
    modifies S, T
    ensures forall k :: 0 <= k < |local| ==> S[Sum(old(T[..tid])) + k] == local[k]
    ensures forall k :: 0 <= k < S.Length && !(Sum(old(T[..tid])) <= k < Sum(old(T[..tid])) + |local|) ==>
              S[k] == old(S[k])
    ensures T[nt] == if tid == nt - 1 then Sum(old(T[..tid])) + |local| else old(T[nt])
    ensures forall k :: 0 <= k < T.Length && k != nt ==> T[k] == old(T[k])
  {
    var prefixSum := PrefixSum(T, tid);
    for i := 0 to |local|
      modifies S
      invariant forall k :: 0 <= k < i ==> S[prefixSum + k] == local[k]
      invariant forall k :: 0 <= k < S.Length && !(prefixSum <= k < prefixSum + i) ==> S[k] == old(S[k])
    {
      S[prefixSum + i] := local[i];
    }
    if tid == nt - 1 {
      prefixSum := prefixSum + |local|;
      T[nt] := prefixSum;
    }
  }

  /** The merge as the kernels run it with a team of one: the thread's
      buffer buf[0..count) becomes the shared array's prefix S[0..count),
      and T[num_threads] holds count. */
  method MergeOwn(S: array<int>, T: array<int>, buf: array<int>, count: int)
    requires S != T && buf != S && buf != T
    requires NumThreads < T.Length && 0 <= count <= buf.Length && count <= S.Length
    modifies S, T
    ensures S[..count] == buf[..count] && T[NumThreads] == count
    ensures forall k :: count <= k < S.Length ==> S[k] == old(S[k])
    ensures forall k :: 0 <= k < T.Length && k != NumThreads ==> T[k] == old(T[k])
  {
    assert T[..ThreadId] == [];
    MergeThread(S, T, ThreadId, NumThreads, buf[..count]);
  }

  /** The whole team's merge under a legal schedule: every thread publishes
      its count, then (after the barrier) the threads run MergeThread one
      after another in thread-id order. Buffer t ends up at Offset(bufs, t),
      so S starts with the buffers laid end to end and T[nt] holds the
      total. */
  method MergeTeam(S: array<int>, T: array<int>, bufs: seq<seq<int>>)
    requires S != T
    requires 1 <= |bufs| < T.Length
    requires Total(bufs) <= S.Length
    modifies S, T
    ensures T[..|bufs|] == Lengths(bufs)
    ensures T[|bufs|] == Total(bufs)
    ensures S[..Total(bufs)] == Flatten(bufs)
    ensures S[Total(bufs)..] == old(S[Total(bufs)..])
    ensures T[|bufs| + 1..] == old(T[|bufs| + 1..])
  {
    var nt := |bufs|;
    for t := 0 to nt
      modifies T
      invariant forall k :: 0 <= k < t ==> T[k] == |bufs[k]|
      invariant forall k :: t <= k < T.Length ==> T[k] == old(T[k])
    {
      T[t] := |bufs[t]|;
    }
    for t := 0 to nt
      invariant forall k :: 0 <= k < nt ==> T[k] == |bufs[k]|
      invariant Offset(bufs, t) <= Total(bufs)
      invariant forall k :: 0 <= k < Offset(bufs, t) ==> S[k] == Flatten(bufs)[k]
      invariant forall k :: Offset(bufs, t) <= k < S.Length ==> S[k] == old(S[k])
      invariant T[nt] == if t == nt then Total(bufs) else old(T[nt])
      invariant forall k :: nt < k < T.Length ==> T[k] == old(T[k])
    {
      assert T[..t] == Lengths(bufs)[..t];
      PrefixSumIsOffset(bufs, t);
      OffsetStep(bufs, t);
      OffsetMonotone(bufs, t + 1, nt);
      MergeThread(S, T, t, nt, bufs[t]);
      forall k | Offset(bufs, t) <= k < Offset(bufs, t + 1)
        ensures S[k] == Flatten(bufs)[k]
      {
        PlacedAtOffset(bufs, t, k - Offset(bufs, t));
      }
      if t == nt - 1 {
        assert bufs[..nt] == bufs;
      }
    }
    assert bufs[..nt] == bufs;
    assert T[..nt] == Lengths(bufs);
  }
}
