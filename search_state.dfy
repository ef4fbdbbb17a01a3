/**
 * The state search(k) works in and the result it reports, stated over the
 * ghost description of the mesh: how many rows are chosen, which columns
 * they take out of the header ring, and what a full solution is.
 */
module SearchState {
  import opened Indexing
  import opened MeshInvariant
  import opened ExactCover
  import opened SolutionGrid

  /**
   * The state search(k) runs in: k rows chosen so far, at sol[..k], each
   * taking four columns out of the ring; entries beyond k are left over
   * from earlier branches, and every entry is a node of a row.  Which
   * columns the chosen rows take is stated by Partial on sol[..k].
   */
  ghost predicate Depth(sol: seq<int>, k: int, ring: seq<int>, rows: seq<seq<int>>, rowOf: seq<int>) {
    0 <= k <= |sol| <= N * N && |ring| + 4 * k == COLUMNS && Chosen(rows, rowOf, sol)
  }

  /** A full solution: N² chosen rows, extending chosen, that cover every column exactly once. */
  ghost predicate Solved(C: seq<int>, last: seq<int>, chosen: seq<int>, rows: seq<seq<int>>, rowOf: seq<int>) {
    |last| == N * N && |chosen| <= |last| && last[..|chosen|] == chosen
    && Chosen(rows, rowOf, last) && Placed(rowOf, last) && IsExactCover(C, rows, rowOf, last)
  }

  /** Recording r at position k of a solution at depth k yields depth k + 1 once four columns leave the ring. */
  lemma PlaceDepth(s0: seq<int>, s1: seq<int>, k: int, r: int, ring: seq<int>, ring': seq<int>,
                   rows: seq<seq<int>>, rowOf: seq<int>)
    requires Depth(s0, k, ring, rows, rowOf) && r in RowAt(rows, rowOf, r) && |ring'| == |ring| - 4
    requires s1 == if k < |s0| then s0[k := r] else s0 + [r]
    ensures Depth(s1, k, ring, rows, rowOf) && Depth(s1, k + 1, ring', rows, rowOf)
    ensures s1[..k] == s0[..k] && s1[..k + 1] == s0[..k] + [r]
  {
    assert s1[..k] == s0[..k];
    assert s1[..k + 1] == s0[..k] + [r];
  }

  /** A solution extending chosen + [r] extends chosen. */
  lemma SolvedShrink(C: seq<int>, last: seq<int>, chosen: seq<int>, r: int, rows: seq<seq<int>>, rowOf: seq<int>)
    requires Solved(C, last, chosen + [r], rows, rowOf)
    ensures Solved(C, last, chosen, rows, rowOf)
  {
    assert last[..|chosen|] == last[..|chosen| + 1][..|chosen|];
  }

  /** Agreeing on the first k + 1 entries means agreeing on the first k and on entry k. */
  lemma PrefixShrink(a: seq<int>, b: seq<int>, k: int)
    requires 0 <= k < |a| && k < |b| && a[..k + 1] == b[..k + 1]
    ensures a[..k] == b[..k] && a[k] == b[k]
  {
    assert a[..k] == a[..k + 1][..k] && b[..k] == b[..k + 1][..k];
    assert a[k] == a[..k + 1][k] && b[k] == b[..k + 1][k];
  }
}
