/**
 * What search builds: a set of matrix rows, each given by one of its nodes,
 * that covers every constraint column exactly once.  While search descends,
 * the chosen rows cover exactly the columns that are no longer in the header
 * ring, each once; when the ring is empty they form an exact cover.
 */
module ExactCover {
  import opened Indexing
  import opened MeshInvariant

  /** The headers of the columns in which the row of x has a node. */
  ghost function Heads(C: seq<int>, rows: seq<seq<int>>, rowOf: seq<int>, x: int): set<int> {
    set y | y in RowAt(rows, rowOf, x) && 0 <= y < |C| :: C[y]
  }

  /** Some chosen row has a node in the column of header h. */
  ghost predicate Claimed(C: seq<int>, rows: seq<seq<int>>, rowOf: seq<int>, chosen: seq<int>, h: int) {
    exists i :: 0 <= i < |chosen| && h in Heads(C, rows, rowOf, chosen[i])
  }

  /** No two chosen rows share a column. */
  ghost predicate Disjoint(C: seq<int>, rows: seq<seq<int>>, rowOf: seq<int>, chosen: seq<int>) {
    forall i, j :: 0 <= i < j < |chosen| ==> Heads(C, rows, rowOf, chosen[i]) !! Heads(C, rows, rowOf, chosen[j])
  }

  /** The chosen rows cover, each column at most once, exactly the columns whose headers left the ring. */
  ghost predicate Partial(C: seq<int>, rows: seq<seq<int>>, rowOf: seq<int>, chosen: seq<int>, ring: seq<int>) {
    Disjoint(C, rows, rowOf, chosen)
    && forall h {:trigger Claimed(C, rows, rowOf, chosen, h)} :: IsHeader(h) ==> (h in ring <==> !Claimed(C, rows, rowOf, chosen, h))
  }

  /** Every column has a node in exactly one chosen row. */
  ghost predicate IsExactCover(C: seq<int>, rows: seq<seq<int>>, rowOf: seq<int>, chosen: seq<int>) {
    Disjoint(C, rows, rowOf, chosen) && forall h {:trigger Claimed(C, rows, rowOf, chosen, h)} :: IsHeader(h) ==> Claimed(C, rows, rowOf, chosen, h)
  }

  /** Before any choice, every header is in the ring. */
  lemma PartialStart(C: seq<int>, rows: seq<seq<int>>, rowOf: seq<int>, ring: seq<int>)
    requires forall h :: IsHeader(h) ==> h in ring
    ensures Partial(C, rows, rowOf, [], ring)
  {
  }

  /**
   * Choosing the row of x, all of whose columns are in the ring, and covering
   * those columns keeps the chosen rows and the ring in step.
   */
  lemma PartialStep(C: seq<int>, rows: seq<seq<int>>, rowOf: seq<int>, chosen: seq<int>, ring: seq<int>, x: int, ring': seq<int>)
    requires Partial(C, rows, rowOf, chosen, ring)
    requires forall h :: h in Heads(C, rows, rowOf, x) ==> IsHeader(h) && h in ring
    requires forall h :: IsHeader(h) ==> (h in ring' <==> h in ring && h !in Heads(C, rows, rowOf, x))
    ensures Partial(C, rows, rowOf, chosen + [x], ring')
  {
    var chosen' := chosen + [x];
    forall i, j | 0 <= i < j < |chosen'|
      ensures Heads(C, rows, rowOf, chosen'[i]) !! Heads(C, rows, rowOf, chosen'[j])
    {
      if j == |chosen| {
        forall h | h in Heads(C, rows, rowOf, chosen'[i]) ensures h !in Heads(C, rows, rowOf, x) {
          assert chosen'[i] == chosen[i];
          assert Claimed(C, rows, rowOf, chosen, h);
        }
      } else {
        assert chosen'[i] == chosen[i] && chosen'[j] == chosen[j];
      }
    }
    forall h | IsHeader(h)
      ensures h in ring' <==> !Claimed(C, rows, rowOf, chosen', h)
    {
      if Claimed(C, rows, rowOf, chosen', h) {
        var i :| 0 <= i < |chosen'| && h in Heads(C, rows, rowOf, chosen'[i]);
        if i < |chosen| {
          assert chosen'[i] == chosen[i];
          assert Claimed(C, rows, rowOf, chosen, h);
        }
      } else {
        assert chosen'[|chosen|] == x;
        forall i | 0 <= i < |chosen| ensures h !in Heads(C, rows, rowOf, chosen[i]) {
          assert chosen'[i] == chosen[i];
        }
        assert !Claimed(C, rows, rowOf, chosen, h);
      }
    }
  }

  /** When the ring is empty the chosen rows are an exact cover. */
  lemma PartialDone(C: seq<int>, rows: seq<seq<int>>, rowOf: seq<int>, chosen: seq<int>)
    requires Partial(C, rows, rowOf, chosen, [])
    ensures IsExactCover(C, rows, rowOf, chosen)
  {
  }
}
