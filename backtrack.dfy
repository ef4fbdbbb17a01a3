/**
 * The nested covers of search.  A state is a mesh with the ring and the
 * column lists it holds; covering a sequence of headers in turn gives a
 * sequence of states, and uncovering them in reverse order walks the same
 * states back.  The lemmas here are the facts about a chosen row that make
 * its covers well-defined.
 */
module Backtrack {
  import opened Indexing
  import opened DancingLinks
  import opened MeshInvariant
  import opened ExactCover

  /** A mesh together with the header ring and the column lists it holds. */
  datatype State = State(m: Mesh, ring: seq<int>, cols: seq<seq<int>>)

  /**
   * A guard that always holds.  Good states the mesh invariant under it, so
   * that the invariant is only unfolded where a proof asks for it (Unpack)
   * and not at every mention of a state.  It only controls unfolding: Unpack,
   * which instantiates it, does no proof work of its own.
   */
  ghost predicate Unseal(st: State, key: int) { true }

  /** st is well formed: its mesh satisfies Inv with its ring and column lists. */
  ghost predicate Good(st: State, rows: seq<seq<int>>, rowOf: seq<int>) {
    |st.cols| == COLUMNS + 1 && (forall h :: h in st.ring ==> IsHeader(h))
    && forall key {:trigger Unseal(st, key)} :: Unseal(st, key) ==> Inv(st.m, st.ring, st.cols, rows, rowOf)
  }

  /** The invariant of a well-formed state. */
  lemma Unpack(st: State, rows: seq<seq<int>>, rowOf: seq<int>)
    requires Good(st, rows, rowOf)
    ensures Inv(st.m, st.ring, st.cols, rows, rowOf)
  {
    assert Unseal(st, 0);
  }

  /** hs are distinct headers of ring. */
  ghost predicate Fresh(ring: seq<int>, hs: seq<int>) {
    (forall i :: 0 <= i < |hs| ==> hs[i] in ring) && forall i, j :: 0 <= i < j < |hs| ==> hs[i] != hs[j]
  }

  /** The nodes whose rows cover(h) takes out, in the order it visits them. */
  ghost function CoverOrderOf(st: State, rows: seq<seq<int>>, rowOf: seq<int>, h: int): seq<int>
    requires Good(st, rows, rowOf) && h in st.ring
  {
    Unpack(st, rows, rowOf);
    Order(st.m, st.ring, st.cols, rows, rowOf, h)
  }

  /** The state after cover(h): h leaves the ring, the cover order of h leaves the column lists. */
  ghost function CoverState(st: State, rows: seq<seq<int>>, rowOf: seq<int>, h: int): (st': State)
    requires Good(st, rows, rowOf) && h in st.ring
    ensures Good(st', rows, rowOf) && st'.m.C == st.m.C && st'.ring == Remove(st.ring, h)
    ensures |st'.ring| == |st.ring| - 1 && forall h' :: h' in st'.ring <==> h' in st.ring && h' != h
  {
    Unpack(st, rows, rowOf);
    var o := CoverOrderOf(st, rows, rowOf, h);
    CoverKeepsInv(st.m, st.ring, st.cols, rows, rowOf, h);
    RingDistinct(st, rows, rowOf);
    RemoveMembers(st.ring, h);
    State(CoverMesh(st.m, h, o), Remove(st.ring, h), RemoveAll(st.cols, st.m.C, o))
  }

  /** The ring of a well-formed mesh has no repeated header. */
  lemma RingDistinct(st: State, rows: seq<seq<int>>, rowOf: seq<int>)
    requires Good(st, rows, rowOf)
    ensures Distinct(st.ring)
  {
    Unpack(st, rows, rowOf);
    RingTailDistinct(st.m.R, st.m.L, 0, st.ring);
  }

  /**
   * The state after covering hs[0], ..., hs[t - 1] in turn: each cover
   * takes one more header out of the ring and keeps the mesh well formed.
   */
  ghost function CoverFirst(st: State, rows: seq<seq<int>>, rowOf: seq<int>, hs: seq<int>, t: int): (st': State)
    requires Good(st, rows, rowOf) && Fresh(st.ring, hs) && 0 <= t <= |hs|
    ensures Good(st', rows, rowOf) && st'.m.C == st.m.C && |st'.ring| == |st.ring| - t
    ensures forall h :: h in st'.ring <==> h in st.ring && h !in hs[..t]
    decreases t
  {
    if t == 0 then st
    else
      var p := CoverFirst(st, rows, rowOf, hs, t - 1);
      NextFresh(st.ring, p.ring, hs, t);
      CoverState(p, rows, rowOf, hs[t - 1])
  }

  /** Once hs[..t - 1] are covered, hs[t - 1] is still in the ring, and covering it leaves the rest. */
  lemma NextFresh(ring: seq<int>, ring': seq<int>, hs: seq<int>, t: int)
    requires Fresh(ring, hs) && 0 < t <= |hs|
    requires forall h :: h in ring' <==> h in ring && h !in hs[..t - 1]
    ensures hs[t - 1] in ring'
    ensures forall h :: h in ring' && h != hs[t - 1] <==> h in ring && h !in hs[..t]
  {
    assert hs[..t] == hs[..t - 1] + [hs[t - 1]];
    assert hs[t - 1] in ring;
    forall h ensures h in ring' && h != hs[t - 1] <==> h in ring && h !in hs[..t] {
      assert h in hs[..t] <==> h in hs[..t - 1] || h == hs[t - 1];
    }
  }

  /** The headers of the nodes os, in order. */
  function HeadsOf(C: seq<int>, os: seq<int>): (hs: seq<int>)
    requires forall t :: 0 <= t < |os| ==> 0 <= os[t] < |C|
    ensures |hs| == |os| && forall t :: 0 <= t < |os| ==> hs[t] == C[os[t]]
  {
    seq(|os|, t requires 0 <= t < |os| => C[os[t]])
  }

  /**
   * A node r of an active column c lies in a row of four nodes; the other
   * three lie in three further active columns, all different.
   */
  lemma ChosenRow(m: Mesh, ring: seq<int>, cols: seq<seq<int>>, rows: seq<seq<int>>, rowOf: seq<int>, c: int, r: int)
    requires Inv(m, ring, cols, rows, rowOf) && c in ring && r in cols[c]
    ensures r in RowAt(rows, rowOf, r) && 0 <= r < |m.C| && m.C[r] == c
    ensures var os := Others(RowAt(rows, rowOf, r), r);
            |os| == 3 && (forall t :: 0 <= t < |os| ==> COLUMNS < os[t] < |m.C|)
            && Fresh(Remove(ring, c), HeadsOf(m.C, os))
    ensures forall h :: h in Heads(m.C, rows, rowOf, r) <==> h == c || h in HeadsOf(m.C, Others(RowAt(rows, rowOf, r), r))
  {
    ActiveColumn(m, ring, cols, rows, rowOf, c);
    var row := RowAt(rows, rowOf, r);
    var os := Others(row, r);
    RowFrom(m.R, m.L, m.C, rows, rowOf, r);
    RingTailDistinct(m.R, m.L, r, os);
    assert RowRing(m.R, m.L, m.C, row, rowOf, rowOf[r]);
    forall t | 0 <= t < |os|
      ensures COLUMNS < os[t] < |m.C| && m.C[os[t]] in ring && m.C[os[t]] != c
    {
      assert os[t] in os;
      CoverNodeFacts(m, ring, cols, rows, rowOf, c, r, os[t]);
    }
    var hs := HeadsOf(m.C, os);
    forall i, j | 0 <= i < j < |hs| ensures hs[i] != hs[j] {
      assert os[i] in os && os[j] in os && os[i] != os[j];
      if hs[i] == hs[j] {
        SameRowSameColumn(m.R, m.L, m.C, row, rowOf, rowOf[r], os[i], os[j]);
      }
    }
    RingDistinct(State(m, ring, cols), rows, rowOf);
    RemoveMembers(ring, c);
    RowHeads(m.C, rows, rowOf, r);
  }

  /** The columns of the row of x: the column of x and those of the other nodes. */
  lemma RowHeads(C: seq<int>, rows: seq<seq<int>>, rowOf: seq<int>, x: int)
    requires x in RowAt(rows, rowOf, x) && 0 <= x < |C|
    requires forall y :: y in RowAt(rows, rowOf, x) ==> 0 <= y < |C|
    requires var os := Others(RowAt(rows, rowOf, x), x); forall t :: 0 <= t < |os| ==> 0 <= os[t] < |C|
    ensures var os := Others(RowAt(rows, rowOf, x), x);
            forall h :: h in Heads(C, rows, rowOf, x) <==> h == C[x] || h in HeadsOf(C, os)
  {
    var row := RowAt(rows, rowOf, x);
    var os := Others(row, x);
    OthersMembers(row, x);
    assert forall y :: y in os ==> y in row;
    var hs := HeadsOf(C, os);
    forall h ensures h in Heads(C, rows, rowOf, x) <==> h == C[x] || h in hs {
      if h in hs {
        var t :| 0 <= t < |hs| && hs[t] == h;
        assert os[t] in os;
      }
      if h in Heads(C, rows, rowOf, x) {
        var y :| y in row && 0 <= y < |C| && C[y] == h;
        if y != x {
          assert y in os + [x];
          var t :| 0 <= t < |os| && os[t] == y;
          assert hs[t] == h;
        }
      }
    }
  }

  /** The row of x, walked right and walked left from x, in a well-formed state. */
  lemma RowWalks(st: State, rows: seq<seq<int>>, rowOf: seq<int>, x: int)
    requires Good(st, rows, rowOf) && x in RowAt(rows, rowOf, x)
    ensures var os := Others(RowAt(rows, rowOf, x), x);
            Walk(st.m.R, x, os) && WalkBack(st.m.L, x, os)
  {
    Unpack(st, rows, rowOf);
    var os := Others(RowAt(rows, rowOf, x), x);
    RowFrom(st.m.R, st.m.L, st.m.C, rows, rowOf, x);
    RingWalk(st.m.R, st.m.L, x, os);
    RingWalkBack(st.m.R, st.m.L, x, os);
  }

  /**
   * A guard that always holds, for Covering as Unseal is for Good.  It only
   * controls unfolding: the `assert Recall(st, 0)` in the lemmas below only
   * instantiates it and is no proof work of its own.
   */
  ghost predicate Recall(st: State, key: int) { true }

  /**
   * st is the state once hs[..t] are covered in turn from st1, that is
   * CoverFirst(st1, rows, rowOf, hs, t); the equation is stated under the
   * guard Recall, and the facts the covers of search need are stated
   * outright.
   */
  ghost predicate Covering(st1: State, rows: seq<seq<int>>, rowOf: seq<int>, hs: seq<int>, t: int, st: State) {
    Good(st1, rows, rowOf) && Fresh(st1.ring, hs) && 0 <= t <= |hs| && Good(st, rows, rowOf) && st.m.C == st1.m.C
    && forall key {:trigger Recall(st, key)} :: Recall(st, key) ==> st == CoverFirst(st1, rows, rowOf, hs, t)
  }

  /** Before any cover, the state is the one search started from, and only that one. */
  lemma CoveringNone(st1: State, rows: seq<seq<int>>, rowOf: seq<int>, hs: seq<int>, st: State)
    requires Good(st1, rows, rowOf) && Fresh(st1.ring, hs)
    ensures Covering(st1, rows, rowOf, hs, 0, st) <==> st == st1
  {
    if Covering(st1, rows, rowOf, hs, 0, st) {
      assert Recall(st, 0);
    }
  }

  /** Round t of the covers: hs[t] is still in the ring, and covering it reaches round t + 1. */
  lemma CoveringNext(st1: State, rows: seq<seq<int>>, rowOf: seq<int>, hs: seq<int>, t: int, st: State)
    requires Covering(st1, rows, rowOf, hs, t, st) && t < |hs|
    ensures hs[t] in st.ring && Covering(st1, rows, rowOf, hs, t + 1, CoverState(st, rows, rowOf, hs[t]))
  {
    assert Recall(st, 0);
    NextFresh(st1.ring, st.ring, hs, t + 1);
  }

  /** Round t - 1 of the covers, seen from round t: the state before it, and hs[t - 1] covered from there. */
  lemma CoveringPrev(st1: State, rows: seq<seq<int>>, rowOf: seq<int>, hs: seq<int>, t: int, st: State) returns (p: State)
    requires Covering(st1, rows, rowOf, hs, t, st) && 0 < t
    ensures Covering(st1, rows, rowOf, hs, t - 1, p) && hs[t - 1] in p.ring && st == CoverState(p, rows, rowOf, hs[t - 1])
  {
    assert Recall(st, 0);
    p := CoverFirst(st1, rows, rowOf, hs, t - 1);
    NextFresh(st1.ring, p.ring, hs, t);
  }

  /** The state reached by all the covers has the ring Reaches names. */
  lemma CoveringReaches(st1: State, rows: seq<seq<int>>, rowOf: seq<int>, hs: seq<int>, st: State, ring: seq<int>)
    requires Covering(st1, rows, rowOf, hs, |hs|, st) && Reaches(st1, rows, rowOf, hs, ring)
    ensures st.ring == ring
  {
    assert Recall(st, 0);
    Reached(st1, rows, rowOf, hs, ring);
  }

  /**
   * A guard that always holds, for Reaches as Unseal is for Good.  It only
   * controls unfolding: `assert Reveal(ring, 0)` in Reached only instantiates
   * it and is no proof work of its own.
   */
  ghost predicate Reveal(ring: seq<int>, key: int) { true }

  /** ring is the header ring once hs are covered in turn from st. */
  ghost predicate Reaches(st: State, rows: seq<seq<int>>, rowOf: seq<int>, hs: seq<int>, ring: seq<int>) {
    Good(st, rows, rowOf) && Fresh(st.ring, hs) && |ring| == |st.ring| - |hs|
    && forall key {:trigger Reveal(ring, key)} :: Reveal(ring, key) ==> ring == CoverFirst(st, rows, rowOf, hs, |hs|).ring
  }

  /** The ring Reaches names. */
  lemma Reached(st: State, rows: seq<seq<int>>, rowOf: seq<int>, hs: seq<int>, ring: seq<int>)
    requires Reaches(st, rows, rowOf, hs, ring)
    ensures ring == CoverFirst(st, rows, rowOf, hs, |hs|).ring
  {
    assert Reveal(ring, 0);
  }

  /** A walk only depends on the links it follows. */
  lemma WalkFrame(next: seq<int>, next': seq<int>, x: int, os: seq<int>)
    requires Walk(next, x, os) && |next'| == |next|
    requires next'[x] == next[x] && forall t :: 0 <= t < |os| ==> next'[os[t]] == next[os[t]]
    ensures Walk(next', x, os)
  {
  }

  /** After cover(c), walking down from c still visits c's whole list. */
  lemma CoveredColumnWalk(m: Mesh, ring: seq<int>, cols: seq<seq<int>>, rows: seq<seq<int>>, rowOf: seq<int>, c: int)
    requires Inv(m, ring, cols, rows, rowOf) && c in ring
    ensures Walk(CoverMesh(m, c, Order(m, ring, cols, rows, rowOf, c)).D, c, cols[c])
  {
    var o := Order(m, ring, cols, rows, rowOf, c);
    var m1 := UnlinkH(m, c);
    CoverUnlinkable(m, ring, cols, rows, rowOf, c);
    ColumnWalk(m1, cols, o, c);
    UnlinkFirstAll(m1, o);
    var col := cols[c];
    ColumnUntouched(m1, cols, o, c, |o|, c);
    forall t | 0 <= t < |col| ensures UnlinkAll(m1, o).D[col[t]] == m1.D[col[t]] {
      assert col[t] in [c] + col;
      ColumnUntouched(m1, cols, o, c, |o|, col[t]);
    }
    WalkFrame(m1.D, UnlinkAll(m1, o).D, c, col);
  }

  /**
   * Choosing node r of the active column c extends a partial cover: once c
   * and the columns hs of r's other nodes are covered, the ring has lost
   * exactly r's four columns and the chosen rows plus r still cover every
   * column outside it once.
   */
  lemma BranchReady(st0: State, rows: seq<seq<int>>, rowOf: seq<int>, chosen: seq<int>, c: int, r: int)
    returns (os: seq<int>, hs: seq<int>, ring: seq<int>)
    requires Good(st0, rows, rowOf) && c in st0.ring && r in st0.cols[c]
    requires Partial(st0.m.C, rows, rowOf, chosen, st0.ring)
    ensures r in RowAt(rows, rowOf, r) && os == Others(RowAt(rows, rowOf, r), r)
    ensures (forall t :: 0 <= t < |os| ==> 0 <= os[t] < |st0.m.C|) && hs == HeadsOf(st0.m.C, os)
    ensures Reaches(CoverState(st0, rows, rowOf, c), rows, rowOf, hs, ring)
    ensures |ring| == |st0.ring| - 4 && Partial(st0.m.C, rows, rowOf, chosen + [r], ring)
  {
    Unpack(st0, rows, rowOf);
    ChosenRow(st0.m, st0.ring, st0.cols, rows, rowOf, c, r);
    os := Others(RowAt(rows, rowOf, r), r);
    hs := HeadsOf(st0.m.C, os);
    var st1 := CoverState(st0, rows, rowOf, c);
    var st := CoverFirst(st1, rows, rowOf, hs, |hs|);
    CoverAll(st1, rows, rowOf, hs);
    PartialChoose(st0.m.C, rows, rowOf, chosen, st0.ring, c, r, hs, st1.ring, st.ring);
    ring := st.ring;
  }

  /** Once all of hs are covered, the ring has lost exactly hs. */
  lemma CoverAll(st: State, rows: seq<seq<int>>, rowOf: seq<int>, hs: seq<int>)
    requires Good(st, rows, rowOf) && Fresh(st.ring, hs)
    ensures var st' := CoverFirst(st, rows, rowOf, hs, |hs|);
            |st'.ring| == |st.ring| - |hs| && forall h :: h in st'.ring <==> h in st.ring && h !in hs
  {
    assert hs[..|hs|] == hs;
  }

  /** The set reasoning of BranchReady: r's columns are c and hs, all active, and leave the ring together. */
  lemma PartialChoose(C: seq<int>, rows: seq<seq<int>>, rowOf: seq<int>, chosen: seq<int>, ring: seq<int>, c: int, r: int,
                      hs: seq<int>, ring1: seq<int>, ring2: seq<int>)
    requires Partial(C, rows, rowOf, chosen, ring) && c in ring && forall i :: 0 <= i < |ring| ==> IsHeader(ring[i])
    requires forall h :: h in Heads(C, rows, rowOf, r) <==> h == c || h in hs
    requires Fresh(ring1, hs) && forall h :: h in ring1 <==> h in ring && h != c
    requires forall h :: h in ring2 <==> h in ring1 && h !in hs
    ensures Partial(C, rows, rowOf, chosen + [r], ring2)
  {
    forall h | h in Heads(C, rows, rowOf, r) ensures IsHeader(h) && h in ring {
      if h != c {
        var t :| 0 <= t < |hs| && hs[t] == h;
      }
    }
    PartialStep(C, rows, rowOf, chosen, ring, r, ring2);
  }
}
