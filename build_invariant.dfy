/**
 * What holds while the mesh is being built.
 *
 * The builder first allocates the root and the column headers and links
 * them into the header ring.  It then walks the matrix row by row; for each
 * 1 it creates a data node, hangs it below the lowest node of the column and
 * links it after the node created before it in the same row.  A vertical
 * list stays open (the down link of its lowest node is NIL) until the last
 * pass closes every column into a ring; a row is closed into a ring as soon
 * as all its nodes exist.
 *
 * A partial mesh is described with the ghost lists of MeshInvariant: cols[h]
 * (the nodes of column h, top to bottom), rows[i] (the nodes of matrix row
 * i, left to right) and rowOf.  pat[i] lists the matrix columns of the 1s of
 * row i, left to right.
 */
module BuildInvariant {
  import opened Indexing
  import opened DancingLinks
  import opened MeshInvariant

  /** All column headers in column order: header h stands for matrix column h - 1. */
  function Headers(): (hs: seq<int>)
    ensures |hs| == COLUMNS && forall t :: 0 <= t < COLUMNS ==> hs[t] == t + 1
  {
    seq(COLUMNS, t => t + 1)
  }

  /**
   * xs is a doubly-linked list that is not yet closed: following next from
   * xs[t] gives xs[t + 1], prev goes back, and next of the last node is NIL.
   */
  ghost predicate Chain(next: seq<int>, prev: seq<int>, xs: seq<int>) {
    |xs| > 0
    && (forall t :: 0 <= t < |xs| ==> 0 <= xs[t] < |next| && xs[t] < |prev|)
    && (forall a, b :: 0 <= a < b < |xs| ==> xs[a] != xs[b])
    && (forall t :: 0 <= t < |xs| - 1 ==> next[xs[t]] == xs[t + 1] && prev[xs[t + 1]] == xs[t])
    && next[xs[|xs| - 1]] == NIL
  }

  /** A chain becomes a ring once its last node points at its first and back. */
  lemma ChainClose(next: seq<int>, prev: seq<int>, xs: seq<int>)
    requires Chain(next, prev, xs)
    ensures Ring(next[xs[|xs| - 1] := xs[0]], prev[xs[0] := xs[|xs| - 1]], xs)
  {
    var k := |xs| - 1;
    var next', prev' := next[xs[k] := xs[0]], prev[xs[0] := xs[k]];
    forall t | 0 <= t < k ensures next'[xs[t]] == xs[t + 1] && prev'[xs[t + 1]] == xs[t] {
      assert xs[t] != xs[k] && xs[t + 1] != xs[0];
    }
  }

  /** A fresh node n appended after the end of a chain extends it. */
  lemma ChainSnoc(next: seq<int>, prev: seq<int>, xs: seq<int>, n: int)
    requires Chain(next, prev, xs) && n == |next| == |prev|
    ensures Chain((next + [NIL])[xs[|xs| - 1] := n], (prev + [NIL])[n := xs[|xs| - 1]], xs + [n])
  {
    var k := |xs| - 1;
    var next', prev' := (next + [NIL])[xs[k] := n], (prev + [NIL])[n := xs[k]];
    var ys := xs + [n];
    forall t | 0 <= t < k ensures next'[ys[t]] == ys[t + 1] && prev'[ys[t + 1]] == ys[t] {
      assert xs[t] != xs[k];
    }
    assert next'[ys[k]] == ys[k + 1] && prev'[ys[k + 1]] == ys[k];
  }

  /** A chain only depends on the links of its own nodes. */
  lemma ChainKept(next: seq<int>, prev: seq<int>, next': seq<int>, prev': seq<int>, xs: seq<int>)
    requires Chain(next, prev, xs) && |next| <= |next'| && |prev| <= |prev'|
    requires forall t :: 0 <= t < |xs| ==> next'[xs[t]] == next[xs[t]] && prev'[xs[t]] == prev[xs[t]]
    ensures Chain(next', prev', xs)
  {
  }

  /** A ring only depends on the links of its own nodes. */
  lemma RingKept(next: seq<int>, prev: seq<int>, next': seq<int>, prev': seq<int>, xs: seq<int>)
    requires Ring(next, prev, xs) && |next| <= |next'| && |prev| <= |prev'|
    requires forall t :: 0 <= t < |xs| ==> next'[xs[t]] == next[xs[t]] && prev'[xs[t]] == prev[xs[t]]
    ensures Ring(next', prev', xs)
  {
  }

  /** The arena fields all have one entry per node. */
  ghost predicate Arena(m: Mesh) {
    |m.R| == |m.L| && |m.U| == |m.L| && |m.D| == |m.L| && |m.C| == |m.L|
  }

  /**
   * Column h: S[h] counts its nodes, which are data nodes headed by h, and
   * its vertical list is a ring once closed (h <= closed) and a chain from
   * h before.
   */
  ghost predicate ColumnAt(m: Mesh, col: seq<int>, h: int, closed: int) {
    0 <= h < |m.S| && m.S[h] == |col|
    && (forall t :: 0 <= t < |col| ==> COLUMNS < col[t] < |m.C| && m.C[col[t]] == h)
    && if h <= closed then Ring(m.D, m.U, [h] + col) else Chain(m.D, m.U, [h] + col)
  }

  /** row holds one data node per entry of ps, created for matrix row i in column ps[t]. */
  ghost predicate RowNodes(C: seq<int>, rowOf: seq<int>, row: seq<int>, ps: seq<int>, i: int) {
    |row| == |ps|
    && forall t :: 0 <= t < |row| ==> COLUMNS < row[t] < |C| && row[t] < |rowOf| && C[row[t]] == ps[t] + 1 && rowOf[row[t]] == i
  }

  /**
   * Row r while row i is being linked and the 1s at ps of it have their
   * nodes: the rows before i are complete rings, row i is an open chain
   * whose first node has no left link yet, the rows after i are empty.
   */
  ghost predicate RowAtStage(m: Mesh, rows: seq<seq<int>>, rowOf: seq<int>, pat: seq<seq<int>>, i: int, ps: seq<int>, r: int) {
    0 <= r < |rows| && r < |pat|
    && if r < i then RowNodes(m.C, rowOf, rows[r], pat[r], r) && (rows[r] != [] ==> Ring(m.R, m.L, rows[r]))
       else if r == i then RowNodes(m.C, rowOf, rows[r], ps, r) && (rows[r] != [] ==> Chain(m.R, m.L, rows[r]) && m.L[rows[r][0]] == NIL)
       else rows[r] == []
  }

  /** Data node x is in the row it was created for and in the column of its header. */
  ghost predicate Member(m: Mesh, cols: seq<seq<int>>, rows: seq<seq<int>>, rowOf: seq<int>, x: int) {
    0 <= x < |m.C| && x < |rowOf| && 0 <= rowOf[x] < |rows| && x in rows[rowOf[x]]
    && IsHeader(m.C[x]) && m.C[x] < |cols| && x in cols[m.C[x]]
  }

  /**
   * The mesh while row i is linked (the 1s at ps of it done) and, in the
   * last pass, once the columns up to header closed are closed: the header
   * ring is complete, each header heads its column, and every data node is
   * in its row and its column.
   */
  ghost predicate Building(m: Mesh, pat: seq<seq<int>>, cols: seq<seq<int>>, rows: seq<seq<int>>, rowOf: seq<int>,
                           i: int, ps: seq<int>, closed: int) {
    |m.L| > COLUMNS && Arena(m) && |m.S| == COLUMNS + 1 && |rowOf| == |m.L|
    && HeaderRing(m.R, m.L, Headers()) && (forall h :: IsHeader(h) ==> m.C[h] == h)
    && |cols| == COLUMNS + 1 && cols[0] == []
    && (forall h {:trigger ColumnAt(m, cols[h], h, closed)} :: IsHeader(h) ==> ColumnAt(m, cols[h], h, closed))
    && |rows| == |pat| && 0 <= i <= |pat|
    && (forall r {:trigger RowAtStage(m, rows, rowOf, pat, i, ps, r)} :: 0 <= r < |pat| ==> RowAtStage(m, rows, rowOf, pat, i, ps, r))
    && (forall x {:trigger Member(m, cols, rows, rowOf, x)} :: COLUMNS < x < |m.L| ==> Member(m, cols, rows, rowOf, x))
  }

  /** The root and the headers are allocated and linked, and nothing else. */
  ghost predicate HeadsBuilt(m: Mesh, info: seq<ColumnId>) {
    |m.L| == COLUMNS + 1 && Arena(m) && |m.S| == COLUMNS + 1 && |info| == COLUMNS + 1
    && HeaderRing(m.R, m.L, Headers())
    && forall h :: IsHeader(h) ==> m.C[h] == h && m.D[h] == NIL && m.S[h] == 0 && info[h] == CreateColumnId(h - 1)
  }

  /** Walking right along the complete header ring: from the root to header 1, and on to the next header or back to the root. */
  lemma HeaderNext(R: seq<int>, L: seq<int>, h: int)
    requires HeaderRing(R, L, Headers()) && 0 <= h <= COLUMNS
    ensures R[h] == if h < COLUMNS then h + 1 else 0
  {
    var xs := [0] + Headers();
    assert xs[h] == h;
    if h < COLUMNS {
      assert xs[h + 1] == h + 1;
    }
  }

  /** Before the first row, every column is an empty chain and every row is empty. */
  lemma StartBuilding(m: Mesh, info: seq<ColumnId>, pat: seq<seq<int>>)
    requires HeadsBuilt(m, info)
    ensures Building(m, pat, seq(COLUMNS + 1, _ => []), seq(|pat|, _ => []), seq(COLUMNS + 1, _ => NIL), 0, [], 0)
  {
    var cols: seq<seq<int>> := seq(COLUMNS + 1, _ => []);
    var rows: seq<seq<int>> := seq(|pat|, _ => []);
    var rowOf: seq<int> := seq(COLUMNS + 1, _ => NIL);
    forall h | IsHeader(h) ensures ColumnAt(m, cols[h], h, 0) {
      assert [h] + cols[h] == [h];
    }
    forall r | 0 <= r < |pat| ensures RowAtStage(m, rows, rowOf, pat, 0, [], r) {
    }
  }

  /**
   * The mesh once a new node n = |m.L| of header h has been allocated, hung
   * below x and linked after last (NIL when it is the first of its row).
   */
  function Added(m: Mesh, x: int, last: int, h: int): (m': Mesh)
    requires Arena(m) && 0 <= x < |m.L| && (last == NIL || 0 <= last < |m.L|) && 0 <= h < |m.S|
    ensures Arena(m') && |m'.L| == |m.L| + 1 && |m'.S| == |m.S|
  {
    var n := |m.L|;
    Mesh((m.L + [NIL])[n := last],
         if last == NIL then m.R + [NIL] else (m.R + [NIL])[last := n],
         (m.U + [NIL])[n := x],
         (m.D + [NIL])[x := n],
         (m.C + [NIL])[n := h],
         m.S[h := m.S[h] + 1])
  }

  /** The lowest node of column h: h itself when the column is empty. */
  function Lowest(col: seq<int>, h: int): int {
    if col == [] then h else col[|col| - 1]
  }

  /** The last node of a row so far, NIL when there is none. */
  function LastOf(row: seq<int>): int {
    if row == [] then NIL else row[|row| - 1]
  }

  /** The first node of a row so far, NIL when there is none. */
  function FirstOf(row: seq<int>): int {
    if row == [] then NIL else row[0]
  }

  /** The node x of column h is not a node of the list of any other header h'. */
  lemma OtherColumn(m: Mesh, cols: seq<seq<int>>, h: int, h': int, x: int, closed: int)
    requires IsHeader(h) && IsHeader(h') && h != h' && |m.C| == |m.L| > COLUMNS && m.C[h] == h && m.C[h'] == h'
    requires |cols| == COLUMNS + 1 && ColumnAt(m, cols[h], h, closed) && ColumnAt(m, cols[h'], h', closed) && x in [h] + cols[h]
    ensures x !in [h'] + cols[h']
  {
    if x != h {
      assert x in cols[h];
    }
  }

  /** Adding a node to the column of h extends that column by the node. */
  lemma AddedOwnColumn(m: Mesh, col: seq<int>, h: int, last: int)
    requires Arena(m) && |m.L| > COLUMNS && |m.S| == COLUMNS + 1 && IsHeader(h) && ColumnAt(m, col, h, 0)
    requires last == NIL || 0 <= last < |m.L|
    ensures ColumnAt(Added(m, Lowest(col, h), last, h), col + [|m.L|], h, 0)
  {
    var xs := [h] + col;
    assert Lowest(col, h) == xs[|xs| - 1];
    ChainSnoc(m.D, m.U, xs, |m.L|);
    assert xs + [|m.L|] == [h] + (col + [|m.L|]);
  }

  /** Adding a node to the column of h leaves the column of any other header h' as it was. */
  lemma AddedOtherColumn(m: Mesh, cols: seq<seq<int>>, h: int, h': int, last: int)
    requires Arena(m) && |m.L| > COLUMNS && |m.S| == COLUMNS + 1 && |cols| == COLUMNS + 1 && IsHeader(h) && IsHeader(h') && h != h'
    requires m.C[h] == h && m.C[h'] == h' && ColumnAt(m, cols[h], h, 0) && ColumnAt(m, cols[h'], h', 0)
    requires last == NIL || 0 <= last < |m.L|
    ensures ColumnAt(Added(m, Lowest(cols[h], h), last, h), cols[h'], h', 0)
  {
    var x := Lowest(cols[h], h);
    var xs := [h] + cols[h];
    assert x == xs[|xs| - 1];
    OtherColumn(m, cols, h, h', x, 0);
    var m' := Added(m, x, last, h);
    ChainKept(m.D, m.U, m'.D, m'.U, [h'] + cols[h']);
  }

  /** Adding a node after the last node of row i extends the open row i. */
  lemma AddedOwnRow(m: Mesh, pat: seq<seq<int>>, rows: seq<seq<int>>, rowOf: seq<int>, i: int, ps: seq<int>, j: int, x: int)
    requires Arena(m) && |m.L| > COLUMNS && |m.S| == COLUMNS + 1 && |rowOf| == |m.L| && 0 <= j < COLUMNS && 0 <= x < |m.L|
    requires RowAtStage(m, rows, rowOf, pat, i, ps, i)
    ensures RowAtStage(Added(m, x, LastOf(rows[i]), j + 1), rows[i := rows[i] + [|m.L|]], rowOf + [i], pat, i, ps + [j], i)
  {
    if rows[i] != [] {
      ChainSnoc(m.R, m.L, rows[i], |m.L|);
    }
  }

  /** Adding a node to row i leaves any other row r as it was. */
  lemma AddedOtherRow(m: Mesh, pat: seq<seq<int>>, rows: seq<seq<int>>, rowOf: seq<int>, i: int, ps: seq<int>, j: int, x: int, r: int)
    requires Arena(m) && |m.S| == COLUMNS + 1 && |rowOf| == |m.L| && 0 <= j < COLUMNS && 0 <= x < |m.L| && r != i
    requires RowAtStage(m, rows, rowOf, pat, i, ps, i) && RowAtStage(m, rows, rowOf, pat, i, ps, r)
    ensures RowAtStage(Added(m, x, LastOf(rows[i]), j + 1), rows[i := rows[i] + [|m.L|]], rowOf + [i], pat, i, ps + [j], r)
  {
    var last := LastOf(rows[i]);
    var m' := Added(m, x, last, j + 1);
    if r < i && rows[r] != [] {
      forall t | 0 <= t < |rows[r]| ensures rows[r][t] != last {
        if rows[i] != [] {
          assert rowOf[last] == i;
        }
      }
      RingKept(m.R, m.L, m'.R, m'.L, rows[r]);
    }
  }

  /** Adding a node keeps every data node in its row and column, and puts the new one in both. */
  lemma AddedMembers(m: Mesh, cols: seq<seq<int>>, rows: seq<seq<int>>, rowOf: seq<int>, i: int, h: int, x: int, last: int,
                      m': Mesh, cols': seq<seq<int>>, rows': seq<seq<int>>, rowOf': seq<int>)
    requires Arena(m) && |m.S| == COLUMNS + 1 && |rowOf| == |m.L| && |cols| == COLUMNS + 1 && 0 <= i < |rows|
    requires IsHeader(h) && 0 <= x < |m.L| && (last == NIL || 0 <= last < |m.L|)
    requires forall y {:trigger Member(m, cols, rows, rowOf, y)} :: COLUMNS < y < |m.L| ==> Member(m, cols, rows, rowOf, y)
    requires m' == Added(m, x, last, h) && cols' == cols[h := cols[h] + [|m.L|]]
    requires rows' == rows[i := rows[i] + [|m.L|]] && rowOf' == rowOf + [i]
    ensures forall y :: COLUMNS < y < |m'.L| ==> Member(m', cols', rows', rowOf', y)
  {
    var n := |m.L|;
    forall y | COLUMNS < y < n + 1 ensures Member(m', cols', rows', rowOf', y) {
      if y < n {
        assert Member(m, cols, rows, rowOf, y);
        assert y in rows'[rowOf'[y]] && y in cols'[m'.C[y]];
      } else {
        assert rows'[i] == rows[i] + [n] && cols'[h] == cols[h] + [n];
      }
    }
  }

  /** Adding a node keeps every column: its own grows by the node, the others stay. */
  lemma AddedColumns(m: Mesh, cols: seq<seq<int>>, h: int, last: int)
    requires Arena(m) && |m.L| > COLUMNS && |m.S| == COLUMNS + 1 && |cols| == COLUMNS + 1 && IsHeader(h)
    requires (forall g :: IsHeader(g) ==> m.C[g] == g) && ColumnAt(m, cols[h], h, 0)
    requires forall g {:trigger ColumnAt(m, cols[g], g, 0)} :: IsHeader(g) ==> ColumnAt(m, cols[g], g, 0)
    requires last == NIL || 0 <= last < |m.L|
    ensures var m' := Added(m, Lowest(cols[h], h), last, h);
            var cols' := cols[h := cols[h] + [|m.L|]];
            forall h' {:trigger ColumnAt(m', cols'[h'], h', 0)} :: IsHeader(h') ==> ColumnAt(m', cols'[h'], h', 0)
  {
    var m' := Added(m, Lowest(cols[h], h), last, h);
    var cols' := cols[h := cols[h] + [|m.L|]];
    forall h' | IsHeader(h') ensures ColumnAt(m', cols'[h'], h', 0) {
      assert ColumnAt(m, cols[h'], h', 0);
      if h' == h {
        AddedOwnColumn(m, cols[h], h, last);
      } else {
        AddedOtherColumn(m, cols, h, h', last);
      }
    }
  }

  /** Adding a node keeps every row: the open row i grows by the node, the others stay. */
  lemma AddedRows(m: Mesh, pat: seq<seq<int>>, rows: seq<seq<int>>, rowOf: seq<int>, i: int, ps: seq<int>, j: int, x: int)
    requires Arena(m) && |m.L| > COLUMNS && |m.S| == COLUMNS + 1 && |rowOf| == |m.L| && 0 <= j < COLUMNS && 0 <= x < |m.L|
    requires 0 <= i < |pat| && RowAtStage(m, rows, rowOf, pat, i, ps, i)
    requires forall r {:trigger RowAtStage(m, rows, rowOf, pat, i, ps, r)} :: 0 <= r < |pat| ==> RowAtStage(m, rows, rowOf, pat, i, ps, r)
    ensures var m' := Added(m, x, LastOf(rows[i]), j + 1);
            var rows', rowOf' := rows[i := rows[i] + [|m.L|]], rowOf + [i];
            forall r {:trigger RowAtStage(m', rows', rowOf', pat, i, ps + [j], r)} :: 0 <= r < |pat| ==> RowAtStage(m', rows', rowOf', pat, i, ps + [j], r)
  {
    var m' := Added(m, x, LastOf(rows[i]), j + 1);
    var rows', rowOf' := rows[i := rows[i] + [|m.L|]], rowOf + [i];
    forall r | 0 <= r < |pat| ensures RowAtStage(m', rows', rowOf', pat, i, ps + [j], r) {
      if r == i {
        AddedOwnRow(m, pat, rows, rowOf, i, ps, j, x);
      } else {
        assert RowAtStage(m, rows, rowOf, pat, i, ps, r);
        AddedOtherRow(m, pat, rows, rowOf, i, ps, j, x, r);
      }
    }
  }

  /** One step of the row loop: a new node for the 1 at column j of row i keeps the mesh being built. */
  lemma AddedKeeps(m: Mesh, pat: seq<seq<int>>, cols: seq<seq<int>>, rows: seq<seq<int>>, rowOf: seq<int>, i: int, ps: seq<int>, j: int)
    requires 0 <= i < |pat| && 0 <= j < COLUMNS && Building(m, pat, cols, rows, rowOf, i, ps, 0)
    requires ColumnAt(m, cols[j + 1], j + 1, 0) && RowAtStage(m, rows, rowOf, pat, i, ps, i)
    ensures var n := |m.L|;
            var h := j + 1;
            Building(Added(m, Lowest(cols[h], h), LastOf(rows[i]), h), pat, cols[h := cols[h] + [n]],
                     rows[i := rows[i] + [n]], rowOf + [i], i, ps + [j], 0)
  {
    var h := j + 1;
    var x := Lowest(cols[h], h);
    var last := LastOf(rows[i]);
    var m' := Added(m, x, last, h);
    AddedColumns(m, cols, h, last);
    AddedRows(m, pat, rows, rowOf, i, ps, j, x);
    AddedMembers(m, cols, rows, rowOf, i, h, x, last, m', cols[h := cols[h] + [|m.L|]], rows[i := rows[i] + [|m.L|]], rowOf + [i]);
    RingKept(m.R, m.L, m'.R, m'.L, [0] + Headers());
  }

  /** Closing row i into a ring, once all its nodes exist, moves the build on to row i + 1. */
  lemma RowCloses(m: Mesh, pat: seq<seq<int>>, cols: seq<seq<int>>, rows: seq<seq<int>>, rowOf: seq<int>, i: int)
    requires 0 <= i < |pat| && Building(m, pat, cols, rows, rowOf, i, pat[i], 0)
    requires RowAtStage(m, rows, rowOf, pat, i, pat[i], i) && rows[i] != []
    ensures var first, last := FirstOf(rows[i]), LastOf(rows[i]);
            Building(m.(R := m.R[last := first], L := m.L[first := last]), pat, cols, rows, rowOf, i + 1, [], 0)
  {
    var first, last := FirstOf(rows[i]), LastOf(rows[i]);
    var m' := m.(R := m.R[last := first], L := m.L[first := last]);
    RingKept(m.R, m.L, m'.R, m'.L, [0] + Headers());
    forall h | IsHeader(h) ensures ColumnAt(m', cols[h], h, 0) {
      assert ColumnAt(m, cols[h], h, 0);
    }
    var next, none: seq<int> := i + 1, [];
    forall r | 0 <= r < |pat| ensures RowAtStage(m', rows, rowOf, pat, next, none, r) {
      assert RowAtStage(m, rows, rowOf, pat, i, pat[i], r);
      if r < i && rows[r] != [] {
        forall t | 0 <= t < |rows[r]| ensures rows[r][t] != last && rows[r][t] != first {
          assert rowOf[last] == i && rowOf[first] == i;
        }
        RingKept(m.R, m.L, m'.R, m'.L, rows[r]);
      } else if r == i {
        ChainClose(m.R, m.L, rows[i]);
      }
    }
    forall y | COLUMNS < y < |m'.L| ensures Member(m', cols, rows, rowOf, y) {
      assert Member(m, cols, rows, rowOf, y);
    }
  }

  /** An empty row needs no closing: the build moves on to row i + 1. */
  lemma EmptyRowDone(m: Mesh, pat: seq<seq<int>>, cols: seq<seq<int>>, rows: seq<seq<int>>, rowOf: seq<int>, i: int)
    requires 0 <= i < |pat| && Building(m, pat, cols, rows, rowOf, i, pat[i], 0) && rows[i] == []
    ensures Building(m, pat, cols, rows, rowOf, i + 1, [], 0)
  {
    var next, none: seq<int> := i + 1, [];
    forall r | 0 <= r < |pat| ensures RowAtStage(m, rows, rowOf, pat, next, none, r) {
      assert RowAtStage(m, rows, rowOf, pat, i, pat[i], r);
    }
  }

  /** Closing column h into a ring: its lowest node points down at h, and h up at it. */
  lemma ColumnCloses(m: Mesh, pat: seq<seq<int>>, cols: seq<seq<int>>, rows: seq<seq<int>>, rowOf: seq<int>, h: int)
    requires IsHeader(h) && Building(m, pat, cols, rows, rowOf, |pat|, [], h - 1) && ColumnAt(m, cols[h], h, h - 1)
    ensures var x := Lowest(cols[h], h);
            Building(m.(D := m.D[x := h], U := m.U[h := x]), pat, cols, rows, rowOf, |pat|, [], h)
  {
    var x := Lowest(cols[h], h);
    var xs := [h] + cols[h];
    assert x == xs[|xs| - 1];
    var m' := m.(D := m.D[x := h], U := m.U[h := x]);
    forall h' | IsHeader(h') ensures ColumnAt(m', cols[h'], h', h) {
      assert ColumnAt(m, cols[h'], h', h - 1);
      if h' == h {
        ChainClose(m.D, m.U, xs);
      } else {
        OtherColumn(m, cols, h, h', x, h - 1);
        OtherColumn(m, cols, h, h', h, h - 1);
        if h' < h {
          RingKept(m.D, m.U, m'.D, m'.U, [h'] + cols[h']);
        } else {
          ChainKept(m.D, m.U, m'.D, m'.U, [h'] + cols[h']);
        }
      }
    }
    forall r | 0 <= r < |pat| ensures RowAtStage(m', rows, rowOf, pat, |pat|, [], r) {
      assert RowAtStage(m, rows, rowOf, pat, |pat|, [], r);
    }
    forall y | COLUMNS < y < |m'.L| ensures Member(m', cols, rows, rowOf, y) {
      assert Member(m, cols, rows, rowOf, y);
    }
  }

  /** Every row of pat is empty or four strictly increasing columns. */
  ghost predicate Fours(pat: seq<seq<int>>) {
    forall i :: 0 <= i < |pat| ==> pat[i] == [] || (|pat[i]| == 4 && forall a, b :: 0 <= a < b < 4 ==> pat[i][a] < pat[i][b])
  }

  /** The links of a node of a ring lead to nodes of the ring. */
  lemma RingLinks(next: seq<int>, prev: seq<int>, xs: seq<int>, y: int)
    requires Ring(next, prev, xs) && y in xs
    ensures next[y] in xs && prev[y] in xs
  {
    var t :| 0 <= t < |xs| && xs[t] == y;
    if t + 1 < |xs| {
      assert next[y] == xs[t + 1];
    }
    if t > 0 {
      assert prev[y] == xs[t - 1];
    }
  }

  /** The links of every node of the finished build lie in the arena. */
  lemma BuiltShaped(m: Mesh, pat: seq<seq<int>>, cols: seq<seq<int>>, rows: seq<seq<int>>, rowOf: seq<int>)
    requires Building(m, pat, cols, rows, rowOf, |pat|, [], COLUMNS)
    ensures Shaped(m)
  {
    var n := |m.L|;
    var ring := [0] + Headers();
    forall x | 0 <= x < n ensures 0 <= m.L[x] < n && 0 <= m.R[x] < n && (x > 0 ==> 0 <= m.U[x] < n && 0 <= m.D[x] < n && 1 <= m.C[x] <= COLUMNS) {
      if x <= COLUMNS {
        assert ring[x] == x;
        RingLinks(m.R, m.L, ring, x);
        if x > 0 {
          assert ColumnAt(m, cols[x], x, COLUMNS);
          RingLinks(m.D, m.U, [x] + cols[x], x);
        }
      } else {
        assert Member(m, cols, rows, rowOf, x);
        var r := rowOf[x];
        assert RowAtStage(m, rows, rowOf, pat, |pat|, [], r);
        RingLinks(m.R, m.L, rows[r], x);
        var h := m.C[x];
        assert ColumnAt(m, cols[h], h, COLUMNS);
        RingLinks(m.D, m.U, [h] + cols[h], x);
      }
    }
  }

  /** In the finished build, with every row of pat four columns or none, every row is a ring of four. */
  lemma BuiltRows(m: Mesh, pat: seq<seq<int>>, cols: seq<seq<int>>, rows: seq<seq<int>>, rowOf: seq<int>)
    requires Building(m, pat, cols, rows, rowOf, |pat|, [], COLUMNS) && |pat| == POSSIBILITIES && Fours(pat)
    ensures Rows(m.R, m.L, m.C, rows, rowOf)
  {
    forall i | 0 <= i < POSSIBILITIES ensures RowRing(m.R, m.L, m.C, rows[i], rowOf, i) {
      assert RowAtStage(m, rows, rowOf, pat, |pat|, [], i);
    }
  }

  /** In the finished build every node of a column is in its row, and every row met from a column is whole. */
  lemma BuiltLive(m: Mesh, pat: seq<seq<int>>, cols: seq<seq<int>>, rows: seq<seq<int>>, rowOf: seq<int>)
    requires Building(m, pat, cols, rows, rowOf, |pat|, [], COLUMNS)
    ensures Belongs(cols, rows, rowOf) && Live(m.C, Headers(), cols, rows, rowOf)
  {
    forall h, x | 0 <= h < |cols| && x in cols[h] ensures x in RowAt(rows, rowOf, x) {
      assert ColumnAt(m, cols[h], h, COLUMNS);
      assert Member(m, cols, rows, rowOf, x);
    }
    forall h, x | h in Headers() && 0 <= h < |cols| && x in cols[h] ensures LiveRow(m.C, Headers(), cols, RowAt(rows, rowOf, x)) {
      assert ColumnAt(m, cols[h], h, COLUMNS);
      assert Member(m, cols, rows, rowOf, x);
      var row := RowAt(rows, rowOf, x);
      assert RowAtStage(m, rows, rowOf, pat, |pat|, [], rowOf[x]);
      forall y | y in row ensures 0 <= y < |m.C| && m.C[y] in Headers() && 0 <= m.C[y] < |cols| && y in cols[m.C[y]] {
        assert Member(m, cols, rows, rowOf, y);
        assert Headers()[m.C[y] - 1] == m.C[y];
      }
    }
  }

  /**
   * The finished build, with every row of pat four columns or none, is the
   * mesh search starts from: all headers in the ring, and Inv.
   */
  lemma BuiltInv(m: Mesh, pat: seq<seq<int>>, cols: seq<seq<int>>, rows: seq<seq<int>>, rowOf: seq<int>)
    requires Building(m, pat, cols, rows, rowOf, |pat|, [], COLUMNS) && |pat| == POSSIBILITIES && Fours(pat)
    ensures Inv(m, Headers(), cols, rows, rowOf)
  {
    BuiltShaped(m, pat, cols, rows, rowOf);
    forall h | 1 <= h <= COLUMNS ensures ColumnRing(m.D, m.U, m.C, m.S, cols[h], h) {
      assert ColumnAt(m, cols[h], h, COLUMNS);
    }
    BuiltRows(m, pat, cols, rows, rowOf);
    BuiltLive(m, pat, cols, rows, rowOf);
  }

  /** The number of the first k rows of pat with a 1 in column j. */
  function Count(pat: seq<seq<int>>, j: int, k: int): nat
    requires 0 <= k <= |pat|
  {
    if k == 0 then 0 else Count(pat, j, k - 1) + (if j in pat[k - 1] then 1 else 0)
  }

  /**
   * While row i is linked (the 1s at ps of it done), column h holds one node
   * per 1 of matrix column h - 1 met so far.
   */
  ghost predicate Counted(cols: seq<seq<int>>, pat: seq<seq<int>>, i: int, ps: seq<int>) {
    |cols| == COLUMNS + 1 && 0 <= i <= |pat|
    && forall h :: IsHeader(h) ==> |cols[h]| == Count(pat, h - 1, i) + (if h - 1 in ps then 1 else 0)
  }

  /** Before any row, every column is empty. */
  lemma StartCounted(pat: seq<seq<int>>)
    ensures Counted(seq(COLUMNS + 1, _ => []), pat, 0, [])
  {
  }

  /** A node for a new 1 at column j of the current row grows column j + 1 by one. */
  lemma CountedAdd(cols: seq<seq<int>>, pat: seq<seq<int>>, i: int, ps: seq<int>, j: int, n: int)
    requires Counted(cols, pat, i, ps) && 0 <= j < COLUMNS && j !in ps
    ensures Counted(cols[j + 1 := cols[j + 1] + [n]], pat, i, ps + [j])
  {
    var cols' := cols[j + 1 := cols[j + 1] + [n]];
    forall h | IsHeader(h) ensures |cols'[h]| == Count(pat, h - 1, i) + (if h - 1 in ps + [j] then 1 else 0) {
      assert h - 1 in ps + [j] <==> h - 1 in ps || h - 1 == j;
    }
  }

  /** Once all the 1s of row i have their nodes, the count moves on to row i + 1. */
  lemma CountedRow(cols: seq<seq<int>>, pat: seq<seq<int>>, i: int)
    requires 0 <= i < |pat| && Counted(cols, pat, i, pat[i])
    ensures Counted(cols, pat, i + 1, [])
  {
  }
}
