/**
 * What the mesh means: the abstract lists its links encode, and how cover
 * changes them.
 *
 * A well-formed mesh is described by
 *  - ring: the active column headers, in order, walking right from the root;
 *  - cols: for each header h, the data nodes of its vertical list, walking
 *    down from h (cols[0] is unused);
 *  - rows: for each matrix row, the data nodes of its horizontal ring in
 *    column order, or [] when the row has no 1;
 *  - rowOf: the matrix row each data node was created for.
 * Cover never changes a left or right link of a data node, so the rows stay
 * as they were built; it removes nodes from cols and a header from ring.
 */
module MeshInvariant {
  import opened Indexing
  import opened DancingLinks

  predicate IsHeader(h: int) {
    1 <= h <= COLUMNS
  }

  ghost predicate Distinct(s: seq<int>) {
    forall i, j :: 0 <= i < j < |s| ==> s[i] != s[j]
  }

  /** Position of the first occurrence of x. */
  function IndexOf(s: seq<int>, x: int): (i: int)
    requires x in s
    ensures 0 <= i < |s| && s[i] == x && x !in s[..i]
  {
    if s[0] == x then 0 else 1 + IndexOf(s[1..], x)
  }

  /** s without its first occurrence of x. */
  function Remove(s: seq<int>, x: int): (r: seq<int>)
    ensures x in s ==> |r| == |s| - 1
    ensures x !in s ==> r == s
    ensures forall y :: y in r ==> y in s
  {
    if s == [] then []
    else if s[0] == x then s[1..]
    else
      assert s == [s[0]] + s[1..];
      [s[0]] + Remove(s[1..], x)
  }

  lemma {:induction false} RemoveMembers(s: seq<int>, x: int)
    requires Distinct(s)
    ensures Distinct(Remove(s, x))
    ensures forall y :: y in Remove(s, x) <==> y in s && y != x
  {
    if s != [] {
      assert Distinct(s[1..]) by {
        forall i, j | 0 <= i < j < |s[1..]| ensures s[1..][i] != s[1..][j] {
          assert s[1..][i] == s[i + 1] && s[1..][j] == s[j + 1];
        }
      }
      assert s[0] !in s[1..] by {
        forall i | 0 <= i < |s[1..]| ensures s[1..][i] != s[0] {
          assert s[1..][i] == s[i + 1];
        }
      }
      if s[0] != x {
        RemoveMembers(s[1..], x);
        var r := Remove(s[1..], x);
        assert Remove(s, x) == [s[0]] + r;
        forall i, j | 0 <= i < j < |[s[0]] + r| ensures ([s[0]] + r)[i] != ([s[0]] + r)[j] {
          if i == 0 {
            assert ([s[0]] + r)[j] == r[j - 1] && r[j - 1] in r;
          } else {
            assert ([s[0]] + r)[i] == r[i - 1] && ([s[0]] + r)[j] == r[j - 1];
          }
        }
      }
    }
  }

  /** The other nodes of the row ring of x, walking right from x. */
  function Others(row: seq<int>, x: int): (o: seq<int>)
    requires x in row
    ensures |o| == |row| - 1
  {
    var p := IndexOf(row, x);
    row[p + 1..] + row[..p]
  }

  /** Walking right from x visits Others(row, x) and comes back to x. */
  lemma OthersWalk(R: seq<int>, L: seq<int>, row: seq<int>, x: int)
    requires Ring(R, L, row) && x in row
    ensures Ring(R, L, Others(row, x) + [x])
    ensures forall y :: y in Others(row, x) <==> y in row && y != x
  {
    OthersRing(R, L, row, x);
    OthersMembers(row, x);
    RingLastNotBefore(R, L, Others(row, x), x);
  }

  /** The rotation of the row ring that starts just after x and ends at x. */
  lemma OthersRing(R: seq<int>, L: seq<int>, row: seq<int>, x: int)
    requires Ring(R, L, row) && x in row
    ensures Ring(R, L, Others(row, x) + [x])
  {
    var p := IndexOf(row, x);
    var o := Others(row, x);
    if p + 1 == |row| {
      assert o + [x] == row;
    } else {
      RingRotate(R, L, row, p + 1);
      assert o + [x] == row[p + 1..] + row[..p + 1];
    }
  }

  /** Others(row, x) and x make up the row. */
  lemma OthersMembers(row: seq<int>, x: int)
    requires x in row
    ensures forall y :: y in Others(row, x) + [x] <==> y in row
  {
    var p := IndexOf(row, x);
    assert row == row[..p] + [x] + row[p + 1..];
  }

  /** The last node of a ring does not occur before it. */
  lemma RingLastNotBefore(R: seq<int>, L: seq<int>, o: seq<int>, x: int)
    requires Ring(R, L, o + [x])
    ensures x !in o
  {
    assert forall t :: 0 <= t < |o| ==> o[t] == (o + [x])[t];
    assert (o + [x])[|o|] == x;
  }

  /** The header ring: the root followed by the active headers. */
  ghost predicate HeaderRing(R: seq<int>, L: seq<int>, ring: seq<int>) {
    Ring(R, L, [0] + ring) && forall i :: 0 <= i < |ring| ==> IsHeader(ring[i])
  }

  /** The vertical list of header h is the ring h, col[0], col[1], ... and h counts it. */
  ghost predicate ColumnRing(D: seq<int>, U: seq<int>, C: seq<int>, S: seq<int>, col: seq<int>, h: int) {
    Ring(D, U, [h] + col) && 0 <= h < |S| && S[h] == |col|
    && forall t :: 0 <= t < |col| ==> COLUMNS < col[t] < |C| && C[col[t]] == h
  }

  ghost predicate Columns(D: seq<int>, U: seq<int>, C: seq<int>, S: seq<int>, cols: seq<seq<int>>) {
    |cols| == COLUMNS + 1 && cols[0] == []
    && forall h {:trigger ColumnRing(D, U, C, S, cols[h], h)} :: 1 <= h <= COLUMNS ==> ColumnRing(D, U, C, S, cols[h], h)
  }

  /** Row i is empty, or a ring of four data nodes of row i in distinct columns. */
  ghost predicate RowRing(R: seq<int>, L: seq<int>, C: seq<int>, row: seq<int>, rowOf: seq<int>, i: int) {
    row == [] ||
    (Ring(R, L, row) && |row| == 4
     && (forall t :: 0 <= t < |row| ==> COLUMNS < row[t] < |C| && row[t] < |rowOf| && rowOf[row[t]] == i)
     && (forall a, b :: 0 <= a < b < |row| ==> C[row[a]] != C[row[b]]))
  }

  ghost predicate Rows(R: seq<int>, L: seq<int>, C: seq<int>, rows: seq<seq<int>>, rowOf: seq<int>) {
    |rows| == POSSIBILITIES
    && forall i {:trigger RowRing(R, L, C, rows[i], rowOf, i)} :: 0 <= i < POSSIBILITIES ==> RowRing(R, L, C, rows[i], rowOf, i)
  }

  /** The row ring node x was created in ([] for a node of no row). */
  function RowAt(rows: seq<seq<int>>, rowOf: seq<int>, x: int): seq<int> {
    if 0 <= x < |rowOf| && 0 <= rowOf[x] < |rows| then rows[rowOf[x]] else []
  }

  /** Every node of a vertical list belongs to the row it was created for. */
  ghost predicate Belongs(cols: seq<seq<int>>, rows: seq<seq<int>>, rowOf: seq<int>) {
    forall h, x :: 0 <= h < |cols| && x in cols[h] ==> x in RowAt(rows, rowOf, x)
  }

  /**
   * A row still reachable from an active column is whole: each of its nodes
   * is in the vertical list of an active column.
   */
  ghost predicate Live(C: seq<int>, ring: seq<int>, cols: seq<seq<int>>, rows: seq<seq<int>>, rowOf: seq<int>) {
    forall h, x :: h in ring && 0 <= h < |cols| && x in cols[h] ==> LiveRow(C, ring, cols, RowAt(rows, rowOf, x))
  }

  /** Each node of row is in the vertical list of an active column. */
  ghost predicate LiveRow(C: seq<int>, ring: seq<int>, cols: seq<seq<int>>, row: seq<int>) {
    forall y {:trigger y in row} :: y in row ==> 0 <= y < |C| && C[y] in ring && 0 <= C[y] < |cols| && y in cols[C[y]]
  }

  /** The mesh holds the ring, the columns and the rows. */
  ghost predicate Inv(m: Mesh, ring: seq<int>, cols: seq<seq<int>>, rows: seq<seq<int>>, rowOf: seq<int>) {
    Shaped(m) && HeaderRing(m.R, m.L, ring) && Columns(m.D, m.U, m.C, m.S, cols)
    && Rows(m.R, m.L, m.C, rows, rowOf) && |rowOf| == |m.L|
    && Belongs(cols, rows, rowOf) && Live(m.C, ring, cols, rows, rowOf)
  }

  /** Distinct nodes of one row lie in distinct columns. */
  lemma SameRowSameColumn(R: seq<int>, L: seq<int>, C: seq<int>, row: seq<int>, rowOf: seq<int>, i: int, x: int, y: int)
    requires RowRing(R, L, C, row, rowOf, i) && x in row && y in row
    requires C[x] == C[y]
    ensures x == y
  {
    var a :| 0 <= a < |row| && row[a] == x;
    var b :| 0 <= b < |row| && row[b] == y;
  }

  /** The nodes of col, with the row each belongs to. */
  ghost predicate InRows(col: seq<int>, rows: seq<seq<int>>, rowOf: seq<int>) {
    forall t :: 0 <= t < |col| ==> col[t] in RowAt(rows, rowOf, col[t])
  }

  /**
   * The order in which cover unlinks nodes: for each node of the column,
   * top to bottom, the other nodes of its row, left to right.
   */
  ghost function CoverOrder(col: seq<int>, rows: seq<seq<int>>, rowOf: seq<int>): seq<int>
    requires InRows(col, rows, rowOf)
    decreases |col|
  {
    if col == [] then []
    else
      var x := col[|col| - 1];
      assert InRows(col[..|col| - 1], rows, rowOf);
      CoverOrder(col[..|col| - 1], rows, rowOf) + Others(RowAt(rows, rowOf, x), x)
  }

  /** The order of a longer prefix of the column extends that of a shorter one. */
  lemma CoverOrderSnoc(col: seq<int>, rows: seq<seq<int>>, rowOf: seq<int>, i: int)
    requires InRows(col, rows, rowOf) && 0 <= i < |col|
    ensures InRows(col[..i], rows, rowOf) && InRows(col[..i + 1], rows, rowOf)
    ensures CoverOrder(col[..i + 1], rows, rowOf)
            == CoverOrder(col[..i], rows, rowOf) + Others(RowAt(rows, rowOf, col[i]), col[i])
  {
    assert col[..i + 1][..i] == col[..i];
    assert InRows(col[..i], rows, rowOf);
    assert InRows(col[..i + 1], rows, rowOf);
  }

  /** Removal of the nodes xs, each from the list of its own column. */
  function RemoveAll(cols: seq<seq<int>>, C: seq<int>, xs: seq<int>): (r: seq<seq<int>>)
    requires forall t :: 0 <= t < |xs| ==> 0 <= xs[t] < |C| && 0 <= C[xs[t]] < |cols|
    ensures |r| == |cols|
    decreases |xs|
  {
    if xs == [] then cols
    else
      var ys := RemoveAll(cols, C, xs[..|xs| - 1]);
      var x := xs[|xs| - 1];
      ys[C[x] := Remove(ys[C[x]], x)]
  }

  lemma RemoveAllSnoc(cols: seq<seq<int>>, C: seq<int>, xs: seq<int>, p: int)
    requires forall t :: 0 <= t < |xs| ==> 0 <= xs[t] < |C| && 0 <= C[xs[t]] < |cols|
    requires 0 <= p < |xs|
    ensures var ys := RemoveAll(cols, C, xs[..p]);
            RemoveAll(cols, C, xs[..p + 1]) == ys[C[xs[p]] := Remove(ys[C[xs[p]]], xs[p])]
  {
    assert xs[..p + 1][..p] == xs[..p];
  }

  /** A node stays in a column list unless it was removed from that column. */
  lemma {:induction false} RemoveAllMembers(cols: seq<seq<int>>, C: seq<int>, xs: seq<int>, h: int)
    requires forall t :: 0 <= t < |xs| ==> 0 <= xs[t] < |C| && 0 <= C[xs[t]] < |cols|
    requires 0 <= h < |cols| && Distinct(cols[h])
    ensures Distinct(RemoveAll(cols, C, xs)[h])
    ensures forall y :: y in RemoveAll(cols, C, xs)[h]
                        <==> y in cols[h] && !(y in xs && 0 <= y < |C| && C[y] == h)
    decreases |xs|
  {
    if xs != [] {
      var xs' := xs[..|xs| - 1];
      var x := xs[|xs| - 1];
      RemoveAllMembers(cols, C, xs', h);
      var ys := RemoveAll(cols, C, xs');
      assert forall y :: y in xs <==> y in xs' || y == x;
      if C[x] == h {
        RemoveMembers(ys[h], x);
      }
    }
  }

  /** The rings of two different headers share no node. */
  lemma ColumnsDisjoint(D: seq<int>, U: seq<int>, C: seq<int>, S: seq<int>, cols: seq<seq<int>>, h: int, h': int, y: int)
    requires Columns(D, U, C, S, cols) && IsHeader(h) && IsHeader(h') && h != h'
    requires y in [h] + cols[h]
    ensures y !in [h'] + cols[h']
  {
    assert ColumnRing(D, U, C, S, cols[h], h) && ColumnRing(D, U, C, S, cols[h'], h');
    assert forall t :: 0 <= t < |cols[h]| ==> COLUMNS < cols[h][t] < |C| && C[cols[h][t]] == h;
    assert forall t :: 0 <= t < |cols[h']| ==> COLUMNS < cols[h'][t] < |C| && C[cols[h'][t]] == h';
  }

  /** The tail of a ring is distinct. */
  lemma RingTailDistinct(next: seq<int>, prev: seq<int>, h: int, col: seq<int>)
    requires Ring(next, prev, [h] + col)
    ensures Distinct(col) && h !in col
  {
    assert forall t :: 0 <= t < |col| ==> col[t] == ([h] + col)[t + 1];
  }

  /** The field writes of UnlinkV, when x is not its own down neighbour. */
  lemma UnlinkVFields(m: Mesh, x: int)
    requires Shaped(m) && 0 < x < |m.L| && m.D[x] != x
    ensures var m' := UnlinkV(m, x);
            m'.U == m.U[m.D[x] := m.U[x]] && m'.D == m.D[m.U[x] := m.D[x]]
            && m'.S == m.S[m.C[x] := m.S[m.C[x]] - 1] && m'.C == m.C
  {
  }

  /** In a list without repetition, x is removed at its unique position. */
  lemma {:induction false} RemoveAt(s: seq<int>, k: int)
    requires Distinct(s) && 0 <= k < |s|
    ensures Remove(s, s[k]) == s[..k] + s[k + 1..]
    decreases k
  {
    if k > 0 {
      assert s[0] != s[k];
      assert Distinct(s[1..]) by {
        forall i, j | 0 <= i < j < |s[1..]| ensures s[1..][i] != s[1..][j] {
          assert s[1..][i] == s[i + 1] && s[1..][j] == s[j + 1];
        }
      }
      assert s[1..][k - 1] == s[k];
      RemoveAt(s[1..], k - 1);
      assert s[..k] == [s[0]] + s[1..][..k - 1];
      assert s[k + 1..] == s[1..][k..];
    }
  }

  /** Taking col[k] out of the ring h, col[0], col[1], ... */
  lemma RingRemoveTail(next: seq<int>, prev: seq<int>, h: int, col: seq<int>, k: int)
    requires Ring(next, prev, [h] + col) && 0 <= k < |col|
    ensures var x := col[k];
            0 <= x < |next| && x < |prev|
            && prev[x] in [h] + col && next[x] in [h] + col
            && next[x] != x && prev[next[x]] == x && next[prev[x]] == x
            && Ring(next[prev[x] := next[x]], prev[next[x] := prev[x]], [h] + (col[..k] + col[k + 1..]))
  {
    var xs := [h] + col;
    assert xs[k + 1] == col[k];
    RingRemove(next, prev, xs, k + 1);
    assert xs[..k + 1] + xs[k + 2..] == [h] + (col[..k] + col[k + 1..]);
  }

  /** The column of x, after unlinking x, is the ring without x. */
  lemma UnlinkVOwnColumn(m: Mesh, cols: seq<seq<int>>, x: int)
    requires Shaped(m) && Columns(m.D, m.U, m.C, m.S, cols)
    requires COLUMNS < x < |m.L| && x in cols[m.C[x]]
    ensures m.U[m.D[x]] == x && m.D[m.U[x]] == x && m.D[x] != x
    ensures m.U[x] in [m.C[x]] + cols[m.C[x]] && m.D[x] in [m.C[x]] + cols[m.C[x]]
    ensures var m' := UnlinkV(m, x);
            ColumnRing(m'.D, m'.U, m'.C, m'.S, Remove(cols[m.C[x]], x), m.C[x])
  {
    var h := m.C[x];
    var col := cols[h];
    assert ColumnRing(m.D, m.U, m.C, m.S, col, h);
    var k := IndexOf(col, x);
    RingRemoveTail(m.D, m.U, h, col, k);
    RingTailDistinct(m.D, m.U, h, col);
    RemoveAt(col, k);
    RemoveMembers(col, x);
    UnlinkVFields(m, x);
    var col' := Remove(col, x);
    forall t | 0 <= t < |col'| ensures COLUMNS < col'[t] < |m.C| && m.C[col'[t]] == h {
      assert col'[t] in col;
    }
  }

  /** Unlinking x leaves the ring of every other column as it was. */
  lemma UnlinkVOtherColumn(m: Mesh, cols: seq<seq<int>>, x: int, h': int)
    requires Shaped(m) && Columns(m.D, m.U, m.C, m.S, cols)
    requires COLUMNS < x < |m.L| && x in cols[m.C[x]]
    requires IsHeader(h') && h' != m.C[x]
    ensures var m' := UnlinkV(m, x);
            ColumnRing(m'.D, m'.U, m'.C, m'.S, cols[h'], h')
  {
    var h := m.C[x];
    UnlinkVOwnColumn(m, cols, x);
    UnlinkVFields(m, x);
    assert ColumnRing(m.D, m.U, m.C, m.S, cols[h'], h');
    ColumnsDisjoint(m.D, m.U, m.C, m.S, cols, h, h', m.U[x]);
    ColumnsDisjoint(m.D, m.U, m.C, m.S, cols, h, h', m.D[x]);
    RingFrame(m.D, m.U, [h'] + cols[h'], m.U[x], m.D[x], m.D[x], m.U[x]);
  }

  /**
   * Unlinking a present node x from its vertical list: x was linked to its
   * neighbours, the list of its column loses x, and no other ring changes.
   */
  lemma UnlinkVStep(m: Mesh, cols: seq<seq<int>>, x: int)
    requires Shaped(m) && Columns(m.D, m.U, m.C, m.S, cols)
    requires COLUMNS < x < |m.L| && x in cols[m.C[x]]
    ensures m.U[m.D[x]] == x && m.D[m.U[x]] == x
    ensures var m' := UnlinkV(m, x);
            var h := m.C[x];
            Columns(m'.D, m'.U, m'.C, m'.S, cols[h := Remove(cols[h], x)])
            && (forall y :: 0 <= y < |m.L| && y !in [h] + cols[h] ==> m'.U[y] == m.U[y] && m'.D[y] == m.D[y])
  {
    var h := m.C[x];
    UnlinkVOwnColumn(m, cols, x);
    UnlinkVFields(m, x);
    var m' := UnlinkV(m, x);
    var cols' := cols[h := Remove(cols[h], x)];
    forall h' | 1 <= h' <= COLUMNS ensures ColumnRing(m'.D, m'.U, m'.C, m'.S, cols'[h'], h') {
      if h' != h {
        UnlinkVOtherColumn(m, cols, x, h');
      }
    }
  }

  /** The nodes of one row share its ring. */
  lemma RowAtShared(R: seq<int>, L: seq<int>, C: seq<int>, rows: seq<seq<int>>, rowOf: seq<int>, x: int, y: int)
    requires Rows(R, L, C, rows, rowOf) && x in RowAt(rows, rowOf, x)
    ensures RowRing(R, L, C, RowAt(rows, rowOf, x), rowOf, rowOf[x]) && Ring(R, L, RowAt(rows, rowOf, x))
    ensures y in RowAt(rows, rowOf, x) ==> RowAt(rows, rowOf, y) == RowAt(rows, rowOf, x)
  {
    var row := RowAt(rows, rowOf, x);
    assert RowRing(R, L, C, rows[rowOf[x]], rowOf, rowOf[x]);
    if y in row {
      var t :| 0 <= t < |row| && row[t] == y;
    }
  }

  /** Two nodes of one column lie in different rows unless they are the same node. */
  lemma ColumnRowsDiffer(R: seq<int>, L: seq<int>, C: seq<int>, rows: seq<seq<int>>, rowOf: seq<int>, x: int, z: int)
    requires Rows(R, L, C, rows, rowOf) && x in RowAt(rows, rowOf, x) && z in RowAt(rows, rowOf, z)
    requires 0 <= x < |C| && 0 <= z < |C|
    ensures C[x] == C[z] && RowAt(rows, rowOf, x) == RowAt(rows, rowOf, z) ==> x == z
  {
    RowAtShared(R, L, C, rows, rowOf, x, z);
    if C[x] == C[z] && RowAt(rows, rowOf, x) == RowAt(rows, rowOf, z) {
      SameRowSameColumn(R, L, C, RowAt(rows, rowOf, x), rowOf, rowOf[x], x, z);
    }
  }

  /** Concatenating disjoint lists without repetition gives a list without repetition. */
  lemma DistinctConcat(a: seq<int>, b: seq<int>)
    requires Distinct(a) && Distinct(b) && forall y, z :: y in a && z in b ==> y != z
    ensures Distinct(a + b)
  {
    var ab := a + b;
    forall j, k | 0 <= j < k < |ab| ensures ab[j] != ab[k] {
      if k < |a| {
        assert ab[j] == a[j] && ab[k] == a[k];
      } else if j >= |a| {
        assert ab[j] == b[j - |a|] && ab[k] == b[k - |a|];
      } else {
        assert ab[j] == a[j] && ab[k] == b[k - |a|];
        assert a[j] in a && b[k - |a|] in b;
      }
    }
  }

  /** The hypotheses on a column under which its cover order is studied. */
  ghost predicate OrderedColumn(R: seq<int>, L: seq<int>, C: seq<int>, rows: seq<seq<int>>, rowOf: seq<int>,
                                col: seq<int>, c: int) {
    Rows(R, L, C, rows, rowOf) && InRows(col, rows, rowOf) && Distinct(col)
    && forall t :: 0 <= t < |col| ==> 0 <= col[t] < |C| && C[col[t]] == c
  }

  /** The other nodes of the rows of col[..i]. */
  ghost predicate InOrderOf(rows: seq<seq<int>>, rowOf: seq<int>, col: seq<int>, i: int, y: int)
    requires 0 <= i <= |col|
  {
    exists t :: 0 <= t < i && y in RowAt(rows, rowOf, col[t]) && y != col[t]
  }

  /** The rows of the first i - 1 nodes share no node with the row of node i - 1. */
  lemma CoverOrderDisjoint(R: seq<int>, L: seq<int>, C: seq<int>, rows: seq<seq<int>>, rowOf: seq<int>,
                           col: seq<int>, c: int, i: int, a: seq<int>, b: seq<int>)
    requires OrderedColumn(R, L, C, rows, rowOf, col, c) && 0 < i <= |col|
    requires forall y :: y in a ==> InOrderOf(rows, rowOf, col, i - 1, y)
    requires col[i - 1] in RowAt(rows, rowOf, col[i - 1])
    requires b == Others(RowAt(rows, rowOf, col[i - 1]), col[i - 1])
    ensures forall y, z :: y in a && z in b ==> y != z
  {
    var x := col[i - 1];
    RowAtShared(R, L, C, rows, rowOf, x, x);
    OthersWalk(R, L, RowAt(rows, rowOf, x), x);
    forall y, z | y in a && z in b ensures y != z {
      assert InOrderOf(rows, rowOf, col, i - 1, y);
      var t :| 0 <= t < i - 1 && y in RowAt(rows, rowOf, col[t]) && y != col[t];
      assert col[t] in RowAt(rows, rowOf, col[t]);
      RowAtShared(R, L, C, rows, rowOf, col[t], y);
      RowAtShared(R, L, C, rows, rowOf, x, z);
      ColumnRowsDiffer(R, L, C, rows, rowOf, col[t], x);
      assert col[t] != x;
    }
  }

  /** Membership in the order of one more node of the column. */
  lemma CoverOrderGrow(R: seq<int>, L: seq<int>, C: seq<int>, rows: seq<seq<int>>, rowOf: seq<int>,
                       col: seq<int>, c: int, i: int, a: seq<int>)
    requires OrderedColumn(R, L, C, rows, rowOf, col, c) && 0 < i <= |col|
    requires forall y :: y in a <==> InOrderOf(rows, rowOf, col, i - 1, y)
    requires col[i - 1] in RowAt(rows, rowOf, col[i - 1])
    ensures forall y :: y in a + Others(RowAt(rows, rowOf, col[i - 1]), col[i - 1]) <==> InOrderOf(rows, rowOf, col, i, y)
  {
    var x := col[i - 1];
    var b := Others(RowAt(rows, rowOf, x), x);
    RowAtShared(R, L, C, rows, rowOf, x, x);
    OthersWalk(R, L, RowAt(rows, rowOf, x), x);
    forall y ensures y in a + b <==> InOrderOf(rows, rowOf, col, i, y) {
      if y in b {
        assert y in RowAt(rows, rowOf, col[i - 1]) && y != col[i - 1];
      }
      if InOrderOf(rows, rowOf, col, i, y) {
        var t :| 0 <= t < i && y in RowAt(rows, rowOf, col[t]) && y != col[t];
        if t == i - 1 {
          assert y in b;
        } else {
          assert InOrderOf(rows, rowOf, col, i - 1, y);
        }
      }
    }
  }

  /** The cover order of the first i nodes of a column holds exactly the other nodes of their rows. */
  lemma {:induction false} CoverOrderMembers(R: seq<int>, L: seq<int>, C: seq<int>, rows: seq<seq<int>>, rowOf: seq<int>,
                                             col: seq<int>, c: int, i: int)
    requires OrderedColumn(R, L, C, rows, rowOf, col, c) && 0 <= i <= |col|
    ensures InRows(col[..i], rows, rowOf)
    ensures forall y :: y in CoverOrder(col[..i], rows, rowOf) <==> InOrderOf(rows, rowOf, col, i, y)
    decreases i
  {
    if i == 0 {
      assert InRows(col[..i], rows, rowOf);
    } else {
      CoverOrderMembers(R, L, C, rows, rowOf, col, c, i - 1);
      CoverOrderMembersStep(R, L, C, rows, rowOf, col, c, i - 1, i);
    }
  }

  /** The inductive step of CoverOrderMembers, from j = i - 1 nodes to i. */
  lemma CoverOrderMembersStep(R: seq<int>, L: seq<int>, C: seq<int>, rows: seq<seq<int>>, rowOf: seq<int>,
                              col: seq<int>, c: int, j: int, i: int)
    requires OrderedColumn(R, L, C, rows, rowOf, col, c) && 0 <= j && i == j + 1 && i <= |col|
    requires InRows(col[..j], rows, rowOf)
    requires forall y :: y in CoverOrder(col[..j], rows, rowOf) <==> InOrderOf(rows, rowOf, col, j, y)
    ensures InRows(col[..i], rows, rowOf)
    ensures forall y :: y in CoverOrder(col[..i], rows, rowOf) <==> InOrderOf(rows, rowOf, col, i, y)
  {
    CoverOrderSnoc(col, rows, rowOf, j);
    assert col[j] in RowAt(rows, rowOf, col[j]);
    CoverOrderGrow(R, L, C, rows, rowOf, col, c, i, CoverOrder(col[..j], rows, rowOf));
  }

  /** The other nodes of a row ring are pairwise different. */
  lemma OthersDistinct(R: seq<int>, L: seq<int>, C: seq<int>, rows: seq<seq<int>>, rowOf: seq<int>, x: int)
    requires Rows(R, L, C, rows, rowOf) && x in RowAt(rows, rowOf, x)
    ensures Distinct(Others(RowAt(rows, rowOf, x), x))
  {
    RowAtShared(R, L, C, rows, rowOf, x, x);
    var b := Others(RowAt(rows, rowOf, x), x);
    OthersWalk(R, L, RowAt(rows, rowOf, x), x);
    assert forall u :: 0 <= u < |b| ==> b[u] == (b + [x])[u];
  }

  /** The cover order of the first i nodes of a column has no repetition. */
  lemma {:induction false} CoverOrderDistinct(R: seq<int>, L: seq<int>, C: seq<int>, rows: seq<seq<int>>, rowOf: seq<int>,
                                              col: seq<int>, c: int, i: int)
    requires OrderedColumn(R, L, C, rows, rowOf, col, c) && 0 <= i <= |col|
    ensures InRows(col[..i], rows, rowOf)
    ensures Distinct(CoverOrder(col[..i], rows, rowOf))
    decreases i
  {
    assert InRows(col[..i], rows, rowOf);
    if i > 0 {
      CoverOrderDistinct(R, L, C, rows, rowOf, col, c, i - 1);
      CoverOrderDistinctStep(R, L, C, rows, rowOf, col, c, i);
    }
  }

  /** The nodes node col[i - 1] adds to the cover order are new and distinct. */
  lemma CoverOrderDistinctStep(R: seq<int>, L: seq<int>, C: seq<int>, rows: seq<seq<int>>, rowOf: seq<int>,
                               col: seq<int>, c: int, i: int)
    requires OrderedColumn(R, L, C, rows, rowOf, col, c) && 0 < i <= |col|
    requires InRows(col[..i - 1], rows, rowOf) && Distinct(CoverOrder(col[..i - 1], rows, rowOf))
    ensures InRows(col[..i], rows, rowOf) && Distinct(CoverOrder(col[..i], rows, rowOf))
  {
    CoverOrderMembers(R, L, C, rows, rowOf, col, c, i - 1);
    CoverOrderSnoc(col, rows, rowOf, i - 1);
    var x := col[i - 1];
    assert x in RowAt(rows, rowOf, x);
    var a := CoverOrder(col[..i - 1], rows, rowOf);
    var b := Others(RowAt(rows, rowOf, x), x);
    CoverOrderDisjoint(R, L, C, rows, rowOf, col, c, i, a, b);
    OthersDistinct(R, L, C, rows, rowOf, x);
    DistinctConcat(a, b);
  }

  /** A node of a row through an active column, other than that column's node. */
  lemma CoverNodeFacts(m: Mesh, ring: seq<int>, cols: seq<seq<int>>, rows: seq<seq<int>>, rowOf: seq<int>,
                       c: int, x: int, y: int)
    requires Inv(m, ring, cols, rows, rowOf) && c in ring
    requires x in cols[c] && y in RowAt(rows, rowOf, x) && y != x
    ensures COLUMNS < y < |m.L| && IsHeader(m.C[y]) && m.C[y] != c && m.C[y] in ring && y in cols[m.C[y]]
  {
    var h := m.C[y];
    assert h in ring && y in cols[h];
    var k :| 0 <= k < |ring| && ring[k] == h;
    assert IsHeader(ring[k]);
    assert ColumnRing(m.D, m.U, m.C, m.S, cols[h], h);
    var u :| 0 <= u < |cols[h]| && cols[h][u] == y;
    var ck :| 0 <= ck < |ring| && ring[ck] == c;
    assert IsHeader(ring[ck]);
    assert ColumnRing(m.D, m.U, m.C, m.S, cols[c], c);
    var v :| 0 <= v < |cols[c]| && cols[c][v] == x;
    assert x in RowAt(rows, rowOf, x);
    RowAtShared(m.R, m.L, m.C, rows, rowOf, x, y);
    assert y in RowAt(rows, rowOf, y);
    ColumnRowsDiffer(m.R, m.L, m.C, rows, rowOf, x, y);
  }

  /** An active column: its list, as the column ring describes it. */
  lemma ActiveColumn(m: Mesh, ring: seq<int>, cols: seq<seq<int>>, rows: seq<seq<int>>, rowOf: seq<int>, c: int)
    requires Inv(m, ring, cols, rows, rowOf) && c in ring
    ensures IsHeader(c) && ColumnRing(m.D, m.U, m.C, m.S, cols[c], c)
    ensures Distinct(cols[c]) && InRows(cols[c], rows, rowOf)
    ensures forall t :: 0 <= t < |cols[c]| ==> 0 <= cols[c][t] < |m.C| && m.C[cols[c][t]] == c
  {
    var ck :| 0 <= ck < |ring| && ring[ck] == c;
    assert IsHeader(ring[ck]);
    assert ColumnRing(m.D, m.U, m.C, m.S, cols[c], c);
    RingTailDistinct(m.D, m.U, c, cols[c]);
  }

  /** y is one of the other nodes of a row through a node of col. */
  ghost predicate CoveredBy(rows: seq<seq<int>>, rowOf: seq<int>, col: seq<int>, y: int) {
    exists x :: x in col && y in RowAt(rows, rowOf, x) && y != x
  }

  /** The facts about the cover order of an active column. */
  lemma OrderFacts(m: Mesh, ring: seq<int>, cols: seq<seq<int>>, rows: seq<seq<int>>, rowOf: seq<int>, c: int)
    requires Inv(m, ring, cols, rows, rowOf) && c in ring
    ensures InRows(cols[c], rows, rowOf)
    ensures Distinct(CoverOrder(cols[c], rows, rowOf))
    ensures forall y :: y in CoverOrder(cols[c], rows, rowOf) <==> CoveredBy(rows, rowOf, cols[c], y)
  {
    var col := cols[c];
    ActiveColumn(m, ring, cols, rows, rowOf, c);
    CoverOrderMembers(m.R, m.L, m.C, rows, rowOf, col, c, |col|);
    CoverOrderDistinct(m.R, m.L, m.C, rows, rowOf, col, c, |col|);
    assert col[..|col|] == col;
    var o := CoverOrder(col, rows, rowOf);
    forall y ensures y in o <==> CoveredBy(rows, rowOf, col, y) {
      if y in o {
        assert InOrderOf(rows, rowOf, col, |col|, y);
        var t :| 0 <= t < |col| && y in RowAt(rows, rowOf, col[t]) && y != col[t];
        assert col[t] in col;
      }
      if CoveredBy(rows, rowOf, col, y) {
        var x :| x in col && y in RowAt(rows, rowOf, x) && y != x;
        var t :| 0 <= t < |col| && col[t] == x;
        assert InOrderOf(rows, rowOf, col, |col|, y);
      }
    }
  }

  /** Each node the cover of an active column unlinks is present in another active column. */
  lemma OrderNodes(m: Mesh, ring: seq<int>, cols: seq<seq<int>>, rows: seq<seq<int>>, rowOf: seq<int>, c: int)
    requires Inv(m, ring, cols, rows, rowOf) && c in ring
    ensures InRows(cols[c], rows, rowOf)
    ensures var o := CoverOrder(cols[c], rows, rowOf);
            forall p :: 0 <= p < |o| ==>
              COLUMNS < o[p] < |m.L| && IsHeader(m.C[o[p]]) && m.C[o[p]] != c
              && m.C[o[p]] in ring && o[p] in cols[m.C[o[p]]]
  {
    OrderFacts(m, ring, cols, rows, rowOf, c);
    var o := CoverOrder(cols[c], rows, rowOf);
    forall p | 0 <= p < |o|
      ensures COLUMNS < o[p] < |m.L| && IsHeader(m.C[o[p]]) && m.C[o[p]] != c
              && m.C[o[p]] in ring && o[p] in cols[m.C[o[p]]]
    {
      assert o[p] in o;
      var x :| x in cols[c] && o[p] in RowAt(rows, rowOf, x) && o[p] != x;
      CoverNodeFacts(m, ring, cols, rows, rowOf, c, x, o[p]);
    }
  }

  /**
   * The nodes cover(c) unlinks, in order, and the facts about them that make
   * each unlink well-defined.
   */
  ghost function Order(m: Mesh, ring: seq<int>, cols: seq<seq<int>>, rows: seq<seq<int>>, rowOf: seq<int>, c: int): (o: seq<int>)
    requires Inv(m, ring, cols, rows, rowOf) && c in ring
    ensures IsHeader(c) && c < |m.L| && InRows(cols[c], rows, rowOf) && o == CoverOrder(cols[c], rows, rowOf)
    ensures Distinct(o)
    ensures forall y :: y in o <==> CoveredBy(rows, rowOf, cols[c], y)
    ensures forall p :: 0 <= p < |o| ==>
              COLUMNS < o[p] < |m.L| && IsHeader(m.C[o[p]]) && m.C[o[p]] != c
              && m.C[o[p]] in ring && o[p] in cols[m.C[o[p]]]
  {
    ActiveColumn(m, ring, cols, rows, rowOf, c);
    OrderFacts(m, ring, cols, rows, rowOf, c);
    OrderNodes(m, ring, cols, rows, rowOf, c);
    CoverOrder(cols[c], rows, rowOf)
  }

  /**
   * Unlinking an active header from the header ring: it was linked to its
   * neighbours, both of which are the root or headers, and the ring loses it.
   */
  lemma UnlinkHStep(m: Mesh, ring: seq<int>, c: int)
    requires Shaped(m) && HeaderRing(m.R, m.L, ring) && c in ring
    ensures IsHeader(c) && m.L[m.R[c]] == c && m.R[m.L[c]] == c && m.R[c] != c
    ensures 0 <= m.R[c] <= COLUMNS && 0 <= m.L[c] <= COLUMNS
    ensures var m' := UnlinkH(m, c);
            m'.R == m.R[m.L[c] := m.R[c]] && m'.L == m.L[m.R[c] := m.L[c]]
            && HeaderRing(m'.R, m'.L, Remove(ring, c))
  {
    HeaderRingRemove(m.R, m.L, ring, c);
  }

  /** An active header c is linked both ways to its neighbours, the root or headers. */
  lemma HeaderNeighbours(R: seq<int>, L: seq<int>, ring: seq<int>, c: int)
    requires HeaderRing(R, L, ring) && c in ring
    ensures IsHeader(c) && 0 <= c < |R| && c < |L| && 0 <= R[c] < |L| && 0 <= L[c] < |R|
    ensures L[R[c]] == c && R[L[c]] == c && R[c] != c
    ensures 0 <= R[c] <= COLUMNS && 0 <= L[c] <= COLUMNS
  {
    var k := IndexOf(ring, c);
    assert IsHeader(ring[k]);
    RingRemoveTail(R, L, 0, ring, k);
    assert R[c] in [0] + ring && L[c] in [0] + ring;
  }

  /** The header ring without c, once c's neighbours are linked to each other. */
  lemma HeaderRingRemove(R: seq<int>, L: seq<int>, ring: seq<int>, c: int)
    requires HeaderRing(R, L, ring) && c in ring
    ensures IsHeader(c) && 0 <= c < |R| && c < |L| && 0 <= R[c] < |L| && 0 <= L[c] < |R|
    ensures L[R[c]] == c && R[L[c]] == c && R[c] != c
    ensures 0 <= R[c] <= COLUMNS && 0 <= L[c] <= COLUMNS
    ensures HeaderRing(R[L[c] := R[c]], L[R[c] := L[c]], Remove(ring, c))
  {
    HeaderNeighbours(R, L, ring, c);
    var k := IndexOf(ring, c);
    RingRemoveTail(R, L, 0, ring, k);
    RingTailDistinct(R, L, 0, ring);
    RemoveAt(ring, k);
    RemoveMembers(ring, c);
    var r' := Remove(ring, c);
    forall i | 0 <= i < |r'| ensures IsHeader(r'[i]) {
      assert r'[i] in ring;
    }
  }

  /** The row rings survive writes to the root and the headers. */
  lemma RowsFrame(R: seq<int>, L: seq<int>, C: seq<int>, rows: seq<seq<int>>, rowOf: seq<int>, a: int, v: int, b: int, w: int)
    requires Rows(R, L, C, rows, rowOf)
    requires 0 <= a <= COLUMNS && a < |R| && 0 <= b <= COLUMNS && b < |L|
    ensures Rows(R[a := v], L[b := w], C, rows, rowOf)
  {
    forall i | 0 <= i < POSSIBILITIES ensures RowRing(R[a := v], L[b := w], C, rows[i], rowOf, i) {
      assert RowRing(R, L, C, rows[i], rowOf, i);
      if rows[i] != [] {
        RingFrame(R, L, rows[i], a, v, b, w);
      }
    }
  }

  /** No column list repeats a node. */
  lemma ColumnsDistinct(D: seq<int>, U: seq<int>, C: seq<int>, S: seq<int>, cols: seq<seq<int>>, h: int)
    requires Columns(D, U, C, S, cols) && 0 <= h < |cols|
    ensures Distinct(cols[h])
  {
    if h > 0 {
      assert ColumnRing(D, U, C, S, cols[h], h);
      RingTailDistinct(D, U, h, cols[h]);
    }
  }

  /**
   * What the unlink loop of cover(c) needs of the mesh m1 it starts from (the
   * header already out of the header ring) and of the nodes xs it unlinks:
   * well-formed columns, and xs distinct data nodes, each present in the list
   * of a column other than c.
   */
  ghost predicate Unlinkable(m1: Mesh, cols: seq<seq<int>>, xs: seq<int>, c: int) {
    Shaped(m1) && Columns(m1.D, m1.U, m1.C, m1.S, cols) && IsHeader(c) && c < |m1.L| && Distinct(xs)
    && forall t :: 0 <= t < |xs| ==>
         COLUMNS < xs[t] < |m1.L| && IsHeader(m1.C[xs[t]]) && m1.C[xs[t]] != c && xs[t] in cols[m1.C[xs[t]]]
  }

  /**
   * After the first p unlinks: the columns are the original ones less the
   * nodes unlinked so far, and the list of c itself is untouched.
   */
  ghost predicate PrefixOk(m1: Mesh, cols: seq<seq<int>>, xs: seq<int>, c: int, p: int)
    requires Unlinkable(m1, cols, xs, c) && 0 <= p <= |xs|
  {
    var mp := UnlinkAll(m1, xs[..p]);
    Columns(mp.D, mp.U, mp.C, mp.S, RemoveAll(cols, m1.C, xs[..p]))
    && forall y :: y in [c] + cols[c] ==> 0 <= y < |m1.L| && mp.U[y] == m1.U[y] && mp.D[y] == m1.D[y]
  }

  /** Unlinking xs[p]: it is still linked when its turn comes. */
  lemma UnlinkStep(m1: Mesh, cols: seq<seq<int>>, xs: seq<int>, c: int, p: int)
    requires Unlinkable(m1, cols, xs, c) && 0 <= p < |xs| && PrefixOk(m1, cols, xs, c, p)
    ensures LinkedWhenUnlinked(m1, xs, p)
    ensures PrefixOk(m1, cols, xs, c, p + 1)
  {
    var mp := UnlinkAll(m1, xs[..p]);
    var cp := RemoveAll(cols, m1.C, xs[..p]);
    var x := xs[p];
    var h := m1.C[x];
    ColumnsDistinct(m1.D, m1.U, m1.C, m1.S, cols, h);
    RemoveAllMembers(cols, m1.C, xs[..p], h);
    assert x !in xs[..p];
    ShapedUnlinkAll(m1, xs[..p]);
    UnlinkVStep(mp, cp, x);
    UnlinkAllSnoc(m1, xs, p);
    RemoveAllSnoc(cols, m1.C, xs, p);
    UnlinkColumnFrame(m1, cols, xs, c, p);
  }

  /** The list of c is out of reach of the p-th unlink. */
  lemma UnlinkColumnFrame(m1: Mesh, cols: seq<seq<int>>, xs: seq<int>, c: int, p: int)
    requires Unlinkable(m1, cols, xs, c) && 0 <= p < |xs| && PrefixOk(m1, cols, xs, c, p)
    ensures var cp := RemoveAll(cols, m1.C, xs[..p]);
            forall y :: y in [c] + cols[c] ==> y !in [m1.C[xs[p]]] + cp[m1.C[xs[p]]]
  {
    var mp := UnlinkAll(m1, xs[..p]);
    var cp := RemoveAll(cols, m1.C, xs[..p]);
    var h := m1.C[xs[p]];
    ColumnsDistinct(m1.D, m1.U, m1.C, m1.S, cols, c);
    RemoveAllMembers(cols, m1.C, xs[..p], c);
    forall y | y in [c] + cols[c] ensures y !in [h] + cp[h] {
      ColumnsDisjoint(mp.D, mp.U, mp.C, mp.S, cp, c, h, y);
    }
  }

  /** Every prefix of the unlinks keeps the columns well formed. */
  lemma {:induction false} UnlinkPrefix(m1: Mesh, cols: seq<seq<int>>, xs: seq<int>, c: int, p: int)
    requires Unlinkable(m1, cols, xs, c) && 0 <= p <= |xs|
    ensures PrefixOk(m1, cols, xs, c, p)
    decreases p
  {
    if p == 0 {
      assert ColumnRing(m1.D, m1.U, m1.C, m1.S, cols[c], c);
      assert xs[..0] == [];
    } else {
      UnlinkPrefix(m1, cols, xs, c, p - 1);
      UnlinkStep(m1, cols, xs, c, p - 1);
    }
  }

  /** Each node of xs is still linked when its turn comes. */
  lemma UnlinkLinked(m1: Mesh, cols: seq<seq<int>>, xs: seq<int>, c: int, i: int)
    requires Unlinkable(m1, cols, xs, c) && 0 <= i < |xs|
    ensures LinkedWhenUnlinked(m1, xs, i)
  {
    UnlinkPrefix(m1, cols, xs, c, i);
    UnlinkStep(m1, cols, xs, c, i);
  }

  /** Once c is out of the header ring, the nodes of its cover order can be unlinked in turn. */
  lemma CoverUnlinkable(m: Mesh, ring: seq<int>, cols: seq<seq<int>>, rows: seq<seq<int>>, rowOf: seq<int>, c: int)
    requires Inv(m, ring, cols, rows, rowOf) && c in ring
    ensures Unlinkable(UnlinkH(m, c), cols, Order(m, ring, cols, rows, rowOf, c), c)
  {
  }

  /** A node x of a row through another column is covered by c when its row meets c in y. */
  lemma CoveredThrough(m: Mesh, ring: seq<int>, cols: seq<seq<int>>, rows: seq<seq<int>>, rowOf: seq<int>,
                       c: int, x: int, y: int)
    requires Rows(m.R, m.L, m.C, rows, rowOf) && 0 <= c < |cols|
    requires 0 <= x < |m.C| && m.C[x] != c && x in RowAt(rows, rowOf, x) && y in RowAt(rows, rowOf, x)
    ensures 0 <= y < |m.C| && m.C[y] == c && y in cols[c] ==> CoveredBy(rows, rowOf, cols[c], x)
  {
    RowAtShared(m.R, m.L, m.C, rows, rowOf, x, y);
    if 0 <= y < |m.C| && m.C[y] == c && y in cols[c] {
      assert x in RowAt(rows, rowOf, y) && x != y;
    }
  }

  /** A node x of a row through another column is covered by c when another node of its row is. */
  lemma CoveredShared(m: Mesh, ring: seq<int>, cols: seq<seq<int>>, rows: seq<seq<int>>, rowOf: seq<int>,
                      c: int, x: int, y: int)
    requires 0 <= c < |cols| && OrderedColumn(m.R, m.L, m.C, rows, rowOf, cols[c], c)
    requires 0 <= x < |m.C| && m.C[x] != c && x in RowAt(rows, rowOf, x) && y in RowAt(rows, rowOf, x)
    ensures CoveredBy(rows, rowOf, cols[c], y) ==> CoveredBy(rows, rowOf, cols[c], x)
  {
    if CoveredBy(rows, rowOf, cols[c], y) {
      var z :| z in cols[c] && y in RowAt(rows, rowOf, z) && y != z;
      var t :| 0 <= t < |cols[c]| && cols[c][t] == z;
      assert z in RowAt(rows, rowOf, z) && m.C[z] == c;
      RowAtShared(m.R, m.L, m.C, rows, rowOf, z, y);
      RowAtShared(m.R, m.L, m.C, rows, rowOf, x, y);
      assert x in RowAt(rows, rowOf, z) && x != z;
    }
  }

  /** A row reachable from an active column after cover(c) is whole. */
  lemma CoverLiveStep(m: Mesh, ring: seq<int>, cols: seq<seq<int>>, rows: seq<seq<int>>, rowOf: seq<int>,
                      c: int, h: int, x: int, y: int)
    requires Inv(m, ring, cols, rows, rowOf) && c in ring
    requires h in ring && h != c
    requires x in RemoveAll(cols, m.C, Order(m, ring, cols, rows, rowOf, c))[h] && y in RowAt(rows, rowOf, x)
    ensures 0 <= y < |m.C| && m.C[y] in ring && m.C[y] != c
    ensures y in RemoveAll(cols, m.C, Order(m, ring, cols, rows, rowOf, c))[m.C[y]]
  {
    var o := Order(m, ring, cols, rows, rowOf, c);
    ActiveColumn(m, ring, cols, rows, rowOf, h);
    RemoveAllMembers(cols, m.C, o, h);
    var t :| 0 <= t < |cols[h]| && cols[h][t] == x;
    assert x in RowAt(rows, rowOf, x);
    CoveredThrough(m, ring, cols, rows, rowOf, c, x, y);
    ActiveColumn(m, ring, cols, rows, rowOf, c);
    CoveredShared(m, ring, cols, rows, rowOf, c, x, y);
    ColumnsDistinct(m.D, m.U, m.C, m.S, cols, m.C[y]);
    RemoveAllMembers(cols, m.C, o, m.C[y]);
  }

  lemma CoverKeepsLive(m: Mesh, ring: seq<int>, cols: seq<seq<int>>, rows: seq<seq<int>>, rowOf: seq<int>, c: int)
    requires Inv(m, ring, cols, rows, rowOf) && c in ring
    ensures Live(m.C, Remove(ring, c), RemoveAll(cols, m.C, Order(m, ring, cols, rows, rowOf, c)), rows, rowOf)
  {
    var ring' := Remove(ring, c);
    var cols' := RemoveAll(cols, m.C, Order(m, ring, cols, rows, rowOf, c));
    RingTailDistinct(m.R, m.L, 0, ring);
    RemoveMembers(ring, c);
    forall h, x, y | h in ring' && 0 <= h < |cols'| && x in cols'[h] && y in RowAt(rows, rowOf, x)
      ensures 0 <= y < |m.C| && m.C[y] in ring' && 0 <= m.C[y] < |cols'| && y in cols'[m.C[y]]
    {
      CoverLiveStep(m, ring, cols, rows, rowOf, c, h, x, y);
      var k :| 0 <= k < |ring| && ring[k] == m.C[y];
      assert IsHeader(ring[k]);
    }
  }

  lemma CoverKeepsBelongs(m: Mesh, ring: seq<int>, cols: seq<seq<int>>, rows: seq<seq<int>>, rowOf: seq<int>, c: int)
    requires Inv(m, ring, cols, rows, rowOf) && c in ring
    ensures Belongs(RemoveAll(cols, m.C, Order(m, ring, cols, rows, rowOf, c)), rows, rowOf)
  {
    var o := Order(m, ring, cols, rows, rowOf, c);
    var cols' := RemoveAll(cols, m.C, o);
    forall h, x | 0 <= h < |cols'| && x in cols'[h] ensures x in RowAt(rows, rowOf, x) {
      ColumnsDistinct(m.D, m.U, m.C, m.S, cols, h);
      RemoveAllMembers(cols, m.C, o, h);
    }
  }

  /**
   * cover(c) keeps the invariant: c leaves the header ring, and every node of
   * a row through c, other than c's own, leaves its vertical list.
   */
  lemma CoverKeepsInv(m: Mesh, ring: seq<int>, cols: seq<seq<int>>, rows: seq<seq<int>>, rowOf: seq<int>, c: int)
    requires Inv(m, ring, cols, rows, rowOf) && c in ring
    ensures var o := Order(m, ring, cols, rows, rowOf, c);
            Inv(CoverMesh(m, c, o), Remove(ring, c), RemoveAll(cols, m.C, o), rows, rowOf)
  {
    var o := Order(m, ring, cols, rows, rowOf, c);
    var m1 := UnlinkH(m, c);
    CoverUnlinkable(m, ring, cols, rows, rowOf, c);
    UnlinkPrefix(m1, cols, o, c, |o|);
    assert o[..|o|] == o;
    UnlinkHStep(m, ring, c);
    ShapedUnlinkAll(m1, o);
    RowsFrame(m.R, m.L, m.C, rows, rowOf, m.L[c], m.R[c], m.R[c], m.L[c]);
    CoverKeepsBelongs(m, ring, cols, rows, rowOf, c);
    CoverKeepsLive(m, ring, cols, rows, rowOf, c);
  }

  /** uncover(c) undoes cover(c): every link and every size is restored. */
  lemma CoverUncoverRoundTrip(m: Mesh, ring: seq<int>, cols: seq<seq<int>>, rows: seq<seq<int>>, rowOf: seq<int>, c: int)
    requires Inv(m, ring, cols, rows, rowOf) && c in ring
    ensures var o := Order(m, ring, cols, rows, rowOf, c);
            UncoverMesh(CoverMesh(m, c, o), c, o) == m
  {
    var o := Order(m, ring, cols, rows, rowOf, c);
    var m1 := UnlinkH(m, c);
    CoverUnlinkable(m, ring, cols, rows, rowOf, c);
    forall i | 0 <= i < |o| ensures LinkedWhenUnlinked(m1, o, i) {
      UnlinkLinked(m1, cols, o, c, i);
    }
    RelinkAllUndoesUnlinkAll(m1, o, 0);
    assert o[0..] == o && o[..0] == [];
    UnlinkHStep(m, ring, c);
    RelinkUndoesUnlinkH(m, c);
  }

  /** One step right (next) around the ring h, xs[0], xs[1], ... from its i-th element. */
  lemma RingNext(next: seq<int>, prev: seq<int>, h: int, xs: seq<int>, i: int)
    requires Ring(next, prev, [h] + xs) && 0 <= i <= |xs|
    ensures 0 <= ([h] + xs)[i] < |next|
    ensures next[([h] + xs)[i]] == if i < |xs| then xs[i] else h
  {
    assert ([h] + xs)[0] == h;
    if i < |xs| {
      assert ([h] + xs)[i + 1] == xs[i];
    }
  }

  /** One step back (prev) around the ring h, xs[0], xs[1], ... to its i-th element. */
  lemma RingPrev(next: seq<int>, prev: seq<int>, h: int, xs: seq<int>, i: int)
    requires Ring(next, prev, [h] + xs) && 0 <= i <= |xs|
    ensures 0 <= (if i < |xs| then xs[i] else h) < |prev|
    ensures prev[if i < |xs| then xs[i] else h] == ([h] + xs)[i]
  {
    assert ([h] + xs)[0] == h;
    if i < |xs| {
      assert ([h] + xs)[i + 1] == xs[i];
    }
  }

  /** The cover order of a prefix of the column is a prefix of its cover order. */
  lemma {:induction false} CoverOrderPrefix(col: seq<int>, rows: seq<seq<int>>, rowOf: seq<int>, i: int)
    requires InRows(col, rows, rowOf) && 0 <= i <= |col|
    ensures InRows(col[..i], rows, rowOf)
    ensures var o := CoverOrder(col, rows, rowOf);
            var a := CoverOrder(col[..i], rows, rowOf);
            |a| <= |o| && o[..|a|] == a
    decreases |col| - i
  {
    if i == |col| {
      assert col[..i] == col;
    } else {
      CoverOrderPrefix(col, rows, rowOf, i + 1);
      CoverOrderSnoc(col, rows, rowOf, i);
      var o := CoverOrder(col, rows, rowOf);
      var a := CoverOrder(col[..i], rows, rowOf);
      var b := CoverOrder(col[..i + 1], rows, rowOf);
      SnocPrefix(o, a, b, Others(RowAt(rows, rowOf, col[i]), col[i]));
    }
  }

  /** A prefix a of a prefix b == a + os of o is a prefix of o. */
  lemma SnocPrefix(o: seq<int>, a: seq<int>, b: seq<int>, os: seq<int>)
    requires |b| <= |o| && o[..|b|] == b && b == a + os
    ensures |a| <= |o| && o[..|a|] == a
  {
    assert o[..|a|] == o[..|b|][..|a|];
    assert b[..|a|] == a;
  }

  /** os occurs in o from position k on. */
  ghost predicate OccursAt(o: seq<int>, k: int, os: seq<int>) {
    0 <= k && k + |os| <= |o| && forall t :: 0 <= t < |os| ==> o[k + t] == os[t]
  }

  /** What follows a prefix a of o occurs in o right after a. */
  lemma PrefixOccurs(o: seq<int>, a: seq<int>, os: seq<int>)
    requires |a| + |os| <= |o| && o[..|a| + |os|] == a + os
    ensures OccursAt(o, |a|, os)
  {
    forall t | 0 <= t < |os| ensures o[|a| + t] == os[t] {
      assert o[|a| + t] == o[..|a| + |os|][|a| + t] == (a + os)[|a| + t];
    }
  }

  /**
   * The next node of the column contributes the other nodes of its row to
   * the cover order right after those of the nodes above it.
   */
  lemma CoverOrderNext(col: seq<int>, rows: seq<seq<int>>, rowOf: seq<int>, i: int)
    requires InRows(col, rows, rowOf) && 0 <= i < |col|
    ensures InRows(col[..i], rows, rowOf) && InRows(col[..i + 1], rows, rowOf)
    ensures col[i] in RowAt(rows, rowOf, col[i])
    ensures |CoverOrder(col[..i + 1], rows, rowOf)|
            == |CoverOrder(col[..i], rows, rowOf)| + |Others(RowAt(rows, rowOf, col[i]), col[i])|
    ensures OccursAt(CoverOrder(col, rows, rowOf), |CoverOrder(col[..i], rows, rowOf)|,
                     Others(RowAt(rows, rowOf, col[i]), col[i]))
  {
    CoverOrderPrefix(col, rows, rowOf, i + 1);
    CoverOrderSnoc(col, rows, rowOf, i);
    var o := CoverOrder(col, rows, rowOf);
    var a := CoverOrder(col[..i], rows, rowOf);
    var b := CoverOrder(col[..i + 1], rows, rowOf);
    var os := Others(RowAt(rows, rowOf, col[i]), col[i]);
    SnocOccurs(o, a, b, os);
  }

  /** What a prefix b == a + os of o adds to a occurs in o right after a. */
  lemma SnocOccurs(o: seq<int>, a: seq<int>, b: seq<int>, os: seq<int>)
    requires |b| <= |o| && o[..|b|] == b && b == a + os
    ensures |b| == |a| + |os| && OccursAt(o, |a|, os)
  {
    PrefixOccurs(o, a, os);
  }

  /** The row of x, walked right from x, as a ring starting at x. */
  lemma RowFrom(R: seq<int>, L: seq<int>, C: seq<int>, rows: seq<seq<int>>, rowOf: seq<int>, x: int)
    requires Rows(R, L, C, rows, rowOf) && x in RowAt(rows, rowOf, x)
    ensures Ring(R, L, [x] + Others(RowAt(rows, rowOf, x), x))
    ensures |Others(RowAt(rows, rowOf, x), x)| == 3
    ensures forall y :: y in Others(RowAt(rows, rowOf, x), x) <==> y in RowAt(rows, rowOf, x) && y != x
  {
    var os := Others(RowAt(rows, rowOf, x), x);
    RowAtShared(R, L, C, rows, rowOf, x, x);
    OthersWalk(R, L, RowAt(rows, rowOf, x), x);
    RingRotate(R, L, os + [x], |os|);
    assert (os + [x])[|os|..] + (os + [x])[..|os|] == [x] + os;
  }

  /**
   * Following next from x visits os in order and comes back to x; x is not
   * among os.
   */
  ghost predicate Walk(next: seq<int>, x: int, os: seq<int>) {
    0 <= x < |next|
    && (forall t :: 0 <= t < |os| ==> 0 <= os[t] < |next| && os[t] != x)
    && next[x] == (if |os| == 0 then x else os[0])
    && (forall t :: 0 <= t < |os| - 1 ==> next[os[t]] == os[t + 1])
    && (|os| > 0 ==> next[os[|os| - 1]] == x)
  }

  /** A ring starting at x is walked from x. */
  lemma RingWalk(next: seq<int>, prev: seq<int>, x: int, os: seq<int>)
    requires Ring(next, prev, [x] + os)
    ensures Walk(next, x, os)
  {
    forall t | 0 <= t < |os|
      ensures 0 <= os[t] < |next| && os[t] != x
    {
      assert os[t] == ([x] + os)[t + 1] && x == ([x] + os)[0];
    }
    RingNext(next, prev, x, os, 0);
    forall t | 0 <= t < |os|
      ensures next[os[t]] == if t < |os| - 1 then os[t + 1] else x
    {
      RingNext(next, prev, x, os, t + 1);
    }
  }

  /** The vertical list of c, walked down from c. */
  lemma ColumnWalk(m1: Mesh, cols: seq<seq<int>>, o: seq<int>, c: int)
    requires Unlinkable(m1, cols, o, c)
    ensures Walk(m1.D, c, cols[c])
  {
    assert ColumnRing(m1.D, m1.U, m1.C, m1.S, cols[c], c);
    RingWalk(m1.D, m1.U, c, cols[c]);
  }

  /** Where the nodes contributed by col[i] start in the cover order of col. */
  ghost function Offset(col: seq<int>, rows: seq<seq<int>>, rowOf: seq<int>, i: int): nat
    requires InRows(col, rows, rowOf) && 0 <= i <= |col|
  {
    CoverOrderPrefix(col, rows, rowOf, i);
    |CoverOrder(col[..i], rows, rowOf)|
  }

  /**
   * One round of the outer loop of cover: the row of the i-th node x of c's
   * list is walked right from x, and its other nodes come next in the cover
   * order.
   */
  lemma CoverRowStep(m1: Mesh, col: seq<int>, rows: seq<seq<int>>, rowOf: seq<int>, o: seq<int>, i: int)
    requires Rows(m1.R, m1.L, m1.C, rows, rowOf)
    requires InRows(col, rows, rowOf) && o == CoverOrder(col, rows, rowOf) && 0 <= i < |col|
    ensures var os := Others(RowAt(rows, rowOf, col[i]), col[i]);
            Offset(col, rows, rowOf, i + 1) == Offset(col, rows, rowOf, i) + |os|
            && OccursAt(o, Offset(col, rows, rowOf, i), os) && Walk(m1.R, col[i], os)
  {
    var x := col[i];
    CoverOrderNext(col, rows, rowOf, i);
    var os := Others(RowAt(rows, rowOf, x), x);
    RowFrom(m1.R, m1.L, m1.C, rows, rowOf, x);
    RingWalk(m1.R, m1.L, x, os);
  }

  /** The ends of the cover order of col. */
  lemma OffsetEnds(col: seq<int>, rows: seq<seq<int>>, rowOf: seq<int>)
    requires InRows(col, rows, rowOf)
    ensures Offset(col, rows, rowOf, 0) == 0 && Offset(col, rows, rowOf, |col|) == |CoverOrder(col, rows, rowOf)|
  {
    assert col[..0] == [] && col[..|col|] == col;
  }

  /** Cover leaves the vertical list of c itself alone: the links up and down from c and its nodes stay. */
  lemma ColumnUntouched(m1: Mesh, cols: seq<seq<int>>, o: seq<int>, c: int, p: int, x: int)
    requires Unlinkable(m1, cols, o, c) && 0 <= p <= |o| && x in [c] + cols[c]
    ensures 0 <= x < |m1.D| && UnlinkFirst(m1, o, p).D[x] == m1.D[x] && UnlinkFirst(m1, o, p).U[x] == m1.U[x]
  {
    UnlinkPrefix(m1, cols, o, c, p);
    UnlinkFirstPrefix(m1, o, p);
  }

  /**
   * Round i of the outer loop of cover: the nodes plans[i] that the row of
   * col[i] contributes sit at offs[i] of the cover order o, they are walked
   * right from col[i], and once they are unlinked the link down from col[i]
   * is still the original one.
   */
  ghost predicate RowRound(m1: Mesh, o: seq<int>, col: seq<int>, offs: seq<int>, plans: seq<seq<int>>, i: int) {
    0 <= i < |col| && |offs| == |col| + 1 && |plans| == |col|
    && offs[i + 1] == offs[i] + |plans[i]| && OccursAt(o, offs[i], plans[i]) && Walk(m1.R, col[i], plans[i])
    && 0 <= col[i] < |m1.D| && UnlinkFirst(m1, o, offs[i + 1]).D[col[i]] == m1.D[col[i]]
  }

  /** What the loops of cover need to know about the mesh and the cover order o of column c. */
  ghost predicate CoverPlan(m1: Mesh, o: seq<int>, c: int, col: seq<int>, offs: seq<int>, plans: seq<seq<int>>) {
    Shaped(m1) && (forall t :: 0 <= t < |o| ==> 0 < o[t] < |m1.L|) && Walk(m1.D, c, col)
    && |offs| == |col| + 1 && |plans| == |col| && offs[0] == 0 && offs[|col|] == |o|
    && forall i {:trigger RowRound(m1, o, col, offs, plans, i)} :: 0 <= i < |col| ==> RowRound(m1, o, col, offs, plans, i)
  }

  ghost function Offsets(col: seq<int>, rows: seq<seq<int>>, rowOf: seq<int>): (offs: seq<int>)
    requires InRows(col, rows, rowOf)
    ensures |offs| == |col| + 1
  {
    seq(|col| + 1, i requires 0 <= i <= |col| => Offset(col, rows, rowOf, i))
  }

  ghost function Plans(col: seq<int>, rows: seq<seq<int>>, rowOf: seq<int>): (plans: seq<seq<int>>)
    requires InRows(col, rows, rowOf)
    ensures |plans| == |col|
  {
    seq(|col|, i requires 0 <= i < |col| => Others(RowAt(rows, rowOf, col[i]), col[i]))
  }

  /** Once c is out of the header ring, its cover order can be carried out row by row. */
  lemma CoverPlanOf(m1: Mesh, cols: seq<seq<int>>, rows: seq<seq<int>>, rowOf: seq<int>, c: int, o: seq<int>)
    requires Unlinkable(m1, cols, o, c) && Rows(m1.R, m1.L, m1.C, rows, rowOf)
    requires InRows(cols[c], rows, rowOf) && o == CoverOrder(cols[c], rows, rowOf)
    ensures CoverPlan(m1, o, c, cols[c], Offsets(cols[c], rows, rowOf), Plans(cols[c], rows, rowOf))
  {
    var col := cols[c];
    var offs, plans := Offsets(col, rows, rowOf), Plans(col, rows, rowOf);
    ColumnWalk(m1, cols, o, c);
    OffsetEnds(col, rows, rowOf);
    forall i | 0 <= i < |col|
      ensures RowRound(m1, o, col, offs, plans, i)
    {
      CoverRowStep(m1, col, rows, rowOf, o, i);
      assert col[i] in [c] + col;
      ColumnUntouched(m1, cols, o, c, offs[i + 1], col[i]);
    }
  }

  /**
   * Everything cover(c) relies on, from an active column c of a mesh that
   * holds the invariant: the header can be unlinked, the loops can carry out
   * the cover order, and the covered mesh holds the invariant for the ring
   * and the columns less what cover took out.
   */
  lemma CoverReady(m: Mesh, ring: seq<int>, cols: seq<seq<int>>, rows: seq<seq<int>>, rowOf: seq<int>, c: int)
    requires Inv(m, ring, cols, rows, rowOf) && c in ring
    ensures IsHeader(c) && InArenaH(m, c) && InRows(cols[c], rows, rowOf)
    ensures var o := CoverOrder(cols[c], rows, rowOf);
            CoverPlan(UnlinkH(m, c), o, c, cols[c], Offsets(cols[c], rows, rowOf), Plans(cols[c], rows, rowOf))
            && Inv(CoverMesh(m, c, o), Remove(ring, c), RemoveAll(cols, m.C, o), rows, rowOf)
  {
    var o := Order(m, ring, cols, rows, rowOf, c);
    ActiveColumn(m, ring, cols, rows, rowOf, c);
    UnlinkHStep(m, ring, c);
    var m1 := UnlinkH(m, c);
    RowsFrame(m.R, m.L, m.C, rows, rowOf, m.L[c], m.R[c], m.R[c], m.L[c]);
    CoverUnlinkable(m, ring, cols, rows, rowOf, c);
    CoverPlanOf(m1, cols, rows, rowOf, c, o);
    CoverKeepsInv(m, ring, cols, rows, rowOf, c);
  }

  /**
   * Following prev from x visits os backwards, last element first, and comes
   * back to x; x is not among os.
   */
  ghost predicate WalkBack(prev: seq<int>, x: int, os: seq<int>) {
    0 <= x < |prev|
    && (forall t :: 0 <= t < |os| ==> 0 <= os[t] < |prev| && os[t] != x)
    && prev[x] == (if |os| == 0 then x else os[|os| - 1])
    && (forall t :: 0 < t < |os| ==> prev[os[t]] == os[t - 1])
    && (|os| > 0 ==> prev[os[0]] == x)
  }

  /** A ring starting at x is walked backwards from x. */
  lemma RingWalkBack(next: seq<int>, prev: seq<int>, x: int, os: seq<int>)
    requires Ring(next, prev, [x] + os)
    ensures WalkBack(prev, x, os)
  {
    forall t | 0 <= t < |os|
      ensures 0 <= os[t] < |prev| && os[t] != x
    {
      assert os[t] == ([x] + os)[t + 1] && x == ([x] + os)[0];
    }
    RingPrev(next, prev, x, os, |os|);
    forall t | 0 <= t < |os|
      ensures prev[os[t]] == if t == 0 then x else os[t - 1]
    {
      RingPrev(next, prev, x, os, t);
      if t == 0 {
        assert ([x] + os)[0] == x;
      } else {
        assert ([x] + os)[t] == os[t - 1];
      }
    }
    if |os| > 0 {
      RingPrev(next, prev, x, os, 0);
      assert ([x] + os)[0] == x;
    }
  }

  /** Relinking o[p] once the first p + 1 nodes of o are unlinked undoes the last of those unlinks. */
  ghost predicate Relinks(m1: Mesh, o: seq<int>, p: int) {
    0 <= p < |o| && InArenaV(UnlinkFirst(m1, o, p + 1), o[p])
    && RelinkV(UnlinkFirst(m1, o, p + 1), o[p]) == UnlinkFirst(m1, o, p)
  }

  /** Every unlink of the cover order can be undone in turn, last first. */
  lemma RelinksOf(m1: Mesh, cols: seq<seq<int>>, o: seq<int>, c: int, p: int)
    requires Unlinkable(m1, cols, o, c) && 0 <= p < |o|
    ensures Relinks(m1, o, p)
  {
    UnlinkLinked(m1, cols, o, c, p);
    UnlinkFirstPrefix(m1, o, p);
    RelinkUndoesUnlinkV(UnlinkFirst(m1, o, p), o[p]);
    ShapedUnlinkFirst(m1, o, p + 1);
    ShapedUnlinkV(UnlinkFirst(m1, o, p + 1), o[p]);
  }

  /**
   * Round i of the outer loop of uncover, which visits the rows bottom to
   * top: the nodes plans[i] are walked left from col[i], last first, and
   * once they are relinked the link up from col[i] is the original one.
   */
  ghost predicate RowRoundBack(m1: Mesh, o: seq<int>, col: seq<int>, offs: seq<int>, plans: seq<seq<int>>, i: int) {
    0 <= i < |col| && |offs| == |col| + 1 && |plans| == |col|
    && offs[i + 1] == offs[i] + |plans[i]| && OccursAt(o, offs[i], plans[i]) && WalkBack(m1.L, col[i], plans[i])
    && 0 <= col[i] < |m1.U| && UnlinkFirst(m1, o, offs[i]).U[col[i]] == m1.U[col[i]]
  }

  /** What the loops of uncover need to know about the mesh and the cover order o of column c. */
  ghost predicate UncoverPlan(m1: Mesh, o: seq<int>, c: int, col: seq<int>, offs: seq<int>, plans: seq<seq<int>>) {
    (forall p {:trigger Relinks(m1, o, p)} :: 0 <= p < |o| ==> Relinks(m1, o, p))
    && WalkBack(m1.U, c, col) && UnlinkAll(m1, o).U[c] == m1.U[c]
    && |offs| == |col| + 1 && |plans| == |col| && offs[0] == 0 && offs[|col|] == |o|
    && forall i {:trigger RowRoundBack(m1, o, col, offs, plans, i)} :: 0 <= i < |col| ==> RowRoundBack(m1, o, col, offs, plans, i)
  }

  /** Once c is out of the header ring, its cover order can be undone row by row, bottom to top. */
  lemma UncoverPlanOf(m1: Mesh, cols: seq<seq<int>>, rows: seq<seq<int>>, rowOf: seq<int>, c: int, o: seq<int>)
    requires Unlinkable(m1, cols, o, c) && Rows(m1.R, m1.L, m1.C, rows, rowOf)
    requires InRows(cols[c], rows, rowOf) && o == CoverOrder(cols[c], rows, rowOf)
    ensures UncoverPlan(m1, o, c, cols[c], Offsets(cols[c], rows, rowOf), Plans(cols[c], rows, rowOf))
  {
    var col := cols[c];
    var offs, plans := Offsets(col, rows, rowOf), Plans(col, rows, rowOf);
    forall p | 0 <= p < |o| ensures Relinks(m1, o, p) {
      RelinksOf(m1, cols, o, c, p);
    }
    assert ColumnRing(m1.D, m1.U, m1.C, m1.S, col, c);
    RingWalkBack(m1.D, m1.U, c, col);
    ColumnUntouched(m1, cols, o, c, |o|, c);
    UnlinkFirstAll(m1, o);
    OffsetEnds(col, rows, rowOf);
    forall i | 0 <= i < |col|
      ensures RowRoundBack(m1, o, col, offs, plans, i)
    {
      RowRoundBackOf(m1, cols, rows, rowOf, c, o, i);
    }
  }

  /** Round i of uncover's outer loop, for the i-th node of c's list. */
  lemma RowRoundBackOf(m1: Mesh, cols: seq<seq<int>>, rows: seq<seq<int>>, rowOf: seq<int>, c: int, o: seq<int>, i: int)
    requires Unlinkable(m1, cols, o, c) && Rows(m1.R, m1.L, m1.C, rows, rowOf)
    requires InRows(cols[c], rows, rowOf) && o == CoverOrder(cols[c], rows, rowOf)
    requires 0 <= i < |cols[c]|
    ensures RowRoundBack(m1, o, cols[c], Offsets(cols[c], rows, rowOf), Plans(cols[c], rows, rowOf), i)
  {
    var col := cols[c];
    var x := col[i];
    var os := Others(RowAt(rows, rowOf, x), x);
    CoverRowStep(m1, col, rows, rowOf, o, i);
    RowFrom(m1.R, m1.L, m1.C, rows, rowOf, x);
    RingWalkBack(m1.R, m1.L, x, os);
    assert x in [c] + col;
    ColumnUntouched(m1, cols, o, c, Offset(col, rows, rowOf, i), x);
  }

  /**
   * Everything uncover(c) relies on when the mesh is m covered by c: the
   * loops can undo the cover order, and relinking the header then gives m
   * back.
   */
  lemma UncoverReady(m: Mesh, ring: seq<int>, cols: seq<seq<int>>, rows: seq<seq<int>>, rowOf: seq<int>, c: int)
    requires Inv(m, ring, cols, rows, rowOf) && c in ring
    ensures IsHeader(c) && InRows(cols[c], rows, rowOf)
    ensures var o := CoverOrder(cols[c], rows, rowOf);
            var m1 := UnlinkH(m, c);
            UncoverPlan(m1, o, c, cols[c], Offsets(cols[c], rows, rowOf), Plans(cols[c], rows, rowOf))
            && InArenaH(m1, c) && RelinkH(m1, c) == m
  {
    var o := Order(m, ring, cols, rows, rowOf, c);
    ActiveColumn(m, ring, cols, rows, rowOf, c);
    UnlinkHStep(m, ring, c);
    var m1 := UnlinkH(m, c);
    RowsFrame(m.R, m.L, m.C, rows, rowOf, m.L[c], m.R[c], m.R[c], m.L[c]);
    CoverUnlinkable(m, ring, cols, rows, rowOf, c);
    UncoverPlanOf(m1, cols, rows, rowOf, c, o);
    ShapedUnlinkH(m1, c);
    RelinkUndoesUnlinkH(m, c);
  }

  /** Around a ring, one step forward and one step back return to the same node, in either order. */
  lemma RingInverse(next: seq<int>, prev: seq<int>, xs: seq<int>, x: int)
    requires Ring(next, prev, xs) && x in xs
    ensures 0 <= next[x] < |prev| && prev[next[x]] == x
    ensures 0 <= prev[x] < |next| && next[prev[x]] == x
  {
    var i :| 0 <= i < |xs| && xs[i] == x;
    var n := |xs| - 1;
    if i < n {
      assert next[x] == xs[i + 1];
    } else {
      assert next[x] == xs[0];
    }
    if i > 0 {
      assert prev[xs[i - 1 + 1]] == xs[i - 1];
    } else {
      assert prev[x] == xs[n];
    }
  }

  /**
   * In a mesh that holds its invariant, left and right undo each other on
   * the root, the active headers and every node of a row, and up and down
   * undo each other on every header and every node of its column.
   */
  lemma LinksInverse(m: Mesh, ring: seq<int>, cols: seq<seq<int>>, rows: seq<seq<int>>, rowOf: seq<int>)
    requires Inv(m, ring, cols, rows, rowOf)
    ensures forall x :: 0 <= x < |m.L| && x in [0] + ring ==> m.R[m.L[x]] == x && m.L[m.R[x]] == x
    ensures forall h, x :: IsHeader(h) && 0 < x < |m.L| && x in [h] + cols[h] ==> m.D[m.U[x]] == x && m.U[m.D[x]] == x
    ensures forall i, x :: 0 <= i < |rows| && 0 <= x < |m.L| && x in rows[i] ==> m.R[m.L[x]] == x && m.L[m.R[x]] == x
  {
    forall x | 0 <= x < |m.L| && x in [0] + ring ensures m.R[m.L[x]] == x && m.L[m.R[x]] == x {
      RingInverse(m.R, m.L, [0] + ring, x);
    }
    forall h, x | IsHeader(h) && 0 < x < |m.L| && x in [h] + cols[h] ensures m.D[m.U[x]] == x && m.U[m.D[x]] == x {
      assert ColumnRing(m.D, m.U, m.C, m.S, cols[h], h);
      RingInverse(m.D, m.U, [h] + cols[h], x);
    }
    forall i, x | 0 <= i < |rows| && 0 <= x < |m.L| && x in rows[i] ensures m.R[m.L[x]] == x && m.L[m.R[x]] == x {
      assert RowRing(m.R, m.L, m.C, rows[i], rowOf, i);
      RingInverse(m.R, m.L, rows[i], x);
    }
  }
}
