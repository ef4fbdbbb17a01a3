/**
 * Reading a solution off the mesh.  Every data node was created for one
 * possibility "digit d at (r, c)"; its row holds four nodes, in the columns
 * of the row, column, block and cell constraints of that possibility, and
 * each header carries the column id of its matrix column.  The grid a list
 * of chosen nodes gives is the one obtained by writing, node by node, the
 * digit of its possibility into the cell of its possibility.
 */
module SolutionGrid {
  import opened Indexing
  import opened DancingLinks
  import opened MeshInvariant

  /** Every entry is a node of a row of the mesh. */
  ghost predicate Chosen(rows: seq<seq<int>>, rowOf: seq<int>, sol: seq<int>) {
    forall i :: 0 <= i < |sol| ==> sol[i] in RowAt(rows, rowOf, sol[i])
  }

  /** Every entry is a node created for a possibility. */
  predicate Placed(rowOf: seq<int>, sol: seq<int>) {
    forall i :: 0 <= i < |sol| ==> 0 <= sol[i] < |rowOf| && 0 <= rowOf[sol[i]] < POSSIBILITIES
  }

  lemma ChosenPlaced(rows: seq<seq<int>>, rowOf: seq<int>, sol: seq<int>)
    requires Chosen(rows, rowOf, sol) && |rows| == POSSIBILITIES
    ensures Placed(rowOf, sol)
  {
  }

  /** The grid, row-major, after writing the digit of each chosen node's possibility into its cell. */
  function Fill(rowOf: seq<int>, sol: seq<int>): (g: seq<int>)
    requires Placed(rowOf, sol)
    ensures |g| == N * N
    decreases |sol|
  {
    if sol == [] then seq(N * N, _ => 0)
    else
      var n := |sol| - 1;
      var p := PossibilityAt(rowOf[sol[n]]);
      assert Placed(rowOf, sol[..n]) by {
        assert forall i :: 0 <= i < n ==> sol[..n][i] == sol[i];
      }
      Fill(rowOf, sol[..n])[p.row * N + p.col := p.digit + 1]
  }

  /** The grid holds g, row-major. */
  ghost predicate Shows(grid: array2<int>, g: seq<int>)
    reads grid
  {
    grid.Length0 == N && grid.Length1 == N && |g| == N * N
    && forall r, c :: 0 <= r < N && 0 <= c < N ==> grid[r, c] == g[r * N + c]
  }

  /**
   * Row i of the mesh is empty, or its four nodes lie, in order, in the
   * columns of the row, column, block and cell constraints of possibility i
   * (header h stands for matrix column h - 1).
   */
  ghost predicate RowLabels(C: seq<int>, row: seq<int>, i: int) {
    row == [] || (0 <= i < POSSIBILITIES && |row| == 4
                  && forall t :: 0 <= t < 4 ==> 0 <= row[t] < |C| && C[row[t]] == ConstraintColumns(PossibilityAt(i))[t] + 1)
  }

  /** Each header carries the column id of its matrix column, and each row lies in the columns of its possibility. */
  ghost predicate Labelled(C: seq<int>, info: seq<ColumnId>, rows: seq<seq<int>>) {
    |info| == COLUMNS + 1 && (forall h :: IsHeader(h) ==> info[h] == CreateColumnId(h - 1))
    && forall i {:trigger RowLabels(C, rows[i], i)} :: 0 <= i < |rows| ==> RowLabels(C, rows[i], i)
  }

  /** The column ids of the four nodes of row i of a labelled mesh. */
  lemma RowIds(C: seq<int>, info: seq<ColumnId>, rows: seq<seq<int>>, i: int)
    requires Labelled(C, info, rows) && 0 <= i < |rows| <= POSSIBILITIES && rows[i] != []
    ensures var p := PossibilityAt(i);
            var row := rows[i];
            |row| == 4 && (forall t :: 0 <= t < 4 ==> 0 <= row[t] < |C| && 0 <= C[row[t]] < |info|)
            && info[C[row[0]]] == ColumnId(ROW_CONSTRAINT, p.digit + 1, p.row)
            && info[C[row[1]]] == ColumnId(COLUMN_CONSTRAINT, p.digit + 1, p.col)
            && info[C[row[2]]] == ColumnId(BLOCK_CONSTRAINT, p.digit + 1, BlockIndex(p.row, p.col))
            && info[C[row[3]]] == ColumnId(CELL_CONSTRAINT, 0, p.row * N + p.col)
  {
    var row := rows[i];
    assert RowLabels(C, row, i);
    var p := PossibilityAt(i);
    HeaderIds(info, p);
    var cs := ConstraintColumns(p);
    assert C[row[0]] == cs[0] + 1 && C[row[1]] == cs[1] + 1 && C[row[2]] == cs[2] + 1 && C[row[3]] == cs[3] + 1;
  }

  /** The column ids of the four headers of the columns of possibility p. */
  lemma HeaderIds(info: seq<ColumnId>, p: Possibility)
    requires InGrid(p)
    requires |info| == COLUMNS + 1 && forall h :: IsHeader(h) ==> info[h] == CreateColumnId(h - 1)
    ensures var cs := ConstraintColumns(p);
            (forall t :: 0 <= t < 4 ==> IsHeader(cs[t] + 1))
            && info[cs[0] + 1] == ColumnId(ROW_CONSTRAINT, p.digit + 1, p.row)
            && info[cs[1] + 1] == ColumnId(COLUMN_CONSTRAINT, p.digit + 1, p.col)
            && info[cs[2] + 1] == ColumnId(BLOCK_CONSTRAINT, p.digit + 1, BlockIndex(p.row, p.col))
            && info[cs[3] + 1] == ColumnId(CELL_CONSTRAINT, 0, p.row * N + p.col)
  {
    ConstraintColumnsInRange(p);
    ConstraintColumnsDecode(p);
    var cs := ConstraintColumns(p);
    assert IsHeader(cs[0] + 1) && IsHeader(cs[1] + 1) && IsHeader(cs[2] + 1) && IsHeader(cs[3] + 1);
  }

  /** The row of a node of a row is four distinct nodes. */
  lemma RowShape(R: seq<int>, L: seq<int>, C: seq<int>, rows: seq<seq<int>>, rowOf: seq<int>, x: int)
    requires Rows(R, L, C, rows, rowOf) && x in RowAt(rows, rowOf, x)
    ensures 0 <= x < |rowOf| && 0 <= rowOf[x] < |rows|
    ensures var row := rows[rowOf[x]]; |row| == 4 && forall a, b :: 0 <= a < b < 4 ==> row[a] != row[b]
  {
    assert RowRing(R, L, C, rows[rowOf[x]], rowOf, rowOf[x]);
  }

  /**
   * The column id seen from a node y of the row of x: only the first node of
   * the row lies in a row-constraint column, whose id gives the digit, and
   * only the last lies in a cell-constraint column, whose id gives the cell.
   */
  lemma LabelOf(R: seq<int>, L: seq<int>, C: seq<int>, info: seq<ColumnId>, rows: seq<seq<int>>, rowOf: seq<int>, x: int, y: int)
    requires Rows(R, L, C, rows, rowOf) && Labelled(C, info, rows)
    requires x in RowAt(rows, rowOf, x) && y in RowAt(rows, rowOf, x)
    ensures var row := RowAt(rows, rowOf, x);
            var p := PossibilityAt(rowOf[x]);
            |row| == 4 && 0 <= y < |C| && 0 <= C[y] < |info|
            && (info[C[y]].constraint == ROW_CONSTRAINT <==> y == row[0])
            && (info[C[y]].constraint == CELL_CONSTRAINT <==> y == row[3])
            && (y == row[0] ==> info[C[y]].number == p.digit + 1)
            && (y == row[3] ==> info[C[y]].position == p.row * N + p.col)
  {
    RowShape(R, L, C, rows, rowOf, x);
    var i := rowOf[x];
    var row := rows[i];
    RowIds(C, info, rows, i);
    var a :| 0 <= a < 4 && row[a] == y;
    assert a == 0 <==> y == row[0];
    assert a == 3 <==> y == row[3];
  }

  /**
   * The walk right from x around its row, spelt out: the four nodes w, of
   * which w[ir] is the only one labelled with a row constraint, carrying the
   * digit of x's possibility, and w[ic] the only one labelled with a cell
   * constraint, carrying its cell.
   */
  lemma RowTour(R: seq<int>, L: seq<int>, C: seq<int>, info: seq<ColumnId>, rows: seq<seq<int>>, rowOf: seq<int>, x: int)
    returns (w: seq<int>, ir: int, ic: int)
    requires Rows(R, L, C, rows, rowOf) && Labelled(C, info, rows) && x in RowAt(rows, rowOf, x)
    ensures |w| == 4 && w[0] == x && 0 <= x < |rowOf| && 0 <= rowOf[x] < POSSIBILITIES
    ensures forall t :: 0 <= t < 4 ==> 0 <= w[t] < |R| && 0 <= w[t] < |C| && 0 <= C[w[t]] < |info|
    ensures R[w[0]] == w[1] && R[w[1]] == w[2] && R[w[2]] == w[3] && R[w[3]] == x
    ensures w[1] != x && w[2] != x && w[3] != x
    ensures 0 <= ir < 4 && 0 <= ic < 4
    ensures forall t :: 0 <= t < 4 ==>
              (info[C[w[t]]].constraint == ROW_CONSTRAINT <==> t == ir)
              && (info[C[w[t]]].constraint == CELL_CONSTRAINT <==> t == ic)
    ensures var p := PossibilityAt(rowOf[x]);
            info[C[w[ir]]].number == p.digit + 1 && info[C[w[ic]]].position == p.row * N + p.col
  {
    var row := RowAt(rows, rowOf, x);
    var os := Others(row, x);
    RowFrom(R, L, C, rows, rowOf, x);
    RingWalk(R, L, x, os);
    w := [x] + os;
    assert forall t :: 0 <= t < 4 ==> w[t] in row by {
      forall t | 0 <= t < 4 ensures w[t] in row {
        if t > 0 { assert w[t] == os[t - 1]; }
      }
    }
    forall t | 0 <= t < 4
      ensures 0 <= w[t] < |C| && 0 <= C[w[t]] < |info|
      ensures (info[C[w[t]]].constraint == ROW_CONSTRAINT <==> w[t] == row[0])
      ensures (info[C[w[t]]].constraint == CELL_CONSTRAINT <==> w[t] == row[3])
      ensures (w[t] == row[0] ==> info[C[w[t]]].number == PossibilityAt(rowOf[x]).digit + 1)
      ensures (w[t] == row[3] ==> info[C[w[t]]].position == PossibilityAt(rowOf[x]).row * N + PossibilityAt(rowOf[x]).col)
    {
      LabelOf(R, L, C, info, rows, rowOf, x, w[t]);
    }
    LabelOf(R, L, C, info, rows, rowOf, x, x);
    assert row[0] in row && row[3] in row;
    assert forall y :: y in row <==> y == x || y in os;
    assert row[0] in w && row[3] in w;
    ir :| 0 <= ir < 4 && w[ir] == row[0];
    ic :| 0 <= ic < 4 && w[ic] == row[3];
    assert Ring(R, L, w);
  }
}
