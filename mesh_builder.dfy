/**
 * The construction of the toroidal mesh from the sparse matrix:
 * createDoubleLinkedLists with createColumnHeads and
 * linkTheLastColumnElements.  Nodes are allocated in the arena the way the
 * source allocates objects: a new node takes the next index, with every
 * link NIL, and its fields are then written one by one.
 */
module MeshBuilding {
  import opened Indexing
  import opened SparseMatrix
  import opened DancingLinks
  import opened MeshInvariant
  import opened BuildInvariant

  /** The column id of a column node that has none: the root keeps it, a header until it is set. */
  const NO_ID: ColumnId := ColumnId(-1, 0, 0)

  /** Counting the 1s of column j in the rows of the pattern of a matrix counts them in the matrix. */
  lemma {:induction false} CountPattern(m: array2<byte>, j: int, k: int)
    requires 0 <= j < m.Length1 && 0 <= k <= m.Length0
    ensures Count(Pattern(m, m.Length0), j, k) == OnesInColumn(m, j, k)
  {
    if k > 0 {
      CountPattern(m, j, k - 1);
      OnesInRowBelow(m, k - 1, m.Length1);
    }
  }

  /** In the built mesh, the size of each header is the number of 1s of its matrix column. */
  lemma ColumnSizes(mesh: Mesh, m: array2<byte>, cols: seq<seq<int>>, rows: seq<seq<int>>, rowOf: seq<int>)
    requires IsMatrixShape(m)
    requires Building(mesh, Pattern(m, m.Length0), cols, rows, rowOf, m.Length0, [], COLUMNS)
    requires Counted(cols, Pattern(m, m.Length0), m.Length0, [])
    ensures forall h :: IsHeader(h) ==> mesh.S[h] == OnesInColumn(m, h - 1, m.Length0)
  {
    forall h | IsHeader(h) ensures mesh.S[h] == OnesInColumn(m, h - 1, m.Length0) {
      assert ColumnAt(mesh, cols[h], h, COLUMNS);
      CountPattern(m, h - 1, m.Length0);
    }
  }

  class MeshBuilder {
    /** The node arena under construction, and the column id of each column node. */
    var L: seq<int>
    var R: seq<int>
    var U: seq<int>
    var D: seq<int>
    var C: seq<int>
    var S: seq<int>
    var info: seq<ColumnId>

    /** An empty arena. */
    constructor ()
      ensures L == [] && R == [] && U == [] && D == [] && C == [] && S == [] && info == []
    {
      L, R, U, D, C, S, info := [], [], [], [], [], [], [];
    }

    /** The mesh as a value. */
    function Snapshot(): Mesh
      reads this`L, this`R, this`U, this`D, this`C, this`S
    {
      Mesh(L, R, U, D, C, S)
    }

    /** new Node(): the next index of the arena, with every link NIL. */
    method NewNode() returns (x: int)
      modifies this`L, this`R, this`U, this`D, this`C
      ensures x == old(|L|)
      ensures L == old(L) + [NIL] && R == old(R) + [NIL] && U == old(U) + [NIL] && D == old(D) + [NIL] && C == old(C) + [NIL]
    {
      x := |L|;
      L, R, U, D, C := L + [NIL], R + [NIL], U + [NIL], D + [NIL], C + [NIL];
    }

    /**
     * new ColumnNode(): a node with size 0 and no column id.  Column nodes
     * are allocated before any data node, so a column node's size and id sit
     * at its own index.
     */
    method NewColumnNode() returns (x: int)
      requires |S| == |L| && |info| == |L|
      modifies this`L, this`R, this`U, this`D, this`C, this`S, this`info
      ensures x == old(|L|) && S == old(S) + [0] && info == old(info) + [NO_ID]
      ensures L == old(L) + [NIL] && R == old(R) + [NIL] && U == old(U) + [NIL] && D == old(D) + [NIL] && C == old(C) + [NIL]
    {
      x := NewNode();
      S, info := S + [0], info + [NO_ID];
    }

    /**
     * createDoubleLinkedLists(matrix): allocate the root, the headers
     * (createColumnHeads), then, row by row, a node for each 1 (LinkRow),
     * and finally close every column (linkTheLastColumnElements).  The
     * result is the complete mesh of the matrix: every header in the ring
     * in column order, each column the nodes of its 1s, each row a ring of
     * the nodes of its 1s.
     */
    method CreateDoubleLinkedLists(matrix: array2<byte>) returns (ghost cols: seq<seq<int>>, ghost rows: seq<seq<int>>, ghost rowOf: seq<int>)
      requires IsMatrixShape(matrix)
      requires L == [] && R == [] && U == [] && D == [] && C == [] && S == [] && info == []
      modifies this`L, this`R, this`U, this`D, this`C, this`S, this`info
      ensures Building(Snapshot(), Pattern(matrix, matrix.Length0), cols, rows, rowOf, matrix.Length0, [], COLUMNS)
      ensures |info| == COLUMNS + 1 && forall h :: IsHeader(h) ==> info[h] == CreateColumnId(h - 1)
      ensures forall h :: IsHeader(h) ==> S[h] == OnesInColumn(matrix, h - 1, matrix.Length0)
    {
      var root := NewColumnNode();
      CreateColumnHeads(root, matrix);
      ghost var pat := Pattern(matrix, matrix.Length0);
      cols, rows, rowOf := seq(COLUMNS + 1, _ => []), seq(|pat|, _ => []), seq(COLUMNS + 1, _ => NIL);
      StartBuilding(Snapshot(), info, pat);
      StartCounted(pat);
      for i := 0 to matrix.Length0
        invariant Building(Snapshot(), pat, cols, rows, rowOf, i, [], 0) && Counted(cols, pat, i, [])
        invariant |info| == COLUMNS + 1 && forall h :: IsHeader(h) ==> info[h] == CreateColumnId(h - 1)
      {
        cols, rows, rowOf := LinkRow(matrix, i, pat, cols, rows, rowOf);
      }
      LinkTheLastColumnElements(matrix, pat, cols, rows, rowOf);
      ColumnSizes(Snapshot(), matrix, cols, rows, rowOf);
    }

    /**
     * createColumnHeads(root, matrix): one header per matrix column, each
     * linked right of the previous one, given the column id of its column
     * and made its own head; the last one is linked back to the root.
     */
    method CreateColumnHeads(root: int, matrix: array2<byte>)
      requires root == 0 && L == [NIL] && R == [NIL] && U == [NIL] && D == [NIL] && C == [NIL] && S == [0] && info == [NO_ID]
      requires matrix.Length1 == COLUMNS
      modifies this`L, this`R, this`U, this`D, this`C, this`S, this`info
      ensures HeadsBuilt(Snapshot(), info)
    {
      var curColumn := root;
      for col := 0 to matrix.Length1
        invariant |L| == col + 1 && |R| == col + 1 && |U| == col + 1 && |D| == col + 1 && |C| == col + 1
        invariant |S| == col + 1 && |info| == col + 1 && curColumn == col
        invariant forall t :: 0 <= t < col ==> R[t] == t + 1
        invariant forall t :: 0 < t <= col ==> L[t] == t - 1 && C[t] == t && info[t] == CreateColumnId(t - 1)
        invariant R[col] == NIL && L[0] == NIL
        invariant forall t :: 0 <= t <= col ==> D[t] == NIL && S[t] == 0
      {
        var n := NewColumnNode();
        R := R[curColumn := n];
        L := L[R[curColumn] := curColumn];
        curColumn := R[curColumn];
        info := info[curColumn := CreateColumnId(col)];
        C := C[curColumn := curColumn];
      }
      R := R[curColumn := root];
      L := L[root := curColumn];
      HeadRing();
    }

    /** The header ring once createColumnHeads has linked the headers 1..COLUMNS in a row and closed it at the root. */
    lemma HeadRing()
      requires |L| == COLUMNS + 1 && |R| == COLUMNS + 1
      requires forall t :: 0 <= t < COLUMNS ==> R[t] == t + 1
      requires forall t :: 0 < t <= COLUMNS ==> L[t] == t - 1
      requires R[COLUMNS] == 0 && L[0] == COLUMNS
      ensures HeaderRing(R, L, Headers())
    {
      var xs := [0] + Headers();
      assert forall t :: 0 <= t < |xs| ==> xs[t] == t;
    }

    /**
     * One pass of the row loop of createDoubleLinkedLists: walking the
     * headers left to right along with the entries of row i, link a node for
     * each 1 (LinkNode), then close the row into a ring.
     */
    method LinkRow(matrix: array2<byte>, i: int, ghost pat: seq<seq<int>>, ghost cols: seq<seq<int>>, ghost rows: seq<seq<int>>, ghost rowOf: seq<int>)
      returns (ghost cols': seq<seq<int>>, ghost rows': seq<seq<int>>, ghost rowOf': seq<int>)
      requires IsMatrixShape(matrix) && 0 <= i < matrix.Length0 && pat == Pattern(matrix, matrix.Length0)
      requires Building(Snapshot(), pat, cols, rows, rowOf, i, [], 0) && Counted(cols, pat, i, [])
      modifies this`L, this`R, this`U, this`D, this`C, this`S
      ensures Building(Snapshot(), pat, cols', rows', rowOf', i + 1, [], 0) && Counted(cols', pat, i + 1, [])
    {
      HeaderNext(R, L, 0);
      var curColumn := R[0];
      var lastCreated := NIL;
      var first := NIL;
      cols', rows', rowOf' := cols, rows, rowOf;
      assert RowAtStage(Snapshot(), rows, rowOf, pat, i, [], i);
      for j := 0 to matrix.Length1
        invariant Building(Snapshot(), pat, cols', rows', rowOf', i, OnesInRow(matrix, i, j), 0)
        invariant curColumn == if j < COLUMNS then j + 1 else 0
        invariant first == FirstOf(rows'[i]) && lastCreated == LastOf(rows'[i])
        invariant Counted(cols', pat, i, OnesInRow(matrix, i, j))
      {
        if matrix[i, j] == 1 {
          OnesInRowBelow(matrix, i, j);
          CountedAdd(cols', pat, i, OnesInRow(matrix, i, j), j, |L|);
          lastCreated, first, cols', rows', rowOf' := LinkNode(curColumn, lastCreated, first, i, j, pat, OnesInRow(matrix, i, j), cols', rows', rowOf');
        }
        assert OnesInRow(matrix, i, j + 1) == if matrix[i, j] == 1 then OnesInRow(matrix, i, j) + [j] else OnesInRow(matrix, i, j);
        HeaderNext(R, L, curColumn);
        curColumn := R[curColumn];
      }
      ghost var m := Snapshot();
      assert RowAtStage(m, rows', rowOf', pat, i, pat[i], i);
      CountedRow(cols', pat, i);
      if lastCreated != NIL {
        RowCloses(m, pat, cols', rows', rowOf', i);
        R := R[lastCreated := first];
        L := L[first := lastCreated];
      } else {
        EmptyRowDone(m, pat, cols', rows', rowOf', i);
      }
    }

    /**
     * The body of the inner loop of createDoubleLinkedLists for a 1 in
     * column j of row i, under header curColumn: walk down to the lowest node
     * of the column, hang a new node below it, and link the new node after
     * the last node created in the row.
     */
    method LinkNode(curColumn: int, lastCreated: int, first: int, ghost i: int, ghost j: int, ghost pat: seq<seq<int>>, ghost ps: seq<int>,
                    ghost cols: seq<seq<int>>, ghost rows: seq<seq<int>>, ghost rowOf: seq<int>)
      returns (lastCreated': int, first': int, ghost cols': seq<seq<int>>, ghost rows': seq<seq<int>>, ghost rowOf': seq<int>)
      requires 0 <= i < |pat| && 0 <= j < COLUMNS && curColumn == j + 1 && Building(Snapshot(), pat, cols, rows, rowOf, i, ps, 0)
      requires first == FirstOf(rows[i]) && lastCreated == LastOf(rows[i])
      modifies this`L, this`R, this`U, this`D, this`C, this`S
      ensures Building(Snapshot(), pat, cols', rows', rowOf', i, ps + [j], 0)
      ensures first' == FirstOf(rows'[i]) && lastCreated' == LastOf(rows'[i])
      ensures cols' == cols[j + 1 := cols[j + 1] + [old(|L|)]]
    {
      ghost var m := Snapshot();
      assert ColumnAt(m, cols[curColumn], curColumn, 0);
      assert RowAtStage(m, rows, rowOf, pat, i, ps, i);
      var colElement := Bottom(curColumn, cols[curColumn]);
      var n := NewNode();
      D := D[colElement := n];
      assert D[colElement] == n;
      first' := if first == NIL then D[colElement] else first;
      U := U[D[colElement] := colElement];
      L := L[D[colElement] := lastCreated];
      C := C[D[colElement] := curColumn];
      if lastCreated != NIL {
        R := R[L[D[colElement]] := D[colElement]];
      }
      lastCreated' := D[colElement];
      S := S[curColumn := S[curColumn] + 1];
      cols', rows', rowOf' := cols[curColumn := cols[curColumn] + [n]], rows[i := rows[i] + [n]], rowOf + [i];
      AddedKeeps(m, pat, cols, rows, rowOf, i, ps, j);
      ghost var m' := Added(m, colElement, lastCreated, curColumn);
      assert L == m'.L && R == m'.R && U == m'.U && D == m'.D && C == m'.C && S == m'.S;
    }

    /** Walk down from header h while there is a node below: the lowest node of its column. */
    method Bottom(h: int, ghost col: seq<int>) returns (x: int)
      requires Chain(D, U, [h] + col)
      ensures x == Lowest(col, h)
    {
      ghost var xs := [h] + col;
      x := h;
      ghost var t := 0;
      while D[x] != NIL
        invariant 0 <= t < |xs| && x == xs[t]
        invariant t < |xs| - 1 ==> D[x] == xs[t + 1]
        decreases |xs| - t
      {
        x := D[x];
        t := t + 1;
      }
    }

    /**
     * linkTheLastColumnElements(matrix): for each header, left to right,
     * link the lowest node of its column down to the header and the header
     * up to it, closing the column into a ring.
     */
    method LinkTheLastColumnElements(matrix: array2<byte>, ghost pat: seq<seq<int>>, ghost cols: seq<seq<int>>, ghost rows: seq<seq<int>>, ghost rowOf: seq<int>)
      requires IsMatrixShape(matrix) && Building(Snapshot(), pat, cols, rows, rowOf, |pat|, [], 0)
      modifies this`U, this`D
      ensures Building(Snapshot(), pat, cols, rows, rowOf, |pat|, [], COLUMNS)
    {
      HeaderNext(R, L, 0);
      var curColumn := R[0];
      for i := 0 to matrix.Length1
        invariant Building(Snapshot(), pat, cols, rows, rowOf, |pat|, [], i)
        invariant curColumn == if i < COLUMNS then i + 1 else 0
      {
        ghost var m := Snapshot();
        assert ColumnAt(m, cols[curColumn], curColumn, i);
        var colElement := Bottom(curColumn, cols[curColumn]);
        ColumnCloses(m, pat, cols, rows, rowOf, curColumn);
        D := D[colElement := curColumn];
        U := U[curColumn := colElement];
        HeaderNext(R, L, curColumn);
        curColumn := R[curColumn];
      }
    }
  }
}
