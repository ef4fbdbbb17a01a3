/**
 * run(): build the sparse matrix of the grid, link it into the toroidal
 * mesh, and search from depth 0.  The grid is left as it was when there is
 * no solution, and otherwise holds a completed Sudoku that keeps every clue.
 */
module Entry {
  import opened Indexing
  import opened ClueExclusion
  import opened SparseMatrix
  import opened DancingLinks
  import opened MeshInvariant
  import opened BuildInvariant
  import opened MeshBuilding
  import opened ExactCover
  import opened SolutionGrid
  import opened SudokuRules
  import opened Solver

  /**
   * Row i of the matrix built from the clues: no 1 when a clue rules
   * possibility i out, and otherwise 1s at its four constraint columns, in
   * increasing order.
   */
  lemma MatrixPattern(matrix: array2<byte>, clues: seq<Clue>)
    requires IsMatrixOf(matrix, clues)
    ensures var pat := Pattern(matrix, POSSIBILITIES);
            Fours(pat)
            && forall i :: 0 <= i < POSSIBILITIES ==>
                 pat[i] == if Excluded(PossibilityAt(i), clues) then [] else ConstraintColumns(PossibilityAt(i))
  {
    var pat := Pattern(matrix, POSSIBILITIES);
    forall i | 0 <= i < POSSIBILITIES
      ensures pat[i] == if Excluded(PossibilityAt(i), clues) then [] else ConstraintColumns(PossibilityAt(i))
    {
      MatrixRowOnes(matrix, clues, i, COLUMNS);
      ConstraintColumnsInRange(PossibilityAt(i));
    }
  }

  /**
   * The built mesh of such a matrix: each row lies in the columns of its
   * possibility, and the rows of ruled-out possibilities are empty.
   */
  lemma BuiltLabels(m: Mesh, pat: seq<seq<int>>, cols: seq<seq<int>>, rows: seq<seq<int>>, rowOf: seq<int>, clues: seq<Clue>)
    requires Building(m, pat, cols, rows, rowOf, |pat|, [], COLUMNS) && |pat| == POSSIBILITIES && ValidClues(clues)
    requires forall i :: 0 <= i < POSSIBILITIES ==>
               pat[i] == if Excluded(PossibilityAt(i), clues) then [] else ConstraintColumns(PossibilityAt(i))
    ensures (forall i :: 0 <= i < |rows| ==> RowLabels(m.C, rows[i], i)) && Pruned(rows, clues)
  {
    forall i | 0 <= i < |rows| ensures RowLabels(m.C, rows[i], i) && (Excluded(PossibilityAt(i), clues) ==> rows[i] == []) {
      assert RowAtStage(m, rows, rowOf, pat, |pat|, [], i);
    }
  }

  /**
   * The mesh createDoubleLinkedLists builds from the matrix of the clues is
   * ready for search(0): the mesh invariant holds with every header in the
   * ring, rows and headers carry their labels, ruled-out rows are empty, and
   * no column is claimed yet.
   */
  lemma BuiltReady(matrix: array2<byte>, clues: seq<Clue>, m: Mesh, cols: seq<seq<int>>, rows: seq<seq<int>>, rowOf: seq<int>, info: seq<ColumnId>)
    requires IsMatrixOf(matrix, clues) && Building(m, Pattern(matrix, POSSIBILITIES), cols, rows, rowOf, POSSIBILITIES, [], COLUMNS)
    requires |info| == COLUMNS + 1 && forall h :: IsHeader(h) ==> info[h] == CreateColumnId(h - 1)
    ensures Inv(m, Headers(), cols, rows, rowOf) && Labelled(m.C, info, rows) && Pruned(rows, clues)
    ensures Partial(m.C, rows, rowOf, [], Headers()) && |Headers()| == COLUMNS
  {
    var pat := Pattern(matrix, POSSIBILITIES);
    MatrixPattern(matrix, clues);
    BuiltInv(m, pat, cols, rows, rowOf);
    BuiltLabels(m, pat, cols, rows, rowOf, clues);
    forall h | IsHeader(h) ensures h in Headers() {
      assert Headers()[h - 1] == h;
    }
    PartialStart(m.C, rows, rowOf, Headers());
  }

  /** The cells of the grid, row-major; when no cell is blank, each of them is a clue. */
  lemma GridCells(grid: array2<int>) returns (v: seq<int>)
    requires grid.Length0 == N && grid.Length1 == N
    ensures Shows(grid, v)
    ensures (forall r, c :: 0 <= r < N && 0 <= c < N ==> grid[r, c] > 0)
            ==> forall r, c :: 0 <= r < N && 0 <= c < N ==> Clue(Cell(v, r, c), r, c) in CluesOf(grid, N * N)
  {
    v := seq(N * N, k requires 0 <= k < N * N reads grid => grid[k / N, k % N]);
    forall r, c | 0 <= r < N && 0 <= c < N ensures grid[r, c] == v[r * N + c] {
      var k := r * N + c;
      assert k / N == r && k % N == c;
    }
    forall r, c | 0 <= r < N && 0 <= c < N && grid[r, c] > 0 ensures Clue(Cell(v, r, c), r, c) in CluesOf(grid, N * N) {
      CluesOfMembership(grid, N * N, Clue(grid[r, c], r, c));
    }
  }

  /** A completed grid that keeps a clue in every cell is the grid of the clues. */
  lemma FullKept(g: seq<int>, v: seq<int>, clues: seq<Clue>)
    requires |v| == N * N && KeepsClues(g, clues)
    requires forall r, c :: 0 <= r < N && 0 <= c < N ==> Clue(Cell(v, r, c), r, c) in clues
    ensures g == v
  {
    forall k | 0 <= k < N * N ensures g[k] == v[k] {
      var r, c := k / N, k % N;
      assert k == r * N + c;
      var j :| 0 <= j < |clues| && clues[j] == Clue(Cell(v, r, c), r, c);
    }
  }

  /**
   * run(): createMatrix, createDoubleLinkedLists, then search(0).  The
   * solver object is created over the finished mesh.
   */
  method Run(grid: array2<int>) returns (ghost found: bool, ghost g: seq<int>)
    requires grid.Length0 == N && grid.Length1 == N
    modifies grid
    ensures !found ==> forall r, c :: 0 <= r < N && 0 <= c < N ==> grid[r, c] == old(grid[r, c])
    ensures found ==> Shows(grid, g) && IsSolution(g) && KeepsClues(g, old(CluesOf(grid, N * N)))
    ensures found ==> !Clash(old(CluesOf(grid, N * N)))
    ensures (forall r, c :: 0 <= r < N && 0 <= c < N ==> old(grid[r, c]) > 0)
            ==> forall r, c :: 0 <= r < N && 0 <= c < N ==> grid[r, c] == old(grid[r, c])
  {
    ghost var clues := CluesOf(grid, N * N);
    ghost var full := forall r, c :: 0 <= r < N && 0 <= c < N ==> grid[r, c] > 0;
    ghost var before := GridCells(grid);
    var matrix := CreateMatrix(grid);
    var builder := new MeshBuilder();
    ghost var cols, rows, rowOf := builder.CreateDoubleLinkedLists(matrix);
    BuiltReady(matrix, clues, builder.Snapshot(), cols, rows, rowOf, builder.info);
    var solver := new AlgorithmXSolver(grid, builder.Snapshot(), builder.info);
    ghost var last;
    found, last := solver.Search(0, [], Headers(), cols, rows, rowOf);
    g := [];
    if found {
      SolvedIsSudoku(solver.C, rows, rowOf, last, clues);
      g := Fill(rowOf, last);
      SolutionNoClash(g, clues);
      if full {
        FullKept(g, before, clues);
      }
    }
  }
}
