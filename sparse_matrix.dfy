/**
 * The exact-cover matrix builder: the N³ x 4N² byte matrix whose row
 * RowIndex(p) holds a 1 in each of the four constraint columns of the
 * possibility p, unless some clue of the grid rules p out, in which case the
 * row stays all zero.
 */
module SparseMatrix {
  import opened Indexing
  import opened ClueExclusion

  /** Java's signed byte. */
  newtype byte = x: int | -128 <= x < 128

  /** The clues among the first k cells of the grid, in row-major order. */
  function CluesOf(g: array2<int>, k: int): (clues: seq<Clue>)
    requires g.Length0 == N && g.Length1 == N && 0 <= k <= N * N
    reads g
    ensures ValidClues(clues)
  {
    if k == 0 then []
    else
      var r, c := (k - 1) / N, (k - 1) % N;
      CluesOf(g, k - 1) + (if g[r, c] > 0 then [Clue(g[r, c], r, c)] else [])
  }

  /** The clue list holds exactly the non-zero cells of the grid. */
  lemma {:induction false} CluesOfMembership(g: array2<int>, k: int, clue: Clue)
    requires g.Length0 == N && g.Length1 == N && 0 <= k <= N * N
    ensures clue in CluesOf(g, k)
            <==> 0 <= clue.row < N && 0 <= clue.col < N && clue.row * N + clue.col < k
                 && clue.value == g[clue.row, clue.col] && clue.value > 0
  {
    if k > 0 {
      CluesOfMembership(g, k - 1, clue);
    }
  }

  /** A grid of zeros has no clues. */
  lemma {:induction false} EmptyGridHasNoClues(g: array2<int>, k: int)
    requires g.Length0 == N && g.Length1 == N && 0 <= k <= N * N
    requires forall r, c :: 0 <= r < N && 0 <= c < N ==> g[r, c] == 0
    ensures CluesOf(g, k) == []
  {
    if k > 0 {
      EmptyGridHasNoClues(g, k - 1);
    }
  }

  /** Specification of the matrix: entry (i, j) of the matrix built from the clues. */
  function MatrixEntry(clues: seq<Clue>, i: int, j: int): byte
    requires ValidClues(clues) && 0 <= i < POSSIBILITIES
  {
    var p := PossibilityAt(i);
    if !Excluded(p, clues) && j in ConstraintColumns(p) then 1 else 0
  }

  predicate IsMatrixShape(m: array2<byte>) {
    m.Length0 == POSSIBILITIES && m.Length1 == COLUMNS
  }

  /** The matrix holds exactly the entries specified for the clues. */
  ghost predicate IsMatrixOf(m: array2<byte>, clues: seq<Clue>)
    reads m
  {
    IsMatrixShape(m) && ValidClues(clues)
    && forall i, j :: 0 <= i < POSSIBILITIES && 0 <= j < COLUMNS ==> m[i, j] == MatrixEntry(clues, i, j)
  }

  /**
   * Set the four 1s of the possibility (d, r, c) unless a clue rules it out;
   * nothing else of the matrix changes.
   */
  method MapSparseMatrix(d: int, r: int, c: int, matrix: array2<byte>, clues: seq<Clue>)
    requires IsMatrixShape(matrix) && ValidClues(clues)
    requires InGrid(Possibility(d, r, c))
    modifies matrix
    ensures forall i, j :: 0 <= i < POSSIBILITIES && 0 <= j < COLUMNS ==>
              matrix[i, j] == if i == RowIndex(Possibility(d, r, c))
                                 && !Excluded(Possibility(d, r, c), clues)
                                 && j in ConstraintColumns(Possibility(d, r, c))
                              then 1 else old(matrix[i, j])
  {
    var filled := IsCellFilled(d, r, c, clues);
    if !filled {
      var rowIndex := c + (N * r) + (N * N * d);
      var blockIndex := (c / SIZE) + ((r / SIZE) * SIZE);
      var colIndexRow := 3 * N * d + r;
      var colIndexCol := 3 * N * d + N + c;
      var colIndexBlock := 3 * N * d + 2 * N + blockIndex;
      var colIndexSimple := 3 * N * N + (c + N * r);
      RowIndexBijection(Possibility(d, r, c));
      ConstraintColumnsInRange(Possibility(d, r, c));
      matrix[rowIndex, colIndexRow] := 1;
      matrix[rowIndex, colIndexCol] := 1;
      matrix[rowIndex, colIndexBlock] := 1;
      matrix[rowIndex, colIndexSimple] := 1;
    }
  }

  /**
   * Collect the clues of the grid row-major (CollectClues), then fill a
   * zero matrix possibility by possibility, digit-major.
   */
  method CreateMatrix(initialMatrix: array2<int>) returns (matrix: array2<byte>)
    requires initialMatrix.Length0 == N && initialMatrix.Length1 == N
    ensures fresh(matrix)
    ensures IsMatrixOf(matrix, CluesOf(initialMatrix, N * N))
  {
    var clues := CollectClues(initialMatrix);
    matrix := new byte[N * N * N, 4 * N * N]((i, j) => 0);
    for d := 0 to N
      invariant forall i, j :: 0 <= i < POSSIBILITIES && 0 <= j < COLUMNS ==>
                  matrix[i, j] == if i < N * N * d then MatrixEntry(clues, i, j) else 0
    {
      for r := 0 to N
        invariant forall i, j :: 0 <= i < POSSIBILITIES && 0 <= j < COLUMNS ==>
                    matrix[i, j] == if i < N * N * d + N * r then MatrixEntry(clues, i, j) else 0
      {
        for c := 0 to N
          invariant forall i, j :: 0 <= i < POSSIBILITIES && 0 <= j < COLUMNS ==>
                      matrix[i, j] == if i < N * N * d + N * r + c then MatrixEntry(clues, i, j) else 0
        {
          RowIndexBijection(Possibility(d, r, c));
          MapSparseMatrix(d, r, c, matrix, clues);
        }
      }
    }
  }

  /** The first loop of createMatrix: the clues of the grid, row-major. */
  method CollectClues(initialMatrix: array2<int>) returns (clues: seq<Clue>)
    requires initialMatrix.Length0 == N && initialMatrix.Length1 == N
    ensures clues == CluesOf(initialMatrix, N * N)
  {
    clues := [];
    for r := 0 to N
      invariant clues == CluesOf(initialMatrix, r * N)
    {
      for c := 0 to N
        invariant clues == CluesOf(initialMatrix, r * N + c)
      {
        CluesStep(initialMatrix, r, c);
        if initialMatrix[r, c] > 0 {
          clues := clues + [Clue(initialMatrix[r, c], r, c)];
        }
      }
      assert r * N + N == (r + 1) * N;
    }
  }

  /** Cell (r, c) is the cell after the first r * N + c cells, row-major. */
  lemma CluesStep(g: array2<int>, r: int, c: int)
    requires g.Length0 == N && g.Length1 == N && 0 <= r < N && 0 <= c < N
    ensures r * N + c + 1 <= N * N
    ensures CluesOf(g, r * N + c + 1)
            == CluesOf(g, r * N + c) + (if g[r, c] > 0 then [Clue(g[r, c], r, c)] else [])
  {
    var k := r * N + c;
    assert k / N == r && k % N == c;
  }

  /** The column indices of the 1s among the first k entries of row i, increasing. */
  function OnesInRow(m: array2<byte>, i: int, k: int): seq<int>
    requires 0 <= i < m.Length0 && 0 <= k <= m.Length1
    reads m
  {
    if k == 0 then [] else OnesInRow(m, i, k - 1) + (if m[i, k - 1] == 1 then [k - 1] else [])
  }

  /** The 1s among the first k entries of row i lie below k, and are the entries that are 1. */
  lemma {:induction false} OnesInRowBelow(m: array2<byte>, i: int, k: int)
    requires 0 <= i < m.Length0 && 0 <= k <= m.Length1
    ensures forall j :: j in OnesInRow(m, i, k) <==> 0 <= j < k && m[i, j] == 1
  {
    if k > 0 {
      OnesInRowBelow(m, i, k - 1);
    }
  }

  /** For each of the first k rows, the columns of its 1s, left to right. */
  function Pattern(m: array2<byte>, k: int): (pat: seq<seq<int>>)
    requires 0 <= k <= m.Length0
    reads m
    ensures |pat| == k && forall i :: 0 <= i < k ==> pat[i] == OnesInRow(m, i, m.Length1)
  {
    if k == 0 then [] else Pattern(m, k - 1) + [OnesInRow(m, k - 1, m.Length1)]
  }

  /** Number of 1s among the first k entries of column j. */
  function OnesInColumn(m: array2<byte>, j: int, k: int): nat
    requires 0 <= j < m.Length1 && 0 <= k <= m.Length0
    reads m
  {
    if k == 0 then 0 else OnesInColumn(m, j, k - 1) + (if m[k - 1, j] == 1 then 1 else 0)
  }

  /** The elements of a four-element increasing sequence that lie below k. */
  function Below(cs: seq<int>, k: int): seq<int>
    requires |cs| == 4
  {
    if k <= cs[0] then [] else if k <= cs[1] then cs[..1]
    else if k <= cs[2] then cs[..2] else if k <= cs[3] then cs[..3] else cs
  }

  /**
   * Every row of the built matrix is all zero when a clue rules its
   * possibility out, and otherwise has its 1s exactly at the four constraint
   * columns of the possibility.
   */
  lemma {:induction false} MatrixRowOnes(m: array2<byte>, clues: seq<Clue>, i: int, k: int)
    requires IsMatrixOf(m, clues) && 0 <= i < POSSIBILITIES && 0 <= k <= COLUMNS
    ensures var p := PossibilityAt(i);
            OnesInRow(m, i, k) == if Excluded(p, clues) then [] else Below(ConstraintColumns(p), k)
  {
    var p := PossibilityAt(i);
    ConstraintColumnsInRange(p);
    if k > 0 {
      MatrixRowOnes(m, clues, i, k - 1);
    }
  }

  /** With no clue, no row is ruled out: every row has its four 1s. */
  lemma NoCluesFourOnesPerRow(m: array2<byte>, i: int)
    requires IsMatrixOf(m, []) && 0 <= i < POSSIBILITIES
    ensures OnesInRow(m, i, COLUMNS) == ConstraintColumns(PossibilityAt(i))
    ensures |OnesInRow(m, i, COLUMNS)| == 4
  {
    MatrixRowOnes(m, [], i, COLUMNS);
    ConstraintColumnsInRange(PossibilityAt(i));
  }
}
