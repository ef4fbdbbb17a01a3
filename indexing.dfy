/**
 * Index arithmetic of the exact-cover encoding of a 9x9 Sudoku.
 *
 * A possibility "digit d at row r, column c" (all three 0-based) is a row of the
 * exact-cover matrix; a constraint is one of its 4·N² columns.  The first 3·N²
 * columns come in N digit-major groups of 3·N columns (row, column, block
 * constraints of that digit); the last N² columns are the cell constraints.
 * This module holds the row and column index formulas used when the matrix is
 * filled, and the column classifier that decodes a column index back into the
 * kind of constraint, the digit and the position it stands for.
 */
module Indexing {

  /** Block dimension and side of the grid. */
  const SIZE: int := 3
  const N: int := 9  // = SIZE * SIZE

  /** Number of constraint columns and of possibilities (matrix rows). */
  const COLUMNS: int := 4 * N * N
  const POSSIBILITIES: int := N * N * N

  /** Kinds of constraint, as stored in a column id. */
  const ROW_CONSTRAINT: int := 0
  const COLUMN_CONSTRAINT: int := 1
  const BLOCK_CONSTRAINT: int := 2
  const CELL_CONSTRAINT: int := 3

  /** "digit (0-based) placed at (row, col)". */
  datatype Possibility = Possibility(digit: int, row: int, col: int)

  predicate InGrid(p: Possibility) {
    0 <= p.digit < N && 0 <= p.row < N && 0 <= p.col < N
  }

  /** Index of the block holding cell (r, c), blocks numbered row-major. */
  function BlockIndex(r: int, c: int): (b: int)
    requires 0 <= r < N && 0 <= c < N
    ensures 0 <= b < N
    ensures b / SIZE == r / SIZE && b % SIZE == c / SIZE
  {
    c / SIZE + (r / SIZE) * SIZE
  }

  /** Matrix row of a possibility. */
  function RowIndex(p: Possibility): int {
    p.col + N * p.row + N * N * p.digit
  }

  /** The possibility a matrix row stands for: the inverse of RowIndex. */
  function PossibilityAt(i: int): (p: Possibility)
    requires 0 <= i < POSSIBILITIES
    ensures InGrid(p) && RowIndex(p) == i
  {
    DigitsOf(i);
    Possibility(i / (N * N), (i / N) % N, i % N)
  }

  /** The base-N digits of a matrix row index. */
  lemma DigitsOf(i: int)
    requires 0 <= i < POSSIBILITIES
    ensures 0 <= i / (N * N) < N && 0 <= (i / N) % N < N && 0 <= i % N < N
    ensures i == i % N + N * ((i / N) % N) + N * N * (i / (N * N))
  {
    var q := i / N;
    assert i == N * q + i % N;
    assert q == N * (q / N) + q % N;
    assert q / N == i / (N * N);
  }

  /** The four constraint columns a possibility satisfies. */
  function ColIndexRow(p: Possibility): int { 3 * N * p.digit + p.row }
  function ColIndexCol(p: Possibility): int { 3 * N * p.digit + N + p.col }
  function ColIndexBlock(p: Possibility): int
    requires InGrid(p)
  {
    3 * N * p.digit + 2 * N + BlockIndex(p.row, p.col)
  }
  function ColIndexSimple(p: Possibility): int { 3 * N * N + (p.col + N * p.row) }

  /** The four columns in the order they are set: row, column, block, cell. */
  function ConstraintColumns(p: Possibility): seq<int>
    requires InGrid(p)
  {
    [ColIndexRow(p), ColIndexCol(p), ColIndexBlock(p), ColIndexSimple(p)]
  }

  /** Identifying metadata of a column header. */
  datatype ColumnId = ColumnId(constraint: int, number: int, position: int)

  /**
   * The column classifier.  The digit of a cell constraint is left at 0, the
   * default of an unset int field.
   */
  function CreateColumnId(col: int): (id: ColumnId)
    requires 0 <= col < COLUMNS
    ensures ROW_CONSTRAINT <= id.constraint <= CELL_CONSTRAINT
    ensures id.constraint == CELL_CONSTRAINT <==> col >= 3 * N * N
    ensures id.constraint == CELL_CONSTRAINT ==> id.number == 0 && 0 <= id.position < N * N
    ensures id.constraint != CELL_CONSTRAINT ==> 1 <= id.number <= N && 0 <= id.position < N
  {
    if col < 3 * N * N then
      var digit := col / (3 * N) + 1;
      var index := col - (digit - 1) * 3 * N;
      if index < N then ColumnId(ROW_CONSTRAINT, digit, index)
      else if index < 2 * N then ColumnId(COLUMN_CONSTRAINT, digit, index - N)
      else ColumnId(BLOCK_CONSTRAINT, digit, index - 2 * N)
    else
      ColumnId(CELL_CONSTRAINT, 0, col - 3 * N * N)
  }

  /** Encoding of a column id back into its column index. */
  function ColumnOf(id: ColumnId): int {
    if id.constraint == CELL_CONSTRAINT then 3 * N * N + id.position
    else 3 * N * (id.number - 1) + id.constraint * N + id.position
  }

  /** The classifier is injective on the columns: ColumnOf undoes it. */
  lemma ColumnIdRoundTrip(col: int)
    requires 0 <= col < COLUMNS
    ensures ColumnOf(CreateColumnId(col)) == col
  {
  }

  /** RowIndex is a bijection from the possibilities of the grid onto [0, N³). */
  lemma RowIndexBijection(p: Possibility)
    requires InGrid(p)
    ensures 0 <= RowIndex(p) < POSSIBILITIES
    ensures PossibilityAt(RowIndex(p)) == p
  {
    var i := RowIndex(p);
    assert i == p.col + N * (p.row + N * p.digit);
    assert i / N == p.row + N * p.digit;
    assert i / (N * N) == (i / N) / N;
  }

  /** The four columns of a possibility are strictly increasing and lie in [0, 4N²). */
  lemma ConstraintColumnsInRange(p: Possibility)
    requires InGrid(p)
    ensures var cs := ConstraintColumns(p);
            0 <= cs[0] < cs[1] < cs[2] < cs[3] < COLUMNS
  {
  }

  /** Each of the four columns is classified as the constraint it was built for. */
  lemma ConstraintColumnsDecode(p: Possibility)
    requires InGrid(p)
    ensures CreateColumnId(ColIndexRow(p)) == ColumnId(ROW_CONSTRAINT, p.digit + 1, p.row)
    ensures CreateColumnId(ColIndexCol(p)) == ColumnId(COLUMN_CONSTRAINT, p.digit + 1, p.col)
    ensures CreateColumnId(ColIndexBlock(p)) == ColumnId(BLOCK_CONSTRAINT, p.digit + 1, BlockIndex(p.row, p.col))
    ensures CreateColumnId(ColIndexSimple(p)) == ColumnId(CELL_CONSTRAINT, 0, p.row * N + p.col)
  {
    var d := p.digit;
    assert (3 * N * d + p.row) / (3 * N) == d;
    assert (3 * N * d + N + p.col) / (3 * N) == d;
    assert (3 * N * d + 2 * N + BlockIndex(p.row, p.col)) / (3 * N) == d;
  }
}
