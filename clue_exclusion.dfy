/**
 * Pruning of possibilities against the clues of the puzzle.
 *
 * A clue is the triple (value, row, column) of a non-zero grid cell, value
 * being the 1-based digit.  A possibility is left out of the exact-cover
 * matrix when it conflicts with some clue: it puts another digit in the clue's
 * cell, or it puts the clue's digit elsewhere in the clue's row or column, or
 * elsewhere in the clue's block (with the block test as written, see
 * BlockTestCharacterised).
 */
module ClueExclusion {
  import opened Indexing

  /** A given digit of the puzzle: the int[]{value, r, c} triple. */
  datatype Clue = Clue(value: int, row: int, col: int)

  /** Clues sit on cells of the grid. */
  predicate ValidClues(clues: seq<Clue>) {
    forall k :: 0 <= k < |clues| ==> 0 <= clues[k].row < N && 0 <= clues[k].col < N
  }

  /**
   * Same cell with another digit, or same digit in the same row or column
   * but not the same cell.
   */
  predicate MatchesExistingConditionsWithoutExactCellMatch(digit: int, row: int, col: int, clue: Clue) {
    var d := clue.value - 1;
    var r := clue.row;
    var c := clue.col;
    (d != digit && row == r && col == c) ||
    (d == digit && (row == r || col == c) && !(row == r && col == c))
  }

  /**
   * Same digit strictly inside the clue's block, in neither the clue's row nor
   * its column.  The bounds are strict on both sides, as in the source.
   */
  predicate MatchesExistingConditionsInSameBlockButNotSameCell(digit: int, row: int, col: int, clue: Clue)
    requires 0 <= clue.row && 0 <= clue.col
  {
    var d := clue.value - 1;
    var r := clue.row;
    var c := clue.col;
    var blockStartIndexRow := (r / SIZE) * SIZE;
    var blockEndIndexRow := blockStartIndexRow + SIZE;
    var blockStartIndexCol := (c / SIZE) * SIZE;
    var blockEndIndexCol := blockStartIndexCol + SIZE;
    d == digit && row > blockStartIndexRow && row < blockEndIndexRow
    && col > blockStartIndexCol && col < blockEndIndexCol && row != r && col != c
  }

  /** One clue rules the possibility out. */
  predicate Conflicts(p: Possibility, clue: Clue)
    requires 0 <= clue.row && 0 <= clue.col
  {
    MatchesExistingConditionsWithoutExactCellMatch(p.digit, p.row, p.col, clue)
    || MatchesExistingConditionsInSameBlockButNotSameCell(p.digit, p.row, p.col, clue)
  }

  /** Some clue rules the possibility out. */
  predicate Excluded(p: Possibility, clues: seq<Clue>)
    requires ValidClues(clues)
  {
    exists k :: 0 <= k < |clues| && Conflicts(p, clues[k])
  }

  /**
   * Scan of the clues, stopping at the first that rules the possibility out.
   */
  method IsCellFilled(digit: int, row: int, col: int, prefill: seq<Clue>) returns (filled: bool)
    requires ValidClues(prefill)
    ensures filled <==> Excluded(Possibility(digit, row, col), prefill)
  {
    var i := 0;
    while i < |prefill|
      invariant 0 <= i <= |prefill|
      invariant forall k :: 0 <= k < i ==> !Conflicts(Possibility(digit, row, col), prefill[k])
    {
      var ints := prefill[i];
      if MatchesExistingConditionsWithoutExactCellMatch(digit, row, col, ints)
         || MatchesExistingConditionsInSameBlockButNotSameCell(digit, row, col, ints)
      {
        assert Conflicts(Possibility(digit, row, col), prefill[i]);
        return true;
      }
      i := i + 1;
    }
    return false;
  }

  /** Placing d at (row, col) cannot coexist with the clue in a solved grid. */
  predicate Incompatible(p: Possibility, clue: Clue)
    requires InGrid(p) && 0 <= clue.row < N && 0 <= clue.col < N
  {
    var sameCell := p.row == clue.row && p.col == clue.col;
    (sameCell && p.digit != clue.value - 1)
    || (!sameCell && p.digit == clue.value - 1
        && (p.row == clue.row || p.col == clue.col
            || BlockIndex(p.row, p.col) == BlockIndex(clue.row, clue.col)))
  }

  /** The pruning is sound: whatever a clue rules out really contradicts the clue. */
  lemma ExclusionIsSound(p: Possibility, clue: Clue)
    requires InGrid(p) && 0 <= clue.row < N && 0 <= clue.col < N
    requires Conflicts(p, clue)
    ensures Incompatible(p, clue)
  {
    if MatchesExistingConditionsInSameBlockButNotSameCell(p.digit, p.row, p.col, clue) {
      assert p.row / SIZE == clue.row / SIZE && p.col / SIZE == clue.col / SIZE;
      var b, b' := BlockIndex(p.row, p.col), BlockIndex(clue.row, clue.col);
      assert b == b';
    }
  }

  /** A clue rules out every other digit in its own cell. */
  lemma ClueExcludesOtherDigitsInItsCell(clues: seq<Clue>, k: int, d: int)
    requires ValidClues(clues) && 0 <= k < |clues|
    requires d != clues[k].value - 1
    ensures Excluded(Possibility(d, clues[k].row, clues[k].col), clues)
  {
    assert Conflicts(Possibility(d, clues[k].row, clues[k].col), clues[k]);
  }

  /** A clue rules out its digit everywhere else in its row and in its column. */
  lemma ClueExcludesItsDigitInRowAndColumn(clues: seq<Clue>, k: int, r: int, c: int)
    requires ValidClues(clues) && 0 <= k < |clues|
    requires (r == clues[k].row) != (c == clues[k].col)
    ensures Excluded(Possibility(clues[k].value - 1, r, c), clues)
  {
    assert Conflicts(Possibility(clues[k].value - 1, r, c), clues[k]);
  }

  /** A clue never rules out its own placement. */
  lemma ClueKeepsItsOwnPlacement(clue: Clue)
    requires 0 <= clue.row && 0 <= clue.col
    ensures !Conflicts(Possibility(clue.value - 1, clue.row, clue.col), clue)
  {
  }

  /**
   * The row/column/cell test is complete: every incompatibility through the
   * clue's cell, row or column is ruled out.
   */
  lemma RowColumnCellTestIsComplete(p: Possibility, clue: Clue)
    requires InGrid(p) && 0 <= clue.row < N && 0 <= clue.col < N
    requires Incompatible(p, clue)
    requires p.row == clue.row || p.col == clue.col
    ensures Conflicts(p, clue)
  {
  }

  /**
   * The block test, as written, catches the clue's digit in the clue's block
   * only off the block's first row and first column (and off the clue's row
   * and column, which the other test covers).
   */
  lemma BlockTestCharacterised(p: Possibility, clue: Clue)
    requires InGrid(p) && 0 <= clue.row < N && 0 <= clue.col < N
    ensures MatchesExistingConditionsInSameBlockButNotSameCell(p.digit, p.row, p.col, clue)
            <==> (p.digit == clue.value - 1
                  && BlockIndex(p.row, p.col) == BlockIndex(clue.row, clue.col)
                  && p.row % SIZE != 0 && p.col % SIZE != 0
                  && p.row != clue.row && p.col != clue.col)
  {
    var b, b' := BlockIndex(p.row, p.col), BlockIndex(clue.row, clue.col);
    if b == b' {
      assert p.row / SIZE == clue.row / SIZE && p.col / SIZE == clue.col / SIZE;
    }
    if MatchesExistingConditionsInSameBlockButNotSameCell(p.digit, p.row, p.col, clue) {
      assert p.row / SIZE == clue.row / SIZE && p.col / SIZE == clue.col / SIZE;
    }
  }

  /**
   * Example of the block edge: the clue 5 at (1, 1) does not rule out a 5 at
   * (0, 2), in the same block, because row 0 is the block's first row.
   */
  lemma BlockEdgeNotPruned()
    ensures Incompatible(Possibility(4, 0, 2), Clue(5, 1, 1))
    ensures !Conflicts(Possibility(4, 0, 2), Clue(5, 1, 1))
  {
  }
}
