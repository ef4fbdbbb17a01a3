/**
 * What a solution found by search means for the puzzle.  When the chosen
 * rows are an exact cover of the mesh built from the clues, the grid they
 * fill in is a completed Sudoku: every cell holds a digit 1..N, no digit
 * repeats in a row, a column or a block, and every clue keeps its value.
 */
module SudokuRules {
  import opened Indexing
  import opened ClueExclusion
  import opened MeshInvariant
  import opened ExactCover
  import opened SolutionGrid
  import opened SearchState

  /** The value of cell (r, c) of a row-major grid. */
  function Cell(g: seq<int>, r: int, c: int): int
    requires |g| == N * N && 0 <= r < N && 0 <= c < N
  {
    g[r * N + c]
  }

  /** Two cells lie in one row, one column or one block. */
  predicate SameUnit(r1: int, c1: int, r2: int, c2: int) {
    r1 == r2 || c1 == c2 || (r1 / SIZE == r2 / SIZE && c1 / SIZE == c2 / SIZE)
  }

  /** A completed Sudoku: digits 1..N everywhere, and distinct cells of one unit differ. */
  ghost predicate IsSolution(g: seq<int>) {
    |g| == N * N
    && (forall r, c :: 0 <= r < N && 0 <= c < N ==> 1 <= Cell(g, r, c) <= N)
    && forall r1, c1, r2, c2 ::
         0 <= r1 < N && 0 <= c1 < N && 0 <= r2 < N && 0 <= c2 < N && (r1 != r2 || c1 != c2) && SameUnit(r1, c1, r2, c2)
         ==> Cell(g, r1, c1) != Cell(g, r2, c2)
  }

  /** Every clue's cell holds the clue's value. */
  ghost predicate KeepsClues(g: seq<int>, clues: seq<Clue>) {
    |g| == N * N && ValidClues(clues)
    && forall k :: 0 <= k < |clues| ==> Cell(g, clues[k].row, clues[k].col) == clues[k].value
  }

  /** The rows of possibilities a clue rules out are empty. */
  ghost predicate Pruned(rows: seq<seq<int>>, clues: seq<Clue>) {
    ValidClues(clues) && |rows| == POSSIBILITIES
    && forall i :: 0 <= i < POSSIBILITIES && Excluded(PossibilityAt(i), clues) ==> rows[i] == []
  }

  /** The possibility of the k-th chosen node. */
  function ChoiceAt(rowOf: seq<int>, sol: seq<int>, k: int): Possibility
    requires Placed(rowOf, sol) && 0 <= k < |sol|
  {
    PossibilityAt(rowOf[sol[k]])
  }

  /** The column of each node of a row is a header of the row. */
  lemma HeadIn(C: seq<int>, rows: seq<seq<int>>, rowOf: seq<int>, x: int, t: int)
    requires 0 <= x < |rowOf| && 0 <= rowOf[x] < |rows| && 0 <= t < |rows[rowOf[x]]| && 0 <= rows[rowOf[x]][t] < |C|
    ensures C[rows[rowOf[x]][t]] in Heads(C, rows, rowOf, x)
  {
    var row := rows[rowOf[x]];
    assert RowAt(rows, rowOf, x) == row && row[t] in row;
  }

  /** A header of a row is one of the four columns cs of its nodes. */
  lemma HeadsWithin(C: seq<int>, rows: seq<seq<int>>, rowOf: seq<int>, x: int, cs: seq<int>, h: int)
    requires 0 <= x < |rowOf| && 0 <= rowOf[x] < |rows| && |rows[rowOf[x]]| == 4 && |cs| == 4
    requires forall t :: 0 <= t < 4 ==> 0 <= rows[rowOf[x]][t] < |C| && C[rows[rowOf[x]][t]] == cs[t] + 1
    requires h in Heads(C, rows, rowOf, x)
    ensures h == cs[0] + 1 || h == cs[1] + 1 || h == cs[2] + 1 || h == cs[3] + 1
  {
    var row := rows[rowOf[x]];
    assert RowAt(rows, rowOf, x) == row;
    var y :| y in row && 0 <= y < |C| && C[y] == h;
    var t :| 0 <= t < 4 && row[t] == y;
  }

  /** The facts about a solution the lemmas below share. */
  ghost predicate Found(C: seq<int>, rows: seq<seq<int>>, rowOf: seq<int>, last: seq<int>) {
    |rows| == POSSIBILITIES && Solved(C, last, [], rows, rowOf)
    && forall i {:trigger RowLabels(C, rows[i], i)} :: 0 <= i < |rows| ==> RowLabels(C, rows[i], i)
  }

  /** Two different chosen nodes lie in different columns of each kind t. */
  lemma ChosenApart(C: seq<int>, rows: seq<seq<int>>, rowOf: seq<int>, last: seq<int>, k1: int, k2: int, t: int)
    requires Found(C, rows, rowOf, last) && 0 <= k1 < |last| && 0 <= k2 < |last| && k1 != k2 && 0 <= t < 4
    ensures ConstraintColumns(ChoiceAt(rowOf, last, k1))[t] != ConstraintColumns(ChoiceAt(rowOf, last, k2))[t]
  {
    var x1, x2 := last[k1], last[k2];
    assert x1 in RowAt(rows, rowOf, x1) && x2 in RowAt(rows, rowOf, x2);
    assert RowLabels(C, rows[rowOf[x1]], rowOf[x1]) && RowLabels(C, rows[rowOf[x2]], rowOf[x2]);
    if k1 < k2 {
      assert Heads(C, rows, rowOf, last[k1]) !! Heads(C, rows, rowOf, last[k2]);
    } else {
      assert Heads(C, rows, rowOf, last[k2]) !! Heads(C, rows, rowOf, last[k1]);
    }
    HeadIn(C, rows, rowOf, x1, t);
    HeadIn(C, rows, rowOf, x2, t);
  }

  /** The only one of the four columns of p that can be the cell column of (r, c) is p's own cell column. */
  lemma CellColumnOnly(p: Possibility, r: int, c: int)
    requires InGrid(p) && 0 <= r < N && 0 <= c < N
    requires var v, cs := 3 * N * N + (c + N * r), ConstraintColumns(p);
             v == cs[0] || v == cs[1] || v == cs[2] || v == cs[3]
    ensures p.row == r && p.col == c
  {
    assert BlockIndex(p.row, p.col) < N;
    assert p.col + N * p.row == c + N * r;
  }

  /** Every cell is the cell of some chosen node. */
  lemma CellChosen(C: seq<int>, rows: seq<seq<int>>, rowOf: seq<int>, last: seq<int>, r: int, c: int) returns (k: int)
    requires Found(C, rows, rowOf, last) && 0 <= r < N && 0 <= c < N
    ensures 0 <= k < |last| && ChoiceAt(rowOf, last, k).row == r && ChoiceAt(rowOf, last, k).col == c
  {
    var h := 3 * N * N + (c + N * r) + 1;
    assert IsHeader(h);
    assert Claimed(C, rows, rowOf, last, h);
    k :| 0 <= k < |last| && h in Heads(C, rows, rowOf, last[k]);
    var x := last[k];
    assert x in RowAt(rows, rowOf, x);
    assert RowLabels(C, rows[rowOf[x]], rowOf[x]);
    var p := ChoiceAt(rowOf, last, k);
    HeadsWithin(C, rows, rowOf, x, ConstraintColumns(p), h);
    CellColumnOnly(p, r, c);
  }

  /** The grid a list of chosen nodes fills in holds at a cell the digit of the one node placed there. */
  lemma {:induction false} FillAt(rowOf: seq<int>, sol: seq<int>, k: int)
    requires Placed(rowOf, sol) && 0 <= k < |sol|
    requires forall j :: 0 <= j < |sol| && j != k ==> ChoiceAt(rowOf, sol, j).row != ChoiceAt(rowOf, sol, k).row || ChoiceAt(rowOf, sol, j).col != ChoiceAt(rowOf, sol, k).col
    ensures var p := ChoiceAt(rowOf, sol, k);
            Cell(Fill(rowOf, sol), p.row, p.col) == p.digit + 1
  {
    var n := |sol| - 1;
    var p := ChoiceAt(rowOf, sol, k);
    if k < n {
      var s := sol[..n];
      assert forall j :: 0 <= j < n ==> s[j] == sol[j];
      assert ChoiceAt(rowOf, s, k) == p;
      forall j | 0 <= j < |s| && j != k ensures ChoiceAt(rowOf, s, j).row != p.row || ChoiceAt(rowOf, s, j).col != p.col {
        assert ChoiceAt(rowOf, s, j) == ChoiceAt(rowOf, sol, j);
      }
      FillAt(rowOf, s, k);
      var q := ChoiceAt(rowOf, sol, n);
      assert q.row != p.row || q.col != p.col;
      assert q.row * N + q.col != p.row * N + p.col;
    }
  }

  /** The cell (r, c) holds the digit, plus one, of the node chosen for it. */
  lemma CellValue(C: seq<int>, rows: seq<seq<int>>, rowOf: seq<int>, last: seq<int>, r: int, c: int) returns (k: int)
    requires Found(C, rows, rowOf, last) && 0 <= r < N && 0 <= c < N
    ensures 0 <= k < |last| && ChoiceAt(rowOf, last, k) == Possibility(Cell(Fill(rowOf, last), r, c) - 1, r, c)
  {
    k := CellChosen(C, rows, rowOf, last, r, c);
    var p := ChoiceAt(rowOf, last, k);
    forall j | 0 <= j < |last| && j != k ensures ChoiceAt(rowOf, last, j).row != p.row || ChoiceAt(rowOf, last, j).col != p.col {
      ChosenApart(C, rows, rowOf, last, j, k, 3);
    }
    FillAt(rowOf, last, k);
  }

  /** Two distinct cells of one unit hold different digits. */
  lemma UnitDistinct(C: seq<int>, rows: seq<seq<int>>, rowOf: seq<int>, last: seq<int>, r1: int, c1: int, r2: int, c2: int)
    requires Found(C, rows, rowOf, last) && 0 <= r1 < N && 0 <= c1 < N && 0 <= r2 < N && 0 <= c2 < N
    requires (r1 != r2 || c1 != c2) && SameUnit(r1, c1, r2, c2)
    ensures Cell(Fill(rowOf, last), r1, c1) != Cell(Fill(rowOf, last), r2, c2)
  {
    var k1 := CellValue(C, rows, rowOf, last, r1, c1);
    var k2 := CellValue(C, rows, rowOf, last, r2, c2);
    if r1 == r2 {
      ChosenApart(C, rows, rowOf, last, k1, k2, 0);
    } else if c1 == c2 {
      ChosenApart(C, rows, rowOf, last, k1, k2, 1);
    } else {
      assert BlockIndex(r1, c1) == BlockIndex(r2, c2);
      ChosenApart(C, rows, rowOf, last, k1, k2, 2);
    }
  }

  /** A clue's cell holds the clue's value: every other digit there was ruled out. */
  lemma ClueValue(C: seq<int>, rows: seq<seq<int>>, rowOf: seq<int>, last: seq<int>, clues: seq<Clue>, j: int)
    requires Found(C, rows, rowOf, last) && Pruned(rows, clues) && 0 <= j < |clues|
    ensures Cell(Fill(rowOf, last), clues[j].row, clues[j].col) == clues[j].value
  {
    var clue := clues[j];
    var k := CellValue(C, rows, rowOf, last, clue.row, clue.col);
    var p := ChoiceAt(rowOf, last, k);
    var x := last[k];
    assert x in RowAt(rows, rowOf, x);
    if p.digit != clue.value - 1 {
      ClueExcludesOtherDigitsInItsCell(clues, j, p.digit);
    }
  }

  /**
   * The grid of an exact cover of the mesh built from the clues is a
   * completed Sudoku that keeps every clue.
   */
  lemma SolvedIsSudoku(C: seq<int>, rows: seq<seq<int>>, rowOf: seq<int>, last: seq<int>, clues: seq<Clue>)
    requires |rows| == POSSIBILITIES && Solved(C, last, [], rows, rowOf)
    requires forall i {:trigger RowLabels(C, rows[i], i)} :: 0 <= i < |rows| ==> RowLabels(C, rows[i], i)
    requires Pruned(rows, clues)
    ensures IsSolution(Fill(rowOf, last)) && KeepsClues(Fill(rowOf, last), clues)
  {
    var g := Fill(rowOf, last);
    forall r, c | 0 <= r < N && 0 <= c < N ensures 1 <= Cell(g, r, c) <= N {
      var k := CellValue(C, rows, rowOf, last, r, c);
    }
    forall r1, c1, r2, c2 | 0 <= r1 < N && 0 <= c1 < N && 0 <= r2 < N && 0 <= c2 < N && (r1 != r2 || c1 != c2) && SameUnit(r1, c1, r2, c2)
      ensures Cell(g, r1, c1) != Cell(g, r2, c2)
    {
      UnitDistinct(C, rows, rowOf, last, r1, c1, r2, c2);
    }
    forall j | 0 <= j < |clues| ensures Cell(g, clues[j].row, clues[j].col) == clues[j].value {
      ClueValue(C, rows, rowOf, last, clues, j);
    }
  }

  /** Two clues of one value in distinct cells of one unit. */
  ghost predicate Clash(clues: seq<Clue>) {
    ValidClues(clues)
    && exists j1, j2 :: 0 <= j1 < |clues| && 0 <= j2 < |clues| && clues[j1].value == clues[j2].value
         && (clues[j1].row != clues[j2].row || clues[j1].col != clues[j2].col)
         && SameUnit(clues[j1].row, clues[j1].col, clues[j2].row, clues[j2].col)
  }

  /** A completed Sudoku that keeps the clues shows they do not clash. */
  lemma SolutionNoClash(g: seq<int>, clues: seq<Clue>)
    requires IsSolution(g) && KeepsClues(g, clues)
    ensures !Clash(clues)
  {
    forall j1, j2 | 0 <= j1 < |clues| && 0 <= j2 < |clues|
                    && (clues[j1].row != clues[j2].row || clues[j1].col != clues[j2].col)
                    && SameUnit(clues[j1].row, clues[j1].col, clues[j2].row, clues[j2].col)
      ensures clues[j1].value != clues[j2].value
    {
      assert Cell(g, clues[j1].row, clues[j1].col) != Cell(g, clues[j2].row, clues[j2].col);
    }
  }
}
