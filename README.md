# Dancing Links Sudoku solver, modelled in Dafny

This project models `AlgorithmXSolver`, the Algorithm X / Dancing Links
(DLX) core of a 9x9 Sudoku solver. Its `run()` works in three steps:

1. It reads the clues off the grid and builds the exact-cover matrix. The
   matrix has N³ possibilities "digit d at (r, c)" as rows and 4·N²
   constraints as columns. A possibility is left with no 1 at all when a
   clue rules it out.
2. It links the 1s of the matrix into a toroidal mesh. The mesh has a root,
   a ring of column headers, one vertical ring per column and one
   horizontal ring per row.
3. It runs the recursive DLX search. The search chooses the first header of
   least size, covers and uncovers columns, records the chosen row nodes in
   `solution[k]`, and writes the grid from them when the header ring is
   empty.

How the model is built:

- **The mesh is an arena.** Node `x` has the fields `L[x]`, `R[x]`,
  `U[x]`, `D[x]` (left, right, up, down) and `C[x]` (the head). Each header
  `h` has a size `S[h]`. The root is node 0, the header of matrix column
  `j` is node `j + 1`, data nodes come after the headers, and `NIL` (-1)
  plays Java's `null`.
- **Building and searching change fields in place, as in the source.**
  `MeshBuilding.MeshBuilder` builds the mesh and `Solver.AlgorithmXSolver`
  searches it. Both are classes whose methods reassign these fields.
- **Each method is proved against value-level functions** (`DancingLinks`,
  `Backtrack`).
- **The ghost invariant `MeshInvariant.Inv` describes the mesh.** It names
  the active header ring, the column lists, the row rings and the row of
  each node.

What is proved about the model:

- The mesh the builder produces satisfies `Inv`. It also has:
  - every header in ring order;
  - each column's size equal to the number of 1s in its matrix column;
  - the row rings of ruled-out possibilities empty.
- `cover` keeps `Inv`, and `uncover` undoes it field for field.
- `choose` returns the first header of least size.
- `search` terminates and leaves the mesh as it found it.
- Whenever `search` writes the grid, the chosen rows are an exact cover.
- The grid `run` writes is a completed Sudoku that keeps every clue.

## Model

| member | source | states |
|---|---|---|
| Indexing.BlockIndex | src/main/java/org/dreamabout/sw/game/sudoku/dlx/AlgorithmXSolver.java:81 | the block index lies in [0, N), and its block row and block column are those of the cell |
| Indexing.PossibilityAt | src/main/java/org/dreamabout/sw/game/sudoku/dlx/AlgorithmXSolver.java:79 | every matrix row index is the row index of a possibility on the grid |
| Indexing.RowIndexBijection | src/main/java/org/dreamabout/sw/game/sudoku/dlx/AlgorithmXSolver.java:79 | the row index maps the possibilities one to one onto [0, N³), and PossibilityAt inverts it |
| Indexing.CreateColumnId | src/main/java/org/dreamabout/sw/game/sudoku/dlx/AlgorithmXSolver.java:214-237 | the kind is one of the four constraints and is the cell kind exactly for columns from 3·N²; digit and position ranges per kind |
| Indexing.ColumnIdRoundTrip | src/main/java/org/dreamabout/sw/game/sudoku/dlx/AlgorithmXSolver.java:214-237 | the column classifier is injective: re-encoding the id gives back the column |
| Indexing.ConstraintColumnsInRange | src/main/java/org/dreamabout/sw/game/sudoku/dlx/AlgorithmXSolver.java:81-85 | the four columns of a possibility are strictly increasing and lie in [0, 4·N²) |
| Indexing.ConstraintColumnsDecode | src/main/java/org/dreamabout/sw/game/sudoku/dlx/AlgorithmXSolver.java:214-237 | the classifier decodes each of the four columns as the row, column, block and cell constraint of the possibility |
| ClueExclusion.IsCellFilled | src/main/java/org/dreamabout/sw/game/sudoku/dlx/AlgorithmXSolver.java:98-108 | true exactly when some clue rules the possibility out |
| ClueExclusion.ExclusionIsSound | src/main/java/org/dreamabout/sw/game/sudoku/dlx/AlgorithmXSolver.java:110-128 | whatever a clue rules out really contradicts the clue |
| ClueExclusion.ClueExcludesOtherDigitsInItsCell | src/main/java/org/dreamabout/sw/game/sudoku/dlx/AlgorithmXSolver.java:114 | a clue rules out every other digit in its own cell |
| ClueExclusion.ClueExcludesItsDigitInRowAndColumn | src/main/java/org/dreamabout/sw/game/sudoku/dlx/AlgorithmXSolver.java:115 | a clue rules out its digit everywhere else in its row and column |
| ClueExclusion.ClueKeepsItsOwnPlacement | src/main/java/org/dreamabout/sw/game/sudoku/dlx/AlgorithmXSolver.java:110-128 | a clue never rules out its own placement |
| ClueExclusion.RowColumnCellTestIsComplete | src/main/java/org/dreamabout/sw/game/sudoku/dlx/AlgorithmXSolver.java:110-116 | every incompatibility through the clue's row, column or cell is ruled out |
| ClueExclusion.BlockTestCharacterised | src/main/java/org/dreamabout/sw/game/sudoku/dlx/AlgorithmXSolver.java:118-128 | the block test fires exactly for the clue's digit in its block, off the block's first row and column and off the clue's row and column |
| ClueExclusion.BlockEdgeNotPruned | src/main/java/org/dreamabout/sw/game/sudoku/dlx/AlgorithmXSolver.java:126-127 | a same-block placement on the block's first row is incompatible with the clue yet not ruled out |
| SparseMatrix.CluesOfMembership | src/main/java/org/dreamabout/sw/game/sudoku/dlx/AlgorithmXSolver.java:41-51 | the clue list holds exactly the positive cells of the grid, with their values |
| SparseMatrix.EmptyGridHasNoClues | src/main/java/org/dreamabout/sw/game/sudoku/dlx/AlgorithmXSolver.java:45-48 | an all-zero grid has no clue |
| SparseMatrix.CollectClues | src/main/java/org/dreamabout/sw/game/sudoku/dlx/AlgorithmXSolver.java:38-55 | the loops collect the clues of the grid in row-major order |
| SparseMatrix.MapSparseMatrix | src/main/java/org/dreamabout/sw/game/sudoku/dlx/AlgorithmXSolver.java:75-92 | sets the four constraint columns of the possibility's row to 1 unless a clue rules it out; every other entry is unchanged |
| SparseMatrix.CreateMatrix | src/main/java/org/dreamabout/sw/game/sudoku/dlx/AlgorithmXSolver.java:37-73 | returns a fresh N³ x 4·N² matrix holding exactly the specified entries for the grid's clues |
| SparseMatrix.MatrixRowOnes | src/main/java/org/dreamabout/sw/game/sudoku/dlx/AlgorithmXSolver.java:57-92 | a row of the matrix has no 1 if its possibility is ruled out, and otherwise has 1s exactly at its four constraint columns |
| SparseMatrix.NoCluesFourOnesPerRow | src/main/java/org/dreamabout/sw/game/sudoku/dlx/AlgorithmXSolver.java:57-92 | with no clue, each of the N³ rows has exactly four 1s |
| DancingLinks.UnlinkV | src/main/java/org/dreamabout/sw/game/sudoku/dlx/AlgorithmXSolver.java:332-334 | unlinking a node from its column changes only up, down and sizes |
| DancingLinks.RelinkV | src/main/java/org/dreamabout/sw/game/sudoku/dlx/AlgorithmXSolver.java:348-350 | relinking a node into its column changes only up, down and sizes |
| DancingLinks.UnlinkH | src/main/java/org/dreamabout/sw/game/sudoku/dlx/AlgorithmXSolver.java:323-324 | unlinking a header changes only left and right |
| DancingLinks.RelinkH | src/main/java/org/dreamabout/sw/game/sudoku/dlx/AlgorithmXSolver.java:355-356 | relinking a header changes only left and right |
| DancingLinks.RingRemove | src/main/java/org/dreamabout/sw/game/sudoku/dlx/AlgorithmXSolver.java:323-324 | pointing a ring element's neighbours at each other leaves the ring without that element |
| DancingLinks.RelinkUndoesUnlinkV | src/main/java/org/dreamabout/sw/game/sudoku/dlx/AlgorithmXSolver.java:348-350 | relinking a properly linked node right after unlinking it restores every field |
| DancingLinks.RelinkUndoesUnlinkH | src/main/java/org/dreamabout/sw/game/sudoku/dlx/AlgorithmXSolver.java:355-356 | relinking a header right after unlinking it restores every field |
| DancingLinks.RelinkAllUndoesUnlinkAll | src/main/java/org/dreamabout/sw/game/sudoku/dlx/AlgorithmXSolver.java:343-354 | relinking the last unlinked nodes last-first gives back the state before them (LIFO) |
| MeshInvariant.LinksInverse | src/main/java/org/dreamabout/sw/game/sudoku/dlx/AlgorithmXSolver.java:139-196 | in a mesh holding the invariant, R[L[x]] = L[R[x]] = x on the root, the active headers and every row node, and D[U[x]] = U[D[x]] = x on every header and column node |
| MeshInvariant.SameRowSameColumn | src/main/java/org/dreamabout/sw/game/sudoku/dlx/AlgorithmXSolver.java:151-173 | distinct nodes of one row lie in distinct columns |
| MeshInvariant.ColumnsDisjoint | src/main/java/org/dreamabout/sw/game/sudoku/dlx/AlgorithmXSolver.java:155-170 | the vertical rings of two different headers share no node |
| MeshInvariant.HeaderRingRemove | src/main/java/org/dreamabout/sw/game/sudoku/dlx/AlgorithmXSolver.java:323-324 | unlinking an active header leaves the header ring without it |
| MeshInvariant.Order | src/main/java/org/dreamabout/sw/game/sudoku/dlx/AlgorithmXSolver.java:327-338 | cover unlinks each node of the rows through c, other than c's own, exactly once; each lies in an active column other than c |
| MeshInvariant.CoverKeepsInv | src/main/java/org/dreamabout/sw/game/sudoku/dlx/AlgorithmXSolver.java:320-339 | after cover(c) the invariant holds with c out of the ring and the unlinked nodes out of their columns |
| MeshInvariant.CoverUncoverRoundTrip | src/main/java/org/dreamabout/sw/game/sudoku/dlx/AlgorithmXSolver.java:342-357 | uncover(c) after cover(c) restores every link and every size |
| ExactCover.PartialStart | src/main/java/org/dreamabout/sw/game/sudoku/dlx/AlgorithmXSolver.java:29-30 | before any choice, with every header active, no column is claimed |
| ExactCover.PartialStep | src/main/java/org/dreamabout/sw/game/sudoku/dlx/AlgorithmXSolver.java:246-259 | choosing a row whose columns are all active, and covering them, keeps the claimed columns equal to the inactive ones, each claimed once |
| ExactCover.PartialDone | src/main/java/org/dreamabout/sw/game/sudoku/dlx/AlgorithmXSolver.java:241-245 | with the header ring empty, the chosen rows are an exact cover |
| Backtrack.CoverState | src/main/java/org/dreamabout/sw/game/sudoku/dlx/AlgorithmXSolver.java:247 | cover(h) keeps the state well formed and takes exactly h out of the ring |
| Backtrack.CoverFirst | src/main/java/org/dreamabout/sw/game/sudoku/dlx/AlgorithmXSolver.java:255-259 | covering the first t columns of the row in turn takes exactly those out of the ring |
| Backtrack.ChosenRow | src/main/java/org/dreamabout/sw/game/sudoku/dlx/AlgorithmXSolver.java:248-258 | a node of an active column lies in a row of four; its other three nodes lie in three further distinct active columns |
| Backtrack.BranchReady | src/main/java/org/dreamabout/sw/game/sudoku/dlx/AlgorithmXSolver.java:249-260 | after choosing r and covering its other columns, the ring has lost r's four columns and the chosen rows plus r still cover each inactive column once |
| SolutionGrid.RowIds | src/main/java/org/dreamabout/sw/game/sudoku/dlx/AlgorithmXSolver.java:280-288 | the four nodes of a row carry the row, column, block and cell ids of its possibility |
| SolutionGrid.HeaderIds | src/main/java/org/dreamabout/sw/game/sudoku/dlx/AlgorithmXSolver.java:207 | the headers of a possibility's four columns carry its four constraint ids |
| SolutionGrid.LabelOf | src/main/java/org/dreamabout/sw/game/sudoku/dlx/AlgorithmXSolver.java:280-288 | in a row, only the first node is in a row constraint, which gives the digit; only the last is in a cell constraint, which gives the cell |
| SolutionGrid.RowTour | src/main/java/org/dreamabout/sw/game/sudoku/dlx/AlgorithmXSolver.java:280-288 | walking right from a node visits its row once and returns to it, meeting exactly one row-constraint node and one cell-constraint node |
| SearchState.PlaceDepth | src/main/java/org/dreamabout/sw/game/sudoku/dlx/AlgorithmXSolver.java:250-253 | remove(k) then add(k, r) puts r at position k and keeps the entries below k |
| Solver.FirstSmallest | src/main/java/org/dreamabout/sw/game/sudoku/dlx/AlgorithmXSolver.java:304-317 | the picked header has the least size, and every header before it is strictly larger |
| Solver.FirstSmallestUnique | src/main/java/org/dreamabout/sw/game/sudoku/dlx/AlgorithmXSolver.java:304-317 | those two properties determine the pick |
| Solver.AlgorithmXSolver.constructor | src/main/java/org/dreamabout/sw/game/sudoku/dlx/AlgorithmXSolver.java:11-20 | the solver holds the grid, the given mesh and column ids, and an empty solution list |
| Solver.AlgorithmXSolver.Choose | src/main/java/org/dreamabout/sw/game/sudoku/dlx/AlgorithmXSolver.java:304-317 | returns the first header of least size in ring order |
| Solver.HeaderWalk | src/main/java/org/dreamabout/sw/game/sudoku/dlx/AlgorithmXSolver.java:307-315 | walking right from the root visits the active headers in ring order |
| Solver.AlgorithmXSolver.Cover | src/main/java/org/dreamabout/sw/game/sudoku/dlx/AlgorithmXSolver.java:320-339 | the mesh becomes the covered state of CoverState |
| Solver.AlgorithmXSolver.UnlinkHeader | src/main/java/org/dreamabout/sw/game/sudoku/dlx/AlgorithmXSolver.java:323-324 | the header leaves the ring: the mesh becomes UnlinkH of the old one |
| Solver.AlgorithmXSolver.CoverRows | src/main/java/org/dreamabout/sw/game/sudoku/dlx/AlgorithmXSolver.java:327-338 | the loops unlink exactly the cover order, in order |
| Solver.AlgorithmXSolver.UnlinkRow | src/main/java/org/dreamabout/sw/game/sudoku/dlx/AlgorithmXSolver.java:330-336 | walking right around a row unlinks its other nodes, continuing the cover order |
| Solver.AlgorithmXSolver.UnlinkNode | src/main/java/org/dreamabout/sw/game/sudoku/dlx/AlgorithmXSolver.java:332-334 | the mesh becomes UnlinkV of the old one |
| Solver.AlgorithmXSolver.Uncover | src/main/java/org/dreamabout/sw/game/sudoku/dlx/AlgorithmXSolver.java:342-357 | from the covered state, the mesh becomes exactly the state before the cover |
| Solver.AlgorithmXSolver.RelinkHeader | src/main/java/org/dreamabout/sw/game/sudoku/dlx/AlgorithmXSolver.java:355-356 | the mesh becomes RelinkH of the old one |
| Solver.AlgorithmXSolver.UncoverRows | src/main/java/org/dreamabout/sw/game/sudoku/dlx/AlgorithmXSolver.java:343-354 | the loops relink the cover order from its end, giving back the mesh before the row unlinks |
| Solver.AlgorithmXSolver.RelinkRow | src/main/java/org/dreamabout/sw/game/sudoku/dlx/AlgorithmXSolver.java:346-352 | walking left around a row relinks its other nodes, last unlinked first |
| Solver.AlgorithmXSolver.RelinkNode | src/main/java/org/dreamabout/sw/game/sudoku/dlx/AlgorithmXSolver.java:348-350 | the mesh becomes RelinkV of the old one |
| Solver.AlgorithmXSolver.Search | src/main/java/org/dreamabout/sw/game/sudoku/dlx/AlgorithmXSolver.java:240-271 | terminates and restores the mesh; the grid is written only when a full solution extending the first k choices is found, and it then shows that solution |
| Solver.AlgorithmXSolver.Branch | src/main/java/org/dreamabout/sw/game/sudoku/dlx/AlgorithmXSolver.java:249-269 | one round of the loop: solution[k] becomes r, the mesh is restored, and any grid written shows an exact cover |
| Solver.AlgorithmXSolver.Place | src/main/java/org/dreamabout/sw/game/sudoku/dlx/AlgorithmXSolver.java:250-253 | solution[k] is overwritten when it exists and appended otherwise |
| Solver.AlgorithmXSolver.Descend | src/main/java/org/dreamabout/sw/game/sudoku/dlx/AlgorithmXSolver.java:255-267 | covering r's other columns, recursing, and uncovering them leaves the mesh as it was |
| Solver.AlgorithmXSolver.CoverOthers | src/main/java/org/dreamabout/sw/game/sudoku/dlx/AlgorithmXSolver.java:255-259 | walking right from r covers the columns of r's other nodes, in that order |
| Solver.AlgorithmXSolver.CoverStep | src/main/java/org/dreamabout/sw/game/sudoku/dlx/AlgorithmXSolver.java:256-258 | one more column covered, then the next node to the right |
| Solver.AlgorithmXSolver.UncoverOthers | src/main/java/org/dreamabout/sw/game/sudoku/dlx/AlgorithmXSolver.java:262-267 | walking left from solution[k] uncovers those columns in reverse, giving back the state before the covers |
| Solver.AlgorithmXSolver.UncoverStep | src/main/java/org/dreamabout/sw/game/sudoku/dlx/AlgorithmXSolver.java:264-266 | one column uncovered, back to the state before its cover, then the next node to the left |
| Solver.AlgorithmXSolver.MapSolvedToGrid | src/main/java/org/dreamabout/sw/game/sudoku/dlx/AlgorithmXSolver.java:274-301 | the grid shows, row-major, the digits of the chosen rows' possibilities |
| Solver.AlgorithmXSolver.Digits | src/main/java/org/dreamabout/sw/game/sudoku/dlx/AlgorithmXSolver.java:275-290 | result[cell] is the digit of the last chosen row for that cell, and 0 where none was chosen |
| Solver.AlgorithmXSolver.ReadRow | src/main/java/org/dreamabout/sw/game/sudoku/dlx/AlgorithmXSolver.java:278-288 | the walk around a row yields its possibility's digit plus one and flat cell index |
| BuildInvariant.HeaderNext | src/main/java/org/dreamabout/sw/game/sudoku/dlx/AlgorithmXSolver.java:204-211 | in the complete header ring, right of header h is h + 1, and right of the last header is the root |
| BuildInvariant.RowCloses | src/main/java/org/dreamabout/sw/game/sudoku/dlx/AlgorithmXSolver.java:175-178 | linking the last node of a row to its first closes the row ring and moves the build to the next row |
| BuildInvariant.EmptyRowDone | src/main/java/org/dreamabout/sw/game/sudoku/dlx/AlgorithmXSolver.java:175 | a row with no 1 leaves the mesh as it is and moves the build on |
| BuildInvariant.ColumnCloses | src/main/java/org/dreamabout/sw/game/sudoku/dlx/AlgorithmXSolver.java:192-193 | linking a column's lowest node down to its header closes the column ring |
| BuildInvariant.BuiltInv | src/main/java/org/dreamabout/sw/game/sudoku/dlx/AlgorithmXSolver.java:139-196 | the finished build, with four 1s or none per row, satisfies the mesh invariant with all headers active |
| BuildInvariant.CountedAdd | src/main/java/org/dreamabout/sw/game/sudoku/dlx/AlgorithmXSolver.java:170 | a new node in column j counts one more 1 of that column |
| MeshBuilding.CountPattern | src/main/java/org/dreamabout/sw/game/sudoku/dlx/AlgorithmXSolver.java:146-179 | counting the rows whose 1s include column j counts the 1s of column j |
| MeshBuilding.ColumnSizes | src/main/java/org/dreamabout/sw/game/sudoku/dlx/AlgorithmXSolver.java:170 | in the built mesh each header's size is the number of 1s in its matrix column |
| MeshBuilding.MeshBuilder.NewNode | src/main/java/org/dreamabout/sw/game/sudoku/dlx/AlgorithmXSolver.java:159 | a new node is the next index of the arena, with every link NIL |
| MeshBuilding.MeshBuilder.NewColumnNode | src/main/java/org/dreamabout/sw/game/sudoku/dlx/AlgorithmXSolver.java:204 | a new header is the next index, with size 0 and no id yet |
| MeshBuilding.MeshBuilder.CreateDoubleLinkedLists | src/main/java/org/dreamabout/sw/game/sudoku/dlx/AlgorithmXSolver.java:139-182 | the mesh holds every 1 of the matrix in its row ring and its column ring; headers carry their ids; each size is the 1-count of its column |
| MeshBuilding.MeshBuilder.CreateColumnHeads | src/main/java/org/dreamabout/sw/game/sudoku/dlx/AlgorithmXSolver.java:198-212 | headers 1..4·N² form a ring through the root in column order, each its own head with size 0, an empty column and its column id |
| MeshBuilding.MeshBuilder.HeadRing | src/main/java/org/dreamabout/sw/game/sudoku/dlx/AlgorithmXSolver.java:204-211 | links to the next header and back, closed at the root, make the header ring |
| MeshBuilding.MeshBuilder.LinkRow | src/main/java/org/dreamabout/sw/game/sudoku/dlx/AlgorithmXSolver.java:146-179 | one row of the matrix becomes a ring of nodes at its 1s, each hung at the bottom of its column; column counts grow accordingly |
| MeshBuilding.MeshBuilder.LinkNode | src/main/java/org/dreamabout/sw/game/sudoku/dlx/AlgorithmXSolver.java:152-171 | a new node goes below the lowest node of column j and right of the last node of the row; only column j's list grows |
| MeshBuilding.MeshBuilder.Bottom | src/main/java/org/dreamabout/sw/game/sudoku/dlx/AlgorithmXSolver.java:156-158 | walking down while there is a next node reaches the lowest node of the column |
| MeshBuilding.MeshBuilder.LinkTheLastColumnElements | src/main/java/org/dreamabout/sw/game/sudoku/dlx/AlgorithmXSolver.java:184-196 | every column's lowest node is linked down to its header and the header up to it, closing all column rings |
| SudokuRules.ChosenApart | src/main/java/org/dreamabout/sw/game/sudoku/dlx/AlgorithmXSolver.java:82-85 | two different rows of an exact cover differ in each of their four constraint columns |
| SudokuRules.CellValue | src/main/java/org/dreamabout/sw/game/sudoku/dlx/AlgorithmXSolver.java:289 | each cell holds, plus one, the digit of the row chosen for that cell |
| SudokuRules.UnitDistinct | src/main/java/org/dreamabout/sw/game/sudoku/dlx/AlgorithmXSolver.java:274-301 | two distinct cells of one row, column or block get different digits |
| SudokuRules.ClueValue | src/main/java/org/dreamabout/sw/game/sudoku/dlx/AlgorithmXSolver.java:114 | a clue's cell gets the clue's value, since every other digit there was ruled out |
| SudokuRules.SolvedIsSudoku | src/main/java/org/dreamabout/sw/game/sudoku/dlx/AlgorithmXSolver.java:274-301 | the grid of an exact cover of the mesh built from the clues is a completed Sudoku keeping every clue |
| SudokuRules.SolutionNoClash | src/main/java/org/dreamabout/sw/game/sudoku/dlx/AlgorithmXSolver.java:24-31 | clues with one value in two cells of one unit admit no such grid |
| Entry.MatrixPattern | src/main/java/org/dreamabout/sw/game/sudoku/dlx/AlgorithmXSolver.java:57-92 | every matrix row has four increasing 1s or none, and none exactly for ruled-out possibilities |
| Entry.BuiltLabels | src/main/java/org/dreamabout/sw/game/sudoku/dlx/AlgorithmXSolver.java:139-182 | each built row lies in the columns of its possibility, and ruled-out rows are empty |
| Entry.BuiltReady | src/main/java/org/dreamabout/sw/game/sudoku/dlx/AlgorithmXSolver.java:24-31 | the built mesh is ready for search(0): invariant, all headers active, labels, nothing claimed |
| Entry.GridCells | src/main/java/org/dreamabout/sw/game/sudoku/dlx/AlgorithmXSolver.java:41-51 | the grid as a row-major sequence; with no blank cell, every cell is a clue |
| Entry.FullKept | src/main/java/org/dreamabout/sw/game/sudoku/dlx/AlgorithmXSolver.java:45-47 | a completed grid that keeps a clue in every cell is the clue grid itself |
| Entry.Run | src/main/java/org/dreamabout/sw/game/sudoku/dlx/AlgorithmXSolver.java:24-31 | when the search finds no exact cover the grid is unchanged; when it finds one, the grid shows a completed Sudoku that keeps the clues; clashing clues never give a solution; a full grid is left as it is |

## Left out

- Reading and printing grids (`SudokuSolver.java`, `SudokuGrid.java`) are outside the solver core and not part of this model.
- `Node.java`, `ColumnNode.java` and `ColumnId.java` are not part of this model as files. Their fields (left, right, up, down, head, size, info) are taken from their use in `AlgorithmXSolver.java`.
- Node objects become arena indices, and `null` becomes `NIL`. The root's column id, which Java leaves `null`, is the placeholder `NO_ID`.
- Java builds the mesh inside `run()` on the solver's own fields. Here `MeshBuilder` builds it in place, and the solver object is then created over the finished mesh. Aliasing between the builder's and the solver's fields is therefore not modelled.
- Lombok's generated constructor and the `private` field initialisers become the constructor `Solver.AlgorithmXSolver.constructor`.
- Loops and loop bodies are separate methods, each proved against its value function: `UnlinkRow`, `RelinkRow`, `CoverOthers`, `UncoverOthers`, `Bottom`, `LinkNode`, `ReadRow` and `Digits`.
- The active ring, the column lists, the row rings and the row of each node are ghost parameters. They describe the mesh and are never stored.
  - `Unseal`, `Recall` and `Reveal` are always-true guard predicates. They only control when the verifier unfolds a definition.
- A grid with fewer than N rows or columns makes Java throw an index exception. A larger grid is used only in its top-left N x N corner. The model requires exactly N x N, which is what the only caller (`SudokuSolver.java`) builds.
  - Values outside [0, N] are handled as Java handles them: non-positive values are blanks, and a value above N rules out every digit of its cell.
- Integer overflow is not modelled: every index and size stays far below 2³¹.
- The matrix element type is a `byte` newtype over [-128, 127]. Only 0 and 1 are ever stored.
- Determinism is not stated as a lemma: every member of the model is a deterministic function or method.
- Entry.Run: does not state that a solution is found whenever the puzzle has one. Completeness of the search over all rows of the chosen column is not proved.
- Solver.AlgorithmXSolver.Search: the `found` flag and the solution `last` are ghost outputs. `search` returns nothing, and does not stop at the first solution: the grid ends up holding the last exact cover found.
  - `search` has no distinct "unsolvable" result and does not stop at the first solution; the model follows this.
- Entry.Run: "a full grid is left as it is" is stated for any grid with no blank cell. It holds vacuously when no solution is found, because the grid is then unchanged anyway.
- mapSolvedToGrid's writes at `result[-1]` cannot happen: `ReadRow` proves that every chosen row yields a cell in [0, N²).
- The block test's strict bounds (lines 126-127) are modelled as written. It leaves some same-block placements unpruned (`BlockEdgeNotPruned`). The block constraint columns still exclude them from every exact cover, so clues are still kept (`SolvedIsSudoku`).
