/**
 * The solver object: the toroidal mesh held in the node arena, the search
 * state, and the grid it writes.  The methods follow the pointer surgery of
 * the source field write by field write; each is proved against the value
 * model of the mesh (module DancingLinks) and the ghost description of the
 * mesh it keeps (module MeshInvariant).
 */
module Solver {
  import opened Indexing
  import opened DancingLinks
  import opened MeshInvariant
  import opened ExactCover
  import opened Backtrack
  import opened SolutionGrid
  import opened SearchState

  /**
   * The position of the header choose() returns among hs, walked in order:
   * the first one of minimum size.  A later header replaces the current pick
   * only when it is strictly smaller.
   */
  function FirstSmallest(S: seq<int>, hs: seq<int>): (j: int)
    requires hs != [] && forall t :: 0 <= t < |hs| ==> 0 <= hs[t] < |S|
    ensures 0 <= j < |hs|
    ensures forall t :: 0 <= t < |hs| ==> S[hs[j]] <= S[hs[t]]
    ensures forall t :: 0 <= t < j ==> S[hs[j]] < S[hs[t]]
  {
    var n := |hs| - 1;
    if n == 0 then 0
    else
      var j := FirstSmallest(S, hs[..n]);
      assert hs[..n][j] == hs[j];
      if S[hs[n]] < S[hs[j]] then n else j
  }

  /** The first minimum is determined: no other position has both of its properties. */
  lemma FirstSmallestUnique(S: seq<int>, hs: seq<int>, j: int)
    requires hs != [] && forall t :: 0 <= t < |hs| ==> 0 <= hs[t] < |S|
    requires 0 <= j < |hs|
    requires forall t :: 0 <= t < |hs| ==> S[hs[j]] <= S[hs[t]]
    requires forall t :: 0 <= t < j ==> S[hs[j]] < S[hs[t]]
    ensures j == FirstSmallest(S, hs)
  {
    var k := FirstSmallest(S, hs);
    assert S[hs[j]] <= S[hs[k]] && S[hs[k]] <= S[hs[j]];
  }

  class AlgorithmXSolver {
    /** The node arena: left, right, up, down and head of every node, and the header sizes. */
    var L: seq<int>
    var R: seq<int>
    var U: seq<int>
    var D: seq<int>
    const C: seq<int>
    var S: seq<int>
    /** The column id of each header (index 0, the root, has none). */
    const info: seq<ColumnId>
    /** The chosen rows, one node of each, by search depth. */
    var solution: seq<int>
    /** The puzzle, 0 for an unknown cell; overwritten with a solution. */
    const grid: array2<int>

    /** The mesh as a value. */
    function Snapshot(): Mesh
      reads this`L, this`R, this`U, this`D, this`S
    {
      Mesh(L, R, U, D, C, S)
    }

    /** A solver for grid over the mesh m, with the column ids info, before any choice. */
    constructor (grid: array2<int>, m: Mesh, info: seq<ColumnId>)
      ensures this.grid == grid && Snapshot() == m && this.info == info && solution == []
    {
      this.grid := grid;
      L, R, U, D, C, S := m.L, m.R, m.U, m.D, m.C, m.S;
      this.info := info;
      solution := [];
    }

    /**
     * cover(c): take c out of the header ring, then, for each node of c's
     * list top to bottom, take the other nodes of its row, left to right, out
     * of their vertical lists.
     */
    method Cover(c: int, ghost st: State, ghost rows: seq<seq<int>>, ghost rowOf: seq<int>)
      requires Good(st, rows, rowOf) && Snapshot() == st.m && c in st.ring
      modifies this`L, this`R, this`U, this`D, this`S
      ensures Snapshot() == CoverState(st, rows, rowOf, c).m
    {
      Unpack(st, rows, rowOf);
      CoverReady(st.m, st.ring, st.cols, rows, rowOf, c);
      ghost var col := st.cols[c];
      ghost var o := CoverOrder(col, rows, rowOf);
      UnlinkHeader(c);
      CoverRows(c, Snapshot(), o, col, Offsets(col, rows, rowOf), Plans(col, rows, rowOf));
    }

    /**
     * search(k).  When the header ring is empty, the rows chosen so far are
     * mapped to the grid.  Otherwise the column c of least size is covered
     * and each row r of c, top to bottom, is tried in turn (Branch); then c
     * is uncovered.  The search does not stop at a solution: the grid ends up
     * holding the last one found, and is not written when none is found.
     * The mesh is left as it was found.
     */
    method Search(k: int, ghost chosen: seq<int>, ghost ring: seq<int>, ghost cols: seq<seq<int>>, ghost rows: seq<seq<int>>, ghost rowOf: seq<int>)
      returns (ghost found: bool, ghost last: seq<int>)
      requires Inv(Snapshot(), ring, cols, rows, rowOf) && Labelled(C, info, rows)
      requires grid.Length0 == N && grid.Length1 == N && Depth(solution, k, ring, rows, rowOf)
      requires solution[..k] == chosen && Partial(C, rows, rowOf, chosen, ring)
      modifies this`L, this`R, this`U, this`D, this`S, this`solution, grid
      ensures Snapshot() == old(Snapshot())
      ensures Depth(solution, k, ring, rows, rowOf) && old(|solution|) <= |solution| && solution[..k] == chosen
      ensures !found ==> forall i, j :: 0 <= i < N && 0 <= j < N ==> grid[i, j] == old(grid[i, j])
      ensures found ==> Solved(C, last, chosen, rows, rowOf) && Shows(grid, Fill(rowOf, last))
      decreases |ring|, 2
    {
      if R[0] == 0 {
        HeaderWalk(Snapshot(), ring, cols, rows, rowOf);
        assert solution[..k] == solution;
        PartialDone(C, rows, rowOf, solution);
        MapSolvedToGrid(rows, rowOf);
        return true, solution;
      }
      var c := Choose(ring, cols, rows, rowOf);
      ghost var st0 := State(Snapshot(), ring, cols);
      Cover(c, st0, rows, rowOf);
      CoveredColumnWalk(st0.m, ring, cols, rows, rowOf, c);
      ghost var col := cols[c];
      var r := D[c];
      ghost var i := 0;
      found, last := false, [];
      while r != c
        invariant Snapshot() == CoverState(st0, rows, rowOf, c).m
        invariant 0 <= i <= |col| && r == if i < |col| then col[i] else c
        invariant Depth(solution, k, ring, rows, rowOf) && old(|solution|) <= |solution| && solution[..k] == chosen
        invariant !found ==> forall i, j :: 0 <= i < N && 0 <= j < N ==> grid[i, j] == old(grid[i, j])
        invariant found ==> Solved(C, last, chosen, rows, rowOf) && Shows(grid, Fill(rowOf, last))
        decreases |col| - i
      {
        ghost var f, l := Branch(k, r, c, chosen, st0, rows, rowOf);
        if f {
          found, last := true, l;
        }
        r := D[r];
        i := i + 1;
      }
      Uncover(c, st0, rows, rowOf);
    }

    /**
     * One round of the loop of search(k): record r at solution[k], then try
     * the row of r (Descend).
     */
    method Branch(k: int, r: int, c: int, ghost chosen: seq<int>, ghost st0: State, ghost rows: seq<seq<int>>, ghost rowOf: seq<int>)
      returns (ghost found: bool, ghost last: seq<int>)
      requires Good(st0, rows, rowOf) && c in st0.ring && r in st0.cols[c]
      requires Snapshot() == CoverState(st0, rows, rowOf, c).m && Labelled(C, info, rows)
      requires grid.Length0 == N && grid.Length1 == N && Depth(solution, k, st0.ring, rows, rowOf)
      requires solution[..k] == chosen && Partial(C, rows, rowOf, chosen, st0.ring)
      modifies this`L, this`R, this`U, this`D, this`S, this`solution, grid
      ensures Snapshot() == old(Snapshot())
      ensures Depth(solution, k, st0.ring, rows, rowOf) && k < |solution| && solution[k] == r
      ensures old(|solution|) <= |solution| && solution[..k] == chosen
      ensures !found ==> forall i, j :: 0 <= i < N && 0 <= j < N ==> grid[i, j] == old(grid[i, j])
      ensures found ==> Solved(C, last, chosen, rows, rowOf) && Shows(grid, Fill(rowOf, last))
      decreases |st0.ring|, 1
    {
      ghost var st1 := CoverState(st0, rows, rowOf, c);
      ghost var s0 := solution;
      ghost var os, hs, ring := BranchReady(st0, rows, rowOf, chosen, c, r);
      Place(k, r);
      ghost var s1 := solution;
      PlaceDepth(s0, s1, k, r, st0.ring, ring, rows, rowOf);
      found, last := Descend(k, r, chosen + [r], os, hs, st1, ring, rows, rowOf);
      PrefixShrink(solution, s1, k);
      if found {
        SolvedShrink(C, last, chosen, r, rows, rowOf);
      }
    }

    /**
     * The rest of the round, with r recorded at solution[k]: cover the
     * columns of the other nodes of r's row, walking right, search depth
     * k + 1, then uncover those columns, walking left from solution[k].
     */
    method Descend(k: int, r: int, ghost chosen: seq<int>, ghost os: seq<int>, ghost hs: seq<int>, ghost st1: State, ghost ring: seq<int>,
                   ghost rows: seq<seq<int>>, ghost rowOf: seq<int>)
      returns (ghost found: bool, ghost last: seq<int>)
      requires Snapshot() == st1.m && Reaches(st1, rows, rowOf, hs, ring)
      requires r in RowAt(rows, rowOf, r) && os == Others(RowAt(rows, rowOf, r), r)
      requires (forall t :: 0 <= t < |os| ==> 0 <= os[t] < |C|) && hs == HeadsOf(C, os)
      requires Labelled(C, info, rows) && grid.Length0 == N && grid.Length1 == N
      requires Depth(solution, k + 1, ring, rows, rowOf)
      requires solution[..k + 1] == chosen && Partial(C, rows, rowOf, chosen, ring)
      requires 0 <= k < |solution| && solution[k] == r
      modifies this`L, this`R, this`U, this`D, this`S, this`solution, grid
      ensures Snapshot() == old(Snapshot())
      ensures Chosen(rows, rowOf, solution) && old(|solution|) <= |solution| <= N * N
      ensures solution[..k + 1] == chosen
      ensures !found ==> forall i, j :: 0 <= i < N && 0 <= j < N ==> grid[i, j] == old(grid[i, j])
      ensures found ==> Solved(C, last, chosen, rows, rowOf) && Shows(grid, Fill(rowOf, last))
      decreases |st1.ring| + 1, 0
    {
      ghost var st := CoverOthers(r, os, hs, st1, rows, rowOf);
      CoveringReaches(st1, rows, rowOf, hs, st, ring);
      Unpack(st, rows, rowOf);
      ghost var s1 := solution;
      found, last := Search(k + 1, chosen, st.ring, st.cols, rows, rowOf);
      PrefixShrink(solution, s1, k);
      var r2 := solution[k];
      UncoverOthers(r2, os, hs, st1, st, rows, rowOf);
    }

    /** solution.remove(k) when k is a position of the list, then solution.add(k, r). */
    method Place(k: int, r: int)
      requires 0 <= k <= |solution|
      modifies this`solution
      ensures solution == if k < old(|solution|) then old(solution)[k := r] else old(solution) + [r]
      ensures Snapshot() == old(Snapshot())
    {
      if k < |solution| {
        solution := solution[..k] + solution[k + 1..];
      }
      solution := solution[..k] + [r] + solution[k..];
    }

    /**
     * The covers of search: walking right from r, cover the column of each
     * other node os[t] of r's row; the headers hs are those columns.  The
     * state reached is st1 with hs covered in turn.
     */
    method CoverOthers(r: int, ghost os: seq<int>, ghost hs: seq<int>, ghost st1: State, ghost rows: seq<seq<int>>, ghost rowOf: seq<int>)
      returns (ghost st: State)
      requires Good(st1, rows, rowOf) && Snapshot() == st1.m
      requires r in RowAt(rows, rowOf, r) && os == Others(RowAt(rows, rowOf, r), r)
      requires (forall t :: 0 <= t < |os| ==> 0 <= os[t] < |C|) && hs == HeadsOf(C, os) && Fresh(st1.ring, hs)
      modifies this`L, this`R, this`U, this`D, this`S
      ensures Covering(st1, rows, rowOf, hs, |hs|, st) && Snapshot() == st.m
      ensures solution == old(solution)
    {
      RowWalks(st1, rows, rowOf, r);
      st := st1;
      CoveringNone(st1, rows, rowOf, hs, st);
      var j := R[r];
      ghost var t := 0;
      while j != r
        invariant 0 <= t <= |os| && j == if t < |os| then os[t] else r
        invariant Covering(st1, rows, rowOf, hs, t, st) && Snapshot() == st.m && Walk(R, r, os)
        decreases |os| - t
      {
        j, st := CoverStep(r, j, os, hs, st1, st, rows, rowOf, t);
        t := t + 1;
      }
    }

    /** One round of the cover loop of search: cover the column of j, the node of r's row at position t, and step right. */
    method CoverStep(r: int, j: int, ghost os: seq<int>, ghost hs: seq<int>, ghost st1: State, ghost st: State,
                     ghost rows: seq<seq<int>>, ghost rowOf: seq<int>, ghost t: int)
      returns (j': int, ghost st': State)
      requires Covering(st1, rows, rowOf, hs, t, st) && Snapshot() == st.m && t < |hs| && t < |os| && j == os[t]
      requires r in RowAt(rows, rowOf, r) && os == Others(RowAt(rows, rowOf, r), r)
      requires (forall t :: 0 <= t < |os| ==> 0 <= os[t] < |C|) && hs == HeadsOf(C, os)
      modifies this`L, this`R, this`U, this`D, this`S
      ensures Covering(st1, rows, rowOf, hs, t + 1, st') && Snapshot() == st'.m && Walk(R, r, os)
      ensures j' == if t + 1 < |os| then os[t + 1] else r
      ensures solution == old(solution)
    {
      CoveringNext(st1, rows, rowOf, hs, t, st);
      st' := CoverState(st, rows, rowOf, hs[t]);
      Cover(C[j], st, rows, rowOf);
      RowWalks(st', rows, rowOf, r);
      j' := R[j];
    }

    /**
     * The uncovers of search: walking left from r, uncover the column of each
     * other node of r's row, the last covered first, from st, the state the
     * covers reached, back to st1.
     */
    method UncoverOthers(r: int, ghost os: seq<int>, ghost hs: seq<int>, ghost st1: State, ghost st: State, ghost rows: seq<seq<int>>, ghost rowOf: seq<int>)
      requires Covering(st1, rows, rowOf, hs, |hs|, st) && Snapshot() == st.m
      requires r in RowAt(rows, rowOf, r) && os == Others(RowAt(rows, rowOf, r), r)
      requires (forall t :: 0 <= t < |os| ==> 0 <= os[t] < |C|) && hs == HeadsOf(C, os)
      modifies this`L, this`R, this`U, this`D, this`S
      ensures Snapshot() == st1.m
      ensures solution == old(solution)
    {
      RowWalks(st, rows, rowOf, r);
      ghost var sn := st;
      var j2 := L[r];
      ghost var t := |os|;
      while j2 != r
        invariant 0 <= t <= |os| && j2 == if t > 0 then os[t - 1] else r
        invariant Covering(st1, rows, rowOf, hs, t, sn) && Snapshot() == sn.m && WalkBack(L, r, os)
        decreases t
      {
        j2, sn := UncoverStep(r, j2, os, hs, st1, sn, rows, rowOf, t);
        t := t - 1;
      }
      CoveringNone(st1, rows, rowOf, hs, sn);
    }

    /** One round of the uncover loop of search: uncover the column of j, the node of r's row at position t - 1, and step left. */
    method UncoverStep(r: int, j: int, ghost os: seq<int>, ghost hs: seq<int>, ghost st1: State, ghost st: State,
                       ghost rows: seq<seq<int>>, ghost rowOf: seq<int>, ghost t: int)
      returns (j': int, ghost p: State)
      requires Covering(st1, rows, rowOf, hs, t, st) && Snapshot() == st.m && 0 < t <= |hs| && t <= |os| && j == os[t - 1]
      requires r in RowAt(rows, rowOf, r) && os == Others(RowAt(rows, rowOf, r), r)
      requires (forall t :: 0 <= t < |os| ==> 0 <= os[t] < |C|) && hs == HeadsOf(C, os)
      modifies this`L, this`R, this`U, this`D, this`S
      ensures Covering(st1, rows, rowOf, hs, t - 1, p) && Snapshot() == p.m && WalkBack(L, r, os)
      ensures j' == if t - 1 > 0 then os[t - 2] else r
      ensures solution == old(solution)
    {
      p := CoveringPrev(st1, rows, rowOf, hs, t, st);
      Uncover(C[j], p, rows, rowOf);
      RowWalks(p, rows, rowOf, r);
      j' := L[j];
    }

    /**
     * mapSolvedToGrid(): read the digit of every cell off the chosen rows
     * (Digits), then copy the N² cells into the grid, row-major.
     */
    method MapSolvedToGrid(ghost rows: seq<seq<int>>, ghost rowOf: seq<int>)
      requires Rows(R, L, C, rows, rowOf) && Labelled(C, info, rows) && Chosen(rows, rowOf, solution)
      requires grid.Length0 == N && grid.Length1 == N
      modifies grid
      ensures Placed(rowOf, solution) && Shows(grid, Fill(rowOf, solution))
    {
      var result := Digits(rows, rowOf);
      ghost var g := Fill(rowOf, solution);
      var resultCounter := 0;
      for r := 0 to N
        invariant resultCounter == r * N && result[..] == g
        invariant forall r', c' :: 0 <= r' < r && 0 <= c' < N ==> grid[r', c'] == g[r' * N + c']
      {
        for c := 0 to N
          invariant resultCounter == r * N + c && result[..] == g
          invariant forall r', c' :: 0 <= r' < r && 0 <= c' < N ==> grid[r', c'] == g[r' * N + c']
          invariant forall c' :: 0 <= c' < c ==> grid[r, c'] == g[r * N + c']
        {
          assert result[resultCounter] == g[r * N + c];
          grid[r, c] := result[resultCounter];
          resultCounter := resultCounter + 1;
        }
      }
    }

    /**
     * The first loop of mapSolvedToGrid: for each entry of solution, in
     * order, read the digit and the cell off its row and record the digit
     * for the cell; a later entry for the same cell overwrites an earlier.
     */
    method Digits(ghost rows: seq<seq<int>>, ghost rowOf: seq<int>) returns (result: array<int>)
      requires Rows(R, L, C, rows, rowOf) && Labelled(C, info, rows) && Chosen(rows, rowOf, solution)
      ensures fresh(result) && Placed(rowOf, solution) && result[..] == Fill(rowOf, solution)
    {
      ChosenPlaced(rows, rowOf, solution);
      result := new int[N * N](_ => 0);
      for i := 0 to |solution|
        invariant Placed(rowOf, solution[..i]) && result[..] == Fill(rowOf, solution[..i])
      {
        var number, cellNo := ReadRow(solution[i], rows, rowOf);
        result[cellNo] := number;
        assert solution[..i + 1][..i] == solution[..i];
      }
      assert solution[..|solution|] == solution;
    }

    /**
     * The do-while loop of mapSolvedToGrid over the row of node: walking
     * right from node around its row, the row-constraint column gives the
     * digit and the cell-constraint column the cell.
     */
    method ReadRow(node: int, ghost rows: seq<seq<int>>, ghost rowOf: seq<int>) returns (number: int, cellNo: int)
      requires Rows(R, L, C, rows, rowOf) && Labelled(C, info, rows) && node in RowAt(rows, rowOf, node)
      ensures 0 <= node < |rowOf| && 0 <= rowOf[node] < POSSIBILITIES
      ensures var p := PossibilityAt(rowOf[node]);
              number == p.digit + 1 && cellNo == p.row * N + p.col
    {
      ghost var p := PossibilityAt(rowOf[node]);
      ghost var w, ir, ic := RowTour(R, L, C, info, rows, rowOf, node);
      number, cellNo := -1, -1;
      var next := node;
      ghost var t := 0;
      while true
        invariant 0 <= t < 4 && next == w[t]
        invariant number == if ir < t then p.digit + 1 else -1
        invariant cellNo == if ic < t then p.row * N + p.col else -1
        decreases 4 - t
      {
        if info[C[next]].constraint == ROW_CONSTRAINT {
          number := info[C[next]].number;
        } else if info[C[next]].constraint == CELL_CONSTRAINT {
          cellNo := info[C[next]].position;
        }
        next := R[next];
        t := t + 1;
        if node == next {
          break;
        }
      }
    }

    /**
     * choose(): walk the header ring right from the root and keep the first
     * header of least size.  The ring must not be empty.
     */
    method Choose(ghost ring: seq<int>, ghost cols: seq<seq<int>>, ghost rows: seq<seq<int>>, ghost rowOf: seq<int>) returns (c: int)
      requires Inv(Snapshot(), ring, cols, rows, rowOf) && ring != []
      ensures forall t :: 0 <= t < |ring| ==> 0 <= ring[t] < |S|
      ensures c == ring[FirstSmallest(S, ring)]
    {
      HeaderWalk(Snapshot(), ring, cols, rows, rowOf);
      var rightOfRoot := R[0];
      var smallest := rightOfRoot;
      ghost var i, j := 0, 0;
      while R[rightOfRoot] != 0
        invariant 0 <= j <= i < |ring| && rightOfRoot == ring[i] && smallest == ring[j]
        invariant R[rightOfRoot] == if i < |ring| - 1 then ring[i + 1] else 0
        invariant forall t :: 0 <= t <= i ==> S[smallest] <= S[ring[t]]
        invariant forall t :: 0 <= t < j ==> S[smallest] < S[ring[t]]
        decreases |ring| - i
      {
        rightOfRoot := R[rightOfRoot];
        i := i + 1;
        if S[rightOfRoot] < S[smallest] {
          smallest, j := rightOfRoot, i;
        }
      }
      FirstSmallestUnique(S, ring, j);
      c := smallest;
    }

    /** Take header c out of the header ring: c.right.left = c.left; c.left.right = c.right. */
    method UnlinkHeader(c: int)
      requires InArenaH(Snapshot(), c)
      modifies this`L, this`R
      ensures Snapshot() == UnlinkH(old(Snapshot()), c)
    {
      L := L[R[c] := L[c]];
      R := R[L[c] := R[c]];
    }

    /**
     * The loops of cover(c): for each node of c's list top to bottom, take
     * the other nodes of its row out of their vertical lists.
     */
    method CoverRows(c: int, ghost m1: Mesh, ghost o: seq<int>, ghost col: seq<int>, ghost offs: seq<int>, ghost plans: seq<seq<int>>)
      requires Snapshot() == m1 && CoverPlan(m1, o, c, col, offs, plans)
      modifies this`U, this`D, this`S
      ensures Snapshot() == UnlinkAll(m1, o)
    {
      var curRow := D[c];
      ghost var i := 0;
      while curRow != c
        invariant 0 <= i <= |col| && 0 <= offs[i] <= |o|
        invariant curRow == if i < |col| then col[i] else c
        invariant Snapshot() == UnlinkFirst(m1, o, offs[i])
        decreases |col| - i
      {
        assert RowRound(m1, o, col, offs, plans, i);
        UnlinkRow(curRow, m1, o, offs[i], plans[i]);
        curRow := D[curRow];
        i := i + 1;
      }
      UnlinkFirstAll(m1, o);
    }

    /**
     * The inner loop of cover: walking right from x, take each other node of
     * x's row out of its vertical list; those nodes are os, which come at
     * position k of the cover order o.
     */
    method UnlinkRow(x: int, ghost m1: Mesh, ghost o: seq<int>, ghost k: int, ghost os: seq<int>)
      requires Shaped(m1) && forall t :: 0 <= t < |o| ==> 0 < o[t] < |m1.L|
      requires OccursAt(o, k, os) && Walk(m1.R, x, os)
      requires Snapshot() == UnlinkFirst(m1, o, k)
      modifies this`U, this`D, this`S
      ensures Snapshot() == UnlinkFirst(m1, o, k + |os|)
    {
      var curNode := R[x];
      ghost var t := 0;
      while curNode != x
        invariant 0 <= t <= |os|
        invariant curNode == if t < |os| then os[t] else x
        invariant Snapshot() == UnlinkFirst(m1, o, k + t)
        decreases |os| - t
      {
        assert t < |os| && o[k + t] == os[t];
        InArenaUnlinkFirst(m1, o, k + t);
        UnlinkNode(curNode);
        curNode := R[curNode];
        t := t + 1;
      }
    }

    /** Take x out of its vertical list: x.down.up = x.up; x.up.down = x.down; x.head.size--. */
    method UnlinkNode(x: int)
      requires InArenaV(Snapshot(), x)
      modifies this`U, this`D, this`S
      ensures Snapshot() == UnlinkV(old(Snapshot()), x)
    {
      U := U[D[x] := U[x]];
      D := D[U[x] := D[x]];
      S := S[C[x] := S[C[x]] - 1];
    }

    /**
     * uncover(c), the mirror of cover(c): for each node of c's list bottom to
     * top, put the other nodes of its row, right to left, back into their
     * vertical lists, then put c back into the header ring.  Applied to the
     * mesh m covered by c, it gives back m exactly.
     */
    method Uncover(c: int, ghost st: State, ghost rows: seq<seq<int>>, ghost rowOf: seq<int>)
      requires Good(st, rows, rowOf) && c in st.ring && Snapshot() == CoverState(st, rows, rowOf, c).m
      modifies this`L, this`R, this`U, this`D, this`S
      ensures Snapshot() == UncoverMesh(old(Snapshot()), c, CoverOrderOf(st, rows, rowOf, c))
      ensures Snapshot() == st.m
    {
      Unpack(st, rows, rowOf);
      ghost var m, ring, cols := st.m, st.ring, st.cols;
      UncoverReady(m, ring, cols, rows, rowOf, c);
      CoverUncoverRoundTrip(m, ring, cols, rows, rowOf, c);
      ghost var col := cols[c];
      ghost var o := CoverOrder(col, rows, rowOf);
      UncoverRows(c, UnlinkH(m, c), o, col, Offsets(col, rows, rowOf), Plans(col, rows, rowOf));
      RelinkHeader(c);
    }

    /** Put header c back into the header ring: c.right.left = c; c.left.right = c. */
    method RelinkHeader(c: int)
      requires InArenaH(Snapshot(), c)
      modifies this`L, this`R
      ensures Snapshot() == RelinkH(old(Snapshot()), c)
    {
      L := L[R[c] := c];
      R := R[L[c] := c];
    }

    /**
     * The loops of uncover(c): for each node of c's list bottom to top, put
     * the other nodes of its row back, undoing the cover order o from its end.
     */
    method UncoverRows(c: int, ghost m1: Mesh, ghost o: seq<int>, ghost col: seq<int>, ghost offs: seq<int>, ghost plans: seq<seq<int>>)
      requires Snapshot() == UnlinkAll(m1, o) && UncoverPlan(m1, o, c, col, offs, plans)
      modifies this`U, this`D, this`S
      ensures Snapshot() == m1
    {
      UnlinkFirstAll(m1, o);
      var curRow := U[c];
      ghost var i := |col|;
      while curRow != c
        invariant 0 <= i <= |col| && 0 <= offs[i] <= |o|
        invariant curRow == if i > 0 then col[i - 1] else c
        invariant Snapshot() == UnlinkFirst(m1, o, offs[i])
        decreases i
      {
        assert RowRoundBack(m1, o, col, offs, plans, i - 1);
        RelinkRow(curRow, m1, o, offs[i - 1], plans[i - 1]);
        curRow := U[curRow];
        i := i - 1;
      }
    }

    /**
     * The inner loop of uncover: walking left from x, put each other node of
     * x's row back into its vertical list; those nodes are os, which come at
     * position k of the cover order o, and they are put back last first.
     */
    method RelinkRow(x: int, ghost m1: Mesh, ghost o: seq<int>, ghost k: int, ghost os: seq<int>)
      requires forall p {:trigger Relinks(m1, o, p)} :: 0 <= p < |o| ==> Relinks(m1, o, p)
      requires OccursAt(o, k, os) && WalkBack(m1.L, x, os)
      requires Snapshot() == UnlinkFirst(m1, o, k + |os|)
      modifies this`U, this`D, this`S
      ensures Snapshot() == UnlinkFirst(m1, o, k)
    {
      var curNode := L[x];
      ghost var t := |os|;
      while curNode != x
        invariant 0 <= t <= |os|
        invariant curNode == if t > 0 then os[t - 1] else x
        invariant Snapshot() == UnlinkFirst(m1, o, k + t)
        decreases t
      {
        assert t > 0 && o[k + t - 1] == os[t - 1];
        assert Relinks(m1, o, k + t - 1);
        RelinkNode(curNode);
        curNode := L[curNode];
        t := t - 1;
      }
    }

    /** Put x back into its vertical list: x.head.size++; x.down.up = x; x.up.down = x. */
    method RelinkNode(x: int)
      requires InArenaV(Snapshot(), x)
      modifies this`U, this`D, this`S
      ensures Snapshot() == RelinkV(old(Snapshot()), x)
    {
      S := S[C[x] := S[C[x]] + 1];
      U := U[D[x] := x];
      D := D[U[x] := x];
    }
  }

  /** Walking right from the root visits the header ring. */
  lemma HeaderWalk(m: Mesh, ring: seq<int>, cols: seq<seq<int>>, rows: seq<seq<int>>, rowOf: seq<int>)
    requires Inv(m, ring, cols, rows, rowOf)
    ensures Walk(m.R, 0, ring) && forall t :: 0 <= t < |ring| ==> 0 <= ring[t] < |m.S|
  {
    RingWalk(m.R, m.L, 0, ring);
  }
}
