/**
 * The toroidal mesh as a value, and the link surgery of cover and uncover.
 *
 * The nodes live in an arena: node x has the fields L[x], R[x], U[x], D[x]
 * (left, right, up, down) and C[x] (its column header).  Node 0 is the root,
 * nodes 1..COLUMNS are the column headers (header h stands for matrix column
 * h - 1) and the nodes above COLUMNS are the cells of the matrix.  S[h] is the
 * size of header h.  The surgery functions below perform the field writes of
 * the source in the source's order, so each reads the fields as the earlier
 * writes left them.
 */
module DancingLinks {
  import opened Indexing

  /** The null reference of the source. */
  const NIL: int := -1

  datatype Mesh = Mesh(L: seq<int>, R: seq<int>, U: seq<int>, D: seq<int>, C: seq<int>, S: seq<int>)

  /** Every link of a non-root node points into the arena; the root has only left and right. */
  ghost predicate Shaped(m: Mesh) {
    var n := |m.L|;
    n > COLUMNS && |m.R| == n && |m.U| == n && |m.D| == n && |m.C| == n && |m.S| == COLUMNS + 1
    && (forall x :: 0 <= x < n ==> 0 <= m.L[x] < n && 0 <= m.R[x] < n)
    && (forall x :: 0 < x < n ==> 0 <= m.U[x] < n && 0 <= m.D[x] < n && 1 <= m.C[x] <= COLUMNS)
  }

  /**
   * xs is a circular doubly-linked list: following next from xs[i] gives
   * xs[i + 1] (wrapping around), following prev goes back.
   */
  ghost predicate Ring(next: seq<int>, prev: seq<int>, xs: seq<int>) {
    |xs| > 0
    && (forall i :: 0 <= i < |xs| ==> 0 <= xs[i] < |next| && xs[i] < |prev|)
    && (forall i, j :: 0 <= i < j < |xs| ==> xs[i] != xs[j])
    && (forall i :: 0 <= i < |xs| - 1 ==> next[xs[i]] == xs[i + 1] && prev[xs[i + 1]] == xs[i])
    && next[xs[|xs| - 1]] == xs[0] && prev[xs[0]] == xs[|xs| - 1]
  }

  /** Position i of xs with its k-th element cut out. */
  lemma CutAt(xs: seq<int>, k: int, i: int)
    requires 0 <= k < |xs| && 0 <= i < |xs| - 1
    ensures (xs[..k] + xs[k + 1..])[i] == if i < k then xs[i] else xs[i + 1]
  {
  }

  /** The links inside a ring with xs[k] cut out, once its neighbours point at each other. */
  lemma CutLinks(next: seq<int>, prev: seq<int>, xs: seq<int>, k: int)
    requires Ring(next, prev, xs) && 0 < k < |xs|
    ensures var y := if k + 1 < |xs| then xs[k + 1] else xs[0];
            var ys := xs[..k] + xs[k + 1..];
            var next', prev' := next[xs[k - 1] := y], prev[y := xs[k - 1]];
            forall i :: 0 <= i < |xs| - 2 ==> next'[ys[i]] == ys[i + 1] && prev'[ys[i + 1]] == ys[i]
  {
    var y := if k + 1 < |xs| then xs[k + 1] else xs[0];
    var ys := xs[..k] + xs[k + 1..];
    var next', prev' := next[xs[k - 1] := y], prev[y := xs[k - 1]];
    forall i | 0 <= i < |xs| - 2 ensures next'[ys[i]] == ys[i + 1] && prev'[ys[i + 1]] == ys[i] {
      CutAt(xs, k, i);
      CutAt(xs, k, i + 1);
    }
  }

  /** Removing xs[k] by pointing its neighbours at each other leaves a ring without it. */
  lemma RingRemove(next: seq<int>, prev: seq<int>, xs: seq<int>, k: int)
    requires Ring(next, prev, xs) && 0 < k < |xs|
    ensures var x := xs[k];
            prev[x] == xs[k - 1] && next[x] == (if k + 1 < |xs| then xs[k + 1] else xs[0])
            && next[prev[x]] == x && prev[next[x]] == x
            && Ring(next[prev[x] := next[x]], prev[next[x] := prev[x]], xs[..k] + xs[k + 1..])
  {
    var n := |xs|;
    var x := xs[k];
    assert prev[x] == xs[k - 1];
    var y := if k + 1 < n then xs[k + 1] else xs[0];
    assert next[x] == y;
    var ys := xs[..k] + xs[k + 1..];
    var next', prev' := next[xs[k - 1] := y], prev[y := xs[k - 1]];
    forall i | 0 <= i < n - 1 ensures 0 <= ys[i] < |next'| && ys[i] < |prev'| && ys[i] != x {
      CutAt(xs, k, i);
    }
    forall i, j | 0 <= i < j < n - 1 ensures ys[i] != ys[j] {
      CutAt(xs, k, i);
      CutAt(xs, k, j);
    }
    CutLinks(next, prev, xs, k);
    CutAt(xs, k, 0);
    CutAt(xs, k, n - 2);
  }

  /** A ring is not disturbed by writes outside it. */
  lemma RingFrame(next: seq<int>, prev: seq<int>, xs: seq<int>, a: int, v: int, b: int, w: int)
    requires Ring(next, prev, xs)
    requires 0 <= a < |next| && 0 <= b < |prev|
    requires a !in xs && b !in xs
    ensures Ring(next[a := v], prev[b := w], xs)
  {
  }

  /** Position i of the rotation xs[p..] + xs[..p]. */
  lemma RotateAt(xs: seq<int>, p: int, i: int)
    requires 0 <= p < |xs| && 0 <= i < |xs|
    ensures (xs[p..] + xs[..p])[i] == if i < |xs| - p then xs[p + i] else xs[i - (|xs| - p)]
  {
  }

  /** Any rotation of a ring is a ring. */
  lemma RingRotate(next: seq<int>, prev: seq<int>, xs: seq<int>, p: int)
    requires Ring(next, prev, xs) && 0 <= p < |xs|
    ensures Ring(next, prev, xs[p..] + xs[..p])
  {
    var n := |xs|;
    var ys := xs[p..] + xs[..p];
    forall i | 0 <= i < n ensures 0 <= ys[i] < |next| && ys[i] < |prev| {
      RotateAt(xs, p, i);
    }
    forall i, j | 0 <= i < j < n ensures ys[i] != ys[j] {
      RotateAt(xs, p, i);
      RotateAt(xs, p, j);
    }
    forall i | 0 <= i < n - 1 ensures next[ys[i]] == ys[i + 1] && prev[ys[i + 1]] == ys[i] {
      RotateAt(xs, p, i);
      RotateAt(xs, p, i + 1);
    }
    RotateAt(xs, p, 0);
    RotateAt(xs, p, n - 1);
  }

  /**
   * The vertical links and the header of x lie in the arena, so the field
   * writes of UnlinkV and RelinkV reach existing nodes; in the source, a link
   * outside the arena would be a null dereference.
   */
  predicate InArenaV(m: Mesh, x: int) {
    0 <= x < |m.U| && x < |m.D| && x < |m.C|
    && 0 <= m.D[x] < |m.U| && 0 <= m.U[x] < |m.D| && 0 <= m.C[x] < |m.S|
  }

  /** The horizontal links of c lie in the arena. */
  predicate InArenaH(m: Mesh, c: int) {
    0 <= c < |m.L| && c < |m.R| && 0 <= m.R[c] < |m.L| && 0 <= m.L[c] < |m.R|
  }

  /** Unlink x from its vertical list: x.down.up = x.up; x.up.down = x.down; x.head.size--. */
  function UnlinkV(m: Mesh, x: int): (m': Mesh)
    ensures m'.L == m.L && m'.R == m.R && m'.C == m.C
    ensures |m'.U| == |m.U| && |m'.D| == |m.D| && |m'.S| == |m.S|
  {
    if !InArenaV(m, x) then m
    else
      var U1 := m.U[m.D[x] := m.U[x]];
      var D1 := m.D[U1[x] := m.D[x]];
      var S1 := m.S[m.C[x] := m.S[m.C[x]] - 1];
      m.(U := U1, D := D1, S := S1)
  }

  /** Relink x into its vertical list: x.head.size++; x.down.up = x; x.up.down = x. */
  function RelinkV(m: Mesh, x: int): (m': Mesh)
    ensures m'.L == m.L && m'.R == m.R && m'.C == m.C
    ensures |m'.U| == |m.U| && |m'.D| == |m.D| && |m'.S| == |m.S|
  {
    if !InArenaV(m, x) then m
    else
      var S1 := m.S[m.C[x] := m.S[m.C[x]] + 1];
      var U1 := m.U[m.D[x] := x];
      var D1 := m.D[U1[x] := x];
      m.(U := U1, D := D1, S := S1)
  }

  /** Unlink header c from the header ring: c.right.left = c.left; c.left.right = c.right. */
  function UnlinkH(m: Mesh, c: int): (m': Mesh)
    ensures m'.U == m.U && m'.D == m.D && m'.C == m.C && m'.S == m.S
    ensures |m'.L| == |m.L| && |m'.R| == |m.R|
  {
    if !InArenaH(m, c) then m
    else
      var L1 := m.L[m.R[c] := m.L[c]];
      var R1 := m.R[L1[c] := m.R[c]];
      m.(L := L1, R := R1)
  }

  /** Relink header c into the header ring: c.right.left = c; c.left.right = c. */
  function RelinkH(m: Mesh, c: int): (m': Mesh)
    ensures m'.U == m.U && m'.D == m.D && m'.C == m.C && m'.S == m.S
    ensures |m'.L| == |m.L| && |m'.R| == |m.R|
  {
    if !InArenaH(m, c) then m
    else
      var L1 := m.L[m.R[c] := c];
      var R1 := m.R[L1[c] := c];
      m.(L := L1, R := R1)
  }

  /** Unlink the nodes of xs one after the other, xs[0] first. */
  function UnlinkAll(m: Mesh, xs: seq<int>): (m': Mesh)
    ensures m'.L == m.L && m'.R == m.R && m'.C == m.C
    ensures |m'.U| == |m.U| && |m'.D| == |m.D| && |m'.S| == |m.S|
    decreases |xs|
  {
    if xs == [] then m else UnlinkV(UnlinkAll(m, xs[..|xs| - 1]), xs[|xs| - 1])
  }

  /** The mesh once the first k nodes of xs are unlinked, xs[0] first. */
  function UnlinkFirst(m: Mesh, xs: seq<int>, k: int): (m': Mesh)
    requires 0 <= k <= |xs|
    ensures m'.L == m.L && m'.R == m.R && m'.C == m.C
    ensures |m'.U| == |m.U| && |m'.D| == |m.D| && |m'.S| == |m.S|
  {
    if k == 0 then m else UnlinkV(UnlinkFirst(m, xs, k - 1), xs[k - 1])
  }

  /** Relink the nodes of xs in reverse order, xs[0] last. */
  function RelinkAll(m: Mesh, xs: seq<int>): (m': Mesh)
    ensures m'.L == m.L && m'.R == m.R && m'.C == m.C
    ensures |m'.U| == |m.U| && |m'.D| == |m.D| && |m'.S| == |m.S|
    decreases |xs|
  {
    if xs == [] then m else RelinkV(RelinkAll(m, xs[1..]), xs[0])
  }

  /** Effect of cover(c) when the rows of c make the other nodes xs, in visiting order. */
  function CoverMesh(m: Mesh, c: int, xs: seq<int>): (m': Mesh)
    ensures m'.C == m.C && |m'.L| == |m.L|
  {
    UnlinkAll(UnlinkH(m, c), xs)
  }

  /** Effect of uncover(c): the nodes of xs relinked last to first, then c. */
  function UncoverMesh(m: Mesh, c: int, xs: seq<int>): (m': Mesh)
    ensures m'.C == m.C && |m'.L| == |m.L|
  {
    RelinkH(RelinkAll(m, xs), c)
  }

  /** The surgery keeps every link in the arena. */
  lemma ShapedUnlinkV(m: Mesh, x: int)
    requires Shaped(m) && 0 < x < |m.L|
    ensures InArenaV(m, x) && Shaped(UnlinkV(m, x))
  {
  }

  lemma ShapedRelinkV(m: Mesh, x: int)
    requires Shaped(m) && 0 < x < |m.L|
    ensures InArenaV(m, x) && Shaped(RelinkV(m, x))
  {
  }

  lemma ShapedUnlinkH(m: Mesh, c: int)
    requires Shaped(m) && 0 <= c < |m.L|
    ensures InArenaH(m, c) && Shaped(UnlinkH(m, c))
  {
  }

  lemma {:induction false} ShapedUnlinkAll(m: Mesh, xs: seq<int>)
    requires Shaped(m) && forall i :: 0 <= i < |xs| ==> 0 < xs[i] < |m.L|
    ensures Shaped(UnlinkAll(m, xs))
    decreases |xs|
  {
    if xs != [] {
      ShapedUnlinkAll(m, xs[..|xs| - 1]);
      ShapedUnlinkV(UnlinkAll(m, xs[..|xs| - 1]), xs[|xs| - 1]);
    }
  }

  lemma {:induction false} ShapedUnlinkFirst(m: Mesh, xs: seq<int>, k: int)
    requires Shaped(m) && forall i :: 0 <= i < |xs| ==> 0 < xs[i] < |m.L|
    requires 0 <= k <= |xs|
    ensures Shaped(UnlinkFirst(m, xs, k))
  {
    if k > 0 {
      ShapedUnlinkFirst(m, xs, k - 1);
      ShapedUnlinkV(UnlinkFirst(m, xs, k - 1), xs[k - 1]);
    }
  }

  /** The next node to unlink has its vertical links in the arena. */
  lemma InArenaUnlinkFirst(m: Mesh, xs: seq<int>, j: int)
    requires Shaped(m) && forall i :: 0 <= i < |xs| ==> 0 < xs[i] < |m.L|
    requires 0 <= j < |xs|
    ensures InArenaV(UnlinkFirst(m, xs, j), xs[j])
  {
    ShapedUnlinkFirst(m, xs, j);
  }

  lemma {:induction false} ShapedRelinkAll(m: Mesh, xs: seq<int>)
    requires Shaped(m) && forall i :: 0 <= i < |xs| ==> 0 < xs[i] < |m.L|
    ensures Shaped(RelinkAll(m, xs))
    decreases |xs|
  {
    if xs != [] {
      ShapedRelinkAll(m, xs[1..]);
      ShapedRelinkV(RelinkAll(m, xs[1..]), xs[0]);
    }
  }

  /** Relinking a node right after unlinking it restores every field. */
  lemma RelinkUndoesUnlinkV(m: Mesh, x: int)
    requires InArenaV(m, x) && m.U[m.D[x]] == x && m.D[m.U[x]] == x
    ensures RelinkV(UnlinkV(m, x), x) == m
  {
    var m1 := UnlinkV(m, x);
    assert m1.U[x] == m.U[x] && m1.D[x] == m.D[x];
    var m2 := RelinkV(m1, x);
    assert m2.U == m.U;
    assert m2.D == m.D;
    assert m2.S == m.S;
  }

  /** Relinking a header right after unlinking it restores every field. */
  lemma RelinkUndoesUnlinkH(m: Mesh, c: int)
    requires InArenaH(m, c) && m.L[m.R[c]] == c && m.R[m.L[c]] == c && m.R[c] != c
    ensures RelinkH(UnlinkH(m, c), c) == m
  {
    var m1 := UnlinkH(m, c);
    assert m1.L[c] == m.L[c] && m1.R[c] == m.R[c];
    var m2 := RelinkH(m1, c);
    assert m2.L == m.L;
    assert m2.R == m.R;
  }

  /** When its turn comes, xs[i] is still linked to its vertical neighbours. */
  ghost predicate LinkedWhenUnlinked(m: Mesh, xs: seq<int>, i: int)
    requires 0 <= i < |xs|
  {
    var mi := UnlinkAll(m, xs[..i]);
    InArenaV(mi, xs[i]) && mi.U[mi.D[xs[i]]] == xs[i] && mi.D[mi.U[xs[i]]] == xs[i]
  }

  /** RelinkAll relinks the front node last. */
  lemma RelinkAllStep(m: Mesh, xs: seq<int>)
    requires xs != []
    ensures RelinkAll(m, xs) == RelinkV(RelinkAll(m, xs[1..]), xs[0])
  {
  }

  /** Unlinking one more node of xs. */
  lemma UnlinkAllSnoc(m: Mesh, xs: seq<int>, j: int)
    requires 0 <= j < |xs|
    ensures UnlinkAll(m, xs[..j + 1]) == UnlinkV(UnlinkAll(m, xs[..j]), xs[j])
  {
    assert xs[..j + 1][..j] == xs[..j];
  }

  /** Unlinking a prefix of xs one node at a time is unlinking that prefix. */
  lemma {:induction false} UnlinkFirstPrefix(m: Mesh, xs: seq<int>, k: int)
    requires 0 <= k <= |xs|
    ensures UnlinkFirst(m, xs, k) == UnlinkAll(m, xs[..k])
  {
    if k > 0 {
      UnlinkFirstPrefix(m, xs, k - 1);
      UnlinkAllSnoc(m, xs, k - 1);
    }
  }

  /** Unlinking all of xs one node at a time. */
  lemma UnlinkFirstAll(m: Mesh, xs: seq<int>)
    ensures UnlinkFirst(m, xs, |xs|) == UnlinkAll(m, xs)
  {
    UnlinkFirstPrefix(m, xs, |xs|);
    assert xs[..|xs|] == xs;
  }

  /** Relinking xs[j] undoes its own unlink. */
  lemma RelinkUndoesUnlinkLast(m: Mesh, xs: seq<int>, j: int)
    requires 0 <= j < |xs| && LinkedWhenUnlinked(m, xs, j)
    ensures RelinkV(UnlinkAll(m, xs[..j + 1]), xs[j]) == UnlinkAll(m, xs[..j])
  {
    UnlinkAllSnoc(m, xs, j);
    RelinkUndoesUnlinkV(UnlinkAll(m, xs[..j]), xs[j]);
  }

  /** Relinking the suffix from j relinks xs[j] last. */
  lemma RelinkAllPeel(m: Mesh, xs: seq<int>, j: int)
    requires 0 <= j < |xs|
    ensures RelinkAll(m, xs[j..]) == RelinkV(RelinkAll(m, xs[j + 1..]), xs[j])
  {
    RelinkAllStep(m, xs[j..]);
    assert xs[j..][1..] == xs[j + 1..];
  }

  /**
   * Undoing the last unlinks of a sequence in reverse order gives back the
   * state before them, provided each node was properly linked when it was
   * unlinked.
   */
  lemma {:induction false} RelinkAllUndoesUnlinkAll(m: Mesh, xs: seq<int>, j: int)
    requires 0 <= j <= |xs|
    requires forall i :: j <= i < |xs| ==> LinkedWhenUnlinked(m, xs, i)
    ensures RelinkAll(UnlinkAll(m, xs), xs[j..]) == UnlinkAll(m, xs[..j])
    decreases |xs| - j
  {
    if j == |xs| {
      assert xs[..j] == xs;
    } else {
      RelinkAllUndoesUnlinkAll(m, xs, j + 1);
      RelinkAllPeel(UnlinkAll(m, xs), xs, j);
      RelinkUndoesUnlinkLast(m, xs, j);
    }
  }
}
