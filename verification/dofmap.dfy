/** Degree-of-freedom bookkeeping of `_FEM`: column-major node numbering, the
    element-to-DOF table `edofMat` (eight global DOFs per element), the 64-entry
    triplet layout `iK`/`jK` of the stiffness assembly, and the descending-order
    deletion of void elements. Nodes form an (nely + 1) by (nelx + 1) grid with row
    0 at the top; node and DOF numbers start at 1, and node `n` owns DOFs
    2n - 1 (x) and 2n (y). */
module DofMap {
  import opened Arith
  import opened Sequences
  import opened Matrices
  import Classification

  /** Number of nodes of an `nely` by `nelx` element grid. */
  function NodeCount(nely: nat, nelx: nat): nat {
    (nelx + 1) * (nely + 1)
  }

  /** Column-major number of the node in row `row`, column `col`. */
  function NodeId(nely: int, row: int, col: int): int {
    col * (nely + 1) + row + 1
  }

  /** The node below another is numbered one higher. */
  lemma NodeIdBelow(nely: int, row: int, col: int)
    ensures NodeId(nely, row + 1, col) == NodeId(nely, row, col) + 1
  {
  }

  /** Node numbers lie in 1 .. NodeCount. */
  lemma NodeIdRange(nely: nat, nelx: nat, row: nat, col: nat)
    requires row <= nely && col <= nelx
    ensures 1 <= NodeId(nely, row, col) <= NodeCount(nely, nelx)
  {
    if col < nelx {
      MulStep(col, nelx, nely + 1);
    }
    assert col * (nely + 1) >= 0;
    assert NodeCount(nely, nelx) == nelx * (nely + 1) + nely + 1;
  }

  /** The vector [lo, lo + 1, ..., lo + n - 1]. */
  function Range(lo: int, n: nat): (r: seq<int>)
    ensures |r| == n
  {
    seq(n, i => lo + i)
  }

  /** `nodenrs`: the numbers 1 .. NodeCount reshaped row-major into nelx + 1 rows
      of nely + 1, then transposed. */
  function NodeNumbers(nely: nat, nelx: nat): (r: seq<seq<int>>)
    ensures IsRect(r, nely + 1, nelx + 1)
  {
    var bb := Reshape(Range(1, NodeCount(nely, nelx)), nelx + 1, nely + 1);
    TransposeShape(bb, nelx + 1, nely + 1);
    Transpose(bb, nelx + 1, nely + 1)
  }

  /** The reshaped and transposed range numbers the nodes column by column. */
  lemma NodeNumbersAt(nely: nat, nelx: nat, row: nat, col: nat)
    requires row <= nely && col <= nelx
    ensures NodeNumbers(nely, nelx)[row][col] == NodeId(nely, row, col)
  {
    var a := Range(1, NodeCount(nely, nelx));
    var bb := Reshape(a, nelx + 1, nely + 1);
    TransposeShape(bb, nelx + 1, nely + 1);
    ReshapeAt(a, nelx + 1, nely + 1, col, row);
  }

  /** `b`: the upper-left node of every element, i.e. `nodenrs` cropped to its
      first nely rows and nelx columns. */
  function CornerNodes(nely: nat, nelx: nat): (r: seq<seq<int>>)
    ensures IsRect(r, nely, nelx)
  {
    var nodes := NodeNumbers(nely, nelx);
    seq(nely, i requires 0 <= i < nely => seq(nelx, j requires 0 <= j < nelx => nodes[i][j]))
  }

  /** `2 * b + 1`, entry-wise. */
  function BaseDofs(b: seq<seq<int>>): (r: seq<seq<int>>)
    ensures |r| == |b| && forall i :: 0 <= i < |b| ==> |r[i]| == |b[i]|
  {
    seq(|b|, i requires 0 <= i < |b| => seq(|b[i]|, j requires 0 <= j < |b[i]| => 2 * b[i][j] + 1))
  }

  /** The first DOF of each element's lower-left node, per element in grid
      position. */
  lemma BaseDofsAt(nely: nat, nelx: nat, ely: nat, elx: nat)
    requires ely < nely && elx < nelx
    ensures BaseDofs(CornerNodes(nely, nelx))[ely][elx] == 2 * NodeId(nely, ely, elx) + 1
  {
    NodeNumbersAt(nely, nelx, ely, elx);
  }

  /** `edofVec`: `2 * b + 1` flattened row-major, then sorted. */
  function EdofVec(nely: nat, nelx: nat): seq<int> {
    Sort(Flatten(BaseDofs(CornerNodes(nely, nelx))))
  }

  /** The base DOFs laid out column-major: row `elx`, column `ely` holds the base
      DOF of the element in grid row `ely`, column `elx`. */
  function ColumnMajorBase(nely: nat, nelx: nat): (r: seq<seq<int>>)
    ensures IsRect(r, nelx, nely)
  {
    seq(nelx, elx => seq(nely, ely => 2 * NodeId(nely, ely, elx) + 1))
  }

  lemma ColumnMajorAscending(nely: nat, nelx: nat)
    ensures RowsAscending(ColumnMajorBase(nely, nelx))
  {
    var t := ColumnMajorBase(nely, nelx);
    forall i1, i2, j1, j2 | 0 <= i1 < i2 < |t| && 0 <= j1 < |t[i1]| && 0 <= j2 < |t[i2]|
      ensures t[i1][j1] < t[i2][j2]
    {
      MulStep(i1, i2, nely + 1);
    }
  }

  /** Base DOFs of distinct elements differ. */
  lemma BaseDofsDistinct(nely: nat, nelx: nat)
    ensures EntriesDistinct(BaseDofs(CornerNodes(nely, nelx)))
  {
    var m := BaseDofs(CornerNodes(nely, nelx));
    forall i1, j1, i2, j2 |
      0 <= i1 < |m| && 0 <= j1 < |m[i1]| && 0 <= i2 < |m| && 0 <= j2 < |m[i2]| && m[i1][j1] == m[i2][j2]
      ensures i1 == i2 && j1 == j2
    {
      BaseDofsAt(nely, nelx, i1, j1);
      BaseDofsAt(nely, nelx, i2, j2);
      MixedRadixUnique(j1, i1, j2, i2, nely + 1);
    }
  }

  /** Sorting the row-major flattening of `2 * b + 1` yields the column-major
      order: `np.sort` turns the row-by-row layout into element order. */
  lemma EdofVecColumnMajor(nely: nat, nelx: nat)
    ensures EdofVec(nely, nelx) == Flatten(ColumnMajorBase(nely, nelx))
  {
    var m := BaseDofs(CornerNodes(nely, nelx));
    var t := ColumnMajorBase(nely, nelx);
    var flat := Flatten(m);
    var cm := Flatten(t);
    ColumnMajorAscending(nely, nelx);
    FlattenStrictlySorted(t);
    StrictlySortedNoDup(cm);
    BaseDofsDistinct(nely, nelx);
    FlattenNoDup(m);
    FlattenMembership(m);
    FlattenMembership(t);
    forall x
      ensures x in flat <==> x in cm
    {
      if HasEntry(m, x) {
        var i, j :| 0 <= i < |m| && 0 <= j < |m[i]| && m[i][j] == x;
        BaseDofsAt(nely, nelx, i, j);
        assert t[j][i] == x;
      }
      if HasEntry(t, x) {
        var j, i :| 0 <= j < |t| && 0 <= i < |t[j]| && t[j][i] == x;
        BaseDofsAt(nely, nelx, i, j);
        assert m[i][j] == x;
      }
    }
    SameElemsPermutation(flat, cm);
    SortedPermutationUnique(Sort(flat), cm);
  }

  /** Zero-based column-major position `elx * nely + ely` of the element in row
      `ely`, column `elx`: its row in `edofVec` and `edofMat`, one less than the
      element index used by the void list. */
  function Position(nely: nat, ely: nat, elx: nat): nat {
    Classification.ElementIndex(nely, ely, elx) - 1
  }

  /** Element `Position(nely, ely, elx)` of `edofVec` is the first DOF of that
      element's lower-left node. */
  lemma EdofVecAt(nely: nat, nelx: nat, ely: nat, elx: nat)
    requires ely < nely && elx < nelx
    ensures Position(nely, ely, elx) < |EdofVec(nely, nelx)|
    ensures EdofVec(nely, nelx)[Position(nely, ely, elx)] == 2 * NodeId(nely, ely, elx) + 1
  {
    EdofVecColumnMajor(nely, nelx);
    FlattenAt(ColumnMajorBase(nely, nelx), nelx, nely, elx, ely);
  }

  lemma EdofVecLength(nely: nat, nelx: nat)
    ensures |EdofVec(nely, nelx)| == nelx * nely
  {
    EdofVecColumnMajor(nely, nelx);
    FlattenLength(ColumnMajorBase(nely, nelx), nelx, nely);
  }

  /** Offsets from an element's base DOF to its eight DOFs. */
  function Offsets(nely: int): seq<int> {
    [0, 1, 2 * nely + 2, 2 * nely + 3, 2 * nely, 2 * nely + 1, -2, -1]
  }

  /** `edofMat`: row `k` is `edofVec[k]` plus each offset. */
  function EdofMat(edofVec: seq<int>, nely: int): (r: seq<seq<int>>)
    ensures IsRect(r, |edofVec|, 8)
  {
    seq(|edofVec|, k requires 0 <= k < |edofVec| =>
      seq(8, c requires 0 <= c < 8 => edofVec[k] + Offsets(nely)[c]))
  }

  /** The element-to-DOF table of an `nely` by `nelx` grid. */
  function ElementDofTable(nely: nat, nelx: nat): seq<seq<int>> {
    EdofMat(EdofVec(nely, nelx), nely)
  }

  /** The two DOFs (x, then y) of node `n`. */
  function Dofs(n: int): seq<int> {
    [2 * n - 1, 2 * n]
  }

  /** The DOFs of an element's corners, counter-clockwise from the lower left:
      lower-left, lower-right, upper-right, upper-left node. */
  function CornerDofs(nely: int, ely: int, elx: int): seq<int> {
    Dofs(NodeId(nely, ely + 1, elx)) + Dofs(NodeId(nely, ely + 1, elx + 1))
    + Dofs(NodeId(nely, ely, elx + 1)) + Dofs(NodeId(nely, ely, elx))
  }

  /** The corner DOFs in terms of the lower-left node `n`: the lower-right node
      is one column (nely + 1 numbers) further, the upper-right one row above
      that, the upper-left one row above `n`. */
  lemma CornerDofsFromLowerLeft(nely: int, ely: int, elx: int)
    ensures var n := NodeId(nely, ely + 1, elx);
      CornerDofs(nely, ely, elx) == Dofs(n) + Dofs(n + nely + 1) + Dofs(n + nely) + Dofs(n - 1)
  {
    assert (elx + 1) * (nely + 1) == elx * (nely + 1) + nely + 1;
  }

  /** A row of `edofMat` whose base is the x DOF of node `n` lists the DOFs of
      `n`, `n + nely + 1`, `n + nely` and `n - 1`. */
  lemma EdofMatRow(edofVec: seq<int>, nely: int, k: nat, n: int)
    requires k < |edofVec| && edofVec[k] == 2 * n - 1
    ensures EdofMat(edofVec, nely)[k] == Dofs(n) + Dofs(n + nely + 1) + Dofs(n + nely) + Dofs(n - 1)
  {
    var row := EdofMat(edofVec, nely)[k];
    var want := Dofs(n) + Dofs(n + nely + 1) + Dofs(n + nely) + Dofs(n - 1);
    var v := edofVec[k];
    var listed := [v, v + 1, v + 2 * nely + 2, v + 2 * nely + 3, v + 2 * nely, v + 2 * nely + 1, v - 2, v - 1];
    assert want == listed;
    forall c | 0 <= c < 8
      ensures row[c] == listed[c]
    {
      assert row[c] == v + Offsets(nely)[c];
      assert listed[c] == v + Offsets(nely)[c];
    }
  }

  /** Row `Position(nely, ely, elx)` of `edofMat` holds the DOFs of that element's four
      corners. */
  lemma ElementRow(nely: nat, nelx: nat, ely: nat, elx: nat)
    requires ely < nely && elx < nelx
    ensures Position(nely, ely, elx) < |ElementDofTable(nely, nelx)|
    ensures ElementDofTable(nely, nelx)[Position(nely, ely, elx)] == CornerDofs(nely, ely, elx)
  {
    EdofVecAt(nely, nelx, ely, elx);
    RowOfBase(EdofVec(nely, nelx), nely, Position(nely, ely, elx), ely, elx);
  }

  /** A row of `edofMat` whose base is the x DOF of node (ely, elx) lists the
      corner DOFs of the element in grid row `ely`, column `elx`. */
  lemma RowOfBase(edofVec: seq<int>, nely: int, k: nat, ely: int, elx: int)
    requires k < |edofVec| && edofVec[k] == 2 * NodeId(nely, ely, elx) + 1
    ensures EdofMat(edofVec, nely)[k] == CornerDofs(nely, ely, elx)
  {
    NodeIdBelow(nely, ely, elx);
    EdofMatRow(edofVec, nely, k, NodeId(nely, ely + 1, elx));
    CornerDofsFromLowerLeft(nely, ely, elx);
  }

  /** The eight DOFs of an element are pairwise distinct and are DOFs of the
      grid: 1 .. 2 * NodeCount. */
  lemma ElementRowDofs(nely: nat, nelx: nat, ely: nat, elx: nat)
    requires ely < nely && elx < nelx
    ensures NoDup(CornerDofs(nely, ely, elx))
    ensures forall c :: 0 <= c < 8 ==> 1 <= CornerDofs(nely, ely, elx)[c] <= 2 * NodeCount(nely, nelx)
  {
    NodeIdRange(nely, nelx, ely, elx);
    NodeIdRange(nely, nelx, ely + 1, elx + 1);
    CornerDofsFromLowerLeft(nely, ely, elx);
  }

  lemma ElementDofTableEntry(nely: nat, nelx: nat, k: nat, c: nat)
    requires 0 < nely && k < nelx * nely && c < 8
    ensures k < |ElementDofTable(nely, nelx)|
    ensures 1 <= ElementDofTable(nely, nelx)[k][c] <= 2 * NodeCount(nely, nelx)
  {
    var elx, ely := SplitIndex(k, nely, nelx);
    ElementRow(nely, nelx, ely, elx);
    var row := ElementDofTable(nely, nelx)[k];
    assert row == CornerDofs(nely, ely, elx);
    ElementRowDofs(nely, nelx, ely, elx);
  }

  /** The table has one row of eight DOFs per element. */
  lemma ElementDofTableRect(nely: nat, nelx: nat)
    ensures IsRect(ElementDofTable(nely, nelx), nelx * nely, 8)
  {
    EdofVecLength(nely, nelx);
  }

  /** Every DOF in the table is a DOF of the grid: 1 .. 2 * NodeCount. */
  lemma ElementDofTableRange(nely: nat, nelx: nat)
    ensures forall k, c :: 0 <= k < |ElementDofTable(nely, nelx)| && 0 <= c < 8 ==>
      1 <= ElementDofTable(nely, nelx)[k][c] <= 2 * NodeCount(nely, nelx)
  {
    EdofVecLength(nely, nelx);
    forall k, c | 0 <= k < |ElementDofTable(nely, nelx)| && 0 <= c < 8
      ensures 1 <= ElementDofTable(nely, nelx)[k][c] <= 2 * NodeCount(nely, nelx)
    {
      assert 0 < nely;
      ElementDofTableEntry(nely, nelx, k, c);
    }
  }

  /** `iK`: `edofMat` with every row repeated eight times (`np.kron` with an 8 by
      1 block of ones), flattened row-major. */
  function RowIndices(edofMat: seq<seq<int>>): seq<int>
    requires IsRect(edofMat, |edofMat|, 8)
  {
    Flatten(KronOnes(edofMat, 8, 8, 1))
  }

  /** `jK`: `edofMat` with every entry repeated eight times in place (`np.kron`
      with a 1 by 8 block of ones), flattened row-major. */
  function ColumnIndices(edofMat: seq<seq<int>>): seq<int>
    requires IsRect(edofMat, |edofMat|, 8)
  {
    Flatten(KronOnes(edofMat, 8, 1, 8))
  }

  /** Every element contributes 64 triplets. */
  lemma TripletLength(edofMat: seq<seq<int>>)
    requires IsRect(edofMat, |edofMat|, 8)
    ensures |RowIndices(edofMat)| == 64 * |edofMat| == |ColumnIndices(edofMat)|
  {
    FlattenLength(KronOnes(edofMat, 8, 8, 1), |edofMat| * 8, 8);
    FlattenLength(KronOnes(edofMat, 8, 1, 8), |edofMat|, 64);
  }

  /** Element `k` owns the 64 triplet positions 64k .. 64k + 63, and position
      64k + 8a + b pairs DOF `edofMat[k][b]` (row) with DOF `edofMat[k][a]`
      (column). */
  lemma TripletLayout(edofMat: seq<seq<int>>, k: nat, a: nat, b: nat)
    requires IsRect(edofMat, |edofMat|, 8)
    requires k < |edofMat| && a < 8 && b < 8
    ensures |RowIndices(edofMat)| == 64 * |edofMat| == |ColumnIndices(edofMat)|
    ensures RowIndices(edofMat)[64 * k + 8 * a + b] == edofMat[k][b]
    ensures ColumnIndices(edofMat)[64 * k + 8 * a + b] == edofMat[k][a]
  {
    var n := |edofMat|;
    var ki := KronOnes(edofMat, 8, 8, 1);
    var kj := KronOnes(edofMat, 8, 1, 8);
    FlattenLength(ki, n * 8, 8);
    FlattenLength(kj, n, 64);
    KronOnesAt(edofMat, 8, 8, 1, k, a, b, 0);
    FlattenAt(ki, n * 8, 8, k * 8 + a, b);
    KronOnesAt(edofMat, 8, 1, 8, k, 0, a, b);
    FlattenAt(kj, n, 64, k, a * 8 + b);
  }

  /** The row numbers (0-based) of the elements listed, 1-based, in `e`. */
  function RowsOf(e: seq<int>): set<int> {
    if e == [] then {} else {e[0] - 1} + RowsOf(e[1..])
  }

  lemma {:induction false} RowsOfMember(e: seq<int>, k: int)
    ensures k in RowsOf(e) <==> k + 1 in e
  {
    if e != [] {
      RowsOfMember(e[1..], k);
    }
  }

  /** The integers `lo .. hi - 1`. */
  function Interval(lo: int, hi: int): set<int>
    decreases hi - lo
  {
    if hi <= lo then {} else {lo} + Interval(lo + 1, hi)
  }

  lemma {:induction false} IntervalMember(lo: int, hi: int, q: int)
    ensures q in Interval(lo, hi) <==> lo <= q < hi
    decreases hi - lo
  {
    if lo < hi {
      IntervalMember(lo + 1, hi, q);
    }
  }

  /** The triplet positions 64k .. 64k + 63 of every element row `k` listed in
      `e` (elements numbered from 1). */
  function Blocks(e: seq<int>): set<int> {
    if e == [] then {} else Interval(64 * (e[0] - 1), 64 * e[0]) + Blocks(e[1..])
  }

  /** Position 64k + t lies in the blocks of `e` exactly when row `k` is listed. */
  lemma {:induction false} BlocksMember(e: seq<int>, k: int, t: int)
    requires 0 <= t < 64
    ensures 64 * k + t in Blocks(e) <==> k in RowsOf(e)
  {
    if e != [] {
      BlocksMember(e[1..], k, t);
      IntervalMember(64 * (e[0] - 1), 64 * e[0], 64 * k + t);
    }
  }

  /** Elements from `k + 1` on occupy positions from 64k on. */
  lemma {:induction false} BlocksAbove(e: seq<int>, k: int)
    requires forall i :: 0 <= i < |e| ==> e[i] > k
    ensures forall q :: q in Blocks(e) ==> q >= 64 * k
  {
    if e != [] {
      BlocksAbove(e[1..], k);
      var lo, hi := 64 * (e[0] - 1), 64 * e[0];
      forall q | q in Interval(lo, hi)
        ensures q >= 64 * k
      {
        IntervalMember(lo, hi, q);
      }
    }
  }

  /** The triplets of `m` are the 64 triplets of its first row followed by those
      of the remaining rows. */
  lemma KronFlattenCons(m: seq<seq<int>>, p: nat, q: nat)
    requires IsRect(m, |m|, 8) && m != []
    requires (p == 8 && q == 1) || (p == 1 && q == 8)
    ensures Flatten(KronOnes(m, 8, p, q))
      == Flatten(KronOnes([m[0]], 8, p, q)) + Flatten(KronOnes(m[1..], 8, p, q))
    ensures |Flatten(KronOnes([m[0]], 8, p, q))| == 64
  {
    assert [m[0]] + m[1..] == m;
    KronOnesAppend([m[0]], m[1..], 8, p, q);
    FlattenAppend(KronOnes([m[0]], 8, p, q), KronOnes(m[1..], 8, p, q));
    FlattenLength(KronOnes([m[0]], 8, p, q), p, 8 * q);
  }

  /** The 64 triplets of row `r` go entirely when the row is listed, and stay
      entirely when it is not. */
  lemma HeadBlock<T>(hb: seq<T>, e: seq<int>, r: int)
    requires |hb| == 64
    ensures r in RowsOf(e) ==> DropFrom(hb, Blocks(e), 64 * r) == []
    ensures r !in RowsOf(e) ==> DropFrom(hb, Blocks(e), 64 * r) == hb
  {
    if r in RowsOf(e) {
      forall pos | 64 * r <= pos < 64 * r + |hb|
        ensures pos in Blocks(e)
      {
        BlocksMember(e, r, pos - 64 * r);
      }
      DropFromAll(hb, Blocks(e), 64 * r);
    } else {
      forall pos | 64 * r <= pos < 64 * r + |hb|
        ensures pos !in Blocks(e)
      {
        BlocksMember(e, r, pos - 64 * r);
      }
      DropFromNone(hb, Blocks(e), 64 * r);
    }
  }

  /** Deleting the triplet blocks of some rows of `m` gives the triplets of `m`
      with those rows deleted: removing after the layout is filtering before it.
      Here `m` starts at row `r`, so its triplets start at position 64r. */
  lemma {:induction false} DropBlocks(m: seq<seq<int>>, e: seq<int>, r: int, p: nat, q: nat)
    requires IsRect(m, |m|, 8)
    requires (p == 8 && q == 1) || (p == 1 && q == 8)
    ensures IsRect(DropFrom(m, RowsOf(e), r), |DropFrom(m, RowsOf(e), r)|, 8)
    ensures DropFrom(Flatten(KronOnes(m, 8, p, q)), Blocks(e), 64 * r)
      == Flatten(KronOnes(DropFrom(m, RowsOf(e), r), 8, p, q))
    decreases |m|
  {
    DropFromSubset(m, RowsOf(e), r);
    if m != [] {
      DropBlocks(m[1..], e, r + 1, p, q);
      DropBlocksCons(m, e, r, p, q);
    }
  }

  /** The inductive step of `DropBlocks`: from the claim for the rows after the
      first to the claim for all rows. */
  lemma DropBlocksCons(m: seq<seq<int>>, e: seq<int>, r: int, p: nat, q: nat)
    requires IsRect(m, |m|, 8) && m != []
    requires (p == 8 && q == 1) || (p == 1 && q == 8)
    requires IsRect(DropFrom(m[1..], RowsOf(e), r + 1), |DropFrom(m[1..], RowsOf(e), r + 1)|, 8)
    requires DropFrom(Flatten(KronOnes(m[1..], 8, p, q)), Blocks(e), 64 * (r + 1))
      == Flatten(KronOnes(DropFrom(m[1..], RowsOf(e), r + 1), 8, p, q))
    ensures IsRect(DropFrom(m, RowsOf(e), r), |DropFrom(m, RowsOf(e), r)|, 8)
    ensures DropFrom(Flatten(KronOnes(m, 8, p, q)), Blocks(e), 64 * r)
      == Flatten(KronOnes(DropFrom(m, RowsOf(e), r), 8, p, q))
  {
    DropFromSubset(m, RowsOf(e), r);
    KronFlattenCons(m, p, q);
    var hb := Flatten(KronOnes([m[0]], 8, p, q));
    var tb := Flatten(KronOnes(m[1..], 8, p, q));
    HeadBlock(hb, e, r);
    var rest := DropFrom(m[1..], RowsOf(e), r + 1);
    if r in RowsOf(e) {
      assert DropFrom(m, RowsOf(e), r) == rest;
    } else {
      var kept := [m[0]] + rest;
      assert DropFrom(m, RowsOf(e), r) == kept;
      assert kept[0] == m[0] && kept[1..] == rest;
      KronFlattenCons(kept, p, q);
    }
    Glue(Flatten(KronOnes(m, 8, p, q)), hb, tb, Blocks(e), 64 * r, 64 * (r + 1),
      Flatten(KronOnes(DropFrom(m, RowsOf(e), r), 8, p, q)), r in RowsOf(e));
  }

  /** Deleting from a concatenation whose head goes entirely or stays entirely. */
  lemma Glue<T>(whole: seq<T>, hb: seq<T>, tb: seq<T>, d: set<int>, base: int, tailBase: int,
                result: seq<T>, headGoes: bool)
    requires whole == hb + tb && tailBase == base + |hb|
    requires headGoes ==> DropFrom(hb, d, base) == [] && result == DropFrom(tb, d, tailBase)
    requires !headGoes ==> DropFrom(hb, d, base) == hb && result == hb + DropFrom(tb, d, tailBase)
    ensures DropFrom(whole, d, base) == result
  {
    DropFromAppend(hb, tb, d, base);
  }

  /** The inner deletion loop of `_FEM` for void element `v`: positions
      64v - 1 down to 64(v - 1) are deleted from `iK`, `jK` and `sK` one at a
      time. The vectors are the originals with the positions in `d` already
      deleted, all of them above this block. */
  method RemoveBlock<T>(iK: seq<int>, jK: seq<int>, sK: seq<T>, v: int,
                        ghost iK0: seq<int>, ghost jK0: seq<int>, ghost sK0: seq<T>, ghost d: set<int>)
    returns (iK': seq<int>, jK': seq<int>, sK': seq<T>)
    requires 1 <= v && 64 * v <= |iK0| && 64 * v <= |jK0| && 64 * v <= |sK0|
    requires forall q :: q in d ==> q >= 64 * v
    requires iK == DropFrom(iK0, d, 0) && jK == DropFrom(jK0, d, 0) && sK == DropFrom(sK0, d, 0)
    ensures iK' == DropFrom(iK0, Interval(64 * (v - 1), 64 * v) + d, 0)
    ensures jK' == DropFrom(jK0, Interval(64 * (v - 1), 64 * v) + d, 0)
    ensures sK' == DropFrom(sK0, Interval(64 * (v - 1), 64 * v) + d, 0)
    ensures |iK'| == |iK| - 64 && |jK'| == |jK| - 64 && |sK'| == |sK| - 64
  {
    iK', jK', sK' := iK, jK, sK;
    ghost var pos := d;
    var j := 64 * v;
    while j > 64 * (v - 1)
      invariant 64 * (v - 1) <= j <= 64 * v
      invariant pos == Interval(j, 64 * v) + d
      invariant forall q :: q in pos ==> q >= j
      invariant iK' == DropFrom(iK0, pos, 0)
      invariant jK' == DropFrom(jK0, pos, 0)
      invariant sK' == DropFrom(sK0, pos, 0)
      invariant |iK'| == |iK| - (64 * v - j)
      invariant |jK'| == |jK| - (64 * v - j)
      invariant |sK'| == |sK| - (64 * v - j)
    {
      j := j - 1;
      RemoveBelowDropped(iK0, pos, 0, j);
      RemoveBelowDropped(jK0, pos, 0, j);
      RemoveBelowDropped(sK0, pos, 0, j);
      iK' := RemoveAt(iK', j);
      jK' := RemoveAt(jK', j);
      sK' := RemoveAt(sK', j);
      pos := pos + {j};
      assert Interval(j, 64 * v) == {j} + Interval(j + 1, 64 * v);
    }
  }

  /** Element rows listed in `e`, all numbered above `v`, lie above row `v - 1`. */
  lemma RowsAbove(e: seq<int>, v: int)
    requires forall k :: 0 <= k < |e| ==> e[k] > v
    ensures forall r :: r in RowsOf(e) ==> r > v - 1
  {
    forall r | r in RowsOf(e)
      ensures r > v - 1
    {
      RowsOfMember(e, r);
    }
  }

  /** One pass of the outer deletion loop of `_FEM` for void element `v`: its 64
      triplets, then its `edofMat` row, are deleted from vectors in which the
      elements listed in `above` (all numbered above `v`) are already deleted. */
  method RemoveVoid<T>(iK: seq<int>, jK: seq<int>, sK: seq<T>, edofMat: seq<seq<int>>, v: int,
                       ghost iK0: seq<int>, ghost jK0: seq<int>, ghost sK0: seq<T>,
                       ghost edofMat0: seq<seq<int>>, ghost above: seq<int>)
    returns (iK': seq<int>, jK': seq<int>, sK': seq<T>, edofMat': seq<seq<int>>)
    requires 1 <= v <= |edofMat0|
    requires |iK0| == |jK0| == |sK0| == 64 * |edofMat0|
    requires forall k :: 0 <= k < |above| ==> above[k] > v
    requires edofMat == DropFrom(edofMat0, RowsOf(above), 0)
    requires iK == DropFrom(iK0, Blocks(above), 0)
    requires jK == DropFrom(jK0, Blocks(above), 0)
    requires sK == DropFrom(sK0, Blocks(above), 0)
    ensures edofMat' == DropFrom(edofMat0, RowsOf([v] + above), 0)
    ensures iK' == DropFrom(iK0, Blocks([v] + above), 0)
    ensures jK' == DropFrom(jK0, Blocks([v] + above), 0)
    ensures sK' == DropFrom(sK0, Blocks([v] + above), 0)
    ensures |edofMat'| == |edofMat| - 1
    ensures |iK'| == |iK| - 64 && |jK'| == |jK| - 64 && |sK'| == |sK| - 64
  {
    assert ([v] + above)[1..] == above;
    BlocksAbove(above, v);
    iK', jK', sK' := RemoveBlock(iK, jK, sK, v, iK0, jK0, sK0, Blocks(above));
    RowsAbove(above, v);
    RemoveBelowDropped(edofMat0, RowsOf(above), 0, v - 1);
    edofMat' := RemoveAt(edofMat, v - 1);
    assert RowsOf(above) + {v - 1} == RowsOf([v] + above);
  }

  /** The void deletion of `_FEM`: for each void element, from the highest
      numbered down, its 64 triplets are deleted from `iK`, `jK` and `sK` and
      its row from `edofMat`. The result is the original vectors filtered by the
      deleted sets, so the descending order needs no index shifting. */
  method RemoveVoids<T>(iK: seq<int>, jK: seq<int>, sK: seq<T>, edofMat: seq<seq<int>>, e: seq<int>)
    returns (iK': seq<int>, jK': seq<int>, sK': seq<T>, edofMat': seq<seq<int>>)
    requires StrictlySorted(e)
    requires forall i :: 0 <= i < |e| ==> 1 <= e[i] <= |edofMat|
    requires |iK| == |jK| == |sK| == 64 * |edofMat|
    ensures edofMat' == DropFrom(edofMat, RowsOf(e), 0)
    ensures iK' == DropFrom(iK, Blocks(e), 0)
    ensures jK' == DropFrom(jK, Blocks(e), 0)
    ensures sK' == DropFrom(sK, Blocks(e), 0)
    ensures |edofMat'| == |edofMat| - |e|
    ensures |iK'| == |jK'| == |sK'| == 64 * |edofMat'|
  {
    iK', jK', sK', edofMat' := iK, jK, sK, edofMat;
    var i := |e|;
    assert e[i..] == [];
    DropFromNone(edofMat, {}, 0);
    DropFromNone(iK, {}, 0);
    DropFromNone(jK, {}, 0);
    DropFromNone(sK, {}, 0);
    while i > 0
      invariant 0 <= i <= |e|
      invariant edofMat' == DropFrom(edofMat, RowsOf(e[i..]), 0)
      invariant iK' == DropFrom(iK, Blocks(e[i..]), 0)
      invariant jK' == DropFrom(jK, Blocks(e[i..]), 0)
      invariant sK' == DropFrom(sK, Blocks(e[i..]), 0)
      invariant |edofMat'| == |edofMat| - (|e| - i)
      invariant |iK'| == |jK'| == |sK'| == 64 * |edofMat'|
    {
      i := i - 1;
      assert e[i..] == [e[i]] + e[i + 1..];
      iK', jK', sK', edofMat' := RemoveVoid(iK', jK', sK', edofMat', e[i], iK, jK, sK, edofMat, e[i + 1..]);
    }
    assert e[0..] == e;
  }

  /** After the void deletion, `iK` and `jK` are exactly the triplet layout of
      the surviving `edofMat` rows. */
  lemma DeletionKeepsLayout(edofMat: seq<seq<int>>, e: seq<int>)
    requires IsRect(edofMat, |edofMat|, 8)
    ensures IsRect(DropFrom(edofMat, RowsOf(e), 0), |DropFrom(edofMat, RowsOf(e), 0)|, 8)
    ensures DropFrom(RowIndices(edofMat), Blocks(e), 0) == RowIndices(DropFrom(edofMat, RowsOf(e), 0))
    ensures DropFrom(ColumnIndices(edofMat), Blocks(e), 0) == ColumnIndices(DropFrom(edofMat, RowsOf(e), 0))
  {
    DropBlocks(edofMat, e, 0, 8, 1);
    DropBlocks(edofMat, e, 0, 1, 8);
  }
}
