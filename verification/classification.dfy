/** Classification of the `nely` by `nelx` grid into solid and void cells
    (the first loop of `_FEM`): the grid `x`, the void-element list `e`, and the
    solid area. Row 0 is the top of the domain; elements are numbered
    column-major from 1. */
module Classification {
  import opened Arith
  import opened Sequences
  import opened Matrices
  import Geometry

  /** The cell in row `ely`, column `elx` lies in the hole: its test point
      (elx + 1, nely - ely - 1), a column index and a row index counted from the
      bottom, tests inside. */
  predicate Inside(edges: seq<Geometry.Edge>, nely: int, nelx: int, ely: int, elx: int) {
    Geometry.InsidePolygon((elx + 1) as real, (nely - ely - 1) as real, edges, nely, nelx)
  }

  /** The verdict of the membership test for every cell. */
  function InsideMask(edges: seq<Geometry.Edge>, nely: nat, nelx: nat): seq<seq<bool>> {
    seq(nely, ely => seq(nelx, elx => Inside(edges, nely, nelx, ely, elx)))
  }

  /** 1-based column-major index of the element in row `ely`, column `elx`. */
  function ElementIndex(nely: int, ely: int, elx: int): int {
    elx * nely + ely + 1
  }

  /** Element indices run from 1 to `nelx * nely`. */
  lemma ElementIndexRange(nely: nat, nelx: nat, ely: nat, elx: nat)
    requires ely < nely && elx < nelx
    ensures 1 <= ElementIndex(nely, ely, elx) <= nelx * nely
  {
    MulStep(elx, nelx, nely);
    assert elx * nely >= 0;
  }

  /** One grid row for one mask row: 0 where the mask holds, 1 elsewhere. */
  function GridRow(row: seq<bool>): (r: seq<int>)
    ensures |r| == |row|
  {
    seq(|row|, c requires 0 <= c < |row| => if row[c] then 0 else 1)
  }

  /** The grid for a mask of void cells. */
  function GridOf(mask: seq<seq<bool>>): seq<seq<int>> {
    seq(|mask|, r requires 0 <= r < |mask| => GridRow(mask[r]))
  }

  /** The expected grid `x` of the classification loop. */
  function Grid(edges: seq<Geometry.Edge>, nely: nat, nelx: nat): seq<seq<int>> {
    GridOf(InsideMask(edges, nely, nelx))
  }

  /** Indices of the void cells of mask row `row` (grid row `ely`), in column
      order, as the inner loop appends them. */
  function RowVoids(row: seq<bool>, nely: nat, ely: nat): seq<int> {
    if row == [] then []
    else
      RowVoids(row[..|row| - 1], nely, ely)
      + (if row[|row| - 1] then [ElementIndex(nely, ely, |row| - 1)] else [])
  }

  /** The list `e` as appended by the loop over the rows of `mask`, before
      sorting: row by row, and within a row column by column. */
  function RawVoids(mask: seq<seq<bool>>, nely: nat): seq<int> {
    if mask == [] then []
    else RawVoids(mask[..|mask| - 1], nely) + RowVoids(mask[|mask| - 1], nely, |mask| - 1)
  }

  /** The void-element list after `np.sort` and `np.unique`. */
  function VoidSet(edges: seq<Geometry.Edge>, nely: nat, nelx: nat): seq<int> {
    Unique(Sort(RawVoids(InsideMask(edges, nely, nelx), nely)))
  }

  /** Number of entries equal to 1. */
  function CountOnes(row: seq<int>): nat {
    if row == [] then 0
    else CountOnes(row[..|row| - 1]) + (if row[|row| - 1] == 1 then 1 else 0)
  }

  /** Number of solid cells (entries equal to 1) in the grid. */
  function SolidCells(x: seq<seq<int>>): nat {
    if x == [] then 0 else SolidCells(x[..|x| - 1]) + CountOnes(x[|x| - 1])
  }

  /** Number of cells of a grid (the sum of its row lengths). */
  function CellCount(x: seq<seq<int>>): nat {
    if x == [] then 0 else CellCount(x[..|x| - 1]) + |x[|x| - 1]|
  }

  /** Distinct cells have distinct element indices. */
  lemma ElementIndexInjective(nely: nat, ely: nat, elx: nat, ely': nat, elx': nat)
    requires ely < nely && ely' < nely
    ensures ElementIndex(nely, ely, elx) == ElementIndex(nely, ely', elx') ==> ely == ely' && elx == elx'
  {
    if ElementIndex(nely, ely, elx) == ElementIndex(nely, ely', elx') {
      MixedRadixUnique(elx, ely, elx', ely', nely);
    }
  }

  /** An entry of `RowVoids` is the index of a void cell of that row. */
  lemma {:induction false} RowVoidsEntries(row: seq<bool>, nely: nat, ely: nat)
    ensures forall v :: v in RowVoids(row, nely, ely) ==>
      exists elx :: 0 <= elx < |row| && row[elx] && v == ElementIndex(nely, ely, elx)
  {
    if row != [] {
      RowVoidsEntries(row[..|row| - 1], nely, ely);
    }
  }

  /** Which element indices `RowVoids` holds. */
  lemma {:induction false} RowVoidsMember(row: seq<bool>, nely: nat, ely: nat, ely': nat, elx': nat)
    requires ely < nely && ely' < nely
    ensures ElementIndex(nely, ely', elx') in RowVoids(row, nely, ely)
      <==> ely' == ely && elx' < |row| && row[elx']
  {
    if row != [] {
      var n := |row|;
      RowVoidsMember(row[..n - 1], nely, ely, ely', elx');
      ElementIndexInjective(nely, ely', elx', ely, n - 1);
    }
  }

  lemma {:induction false} RowVoidsNoDup(row: seq<bool>, nely: nat, ely: nat)
    requires ely < nely
    ensures NoDup(RowVoids(row, nely, ely))
  {
    if row != [] {
      var n := |row|;
      RowVoidsNoDup(row[..n - 1], nely, ely);
      RowVoidsMember(row[..n - 1], nely, ely, ely, n - 1);
      NoDupAppend(RowVoids(row[..n - 1], nely, ely),
                  if row[n - 1] then [ElementIndex(nely, ely, n - 1)] else []);
    }
  }

  /** Along a row, void indices plus solid cells account for every column. */
  lemma {:induction false} RowVoidsCount(row: seq<bool>, nely: nat, ely: nat)
    ensures |RowVoids(row, nely, ely)| + CountOnes(GridRow(row)) == |row|
  {
    if row != [] {
      var n := |row|;
      RowVoidsCount(row[..n - 1], nely, ely);
      assert GridRow(row)[..n - 1] == GridRow(row[..n - 1]);
    }
  }

  /** Which element indices the unsorted list holds. */
  lemma {:induction false} RawVoidsMember(mask: seq<seq<bool>>, nely: nat, ely: nat, elx: nat)
    requires |mask| <= nely && ely < nely
    ensures ElementIndex(nely, ely, elx) in RawVoids(mask, nely)
      <==> ely < |mask| && elx < |mask[ely]| && mask[ely][elx]
  {
    if mask != [] {
      var m := |mask|;
      RawVoidsMember(mask[..m - 1], nely, ely, elx);
      RowVoidsMember(mask[m - 1], nely, m - 1, ely, elx);
    }
  }

  /** Every entry of the unsorted list is the element index of a void cell. */
  lemma {:induction false} RawVoidsEntries(mask: seq<seq<bool>>, nely: nat)
    ensures forall v :: v in RawVoids(mask, nely) ==>
      exists ely, elx :: 0 <= ely < |mask| && 0 <= elx < |mask[ely]| && mask[ely][elx] && v == ElementIndex(nely, ely, elx)
  {
    if mask != [] {
      var m := |mask|;
      RawVoidsEntries(mask[..m - 1], nely);
      RowVoidsEntries(mask[m - 1], nely, m - 1);
    }
  }

  lemma {:induction false} RawVoidsNoDup(mask: seq<seq<bool>>, nely: nat)
    requires |mask| <= nely
    ensures NoDup(RawVoids(mask, nely))
  {
    if mask != [] {
      var m := |mask|;
      var before := RawVoids(mask[..m - 1], nely);
      var last := RowVoids(mask[m - 1], nely, m - 1);
      RawVoidsNoDup(mask[..m - 1], nely);
      RowVoidsNoDup(mask[m - 1], nely, m - 1);
      RawVoidsEntries(mask[..m - 1], nely);
      forall v | v in before
        ensures v !in last
      {
        var ely, elx :| 0 <= ely < m - 1 && 0 <= elx < |mask[ely]| && mask[ely][elx] && v == ElementIndex(nely, ely, elx);
        RowVoidsMember(mask[m - 1], nely, m - 1, ely, elx);
      }
      NoDupAppend(before, last);
    }
  }

  lemma {:induction false} CellCountRect(x: seq<seq<int>>, rows: nat, cols: nat)
    requires IsRect(x, rows, cols)
    ensures CellCount(x) == rows * cols
  {
    if rows > 0 {
      CellCountRect(x[..rows - 1], rows - 1, cols);
      assert rows * cols == (rows - 1) * cols + cols;
    }
  }

  /** Void indices plus solid cells account for every cell of the mask. */
  lemma {:induction false} RawVoidsCount(mask: seq<seq<bool>>, nely: nat)
    ensures |RawVoids(mask, nely)| + SolidCells(GridOf(mask)) == CellCount(GridOf(mask))
  {
    if mask != [] {
      var m := |mask|;
      RawVoidsCount(mask[..m - 1], nely);
      RowVoidsCount(mask[m - 1], nely, m - 1);
      assert GridOf(mask)[..m - 1] == GridOf(mask[..m - 1]);
    }
  }

  /** The void list for a mask is sorted, repetition-free and holds only valid
      element indices. */
  lemma VoidListRange(mask: seq<seq<bool>>, nely: nat, nelx: nat)
    requires IsRect(mask, nely, nelx)
    ensures StrictlySorted(Unique(Sort(RawVoids(mask, nely))))
    ensures forall v :: v in Unique(Sort(RawVoids(mask, nely))) ==> 1 <= v <= nelx * nely
  {
    var raw := RawVoids(mask, nely);
    RawVoidsEntries(mask, nely);
    forall v | v in Unique(Sort(raw))
      ensures 1 <= v <= nelx * nely
    {
      assert v in raw;
      var ely, elx :| 0 <= ely < nely && 0 <= elx < |mask[ely]| && mask[ely][elx] && v == ElementIndex(nely, ely, elx);
      ElementIndexRange(nely, nelx, ely, elx);
    }
  }

  /** A cell's index is in the void list for a mask exactly when the mask marks it. */
  lemma VoidListMembers(mask: seq<seq<bool>>, nely: nat, nelx: nat)
    requires IsRect(mask, nely, nelx)
    ensures forall ely, elx :: 0 <= ely < nely && 0 <= elx < nelx ==>
      (ElementIndex(nely, ely, elx) in Unique(Sort(RawVoids(mask, nely))) <==> mask[ely][elx])
  {
    forall ely, elx | 0 <= ely < nely && 0 <= elx < nelx
      ensures ElementIndex(nely, ely, elx) in Unique(Sort(RawVoids(mask, nely))) <==> mask[ely][elx]
    {
      RawVoidsMember(mask, nely, ely, elx);
    }
  }

  /** The void list for a mask and the solid cells of its grid add up to the grid. */
  lemma VoidListCount(mask: seq<seq<bool>>, nely: nat, nelx: nat)
    requires IsRect(mask, nely, nelx)
    ensures nelx * nely - |Unique(Sort(RawVoids(mask, nely)))| == SolidCells(GridOf(mask))
  {
    var raw := RawVoids(mask, nely);
    RawVoidsNoDup(mask, nely);
    RawVoidsCount(mask, nely);
    UniqueCount(raw, Sort(raw));
    CellCountRect(GridOf(mask), nely, nelx);
  }

  /** The classification of a hole: grid entries are 0 or 1, 0 exactly at the
      cells that test inside; the void list is sorted and repetition-free, holds
      only valid element indices, holds a cell's index exactly when that cell is
      0 in the grid; and `nelx * nely - |e|` counts the cells left at 1. */
  lemma ClassificationProperties(edges: seq<Geometry.Edge>, nely: nat, nelx: nat)
    ensures IsRect(Grid(edges, nely, nelx), nely, nelx)
    ensures forall ely, elx :: 0 <= ely < nely && 0 <= elx < nelx ==>
      (Grid(edges, nely, nelx)[ely][elx] == 0 <==> Inside(edges, nely, nelx, ely, elx)) &&
      (Grid(edges, nely, nelx)[ely][elx] == 0 || Grid(edges, nely, nelx)[ely][elx] == 1)
    ensures StrictlySorted(VoidSet(edges, nely, nelx))
    ensures forall v :: v in VoidSet(edges, nely, nelx) ==> 1 <= v <= nelx * nely
    ensures forall ely, elx :: 0 <= ely < nely && 0 <= elx < nelx ==>
      (ElementIndex(nely, ely, elx) in VoidSet(edges, nely, nelx) <==> Grid(edges, nely, nelx)[ely][elx] == 0)
    ensures nelx * nely - |VoidSet(edges, nely, nelx)| == SolidCells(Grid(edges, nely, nelx))
  {
    var mask := InsideMask(edges, nely, nelx);
    var x := Grid(edges, nely, nelx);
    forall ely, elx | 0 <= ely < nely && 0 <= elx < nelx
      ensures mask[ely][elx] == Inside(edges, nely, nelx, ely, elx)
      ensures x[ely][elx] == if mask[ely][elx] then 0 else 1
    {
    }
    VoidListRange(mask, nely, nelx);
    VoidListMembers(mask, nely, nelx);
    VoidListCount(mask, nely, nelx);
  }

  /** One pass of the inner classification loop over row `ely`: starting from a
      row of ones, every cell that tests inside is set to 0 and its element
      index appended, column by column. */
  method ClassifyRow(edges: seq<Geometry.Edge>, nely: nat, nelx: nat, ely: nat) returns (row: seq<int>, voids: seq<int>)
    requires ely < nely
    ensures row == Grid(edges, nely, nelx)[ely]
    ensures voids == RowVoids(InsideMask(edges, nely, nelx)[ely], nely, ely)
  {
    ghost var mask := InsideMask(edges, nely, nelx);
    row := seq(nelx, _ => 1);
    voids := [];
    var elx := 0;
    while elx < nelx
      invariant 0 <= elx <= nelx
      invariant |row| == nelx
      invariant forall c :: 0 <= c < elx ==> row[c] == GridOf(mask)[ely][c]
      invariant forall c :: elx <= c < nelx ==> row[c] == 1
      invariant voids == RowVoids(mask[ely][..elx], nely, ely)
    {
      assert mask[ely][..elx + 1][..elx] == mask[ely][..elx];
      var inside := Geometry.MembershipTest((elx + 1) as real, (nely - ely - 1) as real, edges, nely, nelx);
      assert inside == mask[ely][elx];
      if inside {
        row := row[elx := 0];
        voids := voids + [ElementIndex(nely, ely, elx)];
      }
      elx := elx + 1;
    }
    assert mask[ely][..nelx] == mask[ely];
  }

  /** The classification loop of `_FEM`: starts from an all-ones grid, zeroes every
      cell whose test point is inside the hole while appending its element index,
      then sorts and de-duplicates the list. */
  method Classify(edges: seq<Geometry.Edge>, nely: nat, nelx: nat) returns (x: seq<seq<int>>, e: seq<int>)
    ensures x == Grid(edges, nely, nelx)
    ensures e == VoidSet(edges, nely, nelx)
    ensures IsRect(x, nely, nelx)
    ensures forall ely, elx :: 0 <= ely < nely && 0 <= elx < nelx ==>
      (x[ely][elx] == 0 <==> Inside(edges, nely, nelx, ely, elx)) &&
      (x[ely][elx] == 0 || x[ely][elx] == 1)
    ensures StrictlySorted(e)
    ensures forall v :: v in e ==> 1 <= v <= nelx * nely
    ensures forall ely, elx :: 0 <= ely < nely && 0 <= elx < nelx ==>
      (ElementIndex(nely, ely, elx) in e <==> x[ely][elx] == 0)
    ensures nelx * nely - |e| == SolidCells(x)
  {
    ghost var mask := InsideMask(edges, nely, nelx);
    x := [];
    var raw: seq<int> := [];
    var ely := 0;
    while ely < nely
      invariant 0 <= ely <= nely
      invariant x == Grid(edges, nely, nelx)[..ely]
      invariant raw == RawVoids(mask[..ely], nely)
    {
      assert mask[..ely + 1][..ely] == mask[..ely];
      var row, voids := ClassifyRow(edges, nely, nelx, ely);
      x := x + [row];
      raw := raw + voids;
      ely := ely + 1;
    }
    assert x == Grid(edges, nely, nelx);
    assert mask[..nely] == mask;
    e := Unique(Sort(raw));
    ClassificationProperties(edges, nely, nelx);
  }

  /** Number of entries equal to 1 in a row of ones. */
  lemma {:induction false} CountOnesAll(row: seq<int>)
    requires forall c :: 0 <= c < |row| ==> row[c] == 1
    ensures CountOnes(row) == |row|
  {
    if row != [] {
      CountOnesAll(row[..|row| - 1]);
    }
  }

  /** With no active edge in the table every cell is solid, the void list is
      empty, and the solid area is the whole grid. */
  lemma NoHoleAllSolid(edges: seq<Geometry.Edge>, nely: nat, nelx: nat)
    requires forall i :: 0 <= i < |edges| ==> !Geometry.Active(edges[i])
    ensures forall ely, elx :: 0 <= ely < nely && 0 <= elx < nelx ==> Grid(edges, nely, nelx)[ely][elx] == 1
    ensures VoidSet(edges, nely, nelx) == []
  {
    var mask := InsideMask(edges, nely, nelx);
    forall ely, elx | 0 <= ely < nely && 0 <= elx < nelx
      ensures !mask[ely][elx]
    {
      Geometry.NoActiveEdgesOutside((elx + 1) as real, (nely - ely - 1) as real, edges, nely, nelx);
    }
    SolidCellsAllOnes(Grid(edges, nely, nelx), nely, nelx);
    VoidListRange(mask, nely, nelx);
    VoidListMembers(mask, nely, nelx);
    VoidListCount(mask, nely, nelx);
  }

  /** A grid of ones has every cell solid. */
  lemma {:induction false} SolidCellsAllOnes(x: seq<seq<int>>, rows: nat, cols: nat)
    requires IsRect(x, rows, cols)
    requires forall r, c :: 0 <= r < rows && 0 <= c < cols ==> x[r][c] == 1
    ensures SolidCells(x) == rows * cols
  {
    if rows > 0 {
      SolidCellsAllOnes(x[..rows - 1], rows - 1, cols);
      CountOnesAll(x[rows - 1]);
      assert rows * cols == (rows - 1) * cols + cols;
    }
  }
}
