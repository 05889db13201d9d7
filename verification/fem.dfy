/** The combinatorial set-up of `_FEM`, end to end: classify the grid against
    the hole, build the element DOF table and the triplet index vectors, drop
    the void elements, build the load vector and the fixed, referenced and free
    DOF lists. The numeric assembly and solve that follow are outside the model. */
module Fem {
  import opened Arith
  import opened Sequences
  import opened Matrices
  import Geometry
  import opened Classification
  import opened DofMap
  import opened Boundary

  /** The ways the set-up fails before any solve: `fmag = 10000 / nelx` divides
      by zero, `np.ones` refuses a negative shape, and `np.max` of an empty void
      list raises. */
  datatype Error = DivisionByZero | NegativeDimension | EmptyVoidList

  datatype Result<T> = Success(value: T) | Failure(error: Error)

  /** Everything the set-up hands to the solver. `sK` carries the stiffness
      values, whose computation is numeric and supplied by the caller. */
  datatype Setup = Setup(
    x: seq<seq<int>>,
    e: seq<int>,
    edofMat: seq<seq<int>>,
    iK: seq<int>,
    jK: seq<int>,
    sK: seq<real>,
    f: seq<real>,
    fixeddofs: seq<int>,
    alldofs: seq<int>,
    freedofs: seq<int>,
    area: int)

  /** The element DOF table and triplet index vectors with the void elements
      `e` deleted: the survivors are exactly the rows and triplets of the
      elements not in `e`, and the triplets keep the layout of the rows. */
  method DropVoids(nely: nat, nelx: nat, e: seq<int>, sK: seq<real>)
    returns (edofMat: seq<seq<int>>, iK: seq<int>, jK: seq<int>, sK': seq<real>)
    requires StrictlySorted(e)
    requires forall v :: v in e ==> 1 <= v <= nelx * nely
    requires |sK| == 64 * (nelx * nely)
    ensures edofMat == DropFrom(ElementDofTable(nely, nelx), RowsOf(e), 0)
    ensures |edofMat| == nelx * nely - |e|
    ensures IsRect(edofMat, |edofMat|, 8)
    ensures iK == RowIndices(edofMat) && jK == ColumnIndices(edofMat)
    ensures sK' == DropFrom(sK, Blocks(e), 0) && |sK'| == 64 * |edofMat|
  {
    var table := ElementDofTable(nely, nelx);
    ElementDofTableRect(nely, nelx);
    TripletLength(table);
    assert forall i :: 0 <= i < |e| ==> e[i] in e;
    iK, jK, sK', edofMat := RemoveVoids(RowIndices(table), ColumnIndices(table), sK, table, e);
    DeletionKeepsLayout(table, e);
  }

  /** The grid, the void list and the mesh left after deleting the void
      elements: the surviving `edofMat` rows and triplets are exactly those of
      the solid cells. */
  method Mesh(edges: seq<Geometry.Edge>, nely: nat, nelx: nat, sK: seq<real>)
    returns (x: seq<seq<int>>, e: seq<int>, edofMat: seq<seq<int>>, iK: seq<int>, jK: seq<int>, sK': seq<real>)
    requires |sK| == 64 * (nelx * nely)
    ensures x == Grid(edges, nely, nelx) && e == VoidSet(edges, nely, nelx)
    ensures IsRect(x, nely, nelx)
    ensures forall v :: v in e ==> 1 <= v <= nelx * nely
    ensures forall ely, elx :: 0 <= ely < nely && 0 <= elx < nelx ==>
      (ElementIndex(nely, ely, elx) - 1 in RowsOf(e) <==> x[ely][elx] == 0)
    ensures nelx * nely - |e| == SolidCells(x) == |edofMat|
    ensures edofMat == DropFrom(ElementDofTable(nely, nelx), RowsOf(e), 0)
    ensures IsRect(edofMat, |edofMat|, 8)
    ensures iK == RowIndices(edofMat) && jK == ColumnIndices(edofMat)
    ensures sK' == DropFrom(sK, Blocks(e), 0) && |sK'| == 64 * |edofMat|
  {
    x, e := Classify(edges, nely, nelx);
    edofMat, iK, jK, sK' := DropVoids(nely, nelx, e, sK);
    forall ely, elx | 0 <= ely < nely && 0 <= elx < nelx
      ensures ElementIndex(nely, ely, elx) - 1 in RowsOf(e) <==> x[ely][elx] == 0
    {
      RowsOfMember(e, ElementIndex(nely, ely, elx) - 1);
    }
  }

  /** The load vector and the fixed, referenced and free DOF lists of a mesh
      with void elements `e` and element DOF table `edofMat`. */
  method Constrain(nely: nat, nelx: nat, e: seq<int>, edofMat: seq<seq<int>>)
    returns (f: seq<real>, fixeddofs: seq<int>, alldofs: seq<int>, freedofs: seq<int>)
    requires nelx > 0 && |e| > 0
    ensures |f| == DofCount(nely, nelx)
    ensures forall p :: 0 <= p < |f| ==> f[p] == if Loaded(nely, p) then -Fmag(nelx) else 0.0
    ensures fixeddofs == FixedDofs(nely, nelx, e)
    ensures StrictlySorted(alldofs)
    ensures forall d :: d in alldofs <==> 1 <= d <= DofCount(nely, nelx) && HasEntry(edofMat, d)
    ensures StrictlySorted(freedofs)
    ensures forall d :: d in freedofs <==> d in alldofs && d !in fixeddofs
  {
    f := LoadVector(nely, nelx);
    f := PruneLoad(f, edofMat, DofCount(nely, nelx));
    fixeddofs := FixedDofs(nely, nelx, e);
    alldofs := ReferencedDofs(edofMat, DofCount(nely, nelx));
    freedofs := FreeDofs(alldofs, fixeddofs);
  }

  /** The set-up of `_FEM(Edges, nely, nelx)` with the stiffness values `sK`
      (64 per element, in element order) given. */
  method Prepare(edges: seq<Geometry.Edge>, nely: int, nelx: int, sK: seq<real>) returns (r: Result<Setup>)
    requires nely >= 0 && nelx >= 0 ==> |sK| == 64 * (nelx * nely)
    ensures nelx == 0 ==> r == Failure(DivisionByZero)
    ensures nelx != 0 && (nelx < 0 || nely < 0) ==> r == Failure(NegativeDimension)
    ensures nelx > 0 && nely >= 0 ==>
      (r.Failure? <==> VoidSet(edges, nely, nelx) == []) &&
      (r.Failure? ==> r.error == EmptyVoidList)
    ensures r.Success? ==> nelx > 0 && nely > 0
    ensures r.Success? ==>
      var s := r.value;
      s.x == Grid(edges, nely, nelx) &&
      s.e == VoidSet(edges, nely, nelx) &&
      IsRect(s.x, nely, nelx) &&
      (forall ely, elx :: 0 <= ely < nely && 0 <= elx < nelx ==>
        (ElementIndex(nely, ely, elx) - 1 in RowsOf(s.e) <==> s.x[ely][elx] == 0)) &&
      s.area == nelx * nely - |s.e| == SolidCells(s.x) == |s.edofMat|
    ensures r.Success? ==>
      var s := r.value;
      s.edofMat == DropFrom(ElementDofTable(nely, nelx), RowsOf(s.e), 0) &&
      IsRect(s.edofMat, |s.edofMat|, 8) &&
      s.iK == RowIndices(s.edofMat) &&
      s.jK == ColumnIndices(s.edofMat) &&
      s.sK == DropFrom(sK, Blocks(s.e), 0) &&
      |s.sK| == 64 * |s.edofMat|
    ensures r.Success? ==>
      var s := r.value;
      |s.f| == DofCount(nely, nelx) &&
      (forall p :: 0 <= p < |s.f| ==> s.f[p] == if Loaded(nely, p) then -Fmag(nelx) else 0.0) &&
      s.fixeddofs == FixedDofs(nely, nelx, s.e) &&
      StrictlySorted(s.alldofs) &&
      (forall d :: d in s.alldofs <==> 1 <= d <= DofCount(nely, nelx) && HasEntry(s.edofMat, d)) &&
      StrictlySorted(s.freedofs) &&
      (forall d :: d in s.freedofs <==> d in s.alldofs && d !in s.fixeddofs)
  {
    if nelx == 0 {
      return Failure(DivisionByZero);
    }
    if nelx < 0 || nely < 0 {
      return Failure(NegativeDimension);
    }
    var x, e, edofMat, iK, jK, sK' := Mesh(edges, nely, nelx, sK);
    if |e| == 0 {
      return Failure(EmptyVoidList);
    }
    assert 0 < |e| <= nelx * nely;
    ProductPositive(nelx, nely);
    var f, fixeddofs, alldofs, freedofs := Constrain(nely, nelx, e, edofMat);
    r := Success(Setup(x, e, edofMat, iK, jK, sK', f, fixeddofs, alldofs, freedofs, nelx * nely - |e|));
  }
}
