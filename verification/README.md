# Combinatorial core of the `_FEM` bridge analysis

`_FEM(Edges, nely, nelx, image)` analyses a rectangular bridge deck of
`nely` by `nelx` square plane-stress elements with a polygonal hole cut out of
it. Before any floating-point linear algebra, it does the following:

- classifies each cell of the grid as solid or void with a ray-casting
  point-in-polygon test (`_membershiptest`, built on the orientation test
  `_ccw`);
- builds the 8x8 element stiffness template `KE` from integer blocks;
- numbers nodes and DOFs column-major and builds the element-to-DOF table
  `edofMat` and the sparse-assembly index vectors `iK`/`jK`;
- deletes the void elements' rows and 64-entry triplet blocks;
- builds the load vector `F` and the fixed, referenced (`alldofs`) and free DOF
  lists.

This project models that combinatorial half and proves what it computes. It
uses exact integers, exact reals and immutable sequences.

Modules, in the order of the program:

- `Geometry` — `_ccw`, segment crossing, crossing count, `_membershiptest`.
- `Classification` — the grid `x`, the void list `e` and the solid area.
- `ElementTemplate` — `A`, `B` and `KE`.
- `DofMap` — `nodenrs`, `edofVec`, `edofMat`, `iK`/`jK`, and the deletion loop.
- `Boundary` — `F`, `fixedcon`, `fixedcon2`, `fixeddofs`, `alldofs` and `freedofs`.
- `Fem` — the whole set-up. It returns an error result where the program raises.

Supporting modules:

- `Sequences` — numpy's `sort`, `unique`, `union1d` and `setdiff1d`, plus
  deletion by position.
- `Matrices` — row-major `reshape`, `transpose`, and `kron` with a block of ones.
- `Arith` — mixed-radix index arithmetic.

Each operation is tied to an independent characterisation:

- The crossing count has invariance lemmas: inactive edges, rotation of the
  edge table, and traversal of the boundary in the opposite direction, in general position.
- The void list is characterised cell by cell.
- `edofVec` is proved equal to an independent column-major layout.
- The descending delete-after-build loop is proved equal to filter-before-build.
- The load positions are characterised as the top nodes' y DOFs.
- `fixedcon` pairs are identified as bottom-node DOFs.
- Rounding has a uniqueness lemma.
- `alldofs` and `freedofs` are characterised by membership and order.

## Model

| member | source | states |
|---|---|---|
| Geometry.CcwIsDeterminantSign | _FEM.py:14-18 | `_ccw` holds exactly when the determinant of the homogeneous matrix `[[ax,bx,cx],[ay,by,cy],[1,1,1]]` is strictly positive |
| Geometry.CcwSwap | _FEM.py:14-18 | swapping the first two points flips the orientation of a non-degenerate triple; a collinear triple is counter-clockwise in neither order |
| Geometry.CcwRotate | _FEM.py:14-18 | the orientation of a triangle does not depend on which vertex is named first |
| Geometry.MembershipTest | _FEM.py:21-45 | the loop's answer is true exactly when the segment from the test point to the fixed point (1, 30) crosses an odd number of active edges |
| Geometry.CrossCountAppend | _FEM.py:32-41 | crossings counted over two consecutive parts of the edge table add up |
| Geometry.InactiveEdgeIgnored | _FEM.py:32-41 | an edge whose flag is not 1 changes neither the crossing count nor the verdict, wherever it sits in the table |
| Geometry.NoActiveEdgesOutside | _FEM.py:32-45 | a table with no active edge gives count 0 and the verdict "outside" |
| Geometry.RotationInvariant | _FEM.py:32-45 | the verdict does not depend on which edge the table starts with |
| Geometry.CrossingReversed | _FEM.py:33-41 | for an active edge with no three of the ray's and the edge's endpoints collinear, and for any inactive edge, swapping the edge's endpoints does not change whether it is crossed |
| Geometry.WindingInvariant | _FEM.py:32-45 | when every active edge is in general position, flipping each edge in place gives the same count and verdict; inactive rows such as padding are unconstrained |
| Geometry.CrossCountRev | _FEM.py:32-41 | walking the edge table from last row to first counts the same crossings |
| Geometry.OppositeWinding | _FEM.py:32-45 | when every active edge is in general position, the same boundary traversed the opposite way (rows reversed and each edge flipped) gives the same count and verdict |
| Classification.ElementIndexRange | _FEM.py:73 | the column-major index `elx*nely+ely+1` of a cell lies in 1 .. nelx*nely |
| Classification.ElementIndexInjective | _FEM.py:73 | distinct cells get distinct element indices |
| Classification.RowVoidsMember | _FEM.py:69-73 | one pass of the inner loop appends the index of a cell exactly when that cell of its row is classified inside |
| Classification.RawVoidsMember | _FEM.py:68-73 | the appended list holds a cell's index exactly when that cell is classified inside |
| Classification.RawVoidsNoDup | _FEM.py:68-73 | the loop appends no index twice |
| Classification.RawVoidsCount | _FEM.py:65-73 | appended indices plus cells left at 1 make up all cells |
| Classification.VoidListRange | _FEM.py:75-76 | after sort and unique, `e` is strictly ascending with every entry in 1 .. nelx*nely |
| Classification.VoidListMembers | _FEM.py:68-76 | a cell's index is in `e` exactly when the cell is classified inside |
| Classification.VoidListCount | _FEM.py:214 | `area = nelx*nely - len(e)` equals the number of cells still 1 |
| Classification.ClassifyRow | _FEM.py:69-73 | the inner loop sets row `ely` of `x` to 0 at the inside cells and 1 elsewhere, appending the inside cells' indices in column order |
| Classification.Classify | _FEM.py:65-76 | `x` is the nely by nelx 0/1 grid with 0 exactly at inside cells, `e` is strictly ascending in 1 .. nelx*nely, a cell's index is in `e` iff its cell is 0, and `nelx*nely - len(e)` counts the ones |
| Classification.ClassificationProperties | _FEM.py:65-76 | the same facts about the grid and void list as functions of the edges |
| Classification.NoHoleAllSolid | _FEM.py:65-76 | without active edges every cell stays solid and `e` is empty |
| ElementTemplate.DiagonalBlocksSymmetric | _FEM.py:78-81 | the diagonal blocks `A11` and `B11` are symmetric |
| ElementTemplate.AssembleBlocks | _FEM.py:82-91 | the concatenations put `X11` on both diagonal blocks, `X12` top right and its transpose bottom left |
| ElementTemplate.AssembleSymmetric | _FEM.py:82-91 | a symmetric diagonal block makes `[[X11, X12], [X12^T, X11]]` symmetric, whatever `X12` |
| ElementTemplate.MatricesSymmetric | _FEM.py:78-91 | `A` and `B` are symmetric 8x8 matrices |
| ElementTemplate.CombineSymmetric | _FEM.py:92 | `c * (A + nu * B)` of two symmetric matrices is symmetric |
| ElementTemplate.CombineAssemble | _FEM.py:85-92 | combining entry-wise after assembling equals assembling the entry-wise combined blocks |
| ElementTemplate.TemplateIsAssembled | _FEM.py:78-92 | `KE` has the same block shape, with blocks `c*(A11 + nu*B11)` and `c*(A12 + nu*B12)` |
| ElementTemplate.TemplateSymmetric | _FEM.py:92 | `KE` is symmetric for every Poisson's ratio |
| ElementTemplate.KE | _FEM.py:78-92 | the template used, with nu = 0.3, is a symmetric 8x8 matrix |
| DofMap.NodeNumbersAt | _FEM.py:93-97 | reshaping 1 .. (nelx+1)(nely+1) into nelx+1 rows and transposing numbers node (row, col) as `col*(nely+1) + row + 1`, column by column |
| DofMap.NodeIdRange | _FEM.py:93-97 | every node number lies in 1 .. (nelx+1)(nely+1) |
| DofMap.BaseDofsAt | _FEM.py:99-104 | entry (ely, elx) of `2*b+1` is the x DOF of the element's lower-left node, one below its upper-left node |
| DofMap.BaseDofsDistinct | _FEM.py:99-104 | the entries of `2*b+1` are pairwise distinct |
| DofMap.EdofVecColumnMajor | _FEM.py:104-105 | sorting the row-major flattening of `2*b+1` yields the base DOFs in column-major element order |
| DofMap.EdofVecAt | _FEM.py:104-105 | entry `elx*nely+ely` of `edofVec` is the base DOF of the element in row `ely`, column `elx` |
| DofMap.EdofVecLength | _FEM.py:104-105 | `edofVec` has one entry per element |
| DofMap.EdofMatRow | _FEM.py:107-109 | a row with base DOF `2n-1` lists the DOFs of nodes n, n+nely+1, n+nely and n-1 |
| DofMap.ElementRow | _FEM.py:107-109 | row `elx*nely+ely` of `edofMat` holds the x and y DOFs of the element's four corners, counter-clockwise from the lower left |
| DofMap.ElementRowDofs | _FEM.py:107-109 | the eight DOFs of an element are pairwise distinct and lie in 1 .. 2(nelx+1)(nely+1) |
| DofMap.ElementDofTableRect | _FEM.py:107-109 | `edofMat` has nelx*nely rows of 8 entries |
| DofMap.ElementDofTableRange | _FEM.py:107-109 | every entry of `edofMat` is a DOF of the grid |
| DofMap.TripletLength | _FEM.py:111-112 | `iK` and `jK` have 64 entries per row of `edofMat` |
| DofMap.TripletLayout | _FEM.py:111-112 | position `64k + 8a + b` holds the pair (`edofMat[k][b]`, `edofMat[k][a]`), so element k owns exactly positions 64k .. 64k+63 |
| DofMap.RowsOfMember | _FEM.py:126 | row `k` is deleted exactly when `k + 1` is in `e` |
| DofMap.BlocksMember | _FEM.py:122-125 | triplet position `64k + t` is deleted exactly when row `k` is |
| DofMap.RemoveBlock | _FEM.py:122-125 | the inner descending loop deletes exactly the 64 triplet positions of element `v`, given that only positions above them have gone |
| DofMap.RemoveVoid | _FEM.py:121-126 | one outer step deletes element `v`'s triplet block and its `edofMat` row, extending the deleted set by `v` |
| DofMap.RemoveVoids | _FEM.py:121-126 | walking `e` in descending order deletes exactly the rows of the void elements and their triplet blocks; the survivors keep their order and nothing else changes |
| DofMap.DropBlocks | _FEM.py:111-126 | deleting the triplet blocks of some rows equals building the triplets of the table with those rows deleted |
| DofMap.DeletionKeepsLayout | _FEM.py:111-126 | delete-after-build equals filter-before-build, for both `iK` and `jK` |
| Boundary.LoadVector | _FEM.py:128-130 | `F` has 2(nely+1)(nelx+1) entries, `-fmag` at 0-based positions congruent to 1 modulo 2(nely+1) and 0 elsewhere |
| Boundary.LoadedIsTopY | _FEM.py:128-130 | 0-based position p is loaded exactly when DOF p + 1 is the y DOF of the top node of some node column 0 .. nelx |
| Boundary.Occurs | _FEM.py:162-168 | the row-by-row search for a DOF in `edofMat`, leaving each loop at the first hit, answers whether it is one of its entries |
| Boundary.PruneLoad | _FEM.py:132-137 | the pass leaves `F` unchanged, because the result of `np.delete` is discarded |
| Boundary.Max | _FEM.py:140 | `np.max(e)` is an entry of `e` and bounds all entries from above |
| Boundary.Min | _FEM.py:148 | `np.min(e)` is an entry of `e` and bounds all entries from below |
| Boundary.RoundHalfEven | _FEM.py:140 | `np.round(n / d)` is within half a step of `n / d`, and at a tie it is even |
| Boundary.RoundHalfEvenUnique | _FEM.py:140 | that property determines the rounded value uniquely |
| Boundary.HalfStepNeighbours | _FEM.py:140 | two distinct candidates within half a step are neighbours, and both sit exactly at a tie |
| Boundary.FixedPairsAt | _FEM.py:143-145 | pair j of `fixedcon` is the x DOF of the bottom node of node column r+j and the y DOF of the bottom node of column r+j-1 |
| Boundary.FixedCon2 | _FEM.py:147-149 | `fixedcon2` holds exactly the even numbers 0 .. 2*min(e) |
| Boundary.FixedDofs | _FEM.py:151 | `fixeddofs` is strictly ascending and holds exactly the members of `fixedcon` and `fixedcon2` |
| Boundary.MarkUnreferenced | _FEM.py:153-170 | position k of `alldofs` keeps DOF k+1 when some row of `edofMat` mentions it and becomes 0 otherwise |
| Boundary.NonZeroMember | _FEM.py:172-174 | deleting the zeros keeps exactly the non-zero entries |
| Boundary.NonZeroAscending | _FEM.py:172-174 | the kept entries of a list whose non-zero entries ascend are strictly ascending |
| Boundary.DeleteZeros | _FEM.py:172-174 | the descending deletion loop removes exactly the zeros, keeping the order of the rest |
| Boundary.ReferencedDofs | _FEM.py:153-174 | `alldofs` is strictly ascending and holds exactly the DOFs 1 .. N that some surviving element references |
| Boundary.FreeDofs | _FEM.py:176 | `freedofs` is strictly ascending and holds exactly the referenced DOFs that are not fixed |
| Sequences.Sort | _FEM.py:75 | `np.sort` returns an ascending permutation of its input |
| Sequences.SortedPermutationUnique | _FEM.py:75 | two ascending permutations of the same list are equal, so the sorted result is unique |
| Sequences.Unique | _FEM.py:76 | `np.unique` returns the strictly ascending list of the distinct entries |
| Sequences.StrictlySortedUnique | _FEM.py:76 | a strictly ascending list is determined by its set of entries |
| Sequences.Union1d | _FEM.py:151 | `np.union1d` is the strictly ascending list of the entries of either input |
| Sequences.SetDiff1d | _FEM.py:176 | `np.setdiff1d` is the strictly ascending list of the entries of the first input that are not in the second |
| Sequences.RemoveBelowDropped | _FEM.py:123-126 | deleting a position below all earlier deletions acts on the original as adding that position to the deleted set |
| Matrices.ReshapeAt | _FEM.py:96 | entry (i, j) of the row-major reshape is element `i*cols + j` of the vector |
| Matrices.FlattenReshape | _FEM.py:104 | flattening undoes a row-major reshape |
| Matrices.ReshapeFlatten | _FEM.py:104 | reshaping undoes flattening a rectangular matrix |
| Matrices.TransposeShape | _FEM.py:97 | the transpose swaps the shape and the indices |
| Matrices.KronOnesAt | _FEM.py:111-112 | `np.kron` with a p by q block of ones copies entry (i, j) to every (i*p + k, j*q + l) |
| Fem.DropVoids | _FEM.py:107-126 | after deletion, `edofMat`, `iK`, `jK` and the stiffness values are exactly those of the elements not in `e`, in order, with 64 triplets per surviving row |
| Fem.Mesh | _FEM.py:65-126 | the grid, void list and surviving mesh agree: a row survives exactly for a solid cell, and the number of rows is the solid area |
| Fem.Constrain | _FEM.py:128-176 | the load vector, fixed, referenced and free DOF lists of a mesh with a non-empty void list |
| Fem.Prepare | _FEM.py:57-176 | the set-up fails with division by zero when nelx = 0, with a negative-shape error for negative sizes, and with an empty-list error exactly when no cell is void; otherwise it returns the grid, void list, mesh, triplets, load and DOF lists, each characterised as above |

## Left out

- The stiffness values `sK` (lines 114-119) are a parameter of `Fem.Prepare`. Entry `64k+t` is entry `t` of the transposed `KE` times `E0` times the 0/1 density of element `k` in column-major order, so a void element's block is zero before it is deleted. These are floating-point products; only their length and element order matter to the model, and the deletion loop is proved on them generically.
- Sparse assembly, symmetrisation, the reduced system and its solve (lines 178-198) are floating-point linear algebra over scipy and numpy. The singular-matrix failure of `np.linalg.inv` is not modelled.
- Stress recovery and `maxsigma` (lines 200-213) are floating-point arithmetic.
- Plotting (lines 215-217) is an I/O side effect.
- `gym_wrappers.py` is reinforcement-learning glue around an external design generator, so it is not part of this model.
- Geometry.MembershipTest: uses exact real arithmetic, where the source uses IEEE doubles. This covers `np.linalg.det` in `_ccw` and the `0.05*nelx` and `0.1*nely` scalings. The verdict can differ from the floating-point one near degenerate configurations.
- ElementTemplate.KE: uses exact reals for the factor `1 / (0.91 * 24)` and nu = 0.3 (lines 59 and 92), where the source uses IEEE doubles. Symmetry does not depend on the rounding, because every entry pair `(i, j)`, `(j, i)` is computed from equal operands by the same operations.
- Boundary.LoadVector: uses the exact real `10000 / nelx` for `fmag` (line 63), where the source uses an IEEE double. Which positions carry the load, and that they all carry the same value, does not depend on the rounding.
- Boundary.RoundHalfEven: rounds the exact quotient. `np.round` of the float quotient agrees, because a tie `k + 0.5` is exactly representable and no other quotient rounds across one.
- Integers are unbounded; the source's 64-bit numpy integers do not overflow for any grid that fits in memory.
- `np.int` at lines 140, 182 and 206 no longer exists in current numpy. The model follows the numpy versions in which it is the built-in `int`.
- The modulus `E0` (line 58) only scales the floating-point stiffness values (line 114) and stresses (line 208); the zero vector `U` created at line 139 is only filled after the solve (line 198). Neither carries combinatorial content.
- A grid whose every cell is void leaves `iK` empty after the deletion loop, and `np.max(iK)` at line 182 then raises. That failure lies in the assembly step outside lines 57-176, so `Fem.Prepare` returns the (empty) mesh for it.

## Notes on the code

- The 4x4 base blocks `A11` and `B11` are symmetric (`ElementTemplate.DiagonalBlocksSymmetric`).
- An edge takes part in the crossing test when its first column equals 1 (`Geometry.Active`).
- A test point for which three of the ray's and an edge's endpoints are collinear (a point on a hole edge, for instance) can get a verdict that depends on the edge's direction; `Geometry.WindingInvariant` holds only in general position.
- Within lines 57-176 the set-up raises only where Python or numpy does: `10000 / nelx` with nelx = 0 (line 63), `np.ones` with a negative shape (line 65), and `np.max` of an empty `e` (line 140). These are the three errors of `Fem.Prepare`.
- `fixedcon2` holds the numbers `2j` for j in 0 .. min(e): the y DOFs of nodes 1 .. min(e) together with 0, which is not a DOF. `Boundary.FixedCon2` states that set exactly.
- `fixedcon` divides element indices by 10 to get a node column. That is the column of the element only when nely = 10. `Boundary.FixedPairsAt` states which DOFs are fixed for every nely.
