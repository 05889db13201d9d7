/** The element stiffness template `KE` of `_FEM`: two integer 8x8 matrices `A`
    and `B`, each assembled from 4x4 blocks as [[X11, X12], [X12^T, X11]], and
    `KE = (1 / (0.91 * 24)) * (A + nu * B)`. */
module ElementTemplate {
  import opened Matrices

  /** A square `n` by `n` matrix equal to its own transpose. */
  ghost predicate IsSymmetric<T>(m: seq<seq<T>>, n: nat) {
    IsRect(m, n, n) && forall i, j :: 0 <= i < n && 0 <= j < n ==> m[i][j] == m[j][i]
  }

  const A11: seq<seq<int>> := [[12, 3, -6, -3], [3, 12, 3, 0], [-6, 3, 12, -3], [-3, 0, -3, 12]]
  const A12: seq<seq<int>> := [[-6, -3, 0, 3], [-3, -6, -3, -6], [0, -3, -6, 3], [3, -6, 3, -6]]
  const B11: seq<seq<int>> := [[-4, 3, -2, 9], [3, -4, -9, 4], [-2, -9, -4, -3], [9, 4, -3, -4]]
  const B12: seq<seq<int>> := [[2, -3, 4, -9], [-3, 2, 9, -2], [4, 9, 2, 3], [-9, -2, 3, 2]]

  /** Poisson's ratio used by `_FEM`. */
  const Nu: real := 0.3

  /** The scale factor 1 / (0.91 * 24) in front of `A + nu * B`. */
  const Scale: real := 1.0 / (0.91 * 24.0)

  /** The 8x8 matrix [[X11, X12], [X12^T, X11]]: rows 0..3 are X11 next to X12,
      rows 4..7 are X12^T next to X11. */
  function Assemble<T>(x11: seq<seq<T>>, x12: seq<seq<T>>): (r: seq<seq<T>>)
    requires IsRect(x11, 4, 4) && IsRect(x12, 4, 4)
    ensures IsRect(r, 8, 8)
  {
    var x12t := Transpose(x12, 4, 4);
    TransposeShape(x12, 4, 4);
    seq(8, i requires 0 <= i < 8 => if i < 4 then x11[i] + x12[i] else x12t[i - 4] + x11[i - 4])
  }

  /** Entry (i, j) of [[X11, X12], [X12^T, X11]], read off block by block. */
  function BlockEntry<T>(x11: seq<seq<T>>, x12: seq<seq<T>>, i: nat, j: nat): T
    requires IsRect(x11, 4, 4) && IsRect(x12, 4, 4)
    requires i < 8 && j < 8
  {
    if i < 4 && j < 4 then x11[i][j]
    else if i < 4 then x12[i][j - 4]
    else if j < 4 then x12[j][i - 4]
    else x11[i - 4][j - 4]
  }

  /** Concatenating the block rows puts every entry where the block layout says:
      X11 on the diagonal, X12 top right and its transpose bottom left. */
  lemma AssembleBlocks<T>(x11: seq<seq<T>>, x12: seq<seq<T>>)
    requires IsRect(x11, 4, 4) && IsRect(x12, 4, 4)
    ensures forall i, j :: 0 <= i < 8 && 0 <= j < 8 ==>
      Assemble(x11, x12)[i][j] == BlockEntry(x11, x12, i, j)
  {
    TransposeShape(x12, 4, 4);
  }

  /** A symmetric diagonal block makes the assembled matrix symmetric, whatever
      the off-diagonal block. */
  lemma AssembleSymmetric<T>(x11: seq<seq<T>>, x12: seq<seq<T>>)
    requires IsSymmetric(x11, 4) && IsRect(x12, 4, 4)
    ensures IsSymmetric(Assemble(x11, x12), 8)
  {
    AssembleBlocks(x11, x12);
  }

  /** The integer matrices `A` and `B` of `_FEM`. */
  function MatrixA(): (r: seq<seq<int>>)
    ensures IsRect(r, 8, 8)
  {
    Assemble(A11, A12)
  }

  function MatrixB(): (r: seq<seq<int>>)
    ensures IsRect(r, 8, 8)
  {
    Assemble(B11, B12)
  }

  /** Entry-wise `Scale * (a + nu * b)` of two integer matrices of the same shape. */
  function Combine(a: seq<seq<int>>, b: seq<seq<int>>, rows: nat, cols: nat, nu: real): (r: seq<seq<real>>)
    requires IsRect(a, rows, cols) && IsRect(b, rows, cols)
    ensures IsRect(r, rows, cols)
  {
    seq(rows, i requires 0 <= i < rows =>
      seq(cols, j requires 0 <= j < cols => Scale * (a[i][j] as real + nu * b[i][j] as real)))
  }

  /** Combining two symmetric matrices gives a symmetric matrix. */
  lemma CombineSymmetric(a: seq<seq<int>>, b: seq<seq<int>>, n: nat, nu: real)
    requires IsSymmetric(a, n) && IsSymmetric(b, n)
    ensures IsSymmetric(Combine(a, b, n, n, nu), n)
  {
    var k := Combine(a, b, n, n, nu);
    forall i, j | 0 <= i < n && 0 <= j < n
      ensures k[i][j] == k[j][i]
    {
      assert a[i][j] == a[j][i] && b[i][j] == b[j][i];
    }
  }

  /** The element stiffness template for Poisson's ratio `nu`. */
  function Template(nu: real): (r: seq<seq<real>>)
    ensures IsRect(r, 8, 8)
  {
    Combine(MatrixA(), MatrixB(), 8, 8, nu)
  }

  /** Both diagonal blocks of the source are symmetric. */
  lemma DiagonalBlocksSymmetric()
    ensures IsSymmetric(A11, 4) && IsSymmetric(B11, 4)
  {
  }

  /** `A` and `B` are symmetric. */
  lemma MatricesSymmetric()
    ensures IsSymmetric(MatrixA(), 8) && IsSymmetric(MatrixB(), 8)
  {
    DiagonalBlocksSymmetric();
    AssembleSymmetric(A11, A12);
    AssembleSymmetric(B11, B12);
  }

  /** Combining commutes with assembly: `KE` has the same block shape as `A` and
      `B`, with blocks `Scale * (A11 + nu * B11)` and `Scale * (A12 + nu * B12)`. */
  lemma TemplateIsAssembled(nu: real)
    ensures Template(nu) == Assemble(Combine(A11, B11, 4, 4, nu), Combine(A12, B12, 4, 4, nu))
  {
    CombineAssemble(A11, A12, B11, B12, nu);
  }

  /** Entry-wise combination of two assembled matrices is the assembly of the
      combined blocks. */
  lemma CombineAssemble(a11: seq<seq<int>>, a12: seq<seq<int>>, b11: seq<seq<int>>, b12: seq<seq<int>>, nu: real)
    requires IsRect(a11, 4, 4) && IsRect(a12, 4, 4) && IsRect(b11, 4, 4) && IsRect(b12, 4, 4)
    ensures Combine(Assemble(a11, a12), Assemble(b11, b12), 8, 8, nu)
      == Assemble(Combine(a11, b11, 4, 4, nu), Combine(a12, b12, 4, 4, nu))
  {
    var k11 := Combine(a11, b11, 4, 4, nu);
    var k12 := Combine(a12, b12, 4, 4, nu);
    var r := Assemble(k11, k12);
    var t := Combine(Assemble(a11, a12), Assemble(b11, b12), 8, 8, nu);
    forall i | 0 <= i < 8
      ensures t[i] == r[i]
    {
      forall j | 0 <= j < 8
        ensures t[i][j] == r[i][j]
      {
        CombineAssembleAt(a11, a12, b11, b12, nu, i, j);
      }
    }
  }

  /** Entry (i, j) of the two sides of `CombineAssemble`. */
  lemma CombineAssembleAt(a11: seq<seq<int>>, a12: seq<seq<int>>, b11: seq<seq<int>>, b12: seq<seq<int>>, nu: real, i: nat, j: nat)
    requires IsRect(a11, 4, 4) && IsRect(a12, 4, 4) && IsRect(b11, 4, 4) && IsRect(b12, 4, 4)
    requires i < 8 && j < 8
    ensures Combine(Assemble(a11, a12), Assemble(b11, b12), 8, 8, nu)[i][j]
      == Assemble(Combine(a11, b11, 4, 4, nu), Combine(a12, b12, 4, 4, nu))[i][j]
  {
    var k11 := Combine(a11, b11, 4, 4, nu);
    var k12 := Combine(a12, b12, 4, 4, nu);
    AssembleAt(k11, k12, i, j);
    AssembleAt(a11, a12, i, j);
    AssembleAt(b11, b12, i, j);
    assert BlockEntry(k11, k12, i, j)
      == Scale * (BlockEntry(a11, a12, i, j) as real + nu * BlockEntry(b11, b12, i, j) as real);
  }

  /** One entry of [[X11, X12], [X12^T, X11]], read off block by block. */
  lemma AssembleAt<T>(x11: seq<seq<T>>, x12: seq<seq<T>>, i: nat, j: nat)
    requires IsRect(x11, 4, 4) && IsRect(x12, 4, 4)
    requires i < 8 && j < 8
    ensures Assemble(x11, x12)[i][j] == BlockEntry(x11, x12, i, j)
  {
    AssembleBlocks(x11, x12);
  }

  /** `KE` is symmetric for every Poisson's ratio. */
  lemma TemplateSymmetric(nu: real)
    ensures IsSymmetric(Template(nu), 8)
  {
    var k11 := Combine(A11, B11, 4, 4, nu);
    DiagonalBlocksSymmetric();
    CombineSymmetric(A11, B11, 4, nu);
    TemplateIsAssembled(nu);
    AssembleSymmetric(k11, Combine(A12, B12, 4, 4, nu));
  }

  /** The template `KE` used by `_FEM`, with Poisson's ratio 0.3. */
  function KE(): (r: seq<seq<real>>)
    ensures IsSymmetric(r, 8)
  {
    TemplateSymmetric(Nu);
    Template(Nu)
  }
}
