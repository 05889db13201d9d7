/** Dense matrices as sequences of rows, and the numpy reshaping operations the
    degree-of-freedom bookkeeping is built from: row-major (C order) `reshape`,
    `transpose`, and `kron` with a block of ones. */
module Matrices {
  import opened Sequences
  import opened Arith

  /** `m` has `rows` rows of `cols` entries each. */
  predicate IsRect<T>(m: seq<seq<T>>, rows: int, cols: int) {
    |m| == rows && forall i :: 0 <= i < rows ==> |m[i]| == cols
  }

  /** `x` is one of the entries `m[i][j]`. */
  predicate HasEntry<T(==)>(m: seq<seq<T>>, x: T) {
    exists i, j :: 0 <= i < |m| && 0 <= j < |m[i]| && m[i][j] == x
  }

  /** Row-major flattening: `np.reshape(m, (rows * cols, 1))`. */
  function Flatten<T>(m: seq<seq<T>>): seq<T> {
    if m == [] then [] else m[0] + Flatten(m[1..])
  }

  lemma {:induction false} FlattenLength<T>(m: seq<seq<T>>, rows: nat, cols: nat)
    requires IsRect(m, rows, cols)
    ensures |Flatten(m)| == rows * cols
    decreases rows
  {
    if rows > 0 {
      FlattenLength(m[1..], rows - 1, cols);
    }
  }

  /** Entry (i, j) of a `rows` by `cols` matrix lands at position `i * cols + j`
      of its row-major flattening. */
  lemma {:induction false} FlattenAt<T>(m: seq<seq<T>>, rows: nat, cols: nat, i: nat, j: nat)
    requires IsRect(m, rows, cols)
    requires i < rows && j < cols
    ensures i * cols + j < |Flatten(m)|
    ensures Flatten(m)[i * cols + j] == m[i][j]
    decreases i
  {
    if i > 0 {
      FlattenAt(m[1..], rows - 1, cols, i - 1, j);
      assert i * cols + j == cols + ((i - 1) * cols + j);
    }
  }

  lemma {:induction false} FlattenAppend<T>(a: seq<seq<T>>, b: seq<seq<T>>)
    ensures Flatten(a + b) == Flatten(a) + Flatten(b)
    decreases |a|
  {
    if a == [] {
      assert a + b == b;
    } else {
      assert (a + b)[0] == a[0] && (a + b)[1..] == a[1..] + b;
      FlattenAppend(a[1..], b);
    }
  }

  /** A value occurs in the flattened matrix exactly when it is an entry of it. */
  lemma {:induction false} FlattenMembership<T>(m: seq<seq<T>>)
    ensures forall x :: x in Flatten(m) <==> HasEntry(m, x)
    decreases |m|
  {
    if m != [] {
      FlattenMembership(m[1..]);
      forall x
        ensures x in Flatten(m) <==> HasEntry(m, x)
      {
        if x in Flatten(m[1..]) {
          var i, j :| 0 <= i < |m[1..]| && 0 <= j < |m[1..][i]| && m[1..][i][j] == x;
          assert m[i + 1][j] == x;
        }
        if HasEntry(m, x) {
          var i, j :| 0 <= i < |m| && 0 <= j < |m[i]| && m[i][j] == x;
          if i == 0 {
            assert x in m[0];
          } else {
            assert m[1..][i - 1][j] == x;
          }
        }
      }
    }
  }

  /** Entries at distinct coordinates are distinct. */
  predicate EntriesDistinct<T(==)>(m: seq<seq<T>>) {
    forall i1, j1, i2, j2 ::
      (0 <= i1 < |m| && 0 <= j1 < |m[i1]| && 0 <= i2 < |m| && 0 <= j2 < |m[i2]| &&
       m[i1][j1] == m[i2][j2]) ==> i1 == i2 && j1 == j2
  }

  lemma {:induction false} FlattenNoDup<T>(m: seq<seq<T>>)
    requires EntriesDistinct(m)
    ensures NoDup(Flatten(m))
    decreases |m|
  {
    if m != [] {
      assert EntriesDistinct(m[1..]) by {
        forall i1, j1, i2, j2 |
          0 <= i1 < |m[1..]| && 0 <= j1 < |m[1..][i1]| && 0 <= i2 < |m[1..]| && 0 <= j2 < |m[1..][i2]| &&
          m[1..][i1][j1] == m[1..][i2][j2]
          ensures i1 == i2 && j1 == j2
        {
          assert m[i1 + 1][j1] == m[i2 + 1][j2];
        }
      }
      FlattenNoDup(m[1..]);
      FlattenMembership(m[1..]);
      assert NoDup(m[0]) by {
        forall a, b | 0 <= a < b < |m[0]| ensures m[0][a] != m[0][b] {
        }
      }
      forall x | x in m[0] ensures x !in Flatten(m[1..]) {
        var j0 :| 0 <= j0 < |m[0]| && m[0][j0] == x;
        forall i, j | 0 <= i < |m[1..]| && 0 <= j < |m[1..][i]|
          ensures m[1..][i][j] != x
        {
          assert m[1..][i][j] == m[i + 1][j];
        }
      }
      NoDupAppend(m[0], Flatten(m[1..]));
    }
  }

  /** Every row ascends strictly, and every entry of a row lies below every
      entry of each later row. */
  predicate RowsAscending(m: seq<seq<int>>) {
    (forall i, j1, j2 :: 0 <= i < |m| && 0 <= j1 < j2 < |m[i]| ==> m[i][j1] < m[i][j2]) &&
    (forall i1, i2, j1, j2 :: 0 <= i1 < i2 < |m| && 0 <= j1 < |m[i1]| && 0 <= j2 < |m[i2]| ==>
      m[i1][j1] < m[i2][j2])
  }

  /** Row-major flattening of a matrix whose rows ascend one after the other is
      strictly ascending. */
  lemma {:induction false} FlattenStrictlySorted(m: seq<seq<int>>)
    requires RowsAscending(m)
    ensures StrictlySorted(Flatten(m))
    decreases |m|
  {
    if m != [] {
      var rest := m[1..];
      assert RowsAscending(rest) by {
        forall i, j1, j2 | 0 <= i < |rest| && 0 <= j1 < j2 < |rest[i]|
          ensures rest[i][j1] < rest[i][j2]
        {
          assert rest[i] == m[i + 1];
        }
        forall i1, i2, j1, j2 | 0 <= i1 < i2 < |rest| && 0 <= j1 < |rest[i1]| && 0 <= j2 < |rest[i2]|
          ensures rest[i1][j1] < rest[i2][j2]
        {
          assert rest[i1] == m[i1 + 1] && rest[i2] == m[i2 + 1];
        }
      }
      FlattenStrictlySorted(rest);
      FlattenMembership(rest);
      forall x, y | x in m[0] && y in Flatten(rest)
        ensures x < y
      {
        var j1 :| 0 <= j1 < |m[0]| && m[0][j1] == x;
        var i, j2 :| 0 <= i < |rest| && 0 <= j2 < |rest[i]| && rest[i][j2] == y;
        assert m[i + 1][j2] == y;
      }
      StrictlySortedAppend(m[0], Flatten(rest));
    }
  }

  /** Row-major reshaping of a vector into `rows` rows of `cols` entries:
      `np.reshape(a, (rows, cols))`. */
  function Reshape<T>(a: seq<T>, rows: nat, cols: nat): (m: seq<seq<T>>)
    requires |a| == rows * cols
    ensures IsRect(m, rows, cols)
    decreases rows
  {
    if rows == 0 then []
    else
      assert rows * cols == cols + (rows - 1) * cols;
      [a[..cols]] + Reshape(a[cols..], rows - 1, cols)
  }

  /** Entry (i, j) of the reshaped matrix is element `i * cols + j` of the vector. */
  lemma {:induction false} ReshapeAt<T>(a: seq<T>, rows: nat, cols: nat, i: nat, j: nat)
    requires |a| == rows * cols
    requires i < rows && j < cols
    ensures i * cols + j < |a|
    ensures Reshape(a, rows, cols)[i][j] == a[i * cols + j]
    decreases i
  {
    var m := Reshape(a, rows, cols);
    MulPred(rows, cols);
    if i == 0 {
      assert m[0] == a[..cols];
    } else {
      var rest := a[cols..];
      ReshapeAt(rest, rows - 1, cols, i - 1, j);
      MulPred(i, cols);
      assert m[i] == Reshape(rest, rows - 1, cols)[i - 1];
      assert rest[(i - 1) * cols + j] == a[i * cols + j];
    }
  }

  /** Flattening undoes reshaping. */
  lemma {:induction false} FlattenReshape<T>(a: seq<T>, rows: nat, cols: nat)
    requires |a| == rows * cols
    ensures Flatten(Reshape(a, rows, cols)) == a
    decreases rows
  {
    if rows > 0 {
      assert rows * cols == cols + (rows - 1) * cols;
      FlattenReshape(a[cols..], rows - 1, cols);
      assert a == a[..cols] + a[cols..];
    }
  }

  /** Reshaping undoes flattening. */
  lemma {:induction false} ReshapeFlatten<T>(m: seq<seq<T>>, rows: nat, cols: nat)
    requires IsRect(m, rows, cols)
    ensures |Flatten(m)| == rows * cols
    ensures Reshape(Flatten(m), rows, cols) == m
    decreases rows
  {
    FlattenLength(m, rows, cols);
    if rows > 0 {
      ReshapeFlatten(m[1..], rows - 1, cols);
      assert rows * cols == cols + (rows - 1) * cols;
      assert Flatten(m) == m[0] + Flatten(m[1..]);
      assert Flatten(m)[..cols] == m[0] && Flatten(m)[cols..] == Flatten(m[1..]);
    }
  }

  /** `np.transpose` of a `rows` by `cols` matrix. */
  function Transpose<T>(m: seq<seq<T>>, rows: nat, cols: nat): seq<seq<T>>
    requires IsRect(m, rows, cols)
  {
    seq(cols, j requires 0 <= j < cols => seq(rows, i requires 0 <= i < rows => m[i][j]))
  }

  lemma TransposeShape<T>(m: seq<seq<T>>, rows: nat, cols: nat)
    requires IsRect(m, rows, cols)
    ensures IsRect(Transpose(m, rows, cols), cols, rows)
    ensures forall i, j :: 0 <= i < rows && 0 <= j < cols ==> Transpose(m, rows, cols)[j][i] == m[i][j]
  {
  }

  /** `n` copies of `x`. */
  function Repeat<T>(x: T, n: nat): seq<T> {
    seq(n, _ => x)
  }

  /** Every entry of `row` repeated `q` times in place: one row of
      `np.kron(row, np.ones((1, q)))`. */
  function Stretch<T>(row: seq<T>, q: nat): (r: seq<T>)
    ensures |r| == |row| * q
  {
    if row == [] then [] else Repeat(row[0], q) + Stretch(row[1..], q)
  }

  lemma {:induction false} StretchAt<T>(row: seq<T>, q: nat, j: nat, l: nat)
    requires j < |row| && l < q
    ensures j * q + l < |Stretch(row, q)|
    ensures Stretch(row, q)[j * q + l] == row[j]
    decreases j
  {
    if j > 0 {
      StretchAt(row[1..], q, j - 1, l);
      assert j * q + l == q + ((j - 1) * q + l);
    }
  }

  /** `np.kron(m, np.ones((p, q)))`: every entry of `m` blown up into a
      `p` by `q` block of copies. */
  function KronOnes<T>(m: seq<seq<T>>, cols: nat, p: nat, q: nat): (r: seq<seq<T>>)
    requires IsRect(m, |m|, cols)
    ensures IsRect(r, |m| * p, cols * q)
  {
    if m == [] then []
    else
      assert |m| * p == p + (|m| - 1) * p;
      Repeat(Stretch(m[0], q), p) + KronOnes(m[1..], cols, p, q)
  }

  /** Entry (i * p + k, j * q + l) of the Kronecker product with ones is `m[i][j]`. */
  lemma {:induction false} KronOnesAt<T>(m: seq<seq<T>>, cols: nat, p: nat, q: nat, i: nat, k: nat, j: nat, l: nat)
    requires IsRect(m, |m|, cols)
    requires i < |m| && k < p && j < cols && l < q
    ensures i * p + k < |KronOnes(m, cols, p, q)|
    ensures j * q + l < cols * q
    ensures KronOnes(m, cols, p, q)[i * p + k][j * q + l] == m[i][j]
    decreases i
  {
    StretchAt(m[i], q, j, l);
    if i > 0 {
      KronOnesAt(m[1..], cols, p, q, i - 1, k, j, l);
      assert i * p + k == p + ((i - 1) * p + k);
    }
  }

  lemma {:induction false} KronOnesAppend<T>(a: seq<seq<T>>, b: seq<seq<T>>, cols: nat, p: nat, q: nat)
    requires IsRect(a, |a|, cols) && IsRect(b, |b|, cols)
    ensures IsRect(a + b, |a + b|, cols)
    ensures KronOnes(a + b, cols, p, q) == KronOnes(a, cols, p, q) + KronOnes(b, cols, p, q)
    decreases |a|
  {
    if a == [] {
      assert a + b == b;
    } else {
      assert (a + b)[0] == a[0] && (a + b)[1..] == a[1..] + b;
      KronOnesAppend(a[1..], b, cols, p, q);
    }
  }
}
