/** Small facts about integer multiplication that the index arithmetic of the
    model relies on (column-major numbering is a mixed-radix representation). */
module Arith {

  /** Multiplying by a positive factor is strictly monotone in steps of that factor. */
  lemma {:induction false} MulStep(a: int, b: int, n: int)
    requires 0 < n
    requires a < b
    ensures a * n + n <= b * n
    decreases b - a
  {
    if a + 1 < b {
      MulStep(a + 1, b, n);
    }
    assert (a + 1) * n == a * n + n;
  }

  /** A number written as `q * n + r` with `0 <= r < n` has a unique such
      representation: the column and row of a column-major index are unique. */
  lemma MixedRadixUnique(q1: int, r1: int, q2: int, r2: int, n: int)
    requires 0 <= r1 < n && 0 <= r2 < n
    requires q1 * n + r1 == q2 * n + r2
    ensures q1 == q2 && r1 == r2
  {
    if q1 < q2 {
      MulStep(q1, q2, n);
    } else if q2 < q1 {
      MulStep(q2, q1, n);
    }
  }

  /** An index below `cols * rows` splits into a column `q < cols` and a row
      `r < rows` with `k == q * rows + r`. */
  lemma SplitIndex(k: int, rows: int, cols: int) returns (q: int, r: int)
    requires 0 <= k < cols * rows && 0 < rows
    ensures 0 <= q < cols && 0 <= r < rows && k == q * rows + r
  {
    q := k / rows;
    r := k % rows;
    if cols < q {
      MulStep(cols, q, rows);
    }
  }

  /** Euclidean division recovers the digits of `q * m + r`. */
  lemma DivModOfMixed(q: int, r: int, m: int)
    requires 0 <= r < m
    ensures (q * m + r) / m == q && (q * m + r) % m == r
  {
    var k := q * m + r;
    MixedRadixUnique(q, r, k / m, k % m, m);
  }

  /** A positive product of two non-negative factors has a positive second factor. */
  lemma ProductPositive(a: int, b: int)
    requires a >= 0 && b >= 0 && a * b > 0
    ensures b > 0
  {
  }

  /** Peeling one factor off a product of naturals: n * c == c + (n - 1) * c,
      and the rest is a natural again. */
  lemma MulPred(n: nat, c: nat)
    requires n > 0
    ensures n * c == c + (n - 1) * c && (n - 1) * c >= 0
  {
  }
}
