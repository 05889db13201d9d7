/** Boundary conditions of `_FEM`: the load vector `F`, the fixed DOFs
    (`fixedcon`, `fixedcon2`, `fixeddofs`), the DOFs still referenced by the
    solid elements (`alldofs`) and the free DOFs (`freedofs`). DOF ids run from
    1 to 2 * NodeCount; `F` is indexed from 0, so DOF `p + 1` sits at `F[p]`. */
module Boundary {
  import opened Arith
  import opened Sequences
  import opened Matrices
  import opened DofMap

  /** Number of DOFs: two per node. */
  function DofCount(nely: nat, nelx: nat): nat {
    2 * NodeCount(nely, nelx)
  }

  /** The DOFs come in `nelx + 1` node columns of 2(nely + 1) each. */
  lemma DofColumns(nely: nat, nelx: nat)
    ensures DofCount(nely, nelx) == (nelx + 1) * (2 * (nely + 1))
  {
  }

  /** The load magnitude `fmag = 10000 / nelx`. */
  function Fmag(nelx: nat): real
    requires nelx > 0
  {
    10000.0 / nelx as real
  }

  /** Position `p` of `F` carries the load: it is 1 modulo 2(nely + 1). */
  predicate Loaded(nely: nat, p: int) {
    p % (2 * (nely + 1)) == 1
  }

  /** Building `F`: zeros, then `-fmag` at position 2 + 2(nely + 1)i - 1 for
      every column of nodes i = 0 .. nelx. */
  method LoadVector(nely: nat, nelx: nat) returns (f: seq<real>)
    requires nelx > 0
    ensures |f| == DofCount(nely, nelx)
    ensures forall p :: 0 <= p < |f| ==> f[p] == if Loaded(nely, p) then -Fmag(nelx) else 0.0
  {
    var m := 2 * (nely + 1);
    DofColumns(nely, nelx);
    f := seq(DofCount(nely, nelx), _ => 0.0);
    var i := 0;
    while i < nelx + 1
      invariant 0 <= i <= nelx + 1
      invariant |f| == (nelx + 1) * m
      invariant forall p :: 0 <= p < |f| ==> f[p] == if p % m == 1 && p / m < i then -Fmag(nelx) else 0.0
    {
      var idx := 2 + m * i - 1;
      LoadPositionInRange(m, i, nelx);
      forall p | 0 <= p < |f|
        ensures (p % m == 1 && p / m < i + 1) <==> (p % m == 1 && p / m < i) || p == idx
      {
        LoadStep(m, i, p);
      }
      f := f[idx := -Fmag(nelx)];
      i := i + 1;
    }
    forall p | 0 <= p < |f|
      ensures p / m < nelx + 1
    {
      var q, r := SplitIndex(p, m, nelx + 1);
      DivModOfMixed(q, r, m);
    }
  }

  /** The position set for node column `i` lies inside `F`. */
  lemma LoadPositionInRange(m: int, i: nat, nelx: nat)
    requires m >= 2 && i <= nelx
    ensures 0 <= m * i + 1 < (nelx + 1) * m
  {
    MulStep(i, nelx + 1, m);
  }

  /** The positions loaded after node column `i` are those loaded before it and
      the one set for column `i`. */
  lemma LoadStep(m: int, i: int, p: int)
    requires m >= 2
    ensures (p % m == 1 && p / m < i + 1) <==> (p % m == 1 && p / m < i) || p == m * i + 1
  {
    DivModOfMixed(i, 1, m);
    DivModOfMixed(p / m, p % m, m);
  }

  /** The y DOF of the top node of column `col`, less one, is `col` blocks of
      2(nely + 1) and one more. */
  lemma TopY(nely: nat, col: int)
    ensures 2 * NodeId(nely, 0, col) == col * (2 * (nely + 1)) + 2
  {
  }

  /** A loaded position is the y DOF of a top node, less one. */
  lemma LoadedTop(nely: nat, nelx: nat, p: nat) returns (col: int)
    requires p < DofCount(nely, nelx) && Loaded(nely, p)
    ensures 0 <= col <= nelx && p + 1 == 2 * NodeId(nely, 0, col)
  {
    var m := 2 * (nely + 1);
    DofColumns(nely, nelx);
    var r;
    col, r := SplitIndex(p, m, nelx + 1);
    DivModOfMixed(col, r, m);
    TopY(nely, col);
  }

  /** The y DOF of a top node, less one, is a loaded position. */
  lemma TopLoaded(nely: nat, col: int, p: int)
    requires p + 1 == 2 * NodeId(nely, 0, col)
    ensures Loaded(nely, p)
  {
    TopY(nely, col);
    DivModOfMixed(col, 1, 2 * (nely + 1));
  }

  /** The loaded positions are exactly the y DOFs of the top row of nodes. */
  lemma LoadedIsTopY(nely: nat, nelx: nat, p: nat)
    requires p < DofCount(nely, nelx)
    ensures Loaded(nely, p) <==> exists col :: 0 <= col <= nelx && p + 1 == 2 * NodeId(nely, 0, col)
  {
    if Loaded(nely, p) {
      var col := LoadedTop(nely, nelx, p);
    }
    if exists col :: 0 <= col <= nelx && p + 1 == 2 * NodeId(nely, 0, col) {
      var col :| 0 <= col <= nelx && p + 1 == 2 * NodeId(nely, 0, col);
      TopLoaded(nely, col, p);
    }
  }

  /** Whether `x` is an entry of `edofMat`: the search over rows and columns of
      `_FEM`, leaving each loop at the first hit. */
  method Occurs(edofMat: seq<seq<int>>, x: int) returns (found: bool)
    ensures found <==> HasEntry(edofMat, x)
  {
    found := false;
    var j := 0;
    while j < |edofMat|
      invariant 0 <= j <= |edofMat|
      invariant !found ==> forall a, b :: 0 <= a < j && 0 <= b < |edofMat[a]| ==> edofMat[a][b] != x
      invariant found ==> HasEntry(edofMat, x)
    {
      var q := 0;
      while q < |edofMat[j]|
        invariant 0 <= q <= |edofMat[j]|
        invariant !found ==> forall b :: 0 <= b < q ==> edofMat[j][b] != x
        invariant found ==> HasEntry(edofMat, x)
      {
        if edofMat[j][q] == x {
          found := true;
          break;
        }
        q := q + 1;
      }
      if found {
        break;
      }
      j := j + 1;
    }
  }

  /** The pass over `F` that looks for DOFs no element references: the result
      of its `np.delete` is never assigned, so `F` leaves it unchanged. */
  method PruneLoad(f: seq<real>, edofMat: seq<seq<int>>, ndof: nat) returns (f': seq<real>)
    ensures f' == f
  {
    f' := f;
    var i := ndof + 1;
    while i > 0
      invariant 0 <= i <= ndof + 1
      invariant f' == f
    {
      i := i - 1;
      var c := Occurs(edofMat, i);
      if !c {
        var discarded := if 1 <= i <= |f'| then RemoveAt(f', i - 1) else f';
      }
    }
  }

  function Abs(x: int): nat {
    if x < 0 then -x else x
  }

  /** `np.round(n / d)` for d > 0: the nearest integer, ties to the even one. */
  function RoundHalfEven(n: int, d: int): (r: int)
    requires d > 0
    ensures 2 * Abs(n - r * d) <= d
    ensures 2 * Abs(n - r * d) == d ==> r % 2 == 0
  {
    var q := n / d;
    var rem := n % d;
    assert (q + 1) * d == q * d + d;
    if 2 * rem < d then q
    else if 2 * rem > d then q + 1
    else if q % 2 == 0 then q else q + 1
  }

  /** Only one integer is within half a step of n / d with ties broken to even:
      the rounding is the nearest-integer function. */
  lemma RoundHalfEvenUnique(n: int, d: int, z: int)
    requires d > 0
    requires 2 * Abs(n - z * d) <= d
    requires 2 * Abs(n - z * d) == d ==> z % 2 == 0
    ensures z == RoundHalfEven(n, d)
  {
    var r := RoundHalfEven(n, d);
    if r < z {
      HalfStepNeighbours(n, d, r, z);
    } else if z < r {
      HalfStepNeighbours(n, d, z, r);
    }
  }

  /** Two different integers within half a step of n / d are neighbours with
      n / d exactly half-way between them. */
  lemma HalfStepNeighbours(n: int, d: int, a: int, b: int)
    requires d > 0 && a < b
    requires 2 * Abs(n - a * d) <= d && 2 * Abs(n - b * d) <= d
    ensures b == a + 1
    ensures 2 * Abs(n - a * d) == d && 2 * Abs(n - b * d) == d
  {
    MulStep(a, b, d);
    if a + 1 < b {
      MulStep(a + 1, b, d);
    }
    assert (a + 1) * d == a * d + d;
  }

  function Max(s: seq<int>): (m: int)
    requires |s| > 0
    ensures m in s && forall x :: x in s ==> x <= m
  {
    if |s| == 1 then s[0]
    else
      var t := Max(s[1..]);
      assert s == [s[0]] + s[1..];
      if s[0] >= t then s[0] else t
  }

  function Min(s: seq<int>): (m: int)
    requires |s| > 0
    ensures m in s && forall x :: x in s ==> m <= x
  {
    if |s| == 1 then s[0]
    else
      var t := Min(s[1..]);
      assert s == [s[0]] + s[1..];
      if s[0] <= t then s[0] else t
  }

  /** The pairs appended by `fixedcon` for j = 1 .. count:
      2(nely + 1)(r + j + 1) - 1, then 2(nely + 1)(r + j). */
  function FixedPairs(nely: nat, r: int, count: int): seq<int>
    decreases count
  {
    if count <= 0 then []
    else FixedPairs(nely, r, count - 1) + [2 * (nely + 1) * (r + count + 1) - 1, 2 * (nely + 1) * (r + count)]
  }

  lemma {:induction false} FixedPairsLength(nely: nat, r: int, count: int)
    requires count >= 0
    ensures |FixedPairs(nely, r, count)| == 2 * count
    decreases count
  {
    if count > 0 {
      FixedPairsLength(nely, r, count - 1);
    }
  }

  /** The two numbers of pair `c - r` are the bottom x DOF of node column `c`
      and the bottom y DOF of node column `c - 1`. */
  lemma BottomDofs(nely: nat, c: int)
    ensures 2 * (nely + 1) * (c + 1) - 1 == 2 * NodeId(nely, nely, c) - 1
    ensures 2 * (nely + 1) * c == 2 * NodeId(nely, nely, c - 1)
  {
    assert (c + 1) * (nely + 1) == c * (nely + 1) + nely + 1;
  }

  /** Pair `j` of `fixedcon` is the x DOF of the bottom node of node column
      r + j and the y DOF of the bottom node of node column r + j - 1. */
  lemma {:induction false} FixedPairsAt(nely: nat, r: int, count: int, j: int)
    requires 1 <= j <= count
    ensures |FixedPairs(nely, r, count)| == 2 * count
    ensures FixedPairs(nely, r, count)[2 * j - 2] == 2 * NodeId(nely, nely, r + j) - 1
    ensures FixedPairs(nely, r, count)[2 * j - 1] == 2 * NodeId(nely, nely, r + j - 1)
    decreases count
  {
    FixedPairsLength(nely, r, count);
    FixedPairsLength(nely, r, count - 1);
    var prefix := FixedPairs(nely, r, count - 1);
    var last := [2 * (nely + 1) * (r + count + 1) - 1, 2 * (nely + 1) * (r + count)];
    assert FixedPairs(nely, r, count) == prefix + last;
    if j < count {
      FixedPairsAt(nely, r, count - 1, j);
    } else {
      BottomDofs(nely, r + j);
    }
  }

  /** `fixedcon`, with i = round((nelx * nely - max e) / 10) pairs starting after
      node column r = round(max e / 10). */
  function FixedCon(nely: nat, nelx: nat, e: seq<int>): seq<int>
    requires |e| > 0
  {
    FixedPairs(nely, RoundHalfEven(Max(e), 10), RoundHalfEven(nelx * nely - Max(e), 10))
  }

  /** `fixedcon2`: 2j for j = 0 .. min e. */
  function FixedCon2(e: seq<int>): (r: seq<int>)
    requires |e| > 0
    ensures forall x :: x in r <==> x % 2 == 0 && 0 <= x <= 2 * Min(e)
  {
    var n := if Min(e) < 0 then 0 else Min(e) + 1;
    var r := seq(n, j => 2 * j);
    forall x | x % 2 == 0 && 0 <= x <= 2 * Min(e)
      ensures x in r
    {
      assert r[x / 2] == x;
    }
    r
  }

  /** `fixeddofs`: the sorted union of `fixedcon` and `fixedcon2`. */
  function FixedDofs(nely: nat, nelx: nat, e: seq<int>): (r: seq<int>)
    requires |e| > 0
    ensures StrictlySorted(r)
    ensures forall x :: x in r <==> x in FixedCon(nely, nelx, e) || (x % 2 == 0 && 0 <= x <= 2 * Min(e))
  {
    Union1d(FixedCon(nely, nelx, e), FixedCon2(e))
  }

  /** The first pass over `alldofs`: position k starts as DOF k + 1 and is
      overwritten with 0 when no row of `edofMat` mentions that DOF. */
  method MarkUnreferenced(edofMat: seq<seq<int>>, ndof: nat) returns (alldofs: seq<int>)
    ensures |alldofs| == ndof
    ensures forall k :: 0 <= k < ndof ==> alldofs[k] == if HasEntry(edofMat, k + 1) then k + 1 else 0
  {
    alldofs := seq(ndof, i => i + 1);
    var i := 0;
    while i < ndof
      invariant 0 <= i <= ndof
      invariant |alldofs| == ndof
      invariant forall k :: 0 <= k < ndof ==>
        alldofs[k] == if k < i && !HasEntry(edofMat, k + 1) then 0 else k + 1
    {
      var t := Occurs(edofMat, alldofs[i]);
      if !t {
        alldofs := alldofs[i := 0];
      }
      i := i + 1;
    }
  }

  /** The non-zero entries of `s`, in order. */
  function NonZero(s: seq<int>): seq<int> {
    if s == [] then [] else (if s[0] == 0 then [] else [s[0]]) + NonZero(s[1..])
  }

  /** `NonZero` keeps exactly the non-zero entries. */
  lemma {:induction false} NonZeroMember(s: seq<int>, x: int)
    ensures x in NonZero(s) <==> x in s && x != 0
  {
    if s != [] {
      NonZeroMember(s[1..], x);
      assert s == [s[0]] + s[1..];
    }
  }

  /** If the non-zero entries of `s` ascend strictly, so does `NonZero(s)`. */
  lemma {:induction false} NonZeroAscending(s: seq<int>)
    requires forall i, j :: 0 <= i < j < |s| && s[i] != 0 && s[j] != 0 ==> s[i] < s[j]
    ensures StrictlySorted(NonZero(s))
  {
    if s != [] {
      var t := s[1..];
      assert forall i, j :: 0 <= i < j < |t| && t[i] != 0 && t[j] != 0 ==> t[i] < t[j] by {
        forall i, j | 0 <= i < j < |t| && t[i] != 0 && t[j] != 0
          ensures t[i] < t[j]
        {
          assert t[i] == s[i + 1] && t[j] == s[j + 1];
        }
      }
      NonZeroAscending(t);
      var head := if s[0] == 0 then [] else [s[0]];
      forall x, y | x in head && y in NonZero(t)
        ensures x < y
      {
        NonZeroMember(t, y);
        var j :| 0 <= j < |t| && t[j] == y;
        assert s[j + 1] == y;
      }
      StrictlySortedAppend(head, NonZero(t));
    }
  }

  /** The second pass: from the top down, every 0 is deleted. Deleting at `k`
      never moves the entries below `k`, so the pass yields the non-zero
      entries in their original order. */
  method DeleteZeros(s: seq<int>) returns (r: seq<int>)
    ensures r == NonZero(s)
  {
    r := s;
    var k := |s|;
    assert s[k..] == [] && s[..k] == s;
    while k > 0
      invariant 0 <= k <= |s|
      invariant r == s[..k] + NonZero(s[k..])
    {
      k := k - 1;
      assert s[k..] == [s[k]] + s[k + 1..];
      assert s[..k + 1] == s[..k] + [s[k]];
      if r[k] == 0 {
        r := RemoveAt(r, k);
        assert r == s[..k] + NonZero(s[k + 1..]);
      }
    }
  }

  /** `alldofs` after its two passes: the DOFs 1 .. ndof that some row of
      `edofMat` mentions, in ascending order. */
  method ReferencedDofs(edofMat: seq<seq<int>>, ndof: nat) returns (alldofs: seq<int>)
    ensures StrictlySorted(alldofs)
    ensures forall x :: x in alldofs <==> 1 <= x <= ndof && HasEntry(edofMat, x)
  {
    var marked := MarkUnreferenced(edofMat, ndof);
    alldofs := DeleteZeros(marked);
    NonZeroAscending(marked);
    forall x
      ensures x in alldofs <==> 1 <= x <= ndof && HasEntry(edofMat, x)
    {
      NonZeroMember(marked, x);
      if 1 <= x <= ndof && HasEntry(edofMat, x) {
        assert marked[x - 1] == x;
      }
    }
  }

  /** `freedofs`: the referenced DOFs that are not fixed. */
  function FreeDofs(alldofs: seq<int>, fixeddofs: seq<int>): (r: seq<int>)
    ensures StrictlySorted(r)
    ensures forall x :: x in r <==> x in alldofs && x !in fixeddofs
  {
    SetDiff1d(alldofs, fixeddofs)
  }
}
