/** Integer-vector operations of numpy used by the finite-element set-up:
    `np.sort`, `np.unique`, `np.union1d`, `np.setdiff1d` and `np.delete`
    (single positions and, through `DropFrom`, any set of positions). */
module Sequences {

  predicate Sorted(s: seq<int>) {
    forall i, j :: 0 <= i < j < |s| ==> s[i] <= s[j]
  }

  predicate StrictlySorted(s: seq<int>) {
    forall i, j :: 0 <= i < j < |s| ==> s[i] < s[j]
  }

  predicate NoDup<T(==)>(s: seq<T>) {
    forall i, j :: 0 <= i < j < |s| ==> s[i] != s[j]
  }

  lemma StrictlySortedNoDup(s: seq<int>)
    requires StrictlySorted(s)
    ensures NoDup(s)
  {
  }

  /** Two strictly ascending vectors, the first entirely below the second,
      concatenate to a strictly ascending vector. */
  lemma StrictlySortedAppend(a: seq<int>, b: seq<int>)
    requires StrictlySorted(a) && StrictlySorted(b)
    requires forall x, y :: x in a && y in b ==> x < y
    ensures StrictlySorted(a + b)
  {
    forall i, j | 0 <= i < j < |a + b|
      ensures (a + b)[i] < (a + b)[j]
    {
      if i < |a| && |a| <= j {
        assert (a + b)[i] in a && (a + b)[j] in b;
      }
    }
  }

  /** Inserts `x` into a sorted vector, keeping it sorted. */
  function Insert(x: int, s: seq<int>): (r: seq<int>)
    requires Sorted(s)
    ensures Sorted(r)
    ensures multiset(r) == multiset(s) + multiset{x}
    ensures forall y :: y in r <==> y == x || y in s
  {
    if s == [] || x <= s[0] then [x] + s
    else
      var t := Insert(x, s[1..]);
      InsertBehindHead(x, s, t);
      [s[0]] + t
  }

  /** Putting back the head of `s` in front of `x` inserted into its tail. */
  lemma InsertBehindHead(x: int, s: seq<int>, t: seq<int>)
    requires Sorted(s) && |s| > 0 && s[0] < x
    requires Sorted(t)
    requires multiset(t) == multiset(s[1..]) + multiset{x}
    requires forall y :: y in t <==> y == x || y in s[1..]
    ensures Sorted([s[0]] + t)
    ensures multiset([s[0]] + t) == multiset(s) + multiset{x}
    ensures forall y :: y in [s[0]] + t <==> y == x || y in s
  {
    assert s == [s[0]] + s[1..];
    assert forall k :: 0 <= k < |t| ==> t[k] in t;
  }

  /** `np.sort`: an ascending permutation of the input. */
  function Sort(s: seq<int>): (r: seq<int>)
    ensures Sorted(r)
    ensures multiset(r) == multiset(s)
    ensures forall x :: x in r <==> x in s
  {
    if s == [] then []
    else
      assert s == [s[0]] + s[1..];
      Insert(s[0], Sort(s[1..]))
  }

  /** Collapses runs of equal neighbours in a sorted vector. */
  function Dedup(s: seq<int>): (r: seq<int>)
    requires Sorted(s)
    ensures StrictlySorted(r)
    ensures forall x :: x in r <==> x in s
    ensures |s| > 0 ==> |r| > 0 && r[0] == s[0]
  {
    if |s| <= 1 then s
    else if s[0] == s[1] then Dedup(s[1..])
    else
      var t := Dedup(s[1..]);
      assert forall k :: 0 <= k < |t| ==> t[k] in s[1..];
      [s[0]] + t
  }

  /** `np.unique`: the distinct values of `s`, ascending. */
  function Unique(s: seq<int>): (r: seq<int>)
    ensures StrictlySorted(r)
    ensures forall x :: x in r <==> x in s
  {
    Dedup(Sort(s))
  }

  /** `np.union1d`: the distinct values of either vector, ascending. */
  function Union1d(a: seq<int>, b: seq<int>): (r: seq<int>)
    ensures StrictlySorted(r)
    ensures forall x :: x in r <==> x in a || x in b
  {
    Unique(a + b)
  }

  /** The entries of `a` that do not occur in `b`, in their original order. */
  function Without(a: seq<int>, b: seq<int>): (r: seq<int>)
    ensures forall x :: x in r <==> x in a && x !in b
  {
    if a == [] then []
    else (if a[0] in b then [] else [a[0]]) + Without(a[1..], b)
  }

  /** `np.setdiff1d`: the distinct values of `a` not in `b`, ascending. */
  function SetDiff1d(a: seq<int>, b: seq<int>): (r: seq<int>)
    ensures StrictlySorted(r)
    ensures forall x :: x in r <==> x in a && x !in b
  {
    Unique(Without(a, b))
  }

  /** The head of a sorted vector is its least value. */
  lemma SortedHeadLeast(s: seq<int>, v: int)
    requires Sorted(s) && v in s
    ensures s[0] <= v
  {
    var i :| 0 <= i < |s| && s[i] == v;
  }

  lemma MultisetTail(s: seq<int>)
    requires |s| > 0
    ensures multiset(s[1..]) == multiset(s) - multiset{s[0]}
  {
    assert s == [s[0]] + s[1..];
  }

  /** A sorted vector is determined by its multiset of values: this is why
      `np.sort` has exactly one possible result. */
  lemma {:induction false} SortedPermutationUnique(a: seq<int>, b: seq<int>)
    requires Sorted(a) && Sorted(b)
    requires multiset(a) == multiset(b)
    ensures a == b
    decreases |a|
  {
    if a == [] {
      assert |multiset(b)| == 0;
    } else {
      SortedPermutationHead(a, b);
      SortedPermutationUnique(a[1..], b[1..]);
      assert a == [a[0]] + a[1..] && b == [b[0]] + b[1..];
    }
  }

  /** Two sorted permutations of each other start with the same value, and
      their tails are again sorted permutations of each other. */
  lemma SortedPermutationHead(a: seq<int>, b: seq<int>)
    requires Sorted(a) && Sorted(b)
    requires multiset(a) == multiset(b)
    requires |a| > 0
    ensures |b| == |a| && a[0] == b[0]
    ensures Sorted(a[1..]) && Sorted(b[1..])
    ensures multiset(a[1..]) == multiset(b[1..])
  {
    assert |b| == |multiset(b)| == |multiset(a)| == |a|;
    assert a[0] in multiset(b) && b[0] in multiset(a);
    SortedHeadLeast(a, b[0]);
    SortedHeadLeast(b, a[0]);
    MultisetTail(a);
    MultisetTail(b);
  }

  /** A strictly ascending vector is determined by its set of values: this is
      why `np.unique` has exactly one possible result. */
  lemma StrictlySortedUnique(a: seq<int>, b: seq<int>)
    requires StrictlySorted(a) && StrictlySorted(b)
    requires forall x :: x in a <==> x in b
    ensures a == b
  {
    StrictlySortedNoDup(a);
    StrictlySortedNoDup(b);
    SameElemsPermutation(a, b);
    SortedPermutationUnique(a, b);
  }

  /** In a vector without repetitions every value occurs at most once. */
  lemma {:induction false} NoDupMultiset(s: seq<int>)
    requires NoDup(s)
    ensures forall x :: multiset(s)[x] == if x in s then 1 else 0
  {
    if s != [] {
      assert s == [s[0]] + s[1..];
      NoDupMultiset(s[1..]);
    }
  }

  /** Two repetition-free vectors with the same values are permutations of each other. */
  lemma SameElemsPermutation(a: seq<int>, b: seq<int>)
    requires NoDup(a) && NoDup(b)
    requires forall x :: x in a <==> x in b
    ensures multiset(a) == multiset(b)
  {
    NoDupMultiset(a);
    NoDupMultiset(b);
  }

  /** Without repeated values, `np.unique` of any rearrangement keeps every entry. */
  lemma UniqueCount(s: seq<int>, t: seq<int>)
    requires NoDup(s)
    requires forall x :: x in t <==> x in s
    ensures |Unique(t)| == |s|
  {
    var u := Unique(t);
    StrictlySortedNoDup(u);
    SameElemsPermutation(u, s);
    assert |u| == |multiset(u)| == |multiset(s)| == |s|;
  }

  lemma NoDupAppend<T>(a: seq<T>, b: seq<T>)
    requires NoDup(a) && NoDup(b)
    requires forall x :: x in a ==> x !in b
    ensures NoDup(a + b)
  {
    forall i, j | 0 <= i < j < |a + b|
      ensures (a + b)[i] != (a + b)[j]
    {
      if j >= |a| && i < |a| {
        assert (a + b)[i] in a && (a + b)[j] in b;
      }
    }
  }

  /** `np.delete(s, j)`: the vector without position `j`. */
  function RemoveAt<T>(s: seq<T>, j: int): (r: seq<T>)
    requires 0 <= j < |s|
    ensures |r| == |s| - 1
  {
    s[..j] + s[j + 1..]
  }

  /** Deletes, from a vector whose first position is numbered `base`, every
      position numbered in `d`; the survivors keep their relative order. */
  function DropFrom<T>(s: seq<T>, d: set<int>, base: int): seq<T>
    decreases |s|
  {
    if s == [] then []
    else (if base in d then [] else [s[0]]) + DropFrom(s[1..], d, base + 1)
  }

  /** `DropFrom` keeps some of the entries and adds none. */
  lemma {:induction false} DropFromSubset<T>(s: seq<T>, d: set<int>, base: int)
    ensures forall x :: x in DropFrom(s, d, base) ==> x in s
    decreases |s|
  {
    if s != [] {
      DropFromSubset(s[1..], d, base + 1);
    }
  }

  /** The survivors of `DropFrom` are exactly the entries at undeleted positions. */
  lemma {:induction false} DropFromMember<T>(s: seq<T>, d: set<int>, base: int, x: T)
    ensures x in DropFrom(s, d, base) <==> exists k :: 0 <= k < |s| && base + k !in d && s[k] == x
    decreases |s|
  {
    if s != [] {
      var head := if base in d then [] else [s[0]];
      var rest := DropFrom(s[1..], d, base + 1);
      assert DropFrom(s, d, base) == head + rest;
      DropFromMember(s[1..], d, base + 1, x);
      if x in rest {
        var k :| 0 <= k < |s[1..]| && base + 1 + k !in d && s[1..][k] == x;
        assert s[k + 1] == x;
      }
      if exists k :: 0 <= k < |s| && base + k !in d && s[k] == x {
        var k :| 0 <= k < |s| && base + k !in d && s[k] == x;
        if k == 0 {
          assert x in head;
        } else {
          assert s[1..][k - 1] == x;
          assert x in rest;
        }
      }
    }
  }

  /** Only the positions that exist matter to `DropFrom`. */
  lemma {:induction false} DropFromSameWindow<T>(s: seq<T>, d1: set<int>, d2: set<int>, base: int)
    requires forall p :: base <= p < base + |s| ==> (p in d1 <==> p in d2)
    ensures DropFrom(s, d1, base) == DropFrom(s, d2, base)
    decreases |s|
  {
    if s != [] {
      DropFromSameWindow(s[1..], d1, d2, base + 1);
    }
  }

  lemma {:induction false} DropFromNone<T>(s: seq<T>, d: set<int>, base: int)
    requires forall p :: base <= p < base + |s| ==> p !in d
    ensures DropFrom(s, d, base) == s
    decreases |s|
  {
    if s != [] {
      DropFromNone(s[1..], d, base + 1);
      assert s == [s[0]] + s[1..];
    }
  }

  lemma {:induction false} DropFromAll<T>(s: seq<T>, d: set<int>, base: int)
    requires forall p :: base <= p < base + |s| ==> p in d
    ensures DropFrom(s, d, base) == []
    decreases |s|
  {
    if s != [] {
      DropFromAll(s[1..], d, base + 1);
    }
  }

  lemma {:induction false} DropFromAppend<T>(a: seq<T>, b: seq<T>, d: set<int>, base: int)
    ensures DropFrom(a + b, d, base) == DropFrom(a, d, base) + DropFrom(b, d, base + |a|)
    decreases |a|
  {
    if a == [] {
      assert a + b == b;
    } else {
      var head := if base in d then [] else [a[0]];
      var rest := DropFrom(a[1..], d, base + 1);
      var tail := DropFrom(b, d, base + |a|);
      assert (a + b)[1..] == a[1..] + b;
      DropFromAppend(a[1..], b, d, base + 1);
      assert DropFrom(a + b, d, base) == head + (rest + tail);
      assert DropFrom(a, d, base) == head + rest;
      assert head + (rest + tail) == (head + rest) + tail;
    }
  }

  /** Deleting one position below every position already deleted acts on the
      original vector exactly as adding that position to the deleted set:
      this is why deleting in descending index order needs no index shifting. */
  lemma {:induction false} RemoveBelowDropped<T>(s: seq<T>, d: set<int>, base: int, j: int)
    requires base <= j < base + |s|
    requires j !in d
    requires forall q :: q in d ==> q > j
    ensures j - base < |DropFrom(s, d, base)|
    ensures RemoveAt(DropFrom(s, d, base), j - base) == DropFrom(s, d + {j}, base)
    decreases |s|
  {
    if j == base {
      DropFromSameWindow(s[1..], d, d + {j}, base + 1);
    } else {
      RemoveBelowDropped(s[1..], d, base + 1, j);
      var t := DropFrom(s[1..], d, base + 1);
      assert DropFrom(s, d, base) == [s[0]] + t;
      assert RemoveAt([s[0]] + t, j - base) == [s[0]] + RemoveAt(t, j - base - 1);
    }
  }
}
