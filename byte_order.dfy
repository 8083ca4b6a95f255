/**
 * Java's signed bytes, byte arrays, and the comparator that
 * `MerkleTreeNode.getContentHashesSorted` hands to `Arrays.sort`:
 * lexicographic by `Byte.compare` (signed), shorter array first on a
 * shared prefix. Also the sort itself, both as a specification function
 * and as an in-place method over an array.
 */
module ByteOrder {

  /** A Java `byte`: signed, two's complement, 8 bits. */
  newtype SByte = x: int | -128 <= x < 128

  /** A Java `byte[]`. */
  type Bytes = seq<SByte>

  /** `Integer.compare(x, y)`. */
  function IntCompare(x: int, y: int): (r: int)
    ensures r < 0 <==> x < y
    ensures r == 0 <==> x == y
    ensures -1 <= r <= 1
  {
    if x < y then -1 else if x == y then 0 else 1
  }

  /**
   * The comparator, as a recursive definition: the first differing
   * position decides by `Byte.compare` (the difference of the two signed
   * values); if there is none, the lengths decide. Comparing the suffixes
   * after a common prefix gives the same length verdict as comparing the
   * whole arrays, since both lose the same number of elements.
   */
  function Compare(a: Bytes, b: Bytes): int
    decreases |a|
  {
    if |a| == 0 || |b| == 0 then IntCompare(|a|, |b|)
    else if a[0] != b[0] then a[0] as int - b[0] as int
    else Compare(a[1..], b[1..])
  }

  /** Reference definition of "a sorts strictly before b" under signed lexicographic order. */
  ghost predicate LexLess(a: Bytes, b: Bytes) {
    || (exists k :: 0 <= k < |a| && k < |b| && a[..k] == b[..k] && a[k] < b[k])
    || (|a| < |b| && a == b[..|a|])
  }

  /** `a` sorts no later than `b`. */
  predicate Le(a: Bytes, b: Bytes) {
    Compare(a, b) <= 0
  }

  /** Non-decreasing under the comparator. */
  predicate Sorted(s: seq<Bytes>) {
    forall i, j :: 0 <= i < j < |s| ==> Le(s[i], s[j])
  }

  /**
   * The comparator's loop as the source runs it: scan the common prefix,
   * return `Byte.compare` at the first difference, else compare lengths.
   */
  method CompareBytes(a: Bytes, b: Bytes) returns (r: int)
    ensures r == Compare(a, b)
  {
    var i := 0;
    var n := if |a| < |b| then |a| else |b|;
    while i < n
      invariant 0 <= i <= n
      invariant a[..i] == b[..i]
      invariant Compare(a, b) == Compare(a[i..], b[i..])
    {
      if a[i] != b[i] {
        return a[i] as int - b[i] as int;
      }
      assert a[i..][1..] == a[i + 1..] && b[i..][1..] == b[i + 1..];
      i := i + 1;
    }
    r := IntCompare(|a|, |b|);
  }

  /** The comparator is 0 exactly on element-wise equal arrays (`Arrays.equals`). */
  lemma {:induction false} CompareZeroIff(a: Bytes, b: Bytes)
    ensures Compare(a, b) == 0 <==> a == b
    decreases |a|
  {
    if |a| > 0 && |b| > 0 && a[0] == b[0] {
      CompareZeroIff(a[1..], b[1..]);
      if a[1..] == b[1..] {
        assert a == [a[0]] + a[1..] && b == [b[0]] + b[1..];
      }
    }
  }

  /** Swapping the arguments negates the result (so the signs are opposite, as `Comparator` requires). */
  lemma {:induction false} CompareAntisymmetric(a: Bytes, b: Bytes)
    ensures Compare(b, a) == -Compare(a, b)
    decreases |a|
  {
    if |a| > 0 && |b| > 0 && a[0] == b[0] {
      CompareAntisymmetric(a[1..], b[1..]);
    }
  }

  /** A negative result means exactly "strictly before in signed lexicographic order". */
  lemma {:induction false} CompareNegativeIff(a: Bytes, b: Bytes)
    ensures Compare(a, b) < 0 <==> LexLess(a, b)
    decreases |a|
  {
    if |a| == 0 || |b| == 0 {
      if |a| < |b| {
        assert a == b[..|a|];
      }
    } else if a[0] != b[0] {
      LexLessHead(a, b);
    } else {
      CompareNegativeIff(a[1..], b[1..]);
      LexLessTail(a, b);
    }
  }

  /** When the first bytes differ, they alone decide lexicographic order. */
  lemma LexLessHead(a: Bytes, b: Bytes)
    requires |a| > 0 && |b| > 0 && a[0] != b[0]
    ensures LexLess(a, b) <==> a[0] < b[0]
  {
    SharedPrefixHead(a, b);
    if a[0] < b[0] {
      assert a[..0] == b[..0];
    }
  }

  /** Two sequences with a common non-empty prefix agree on their first element. */
  lemma SharedPrefixHead(a: Bytes, b: Bytes)
    requires |a| > 0 && |b| > 0
    ensures forall k :: 0 < k <= |a| && k <= |b| && a[..k] == b[..k] ==> a[0] == b[0]
  {
    forall k | 0 < k <= |a| && k <= |b| && a[..k] == b[..k] ensures a[0] == b[0] {
      assert a[..k][0] == b[..k][0];
    }
  }

  /** Past an equal first byte, lexicographic order is decided by the rest. */
  lemma LexLessTail(a: Bytes, b: Bytes)
    requires |a| > 0 && |b| > 0 && a[0] == b[0]
    ensures LexLess(a, b) <==> LexLess(a[1..], b[1..])
  {
    var a', b' := a[1..], b[1..];
    if LexLess(a', b') {
      if exists k :: 0 <= k < |a'| && k < |b'| && a'[..k] == b'[..k] && a'[k] < b'[k] {
        var k :| 0 <= k < |a'| && k < |b'| && a'[..k] == b'[..k] && a'[k] < b'[k];
        assert a[..k + 1] == [a[0]] + a'[..k] && b[..k + 1] == [b[0]] + b'[..k];
        assert a[k + 1] == a'[k] && b[k + 1] == b'[k];
      } else {
        assert a == [a[0]] + a' && b[..|a|] == [b[0]] + b'[..|a'|];
      }
    }
    if LexLess(a, b) {
      if exists k :: 0 <= k < |a| && k < |b| && a[..k] == b[..k] && a[k] < b[k] {
        var k :| 0 <= k < |a| && k < |b| && a[..k] == b[..k] && a[k] < b[k];
        assert k > 0;
        assert a'[..k - 1] == a[..k][1..] && b'[..k - 1] == b[..k][1..];
        assert a'[k - 1] == a[k] && b'[k - 1] == b[k];
      } else {
        assert a' == b[..|a|][1..] && b'[..|a'|] == b[..|a|][1..];
      }
    }
  }

  lemma {:induction false} CompareTransitive(a: Bytes, b: Bytes, c: Bytes)
    requires Le(a, b) && Le(b, c)
    ensures Le(a, c)
    decreases |a|
  {
    if |a| > 0 && |b| > 0 && |c| > 0 && a[0] == b[0] && b[0] == c[0] {
      CompareTransitive(a[1..], b[1..], c[1..]);
    }
  }

  /** The order is total: any two arrays are comparable. */
  lemma CompareTotal(a: Bytes, b: Bytes)
    ensures Le(a, b) || Le(b, a)
  {
    CompareAntisymmetric(a, b);
  }

  /** Two arrays that each sort no later than the other are equal. */
  lemma CompareLeAntisymmetric(a: Bytes, b: Bytes)
    requires Le(a, b) && Le(b, a)
    ensures a == b
  {
    CompareAntisymmetric(a, b);
    CompareZeroIff(a, b);
  }

  /** Inserts `x` before the first element it sorts strictly before (after all of them if there is none). */
  function Insert(x: Bytes, s: seq<Bytes>): seq<Bytes>
    decreases |s|
  {
    if s == [] then [x]
    else if Le(x, s[0]) then [x] + s
    else [s[0]] + Insert(x, s[1..])
  }

  /** Inserting adds exactly one occurrence of `x` and keeps everything else. */
  lemma {:induction false} InsertCount(x: Bytes, s: seq<Bytes>)
    ensures multiset(Insert(x, s)) == multiset(s) + multiset{x}
    ensures |Insert(x, s)| == |s| + 1
    decreases |s|
  {
    if s != [] && !Le(x, s[0]) {
      InsertCount(x, s[1..]);
      assert s == [s[0]] + s[1..];
    }
  }

  /** A sorted sequence stays sorted with an element in front that is no greater than any of it. */
  lemma ConsSorted(y: Bytes, t: seq<Bytes>)
    requires Sorted(t)
    requires forall j :: 0 <= j < |t| ==> Le(y, t[j])
    ensures Sorted([y] + t)
  {
    var u := [y] + t;
    forall i, j | 0 <= i < j < |u| ensures Le(u[i], u[j]) {
      assert u[j] == t[j - 1];
      if i > 0 { assert u[i] == t[i - 1]; }
    }
  }

  /** Inserting into a sorted sequence keeps it sorted. */
  lemma {:induction false} InsertSorted(x: Bytes, s: seq<Bytes>)
    requires Sorted(s)
    ensures Sorted(Insert(x, s))
    decreases |s|
  {
    if s == [] {
    } else if Le(x, s[0]) {
      forall j | 0 <= j < |s| ensures Le(x, s[j]) {
        if j > 0 { CompareTransitive(x, s[0], s[j]); }
      }
      ConsSorted(x, s);
    } else {
      CompareTotal(x, s[0]);
      assert Sorted(s[1..]);
      InsertSorted(x, s[1..]);
      InsertCount(x, s[1..]);
      var t := Insert(x, s[1..]);
      forall j | 0 <= j < |t| ensures Le(s[0], t[j]) {
        assert t[j] in multiset(t);
        if t[j] != x {
          assert t[j] in multiset(s[1..]);
          var k :| 0 <= k < |s[1..]| && s[1..][k] == t[j];
          assert Le(s[0], s[k + 1]);
        }
      }
      ConsSorted(s[0], t);
    }
  }

  function SortBytes(s: seq<Bytes>): seq<Bytes>
    decreases |s|
  {
    if s == [] then [] else Insert(s[0], SortBytes(s[1..]))
  }

  /** `SortBytes` returns a non-decreasing permutation of its input. */
  lemma {:induction false} SortBytesPermutation(s: seq<Bytes>)
    ensures multiset(SortBytes(s)) == multiset(s)
    ensures |SortBytes(s)| == |s|
    decreases |s|
  {
    if s != [] {
      SortBytesPermutation(s[1..]);
      InsertCount(s[0], SortBytes(s[1..]));
      assert s == [s[0]] + s[1..];
      assert multiset(s) == multiset(s[1..]) + multiset{s[0]};
    }
  }

  lemma {:induction false} SortBytesSorted(s: seq<Bytes>)
    ensures Sorted(SortBytes(s))
    ensures multiset(SortBytes(s)) == multiset(s)
    ensures |SortBytes(s)| == |s|
    decreases |s|
  {
    SortBytesPermutation(s);
    if s != [] {
      SortBytesSorted(s[1..]);
      InsertSorted(s[0], SortBytes(s[1..]));
    }
  }

  /**
   * A sorted arrangement of a multiset of arrays is unique, because the
   * comparator is a total order that is 0 only on equal arrays.
   */
  lemma {:induction false} SortedUnique(x: seq<Bytes>, y: seq<Bytes>)
    requires Sorted(x) && Sorted(y)
    requires multiset(x) == multiset(y)
    ensures x == y
    decreases |x|
  {
    if x != [] {
      SortedSameHead(x, y);
      SameTail(x, y);
      SortedUnique(x[1..], y[1..]);
      assert x == [x[0]] + x[1..] && y == [y[0]] + y[1..];
    }
  }

  /** Two sorted sequences with the same elements start with the same element. */
  lemma SortedSameHead(x: seq<Bytes>, y: seq<Bytes>)
    requires Sorted(x) && Sorted(y)
    requires multiset(x) == multiset(y) && x != []
    ensures y != [] && x[0] == y[0]
  {
    assert x[0] in multiset(y);
    assert y[0] in multiset(x);
    var i :| 0 <= i < |x| && x[i] == y[0];
    var j :| 0 <= j < |y| && y[j] == x[0];
    assert Le(x[0], x[i]) by { if i == 0 { CompareZeroIff(x[0], x[0]); } }
    assert Le(y[0], y[j]) by { if j == 0 { CompareZeroIff(y[0], y[0]); } }
    CompareLeAntisymmetric(x[0], y[0]);
  }

  /** Sequences with the same elements and the same first element have tails with the same elements. */
  lemma SameTail<T>(x: seq<T>, y: seq<T>)
    requires x != [] && y != [] && x[0] == y[0]
    requires multiset(x) == multiset(y)
    ensures multiset(x[1..]) == multiset(y[1..])
  {
    assert x == [x[0]] + x[1..] && y == [y[0]] + y[1..];
    assert multiset(x) == multiset{x[0]} + multiset(x[1..]);
    assert multiset(y) == multiset{y[0]} + multiset(y[1..]);
    assert multiset(x[1..]) == multiset(x) - multiset{x[0]};
    assert multiset(y[1..]) == multiset(y) - multiset{y[0]};
  }

  /** The sorted result depends only on the multiset of its input, not on the input order. */
  lemma SortDependsOnlyOnMultiset(s: seq<Bytes>, t: seq<Bytes>)
    requires multiset(s) == multiset(t)
    ensures SortBytes(s) == SortBytes(t)
  {
    SortBytesSorted(s);
    SortBytesSorted(t);
    SortedUnique(SortBytes(s), SortBytes(t));
  }

  /** A sorted permutation of `s` is the specification's result for `s`. */
  lemma SortedPermutationIsSortBytes(s: seq<Bytes>, r: seq<Bytes>)
    requires Sorted(r) && multiset(r) == multiset(s)
    ensures r == SortBytes(s)
  {
    SortBytesSorted(s);
    SortedUnique(r, SortBytes(s));
  }

  /**
   * `Arrays.sort(hashes, comparator)` in place. The library uses TimSort,
   * which on arrays under 32 entries runs a binary insertion sort; any
   * correct sort produces the same array here (SortedUnique), so the model
   * sorts by plain insertion.
   */
  method SortInPlace(a: array<Bytes>)
    modifies a
    ensures a[..] == SortBytes(old(a[..]))
  {
    var i := 0;
    while i < a.Length
      invariant 0 <= i <= a.Length
      invariant Sorted(a[..i])
      invariant multiset(a[..]) == multiset(old(a[..]))
    {
      InsertLast(a, i);
      i := i + 1;
    }
    SortedPermutationIsSortBytes(old(a[..]), a[..]);
  }

  /**
   * Halfway through inserting the element now at `j` into the sorted
   * prefix `s[..i]`: apart from position `j` the prefix `s[..i + 1]` is
   * sorted, and the element at `j` sorts no later than everything after it.
   */
  ghost predicate Inserting(s: seq<Bytes>, j: nat, i: nat)
    requires j <= i < |s|
  {
    && (forall p, q :: 0 <= p < q <= i && p != j && q != j ==> Le(s[p], s[q]))
    && (forall q :: j < q <= i ==> Le(s[j], s[q]))
  }

  /** Swapping the inserted element with a larger left neighbour keeps the insertion state. */
  lemma SwapDown(s: seq<Bytes>, j: nat, i: nat)
    requires 0 < j <= i < |s|
    requires Inserting(s, j, i)
    requires !Le(s[j - 1], s[j])
    ensures Inserting(s[j - 1 := s[j]][j := s[j - 1]], j - 1, i)
  {
    CompareAntisymmetric(s[j - 1], s[j]);
  }

  /** Once the inserted element sits after no larger element, the prefix is sorted. */
  lemma InsertingDone(s: seq<Bytes>, j: nat, i: nat)
    requires j <= i < |s|
    requires Inserting(s, j, i)
    requires j == 0 || Le(s[j - 1], s[j])
    ensures Sorted(s[..i + 1])
  {
    forall p | 0 <= p < j ensures Le(s[p], s[j]) {
      if p < j - 1 { CompareTransitive(s[p], s[j - 1], s[j]); }
    }
  }

  /** Swapping two neighbours before position `k` keeps the elements and everything from `k` on. */
  lemma SwapBefore<T>(s: seq<T>, j: nat, k: nat)
    requires 0 < j < k <= |s|
    ensures multiset(s[j - 1 := s[j]][j := s[j - 1]]) == multiset(s)
    ensures s[j - 1 := s[j]][j := s[j - 1]][k..] == s[k..]
  {
  }


  /**
   * A rearrangement that leaves everything from position `k` on in place
   * rearranges the first `k` elements among themselves.
   */
  lemma PrefixPermutation<T>(s: seq<T>, t: seq<T>, k: nat)
    requires k <= |s| && k <= |t|
    requires multiset(s) == multiset(t) && s[k..] == t[k..]
    ensures multiset(s[..k]) == multiset(t[..k])
  {
    assert s == s[..k] + s[k..];
    assert t == t[..k] + t[k..];
    assert multiset(s[..k]) == multiset(s) - multiset(s[k..]);
    assert multiset(t[..k]) == multiset(t) - multiset(t[k..]);
  }

  /** A finished insertion leaves the prefix sorted and holding the elements it started with. */
  lemma InsertionDone(s: seq<Bytes>, s0: seq<Bytes>, j: nat, i: nat)
    requires j <= i < |s| == |s0|
    requires Inserting(s, j, i) && (j == 0 || Le(s[j - 1], s[j]))
    requires multiset(s) == multiset(s0) && s[i + 1..] == s0[i + 1..]
    ensures Sorted(s[..i + 1])
    ensures multiset(s[..i + 1]) == multiset(s0[..i + 1])
  {
    InsertingDone(s, j, i);
    PrefixPermutation(s, s0, i + 1);
  }

  /** Swaps the inserted element at `j` with its larger left neighbour. */
  method SiftStep(a: array<Bytes>, j: nat, i: nat)
    requires 0 < j <= i < a.Length
    requires Inserting(a[..], j, i) && !Le(a[j - 1], a[j])
    modifies a
    ensures a[..] == old(a[..])[j - 1 := old(a[j])][j := old(a[j - 1])]
    ensures Inserting(a[..], j - 1, i)
    ensures multiset(a[..]) == multiset(old(a[..]))
    ensures a[i + 1..] == old(a[i + 1..])
  {
    ghost var s := a[..];
    SwapDown(s, j, i);
    SwapBefore(s, j, i + 1);
    a[j - 1], a[j] := a[j], a[j - 1];
    assert a[..] == s[j - 1 := s[j]][j := s[j - 1]];
  }

  /** Moves `a[i]` down into the sorted prefix `a[..i]`, one swap at a time. */
  method InsertLast(a: array<Bytes>, i: nat)
    requires i < a.Length
    requires Sorted(a[..i])
    modifies a
    ensures Sorted(a[..i + 1])
    ensures multiset(a[..i + 1]) == multiset(old(a[..i + 1]))
    ensures a[i + 1..] == old(a[i + 1..])
    ensures multiset(a[..]) == multiset(old(a[..]))
  {
    ghost var suffix := a[i + 1..];
    var j := i;
    var done := false;
    while j > 0 && !done
      invariant 0 <= j <= i
      invariant Inserting(a[..], j, i)
      invariant done && j > 0 ==> Le(a[j - 1], a[j])
      invariant multiset(a[..]) == multiset(old(a[..]))
      invariant a[i + 1..] == suffix
      decreases j, if done then 0 else 1
    {
      var c := CompareBytes(a[j - 1], a[j]);
      if c <= 0 {
        done := true;
      } else {
        SiftStep(a, j, i);
        j := j - 1;
      }
    }
    InsertionDone(a[..], old(a[..]), j, i);
  }
}
