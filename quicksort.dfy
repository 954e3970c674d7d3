/**
 * partition and quicksort (src/window_context.cpp:50-83): Hoare partitioning
 * over the children array, in place.
 *
 * The pivot is a pointer to `a[lo]`, not a copy: when the first swap moves a
 * new entry into `a[lo]`, every later comparison is against that entry. The
 * methods below re-read `a[lo]` at every comparison for that reason.
 */
module Quicksort {
  import opened Types
  import opened Ordering

  /** Everything outside `[lo, hi]` is as it was. */
  ghost predicate SameOutside(s: seq<Entry>, t: seq<Entry>, lo: int, hi: int) {
    |s| == |t| && forall k :: 0 <= k < |s| && !(lo <= k <= hi) ==> s[k] == t[k]
  }

  /** `t` is `s` with only `s[lo..hi]` rearranged. */
  ghost predicate Permuted(t: seq<Entry>, s: seq<Entry>, lo: int, hi: int) {
    0 <= lo <= hi + 1 <= |s| && SameOutside(t, s, lo, hi) && multiset(t[lo..hi + 1]) == multiset(s[lo..hi + 1])
  }

  /** `t` is `s` with `s[lo..hi]` sorted in place. */
  ghost predicate SortedPermutation(t: seq<Entry>, s: seq<Entry>, lo: int, hi: int) {
    Permuted(t, s, lo, hi) && Sorted(t[lo..hi + 1])
  }

  lemma SwapKeepsMultiset(s: seq<Entry>, lo: int, hi: int, i: int, j: int)
    requires 0 <= lo <= i <= hi < |s| && lo <= j <= hi
    ensures multiset(s[i := s[j]][j := s[i]][lo..hi + 1]) == multiset(s[lo..hi + 1])
  {
    var t := s[i := s[j]][j := s[i]];
    assert t[lo..hi + 1] == s[lo..hi + 1][i - lo := s[j]][j - lo := s[i]];
  }

  /**
   * The `do { i++; } while (str_cmp(a[i], pivot) < 0)` scan: moves up from
   * `i0` to the first entry not below the pivot `a[lo]`; `stop` is an entry
   * known not to be below it, so the scan stays inside the array.
   */
  method ScanUp(a: array<Entry>, lo: int, i0: int, ghost stop: int) returns (i: int)
    requires 0 <= lo < a.Length && i0 < stop < a.Length && lo - 1 <= i0
    requires Le(a[lo], a[stop])
    ensures i0 < i <= stop
    ensures Le(a[lo], a[i])
    ensures forall k :: i0 < k < i ==> !Le(a[lo], a[k])
  {
    i := i0 + 1;
    var c := StrCmp(a[i].name, a[lo].name);
    while c < 0
      invariant i0 < i <= stop
      invariant c == Compare(a[i].name, a[lo].name)
      invariant forall k :: i0 < k < i ==> !Le(a[lo], a[k])
      decreases stop - i
    {
      CompareAntisymmetric(a[i].name, a[lo].name);
      i := i + 1;
      c := StrCmp(a[i].name, a[lo].name);
    }
    CompareAntisymmetric(a[i].name, a[lo].name);
  }

  /**
   * The `do { j--; } while (str_cmp(a[j], pivot) > 0)` scan: moves down from
   * `j0` to the first entry not above the pivot; the pivot slot itself stops it.
   */
  method ScanDown(a: array<Entry>, lo: int, j0: int) returns (j: int)
    requires 0 <= lo < j0 <= a.Length
    ensures lo <= j < j0
    ensures Le(a[j], a[lo])
    ensures forall k :: j < k < j0 ==> !Le(a[k], a[lo])
  {
    CompareZeroIffEqual(a[lo].name, a[lo].name);
    j := j0 - 1;
    var c := StrCmp(a[j].name, a[lo].name);
    while c > 0
      invariant lo <= j < j0
      invariant c == Compare(a[j].name, a[lo].name)
      invariant forall k :: j < k < j0 ==> !Le(a[k], a[lo])
      decreases j
    {
      j := j - 1;
      c := StrCmp(a[j].name, a[lo].name);
    }
  }

  /**
   * Hoare partition. Returns `p` with `lo <= p < hi` such that every entry of
   * `a[lo..p]` is at most every entry of `a[p+1..hi]`; only `a[lo..hi]` is
   * permuted.
   */
  method Partition(a: array<Entry>, lo: int, hi: int) returns (p: int)
    requires 0 <= lo < hi < a.Length
    modifies a
    ensures lo <= p < hi
    ensures Permuted(a[..], old(a[..]), lo, hi)
    ensures forall k, m :: lo <= k <= p < m <= hi ==> Le(a[k], a[m])
  {
    var i, j := lo - 1, hi + 1;
    while true
      invariant lo - 1 <= i < j <= hi + 1
      invariant (i == lo - 1) == (j == hi + 1)
      invariant Permuted(a[..], old(a[..]), lo, hi)
      invariant forall k :: lo <= k <= i ==> Le(a[k], a[lo])
      invariant forall k :: j <= k <= hi ==> Le(a[lo], a[k])
      decreases j - i
    {
      ghost var i0, j0 := i, j;
      ghost var stop := if j == hi + 1 then lo else j;
      CompareZeroIffEqual(a[lo].name, a[lo].name);
      assert Le(a[lo], a[stop]);
      i := ScanUp(a, lo, i, stop);
      j := ScanDown(a, lo, j);
      assert Scanned(a[..], lo, hi, i0, j0, i, j);
      if i >= j {
        PartitionDone(a[..], lo, hi, i0, j0, i, j);
        return j;
      }
      ghost var s := a[..];
      Swap(a, i, j);
      SwapKeepsPermutation(old(a[..]), s, lo, hi, i, j);
      SwapRestores(s, a[..], lo, hi, i0, j0, i, j);
    }
  }

  /** `std::swap(a[i], a[j])`. */
  method Swap(a: array<Entry>, i: int, j: int)
    requires 0 <= i < a.Length && 0 <= j < a.Length
    modifies a
    ensures a[..] == old(a[..])[i := old(a[j])][j := old(a[i])]
  {
    a[i], a[j] := a[j], a[i];
  }

  /** A swap inside `[lo, hi]` keeps the partition's frame and permutation invariants. */
  lemma SwapKeepsPermutation(s0: seq<Entry>, s: seq<Entry>, lo: int, hi: int, i: int, j: int)
    requires 0 <= lo <= i <= hi < |s| && lo <= j <= hi
    requires Permuted(s, s0, lo, hi)
    ensures Permuted(s[i := s[j]][j := s[i]], s0, lo, hi)
  {
    SwapKeepsMultiset(s, lo, hi, i, j);
  }

  /** Facts about one round of scanning, before the swap or the return. */
  ghost predicate Scanned(s: seq<Entry>, lo: int, hi: int, i0: int, j0: int, i: int, j: int) {
    && 0 <= lo < hi < |s|
    && lo - 1 <= i0 < i <= hi && lo <= j < j0 <= hi + 1
    && (i0 == lo - 1) == (j0 == hi + 1)
    && (forall k :: lo <= k <= i0 ==> Le(s[k], s[lo]))
    && (forall k :: j0 <= k <= hi ==> Le(s[lo], s[k]))
    && (forall k :: i0 < k < i ==> !Le(s[lo], s[k]))
    && (forall k :: j < k < j0 ==> !Le(s[k], s[lo]))
    && Le(s[lo], s[i]) && Le(s[j], s[lo])
  }

  lemma PartitionDone(s: seq<Entry>, lo: int, hi: int, i0: int, j0: int, i: int, j: int)
    requires Scanned(s, lo, hi, i0, j0, i, j) && i >= j
    ensures lo <= j < hi
    ensures forall k, m :: lo <= k <= j < m <= hi ==> Le(s[k], s[m])
  {
    if j0 == hi + 1 {
      // First round: the scan up stops at `lo` itself.
      if i > lo {
        assert !Le(s[lo], s[lo]);
        CompareZeroIffEqual(s[lo].name, s[lo].name);
      }
    }
    forall k | lo <= k <= j ensures Le(s[k], s[lo]) {
      if i0 < k < i { LeTotal(s[lo], s[k]); }
    }
    forall m | j < m <= hi ensures Le(s[lo], s[m]) {
      if m < j0 { LeTotal(s[m], s[lo]); }
    }
    forall k, m | lo <= k <= j < m <= hi ensures Le(s[k], s[m]) {
      LeTransitive(s[k], s[lo], s[m]);
    }
  }

  lemma SwapRestores(s: seq<Entry>, t: seq<Entry>, lo: int, hi: int, i0: int, j0: int, i: int, j: int)
    requires Scanned(s, lo, hi, i0, j0, i, j) && i < j
    requires t == s[i := s[j]][j := s[i]]
    ensures lo <= i < j <= hi
    ensures forall k :: lo <= k <= i ==> Le(t[k], t[lo])
    ensures forall k :: j <= k <= hi ==> Le(t[lo], t[k])
  {
    if i == lo {
      // The first swap: the pivot slot now holds the old s[j], which is at most the old pivot.
      assert j0 == hi + 1 && t[lo] == s[j] && t[j] == s[lo];
      CompareZeroIffEqual(s[j].name, s[j].name);
      forall k | j <= k <= hi ensures Le(t[lo], t[k]) {
        if k > j {
          LeTotal(s[k], s[lo]);
          LeTransitive(s[j], s[lo], s[k]);
        }
      }
    } else {
      assert t[lo] == s[lo];
      forall k | lo <= k <= i ensures Le(t[k], t[lo]) {
        if i0 < k < i { LeTotal(s[lo], s[k]); }
      }
      forall k | j <= k <= hi ensures Le(t[lo], t[k]) {
        if j < k < j0 { LeTotal(s[k], s[lo]); }
      }
    }
  }

  /**
   * Quicksort over `a[lo..hi]`. Like the source it does nothing unless
   * `0 <= lo < hi`; otherwise it leaves `a[lo..hi]` a sorted permutation of
   * its old contents and the rest of the array untouched.
   */
  method Quicksort(a: array<Entry>, lo: int, hi: int)
    requires hi < a.Length
    modifies a
    ensures !(0 <= lo < hi) ==> a[..] == old(a[..])
    ensures SameOutside(a[..], old(a[..]), lo, hi)
    ensures 0 <= lo <= hi + 1 ==> SortedPermutation(a[..], old(a[..]), lo, hi)
    decreases hi - lo
  {
    if lo >= 0 && hi >= 0 && lo < hi {
      ghost var s0 := a[..];
      var p := Partition(a, lo, hi);
      ghost var s1 := a[..];
      PartitionSides(s1, lo, p, hi);
      Quicksort(a, lo, p);
      ghost var s2 := a[..];
      Quicksort(a, p + 1, hi);
      ghost var s3 := a[..];
      Combine(s0, s1, s2, s3, lo, p, hi);
    } else if 0 <= lo <= hi + 1 {
      assert |a[lo..hi + 1]| <= 1;
    }
  }

  lemma PartitionSides(s: seq<Entry>, lo: int, p: int, hi: int)
    requires 0 <= lo <= p < hi < |s|
    requires forall k, m :: lo <= k <= p < m <= hi ==> Le(s[k], s[m])
    ensures AllLe(s[lo..p + 1], s[p + 1..hi + 1])
  {
    forall x, y | x in s[lo..p + 1] && y in s[p + 1..hi + 1] ensures Le(x, y) {
      var k :| lo <= k <= p && s[k] == x;
      var m :| p < m <= hi && s[m] == y;
    }
  }

  lemma Combine(s0: seq<Entry>, s1: seq<Entry>, s2: seq<Entry>, s3: seq<Entry>, lo: int, p: int, hi: int)
    requires 0 <= lo <= p < hi < |s0|
    requires Permuted(s1, s0, lo, hi)
    requires AllLe(s1[lo..p + 1], s1[p + 1..hi + 1])
    requires SortedPermutation(s2, s1, lo, p)
    requires SortedPermutation(s3, s2, p + 1, hi)
    ensures SortedPermutation(s3, s0, lo, hi)
  {
    assert s2[p + 1..hi + 1] == s1[p + 1..hi + 1];
    assert s3[lo..p + 1] == s2[lo..p + 1];
    assert s1[lo..hi + 1] == s1[lo..p + 1] + s1[p + 1..hi + 1];
    assert s2[lo..hi + 1] == s2[lo..p + 1] + s2[p + 1..hi + 1];
    assert s3[lo..hi + 1] == s3[lo..p + 1] + s3[p + 1..hi + 1];
    AllLePermuted(s1[lo..p + 1], s1[p + 1..hi + 1], s3[lo..p + 1], s3[p + 1..hi + 1]);
    SortedConcat(s3[lo..p + 1], s3[p + 1..hi + 1]);
  }
}
