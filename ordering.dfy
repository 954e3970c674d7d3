/**
 * The name order of str_cmp (src/window_context.cpp:26-48) and what it means
 * for a sequence of entries to be sorted by it.
 *
 * The source compares `char` values. The model assumes `char` is signed, as
 * on x86-64 Linux: a byte of 0x80 or more counts as negative and sorts
 * before every ASCII byte.
 */
module Ordering {
  import opened Types

  /** The value of a byte read as a signed two's-complement `char`. */
  function Signed(b: byte): (v: int)
    ensures -128 <= v < 128
    ensures (v - b as int) % 256 == 0
  {
    if b < 128 then b as int else b as int - 256
  }

  /**
   * The order str_cmp computes: -1, 0 or 1. The first differing byte decides;
   * on an equal prefix the shorter name comes first.
   */
  function Compare(a: seq<byte>, b: seq<byte>): (r: int)
    ensures -1 <= r <= 1
    ensures |a| == 0 && |b| == 0 ==> r == 0
  {
    if |a| == 0 || |b| == 0 then
      (if |a| < |b| then -1 else if |a| > |b| then 1 else 0)
    else if Signed(a[0]) < Signed(b[0]) then -1
    else if Signed(a[0]) > Signed(b[0]) then 1
    else Compare(a[1..], b[1..])
  }

  /**
   * str_cmp itself: a loop over the common prefix that returns at the first
   * differing byte, then a comparison of the lengths.
   */
  method StrCmp(a: seq<byte>, b: seq<byte>) returns (r: int)
    ensures r == Compare(a, b)
  {
    var len := if |a| <= |b| then |a| else |b|;
    var i := 0;
    while i < len
      invariant 0 <= i <= len
      invariant Compare(a, b) == Compare(a[i..], b[i..])
    {
      var ac, bc := Signed(a[i]), Signed(b[i]);
      if ac < bc {
        return -1;
      } else if ac > bc {
        return 1;
      }
      assert a[i..][1..] == a[i + 1..] && b[i..][1..] == b[i + 1..];
      i := i + 1;
    }
    if |a| < |b| {
      return -1;
    } else if |a| > |b| {
      return 1;
    }
    return 0;
  }

  lemma {:induction false} CompareZeroIffEqual(a: seq<byte>, b: seq<byte>)
    ensures Compare(a, b) == 0 <==> a == b
  {
    if |a| > 0 && |b| > 0 && a[0] == b[0] {
      CompareZeroIffEqual(a[1..], b[1..]);
      assert a == [a[0]] + a[1..] && b == [b[0]] + b[1..];
    } else if |a| > 0 && |b| > 0 {
      assert Signed(a[0]) != Signed(b[0]);
    }
  }

  lemma {:induction false} CompareAntisymmetric(a: seq<byte>, b: seq<byte>)
    ensures Compare(a, b) == -Compare(b, a)
  {
    if |a| > 0 && |b| > 0 && Signed(a[0]) == Signed(b[0]) {
      CompareAntisymmetric(a[1..], b[1..]);
    }
  }

  lemma {:induction false} CompareTransitive(a: seq<byte>, b: seq<byte>, c: seq<byte>)
    requires Compare(a, b) <= 0 && Compare(b, c) <= 0
    ensures Compare(a, c) <= 0
  {
    if |a| > 0 && |b| > 0 && |c| > 0
       && Signed(a[0]) == Signed(b[0]) && Signed(b[0]) == Signed(c[0])
    {
      CompareTransitive(a[1..], b[1..], c[1..]);
    }
  }

  /** The first position where the two names differ decides the order. */
  lemma {:induction false} CompareFirstDifference(a: seq<byte>, b: seq<byte>, k: nat)
    requires k < |a| && k < |b|
    requires a[..k] == b[..k] && a[k] != b[k]
    ensures Compare(a, b) == (if Signed(a[k]) < Signed(b[k]) then -1 else 1)
  {
    if k > 0 {
      assert a[0] == a[..k][0] && b[0] == b[..k][0];
      assert a[1..][..k - 1] == a[1..k] == b[1..k] == b[1..][..k - 1];
      CompareFirstDifference(a[1..], b[1..], k - 1);
    } else {
      assert Signed(a[0]) != Signed(b[0]);
    }
  }

  /** A proper prefix sorts before the longer name. */
  lemma {:induction false} ComparePrefix(a: seq<byte>, b: seq<byte>)
    requires |a| < |b| && a == b[..|a|]
    ensures Compare(a, b) == -1
  {
    if |a| > 0 {
      assert a[0] == b[0];
      assert a[1..] == b[1..][..|a| - 1];
      ComparePrefix(a[1..], b[1..]);
    }
  }

  /** Entry order: by name only. */
  predicate Le(x: Entry, y: Entry) {
    Compare(x.name, y.name) <= 0
  }

  predicate Sorted(s: seq<Entry>) {
    forall k, m :: 0 <= k < m < |s| ==> Le(s[k], s[m])
  }

  /** Every element of `l` is at most every element of `r`. */
  predicate AllLe(l: seq<Entry>, r: seq<Entry>) {
    forall x, y :: x in l && y in r ==> Le(x, y)
  }

  /** No two slots hold the same name (always true of one directory). */
  predicate DistinctNames(s: seq<Entry>) {
    forall k, m :: 0 <= k < m < |s| ==> s[k].name != s[m].name
  }

  lemma LeTotal(x: Entry, y: Entry)
    ensures Le(x, y) || Le(y, x)
  {
    CompareAntisymmetric(x.name, y.name);
  }

  lemma LeTransitive(x: Entry, y: Entry, z: Entry)
    requires Le(x, y) && Le(y, z)
    ensures Le(x, z)
  {
    CompareTransitive(x.name, y.name, z.name);
  }

  /** Two entries each at most the other have the same name. */
  lemma LeBothWays(x: Entry, y: Entry)
    requires Le(x, y) && Le(y, x)
    ensures x.name == y.name
  {
    CompareAntisymmetric(x.name, y.name);
    CompareZeroIffEqual(x.name, y.name);
  }

  /** Inserting into a sorted sequence (the reference sort's step). */
  function Insert(x: Entry, s: seq<Entry>): (r: seq<Entry>)
    ensures |r| == |s| + 1
    ensures multiset(r) == multiset(s) + multiset{x}
  {
    if s == [] || Le(x, s[0]) then [x] + s
    else
      assert s == [s[0]] + s[1..];
      [s[0]] + Insert(x, s[1..])
  }

  /** A reference sort by name (insertion sort), independent of the quicksort. */
  function SortByName(s: seq<Entry>): (r: seq<Entry>)
    ensures |r| == |s|
    ensures multiset(r) == multiset(s)
  {
    if s == [] then []
    else
      assert s == [s[0]] + s[1..];
      Insert(s[0], SortByName(s[1..]))
  }

  lemma {:induction false} InsertSorted(x: Entry, s: seq<Entry>)
    requires Sorted(s)
    ensures Sorted(Insert(x, s))
  {
    var r := Insert(x, s);
    if s == [] || Le(x, s[0]) {
      assert r == [x] + s;
      forall k, m | 0 <= k < m < |r| ensures Le(r[k], r[m]) {
        if k == 0 {
          if m > 1 { LeTransitive(x, s[0], s[m - 1]); }
        } else {
          assert r[k] == s[k - 1] && r[m] == s[m - 1];
        }
      }
    } else {
      LeTotal(x, s[0]);
      InsertSorted(x, s[1..]);
      var t := Insert(x, s[1..]);
      assert r == [s[0]] + t;
      InsertAfterHead(x, s);
      forall k, m | 0 <= k < m < |r| ensures Le(r[k], r[m]) {
        if k > 0 {
          assert r[k] == t[k - 1] && r[m] == t[m - 1];
        }
      }
    }
  }

  /** Inserting an entry not below the head of a sorted sequence keeps the head below everything after it. */
  lemma InsertAfterHead(x: Entry, s: seq<Entry>)
    requires Sorted(s) && s != [] && Le(s[0], x)
    ensures forall m :: 0 <= m < |Insert(x, s[1..])| ==> Le(s[0], Insert(x, s[1..])[m])
  {
    var t := Insert(x, s[1..]);
    forall m | 0 <= m < |t| ensures Le(s[0], t[m]) {
      var y := t[m];
      assert y in multiset(t);
      if y != x {
        assert y in multiset(s[1..]);
        var j :| 0 <= j < |s[1..]| && s[1..][j] == y;
        assert s[j + 1] == y;
      }
    }
  }

  lemma {:induction false} SortByNameSorted(s: seq<Entry>)
    ensures Sorted(SortByName(s))
  {
    if s != [] {
      SortByNameSorted(s[1..]);
      InsertSorted(s[0], SortByName(s[1..]));
    }
  }

  /** Sorted sequences glue when every element on the left is at most every one on the right. */
  lemma SortedConcat(l: seq<Entry>, r: seq<Entry>)
    requires Sorted(l) && Sorted(r) && AllLe(l, r)
    ensures Sorted(l + r)
  {
    var s := l + r;
    forall k, m | 0 <= k < m < |s| ensures Le(s[k], s[m]) {
      if m < |l| {
        assert s[k] == l[k] && s[m] == l[m];
      } else if k >= |l| {
        assert s[k] == r[k - |l|] && s[m] == r[m - |l|];
      } else {
        assert s[k] in l && s[m] in r;
      }
    }
  }

  /** A permutation keeps every element on the same side of AllLe. */
  lemma AllLePermuted(l: seq<Entry>, r: seq<Entry>, l': seq<Entry>, r': seq<Entry>)
    requires AllLe(l, r)
    requires multiset(l') == multiset(l) && multiset(r') == multiset(r)
    ensures AllLe(l', r')
  {
    forall x, y | x in l' && y in r' ensures Le(x, y) {
      assert x in multiset(l') && y in multiset(r');
      assert x in l && y in r;
    }
  }

  lemma MultisetTail(s: seq<Entry>)
    requires s != []
    ensures multiset(s[1..]) == multiset(s) - multiset{s[0]}
  {
    assert s == [s[0]] + s[1..];
  }

  /** The head of a sorted sequence is at most each of its elements. */
  lemma HeadIsLeast(s: seq<Entry>, x: Entry)
    requires Sorted(s) && x in multiset(s)
    ensures Le(s[0], x)
  {
    var k :| 0 <= k < |s| && s[k] == x;
    if k == 0 {
      CompareZeroIffEqual(x.name, x.name);
    }
  }

  /**
   * Determinism: two sorted orders of the same entries are the same sequence
   * when the names are distinct, whatever the order the entries arrived in.
   */
  lemma {:induction false} SortedUnique(t: seq<Entry>, u: seq<Entry>)
    requires Sorted(t) && Sorted(u) && multiset(t) == multiset(u) && DistinctNames(t)
    ensures t == u
  {
    if t == [] {
      assert |u| == |multiset(u)| == 0;
    } else {
      assert |u| == |multiset(u)| == |multiset(t)| == |t|;
      SameHead(t, u);
      MultisetTail(t);
      MultisetTail(u);
      TailsKeepOrder(t);
      TailsKeepOrder(u);
      SortedUnique(t[1..], u[1..]);
      assert t == [t[0]] + t[1..] && u == [u[0]] + u[1..];
    }
  }

  lemma SameHead(t: seq<Entry>, u: seq<Entry>)
    requires t != [] && u != []
    requires Sorted(t) && Sorted(u) && multiset(t) == multiset(u) && DistinctNames(t)
    ensures t[0] == u[0]
  {
    HeadIsLeast(t, u[0]);
    HeadIsLeast(u, t[0]);
    LeBothWays(t[0], u[0]);
    assert u[0] in t;
    var k :| 0 <= k < |t| && t[k] == u[0];
    if k != 0 {
      assert t[0].name == t[k].name;
    }
  }

  lemma TailsKeepOrder(s: seq<Entry>)
    requires s != []
    ensures Sorted(s) ==> Sorted(s[1..])
    ensures DistinctNames(s) ==> DistinctNames(s[1..])
  {
  }

  /** With distinct names no entry occurs twice. */
  lemma {:induction false} OccursAtMostOnce(s: seq<Entry>, x: Entry)
    requires DistinctNames(s)
    ensures multiset(s)[x] <= 1
  {
    if s != [] {
      TailsKeepOrder(s);
      OccursAtMostOnce(s[1..], x);
      assert s == [s[0]] + s[1..];
      if s[0] == x {
        assert x !in s[1..];
      }
    }
  }

  /** Reordering keeps the names distinct. */
  lemma DistinctNamesPermuted(s: seq<Entry>, t: seq<Entry>)
    requires DistinctNames(s) && multiset(t) == multiset(s)
    ensures DistinctNames(t)
  {
    forall k, m | 0 <= k < m < |t| ensures t[k].name != t[m].name {
      if t[k] == t[m] {
        assert t == t[..k] + [t[k]] + t[k + 1..m] + [t[m]] + t[m + 1..];
        assert multiset(t)[t[k]] >= 2;
        OccursAtMostOnce(s, t[k]);
      } else {
        assert t[k] in multiset(s) && t[m] in multiset(s);
        var a :| 0 <= a < |s| && s[a] == t[k];
        var b :| 0 <= b < |s| && s[b] == t[m];
        assert a != b;
      }
    }
  }

  /** Any sorted permutation of entries with distinct names is the reference sort. */
  lemma SortedIsSortByName(s: seq<Entry>, t: seq<Entry>)
    requires Sorted(t) && multiset(t) == multiset(s) && DistinctNames(t)
    ensures t == SortByName(s)
  {
    SortByNameSorted(s);
    SortedUnique(t, SortByName(s));
  }
}
