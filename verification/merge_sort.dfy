/** Top-down merge sort of a range of a vector of `int` (codes/test3.cpp).

    The vector is a sequence and the iterator range `[begin, end)` is a pair
    of indices. Sorting a range returns the whole new vector, so that the
    cells outside the range can be seen to be untouched. */
module MergeSorting {

  predicate Sorted(s: seq<int>) {
    forall i, j :: 0 <= i < j < |s| ==> s[i] <= s[j]
  }

  /** Prepending an element no greater than the head keeps a sequence sorted. */
  lemma SortedCons(x: int, s: seq<int>)
    requires Sorted(s) && (s == [] || x <= s[0])
    ensures Sorted([x] + s)
  {
    var t := [x] + s;
    forall i, j | 0 <= i < j < |t|
      ensures t[i] <= t[j]
    {
      if i == 0 && j > 1 {
        assert s[0] <= s[j - 1];
      }
    }
  }

  /** A non-empty sequence is its head followed by its tail. */
  lemma MultisetCons(s: seq<int>)
    requires s != []
    ensures multiset(s) == multiset{s[0]} + multiset(s[1..])
  {
    assert s == [s[0]] + s[1..];
  }

  /** The tail of a sorted sequence is sorted, and the head bounds it. */
  lemma SortedTail(s: seq<int>)
    requires Sorted(s) && s != []
    ensures Sorted(s[1..])
    ensures forall k :: 0 <= k < |s| - 1 ==> s[0] <= s[1..][k]
  {
  }

  /** `std::merge` of two sorted ranges into a new vector: the smaller head
      goes first, and on equal heads the element of the first range does. */
  function Merge(a: seq<int>, b: seq<int>): (r: seq<int>)
    requires Sorted(a) && Sorted(b)
    ensures Sorted(r)
    ensures multiset(r) == multiset(a) + multiset(b)
    ensures |r| == |a| + |b|
    ensures |r| > 0 ==> (|a| > 0 && r[0] == a[0]) || (|b| > 0 && r[0] == b[0])
    decreases |a| + |b|
  {
    if a == [] then b
    else if b == [] then a
    else if b[0] < a[0] then
      SortedTail(b);
      var rest := Merge(a, b[1..]);
      SortedCons(b[0], rest);
      MultisetCons(b);
      [b[0]] + rest
    else
      SortedTail(a);
      var rest := Merge(a[1..], b);
      SortedCons(a[0], rest);
      MultisetCons(a);
      [a[0]] + rest
  }

  /** The elements of a range are those of its two halves. */
  lemma SliceMultiset(s: seq<int>, b: nat, m: nat, e: nat)
    requires b <= m <= e <= |s|
    ensures multiset(s[b..e]) == multiset(s[b..m]) + multiset(s[m..e])
  {
    assert s[b..e] == s[b..m] + s[m..e];
  }

  /** Two vectors that agree on a range have equal slices there. */
  lemma SameSlice(s: seq<int>, t: seq<int>, b: nat, e: nat)
    requires b <= e <= |s| == |t|
    requires forall i :: b <= i < e ==> s[i] == t[i]
    ensures s[b..e] == t[b..e]
  {
  }

  /** Overwriting the range `[b, b + |x|)` of `s` with `x`. */
  lemma Splice(s: seq<int>, b: nat, x: seq<int>)
    requires b + |x| <= |s|
    ensures |s[..b] + x + s[b + |x|..]| == |s|
    ensures (s[..b] + x + s[b + |x|..])[b..b + |x|] == x
    ensures forall i :: 0 <= i < b || b + |x| <= i < |s| ==> (s[..b] + x + s[b + |x|..])[i] == s[i]
  {
  }

  /** `MergeSort(begin, end)`: a range of fewer than two elements is left as
      it is; otherwise both halves, split at `begin + len / 2`, are sorted
      recursively, merged into a temporary vector and copied back. The range
      ends up sorted and a permutation of what it held, and nothing outside
      it changes. */
  function MergeSort(v: seq<int>, begin: nat, end: nat): (r: seq<int>)
    requires begin <= end <= |v|
    ensures |r| == |v|
    ensures forall i :: 0 <= i < begin || end <= i < |v| ==> r[i] == v[i]
    ensures multiset(r[begin..end]) == multiset(v[begin..end])
    ensures Sorted(r[begin..end])
    decreases end - begin
  {
    if end - begin < 2 then v
    else
      var middle := begin + (end - begin) / 2;
      var left := MergeSort(v, begin, middle);
      var both := MergeSort(left, middle, end);
      SameSlice(both, left, begin, middle);
      SameSlice(left, v, middle, end);
      SliceMultiset(v, begin, middle, end);
      SliceMultiset(both, begin, middle, end);
      var merged := Merge(both[begin..middle], both[middle..end]);
      Splice(both, begin, merged);
      both[..begin] + merged + both[end..]
  }

  /** `MergeSort(v.begin(), v.end())`: sorting the whole vector gives a
      sorted permutation of it. */
  function Sort(v: seq<int>): (s: seq<int>)
    ensures Sorted(s) && multiset(s) == multiset(v) && |s| == |v|
  {
    var r := MergeSort(v, 0, |v|);
    assert r[0..|r|] == r && v[0..|v|] == v;
    r
  }

  /** A sorted permutation is unique: two sorted sequences with the same
      elements are equal. */
  lemma {:induction false} SortedPermutationUnique(a: seq<int>, b: seq<int>)
    requires Sorted(a) && Sorted(b) && multiset(a) == multiset(b)
    ensures a == b
    decreases |a|
  {
    if a != [] {
      assert |b| == |a| by {
        assert |multiset(a)| == |a| && |multiset(b)| == |b|;
      }
      assert a[0] in multiset(b) && b[0] in multiset(a) by {
        assert a[0] in multiset(a) && b[0] in multiset(b);
      }
      assert a[0] == b[0] by {
        var i :| 0 <= i < |b| && b[i] == a[0];
        var j :| 0 <= j < |a| && a[j] == b[0];
        assert b[0] <= a[0] && a[0] <= b[0];
      }
      assert a == [a[0]] + a[1..] && b == [b[0]] + b[1..];
      assert multiset(a[1..]) == multiset(b[1..]) by {
        assert multiset(a) == multiset{a[0]} + multiset(a[1..]);
        assert multiset(b) == multiset{b[0]} + multiset(b[1..]);
        assert multiset(a[1..]) == multiset(a) - multiset{a[0]};
        assert multiset(b[1..]) == multiset(b) - multiset{b[0]};
      }
      SortedPermutationUnique(a[1..], b[1..]);
    }
  }
}
