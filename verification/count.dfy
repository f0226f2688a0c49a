/** Counting and summary statistics over a vector of `int`
    (codes/training/count.cpp).

    `AllCount` counts the elements that satisfy a condition; `MaxMinCount`,
    `Average` and `CalculateMedian` throw `domain_error` on an empty vector,
    here a `Failure(DomainError)`. The `double` results are modelled as exact
    `real`s, and the sorting step of the median is the merge sort of
    `MergeSorting`: any sort gives the same sorted vector
    (`MergeSorting.SortedPermutationUnique`). */
module Counting {
  import opened Wrappers
  import opened MergeSorting

  /** `count_if(vec.begin(), vec.end(), condition)`. */
  function AllCount(v: seq<int>, condition: int -> bool): (n: nat)
    ensures n <= |v|
  {
    if v == [] then 0 else (if condition(v[0]) then 1 else 0) + AllCount(v[1..], condition)
  }

  /** The negation of a condition. */
  function Not(condition: int -> bool): int -> bool {
    x => !condition(x)
  }

  lemma {:induction false} AllCountAppend(a: seq<int>, b: seq<int>, condition: int -> bool)
    ensures AllCount(a + b, condition) == AllCount(a, condition) + AllCount(b, condition)
    decreases |a|
  {
    if a == [] {
      assert a + b == b;
    } else {
      assert (a + b)[0] == a[0] && (a + b)[1..] == a[1..] + b;
      AllCountAppend(a[1..], b, condition);
    }
  }

  /** Every element either satisfies the condition or its negation. */
  lemma {:induction false} AllCountComplement(v: seq<int>, condition: int -> bool)
    ensures AllCount(v, condition) + AllCount(v, Not(condition)) == |v|
    decreases |v|
  {
    if v != [] {
      AllCountComplement(v[1..], condition);
    }
  }

  /** The count is zero exactly when no element satisfies the condition,
      and is the length exactly when every element does. */
  lemma {:induction false} AllCountExtremes(v: seq<int>, condition: int -> bool)
    ensures AllCount(v, condition) == 0 <==> forall i :: 0 <= i < |v| ==> !condition(v[i])
    ensures AllCount(v, condition) == |v| <==> forall i :: 0 <= i < |v| ==> condition(v[i])
    decreases |v|
  {
    if v != [] {
      AllCountExtremes(v[1..], condition);
      assert forall i :: 1 <= i < |v| ==> v[i] == v[1..][i - 1];
    }
  }

  /** Taking out the element at `j` takes it out of the multiset. */
  lemma RemoveAtMultiset(b: seq<int>, j: nat)
    requires j < |b|
    ensures multiset(b[..j] + b[j + 1..]) == multiset(b) - multiset{b[j]}
  {
    assert b == b[..j] + [b[j]] + b[j + 1..];
  }

  /** Taking out the element at `j` loses what it contributed to the count. */
  lemma RemoveAtCount(b: seq<int>, j: nat, condition: int -> bool)
    requires j < |b|
    ensures AllCount(b, condition) == (if condition(b[j]) then 1 else 0) + AllCount(b[..j] + b[j + 1..], condition)
  {
    assert b == b[..j] + b[j..];
    assert b[j..][0] == b[j] && b[j..][1..] == b[j + 1..];
    AllCountAppend(b[..j], b[j..], condition);
    AllCountAppend(b[..j], b[j + 1..], condition);
  }

  /** The count depends only on the elements, not on their order. */
  lemma {:induction false} AllCountPermutation(a: seq<int>, b: seq<int>, condition: int -> bool)
    requires multiset(a) == multiset(b)
    ensures AllCount(a, condition) == AllCount(b, condition)
    decreases |a|
  {
    if a != [] {
      assert a[0] in multiset(b) by {
        assert a[0] in multiset(a);
      }
      var j :| 0 <= j < |b| && b[j] == a[0];
      RemoveAtMultiset(b, j);
      RemoveAtCount(b, j, condition);
      assert multiset(a[1..]) == multiset(a) - multiset{a[0]} by {
        assert a == [a[0]] + a[1..];
      }
      AllCountPermutation(a[1..], b[..j] + b[j + 1..], condition);
    }
  }

  /** A prefix of `k` elements that all satisfy the condition contributes
      `k` to the count. */
  lemma CountAtLeastPrefix(s: seq<int>, k: nat, condition: int -> bool)
    requires k <= |s|
    requires forall j :: 0 <= j < k ==> condition(s[j])
    ensures AllCount(s, condition) >= k
  {
    assert s == s[..k] + s[k..];
    AllCountAppend(s[..k], s[k..], condition);
    AllCountExtremes(s[..k], condition);
  }

  /** A suffix from `k` on that satisfies the condition contributes
      `|s| - k` to the count. */
  lemma CountAtLeastSuffix(s: seq<int>, k: nat, condition: int -> bool)
    requires k <= |s|
    requires forall j :: k <= j < |s| ==> condition(s[j])
    ensures AllCount(s, condition) >= |s| - k
  {
    assert s == s[..k] + s[k..];
    AllCountAppend(s[..k], s[k..], condition);
    AllCountExtremes(s[k..], condition);
  }

  // ---------------------------------------------------------------------------
  // The test vector of `RunTests`
  // ---------------------------------------------------------------------------

  function Sample(): seq<int> {
    [1, 5, 3, 7, 5, 8, 2, 6, 5, 9]
  }

  /** The tails of the sample, as `AllCount` walks them. */
  lemma SampleTails()
    ensures Sample()[1..] == [5, 3, 7, 5, 8, 2, 6, 5, 9]
    ensures Sample()[1..][1..] == [3, 7, 5, 8, 2, 6, 5, 9]
    ensures Sample()[1..][1..][1..] == [7, 5, 8, 2, 6, 5, 9]
    ensures Sample()[1..][1..][1..][1..] == [5, 8, 2, 6, 5, 9]
    ensures Sample()[1..][1..][1..][1..][1..] == [8, 2, 6, 5, 9]
    ensures Sample()[1..][1..][1..][1..][1..][1..] == [2, 6, 5, 9]
    ensures Sample()[1..][1..][1..][1..][1..][1..][1..] == [6, 5, 9]
    ensures Sample()[1..][1..][1..][1..][1..][1..][1..][1..] == [5, 9]
    ensures Sample()[1..][1..][1..][1..][1..][1..][1..][1..][1..] == [9]
  {
  }

  /** The first test: three elements equal 5. */
  lemma SampleCountEqualFive()
    ensures AllCount(Sample(), x => x == 5) == 3
  {
    SampleTails();
  }

  /** The second test: seven elements are greater than 3. */
  lemma SampleCountAboveThree()
    ensures AllCount(Sample(), x => x > 3) == 7
  {
    SampleTails();
  }

  /** The third test: eight elements lie in `[2, 8]`. */
  lemma SampleCountBetween()
    ensures AllCount(Sample(), x => 2 <= x <= 8) == 8
  {
    SampleTails();
  }

  // ---------------------------------------------------------------------------
  // Minimum and maximum
  // ---------------------------------------------------------------------------

  /** `minmax_element` of a non-empty vector, as the pair of values. */
  function MinMax(v: seq<int>): (r: (int, int))
    requires |v| > 0
    ensures r.0 in v && r.1 in v
    ensures forall i :: 0 <= i < |v| ==> r.0 <= v[i] <= r.1
  {
    if |v| == 1 then (v[0], v[0])
    else
      var (lo, hi) := MinMax(v[..|v| - 1]);
      var last := v[|v| - 1];
      assert v == v[..|v| - 1] + [last];
      (if last < lo then last else lo, if last > hi then last else hi)
  }

  /** `MaxMinCount`: `domain_error` on an empty vector, otherwise the pair
      (smallest, largest). */
  function MaxMinCount(v: seq<int>): (r: Result<(int, int), StdError>)
    ensures r.Failure? <==> |v| == 0
    ensures r.Failure? ==> r.error == DomainError
    ensures r.Success? ==> r.value.0 in v && r.value.1 in v
    ensures r.Success? ==> forall i :: 0 <= i < |v| ==> r.value.0 <= v[i] <= r.value.1
  {
    if |v| == 0 then Failure(DomainError) else Success(MinMax(v))
  }

  /** The pair the tests expect: the sample's minimum is 1 and its maximum 9. */
  lemma SampleMinMax()
    ensures MaxMinCount(Sample()) == Success((1, 9))
  {
    var s := Sample();
    var r := MaxMinCount(s).value;
    assert s[0] == 1 && s[9] == 9;
  }

  // ---------------------------------------------------------------------------
  // Average and median
  // ---------------------------------------------------------------------------

  function Sum(v: seq<int>): int {
    if v == [] then 0 else v[0] + Sum(v[1..])
  }

  /** `Average`: `domain_error` on an empty vector, otherwise the sum divided
      by the number of elements. */
  function Average(v: seq<int>): (r: Result<real, StdError>)
    ensures r.Failure? <==> |v| == 0
    ensures r.Failure? ==> r.error == DomainError
    ensures r.Success? ==> r.value * |v| as real == Sum(v) as real
  {
    if |v| == 0 then Failure(DomainError) else Success(Sum(v) as real / |v| as real)
  }

  /** The sum lies between the length times the minimum and the length times
      the maximum. */
  lemma {:induction false} SumBounds(v: seq<int>, lo: int, hi: int)
    requires forall i :: 0 <= i < |v| ==> lo <= v[i] <= hi
    ensures |v| * lo <= Sum(v) <= |v| * hi
    decreases |v|
  {
    if v != [] {
      SumBounds(v[1..], lo, hi);
    }
  }

  /** Dividing bounds on `n` times a value by `n`. */
  lemma DivideBounds(sum: int, n: nat, lo: int, hi: int)
    requires n > 0 && n * lo <= sum <= n * hi
    ensures lo as real <= sum as real / n as real <= hi as real
  {
    var q := sum as real / n as real;
    assert q * n as real == sum as real;
    assert (n * lo) as real == n as real * lo as real;
    assert (n * hi) as real == n as real * hi as real;
  }

  /** The average lies between the minimum and the maximum. */
  lemma AverageBetweenMinMax(v: seq<int>)
    requires |v| > 0
    ensures MaxMinCount(v).value.0 as real <= Average(v).value <= MaxMinCount(v).value.1 as real
  {
    var (lo, hi) := MaxMinCount(v).value;
    SumBounds(v, lo, hi);
    DivideBounds(Sum(v), |v|, lo, hi);
  }

  /** The average the tests expect: 51 / 10. */
  lemma SampleAverage()
    ensures Average(Sample()) == Success(5.1)
  {
    var s := Sample();
    assert Sum(s[9..]) == 9;
    assert Sum(s[8..]) == 14;
    assert Sum(s[7..]) == 20;
    assert Sum(s[6..]) == 22;
    assert Sum(s[5..]) == 30;
    assert Sum(s[4..]) == 35;
    assert Sum(s[3..]) == 42;
    assert Sum(s[2..]) == 45;
    assert Sum(s[1..]) == 50;
    assert Sum(s) == 51;
  }

  /** The median read off a sorted vector: `domain_error` when it is empty,
      the middle element for an odd size, the mean of the two middle
      elements for an even size. */
  function MedianOfSorted(sorted: seq<int>): (r: Result<real, StdError>)
    ensures r.Failure? <==> |sorted| == 0
    ensures r.Failure? ==> r.error == DomainError
    ensures r.Success? ==> 2.0 * r.value == (sorted[(|sorted| - 1) / 2] + sorted[|sorted| / 2]) as real
    ensures r.Success? && Sorted(sorted) ==>
              sorted[(|sorted| - 1) / 2] as real <= r.value <= sorted[|sorted| / 2] as real
  {
    var size := |sorted|;
    if size == 0 then Failure(DomainError)
    else if size % 2 == 0 then Success((sorted[size / 2 - 1] + sorted[size / 2]) as real / 2.0)
    else Success(sorted[size / 2] as real)
  }

  /** `CalculateMedian`: sorts a copy of the vector, then takes its median. */
  function CalculateMedian(v: seq<int>): (r: Result<real, StdError>)
    ensures r.Failure? <==> |v| == 0
    ensures r.Failure? ==> r.error == DomainError
  {
    MedianOfSorted(Sort(v))
  }

  function AtMost(m: real): int -> bool {
    x => x as real <= m
  }

  function AtLeast(m: real): int -> bool {
    x => x as real >= m
  }

  /** The first `k` elements of a sorted vector are no greater than a bound
      that the `k`-th one respects. */
  lemma PrefixAtMost(s: seq<int>, k: nat, m: real)
    requires Sorted(s) && 0 < k <= |s| && s[k - 1] as real <= m
    ensures AllCount(s, AtMost(m)) >= k
  {
    forall j | 0 <= j < k
      ensures AtMost(m)(s[j])
    {
      assert s[j] <= s[k - 1];
    }
    CountAtLeastPrefix(s, k, AtMost(m));
  }

  /** The elements from `k` on are no smaller than a bound that `s[k]`
      respects. */
  lemma SuffixAtLeast(s: seq<int>, k: nat, m: real)
    requires Sorted(s) && k < |s| && s[k] as real >= m
    ensures AllCount(s, AtLeast(m)) >= |s| - k
  {
    forall j | k <= j < |s|
      ensures AtLeast(m)(s[j])
    {
      assert s[k] <= s[j];
    }
    CountAtLeastSuffix(s, k, AtLeast(m));
  }

  /** The halving property on the sorted copy itself. */
  lemma SortedHalves(s: seq<int>, m: real)
    requires Sorted(s) && |s| > 0
    requires m == if |s| % 2 == 0 then (s[|s| / 2 - 1] + s[|s| / 2]) as real / 2.0 else s[|s| / 2] as real
    ensures AllCount(s, AtMost(m)) >= (|s| + 1) / 2
    ensures AllCount(s, AtLeast(m)) >= (|s| + 1) / 2
  {
    var n := |s|;
    if n % 2 == 1 {
      PrefixAtMost(s, n / 2 + 1, m);
      SuffixAtLeast(s, n / 2, m);
    } else {
      assert s[n / 2 - 1] <= s[n / 2];
      PrefixAtMost(s, n / 2, m);
      SuffixAtLeast(s, n / 2, m);
    }
  }

  /** The median splits the vector in halves: at least half of the elements
      (rounded up) are no greater than it and at least half are no smaller;
      for an odd size it is one of the elements. */
  lemma MedianSplitsInHalves(v: seq<int>)
    requires |v| > 0
    ensures AllCount(v, AtMost(CalculateMedian(v).value)) >= (|v| + 1) / 2
    ensures AllCount(v, AtLeast(CalculateMedian(v).value)) >= (|v| + 1) / 2
    ensures |v| % 2 == 1 ==> exists i :: 0 <= i < |v| && v[i] as real == CalculateMedian(v).value
  {
    var s := Sort(v);
    var m := CalculateMedian(v).value;
    SortedHalves(s, m);
    AllCountPermutation(v, s, AtMost(m));
    AllCountPermutation(v, s, AtLeast(m));
    if |s| % 2 == 1 {
      assert s[|s| / 2] in multiset(v) by {
        assert s[|s| / 2] in multiset(s);
      }
    }
  }

  /** The copy is sorted, never the caller's vector: the median does not
      depend on the order of the elements. */
  lemma MedianIgnoresOrder(a: seq<int>, b: seq<int>)
    requires multiset(a) == multiset(b)
    ensures CalculateMedian(a) == CalculateMedian(b)
  {
    SortedPermutationUnique(Sort(a), Sort(b));
  }

  /** The median of a vector is the median of any sorted permutation of it. */
  lemma MedianOfAnySortedPermutation(v: seq<int>, sorted: seq<int>)
    requires Sorted(sorted) && multiset(sorted) == multiset(v)
    ensures CalculateMedian(v) == MedianOfSorted(sorted)
  {
    SortedPermutationUnique(Sort(v), sorted);
  }

  /** The sample in non-decreasing order. */
  function SortedSample(): seq<int> {
    [1, 2, 3, 5, 5, 5, 6, 7, 8, 9]
  }

  lemma SampleElements()
    ensures multiset(Sample()) == multiset{1, 5, 3, 7, 5, 8, 2, 6, 5, 9}
  {
  }

  lemma SortedSampleElements()
    ensures multiset(SortedSample()) == multiset{1, 2, 3, 5, 5, 5, 6, 7, 8, 9}
  {
  }

  lemma SameElements()
    ensures multiset{1, 5, 3, 7, 5, 8, 2, 6, 5, 9} == multiset{1, 2, 3, 5, 5, 5, 6, 7, 8, 9}
  {
  }

  lemma SortedSampleSorted()
    ensures Sorted(SortedSample())
  {
  }

  /** `SortedSample` is the sample sorted. */
  lemma SortedSampleIsSortedSample()
    ensures Sorted(SortedSample())
    ensures multiset(SortedSample()) == multiset(Sample())
  {
    SampleElements();
    SortedSampleElements();
    SameElements();
    SortedSampleSorted();
  }

  lemma SortedSampleMedian()
    ensures MedianOfSorted(SortedSample()) == Success(5.0)
  {
    assert SortedSample()[4] == 5 && SortedSample()[5] == 5;
  }

  /** The median the tests expect: the two middle elements of the sorted
      sample are both 5. */
  lemma SampleMedian()
    ensures CalculateMedian(Sample()) == Success(5.0)
  {
    SortedSampleIsSortedSample();
    SortedSampleMedian();
    MedianOfAnySortedPermutation(Sample(), SortedSample());
  }
}
