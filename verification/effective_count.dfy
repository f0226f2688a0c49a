/** Counting the elements no greater than a bound in a sorted vector
    (codes/choozeAlgoritgm.cpp).

    `EffectiveCount` finds the first element greater than `i`, either by a
    linear `find_if` or by the binary search `upper_bound`, and returns its
    distance from the start. The choice between the two depends on a
    floating-point estimate and is a parameter here; both searches return the
    same position on sorted input, so the choice never changes the result. */
module EffectiveCounting {
  import opened MergeSorting
  import opened Counting

  /** The condition `x <= i`. */
  function NotAbove(i: int): int -> bool {
    x => x <= i
  }

  /** `k` splits `v` into the elements no greater than `i` and those
      greater. */
  predicate Partitions(v: seq<int>, i: int, k: nat) {
    k <= |v|
    && (forall j :: 0 <= j < k ==> v[j] <= i)
    && (forall j :: k <= j < |v| ==> v[j] > i)
  }

  /** `find_if(v.begin(), v.end(), [i](int x) { return x > i; })`: the first
      position holding an element greater than `i`, or the size. */
  method FindIfGreater(v: seq<int>, i: int) returns (k: nat)
    ensures k <= |v|
    ensures forall j :: 0 <= j < k ==> v[j] <= i
    ensures k < |v| ==> v[k] > i
  {
    k := 0;
    while k < |v| && v[k] <= i
      invariant k <= |v|
      invariant forall j :: 0 <= j < k ==> v[j] <= i
    {
      k := k + 1;
    }
  }

  /** `upper_bound(v.begin(), v.end(), i)` on a sorted vector: halves the
      candidate range `[lo, hi)` until it is empty. */
  method UpperBound(v: seq<int>, i: int) returns (k: nat)
    requires Sorted(v)
    ensures Partitions(v, i, k)
  {
    var lo, hi := 0, |v|;
    while lo < hi
      invariant 0 <= lo <= hi <= |v|
      invariant forall j :: 0 <= j < lo ==> v[j] <= i
      invariant forall j :: hi <= j < |v| ==> v[j] > i
      decreases hi - lo
    {
      var mid := lo + (hi - lo) / 2;
      if i < v[mid] {
        hi := mid;
      } else {
        lo := mid + 1;
      }
    }
    k := lo;
  }

  /** The partition point is the number of elements no greater than `i`. */
  lemma PartitionCounts(v: seq<int>, i: int, k: nat)
    requires Partitions(v, i, k)
    ensures AllCount(v, NotAbove(i)) == k
  {
    CountAtLeastPrefix(v, k, NotAbove(i));
    assert v == v[..k] + v[k..];
    AllCountAppend(v[..k], v[k..], NotAbove(i));
    AllCountExtremes(v[k..], NotAbove(i));
  }

  /** There is only one partition point: any two positions that split `v`
      at `i` coincide. */
  lemma PartitionIsUnique(v: seq<int>, i: int, k1: nat, k2: nat)
    requires Partitions(v, i, k1) && Partitions(v, i, k2)
    ensures k1 == k2
  {
    PartitionCounts(v, i, k1);
    PartitionCounts(v, i, k2);
  }

  /** `EffectiveCount(v, n, i)` on a sorted vector: the number of elements no
      greater than `i`. `useFindIf` stands for the outcome of the source's
      estimate `expected_count <= log2(v.size())`. */
  method EffectiveCount(v: seq<int>, i: int, useFindIf: bool) returns (count: nat)
    requires Sorted(v)
    ensures Partitions(v, i, count)
    ensures count == AllCount(v, NotAbove(i))
  {
    var it: nat;
    if useFindIf {
      it := FindIfGreater(v, i);
      assert forall j :: it <= j < |v| ==> v[j] > i by {
        forall j | it <= j < |v|
          ensures v[j] > i
        {
          assert v[it] <= v[j];
        }
      }
    } else {
      it := UpperBound(v, i);
    }
    count := it;
    PartitionCounts(v, i, count);
  }

  /** The branch taken does not matter: both searches give the same count. */
  method BothBranchesAgree(v: seq<int>, i: int) returns (linear: nat, binary: nat)
    requires Sorted(v)
    ensures linear == binary == AllCount(v, NotAbove(i))
  {
    linear := EffectiveCount(v, i, true);
    binary := EffectiveCount(v, i, false);
  }
}
