/** The fixed-capacity vector `StackVector<T, N>` (codes/projects/array/stack_vector.h).

    The object is a `std::array<T, N>` of cells, here `vec` with `|vec| == N`,
    and the count `size` of cells in use. Every violated precondition of the
    source throws; here it is a `Failure` carrying the exception's kind, and
    a failing operation yields no new vector, so the old one stays as it was. */
module StackVectors {
  import opened Wrappers

  datatype StackVector<T> = StackVector(vec: seq<T>, size: nat)

  /** The class invariant: at most `N` cells are in use. */
  predicate Valid<T>(sv: StackVector<T>) {
    sv.size <= |sv.vec|
  }

  /** `Size()`: the number of elements. */
  function Size<T>(sv: StackVector<T>): (n: nat)
    ensures Valid(sv) ==> n <= |sv.vec|
  {
    sv.size
  }

  /** `Capacity()`: always the template argument `N`. */
  function Capacity<T>(sv: StackVector<T>): (c: nat)
    ensures Valid(sv) ==> Size(sv) <= c
  {
    |sv.vec|
  }

  /** The range `begin()`..`end()`: the first `Size()` cells. */
  function Items<T>(sv: StackVector<T>): (s: seq<T>)
    requires Valid(sv)
    ensures |s| == Size(sv)
    ensures forall k :: 0 <= k < |s| ==> s[k] == sv.vec[k]
  {
    sv.vec[..sv.size]
  }

  /** `StackVector<T, n>(aSize)`: throws `invalid_argument` when `aSize`
      exceeds the capacity `n`; otherwise holds `aSize` elements. `blank` is
      the value the array's cells start with. */
  function New<T>(n: nat, aSize: nat, blank: T): (r: Result<StackVector<T>, StdError>)
    ensures r.Failure? <==> aSize > n
    ensures r.Failure? ==> r.error == InvalidArgument
    ensures r.Success? ==> Valid(r.value) && Size(r.value) == aSize && Capacity(r.value) == n
  {
    if aSize > n then Failure(InvalidArgument)
    else Success(StackVector(seq(n, _ => blank), aSize))
  }

  /** `operator[]` read: throws `out_of_range` for an index at or past the size. */
  function At<T>(sv: StackVector<T>, index: nat): (r: Result<T, StdError>)
    requires Valid(sv)
    ensures r.Failure? <==> index >= Size(sv)
    ensures r.Failure? ==> r.error == OutOfRange
    ensures r.Success? ==> r.value == Items(sv)[index]
  {
    if index >= sv.size then Failure(OutOfRange) else Success(sv.vec[index])
  }

  /** `operator[]` write `sv[index] = value`: throws `out_of_range` like the
      read; otherwise only that element changes. */
  function SetAt<T>(sv: StackVector<T>, index: nat, value: T): (r: Result<StackVector<T>, StdError>)
    requires Valid(sv)
    ensures r.Failure? <==> index >= Size(sv)
    ensures r.Failure? ==> r.error == OutOfRange
    ensures r.Success? ==> Valid(r.value) && Capacity(r.value) == Capacity(sv)
    ensures r.Success? ==> Items(r.value) == Items(sv)[index := value]
  {
    if index >= sv.size then Failure(OutOfRange)
    else
      var r := StackVector(sv.vec[index := value], sv.size);
      assert Items(r) == Items(sv)[index := value];
      Success(r)
  }

  /** `PushBack`: throws `overflow_error` when all `N` cells are in use;
      otherwise appends `value`. */
  function PushBack<T>(sv: StackVector<T>, value: T): (r: Result<StackVector<T>, StdError>)
    requires Valid(sv)
    ensures r.Failure? <==> Size(sv) == Capacity(sv)
    ensures r.Failure? ==> r.error == OverflowError
    ensures r.Success? ==> Valid(r.value) && Capacity(r.value) == Capacity(sv)
    ensures r.Success? ==> Items(r.value) == Items(sv) + [value]
  {
    if sv.size == |sv.vec| then Failure(OverflowError)
    else
      var r := StackVector(sv.vec[sv.size := value], sv.size + 1);
      assert Items(r) == Items(sv) + [value];
      Success(r)
  }

  /** `PopBack`: throws `underflow_error` when empty; otherwise returns the
      vector without its last element, and that element. */
  function PopBack<T>(sv: StackVector<T>): (r: Result<(StackVector<T>, T), StdError>)
    requires Valid(sv)
    ensures r.Failure? <==> Size(sv) == 0
    ensures r.Failure? ==> r.error == UnderflowError
    ensures r.Success? ==> Valid(r.value.0) && Capacity(r.value.0) == Capacity(sv)
    ensures r.Success? ==> Items(sv) == Items(r.value.0) + [r.value.1]
  {
    if sv.size == 0 then Failure(UnderflowError)
    else
      var r := StackVector(sv.vec, sv.size - 1);
      assert Items(sv) == Items(r) + [sv.vec[sv.size - 1]];
      Success((r, sv.vec[sv.size - 1]))
  }

  /** `PopBack` right after a successful `PushBack(x)` returns `x` and gives
      back a vector with the previous elements and size. */
  lemma PushBackThenPopBack<T>(sv: StackVector<T>, x: T)
    requires Valid(sv) && Size(sv) < Capacity(sv)
    ensures PushBack(sv, x).Success?
    ensures PopBack(PushBack(sv, x).value).Success?
    ensures PopBack(PushBack(sv, x).value).value.1 == x
    ensures Items(PopBack(PushBack(sv, x).value).value.0) == Items(sv)
  {
    var pushed := PushBack(sv, x).value;
    var popped := PopBack(pushed).value;
    assert Items(popped.0) + [popped.1] == Items(sv) + [x];
    assert Items(popped.0) == (Items(sv) + [x])[..Size(sv)];
  }

  /** A vector built with `aSize <= n` elements accepts exactly `n - aSize`
      further `PushBack`s: the capacity is a hard bound. */
  lemma {:induction false} FullAfterCapacityPushes<T>(sv: StackVector<T>, xs: seq<T>)
    requires Valid(sv) && Size(sv) + |xs| == Capacity(sv)
    ensures PushAll(sv, xs).Success?
    ensures Size(PushAll(sv, xs).value) == Capacity(sv)
    ensures forall y :: PushBack(PushAll(sv, xs).value, y) == Failure(OverflowError)
    decreases |xs|
  {
    if |xs| > 0 {
      FullAfterCapacityPushes(PushBack(sv, xs[0]).value, xs[1..]);
    }
  }

  /** Pushes the values of `xs` in order, stopping at the first failure. */
  function PushAll<T>(sv: StackVector<T>, xs: seq<T>): (r: Result<StackVector<T>, StdError>)
    requires Valid(sv)
    ensures r.Success? ==> Valid(r.value) && Capacity(r.value) == Capacity(sv)
    ensures r.Success? ==> Items(r.value) == Items(sv) + xs
    decreases |xs|
  {
    if |xs| == 0 then Success(sv)
    else
      match PushBack(sv, xs[0])
      case Failure(e) => Failure(e)
      case Success(next) =>
        var r := PushAll(next, xs[1..]);
        assert r.Success? ==> Items(sv) + xs == Items(sv) + [xs[0]] + xs[1..];
        r
  }
}
