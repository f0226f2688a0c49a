/** The growable array `SimpleVector<Type>` (codes/projects/Simplevector/simple_vector.h).

    A vector is an `ArrayPtr` buffer plus the `size_` and `capacity_`
    counters. Cells of the buffer at or beyond `size` are storage that is not
    yet part of the vector; `Elements` is the sequence the vector denotes.
    Every operation returns the new vector value; operations that allocate
    take `blank`, the value a fresh `new Type[n]` leaves in each cell. */
module SimpleVectors {
  import opened Wrappers
  import opened ArrayPtrs

  datatype SimpleVector<T> = SimpleVector(items: ArrayPtr<T>, size: nat, capacity: nat)

  /** The class invariant: the buffer has exactly `capacity` cells, it is null
      exactly when the capacity is 0, and the size never exceeds the capacity. */
  predicate Valid<T>(v: SimpleVector<T>) {
    && v.size <= v.capacity
    && Length(v.items) == v.capacity
    && (IsSet(v.items) <==> v.capacity > 0)
  }

  /** All cells of the buffer, including the unused tail. */
  function Buffer<T>(v: SimpleVector<T>): seq<T> {
    if v.items.raw.Some? then v.items.raw.value else []
  }

  /** The sequence of values the vector holds: the range `begin()`..`end()`. */
  function Elements<T>(v: SimpleVector<T>): (s: seq<T>)
    requires Valid(v)
    ensures |s| == v.size
    ensures forall i :: 0 <= i < v.size ==> s[i] == Index(v.items, i)
  {
    Buffer(v)[..v.size]
  }

  /** Writes `src` into the buffer starting at cell `at`, as `std::copy`,
      `std::move` and `std::move_backward` do; the other cells keep their values. */
  function CopyInto<T>(src: seq<T>, p: ArrayPtr<T>, at: nat): (q: ArrayPtr<T>)
    requires IsSet(p) && at + |src| <= Length(p)
    ensures IsSet(q) && Length(q) == Length(p)
    ensures forall i :: 0 <= i < |src| ==> Index(q, at + i) == src[i]
    ensures forall i :: 0 <= i < Length(p) && !(at <= i < at + |src|) ==> Index(q, i) == Index(p, i)
  {
    var cells := p.raw.value;
    ArrayPtr(Some(cells[..at] + src + cells[at + |src|..]))
  }

  // ---------------------------------------------------------------------------
  // Construction, copy and move
  // ---------------------------------------------------------------------------

  /** The default constructor: no elements, no storage. */
  function Empty<T>(): (v: SimpleVector<T>)
    ensures Valid(v) && Elements(v) == [] && v.capacity == 0
  {
    SimpleVector(Null(), 0, 0)
  }

  /** `SimpleVector(size)`: `size` elements in a buffer of exactly that
      capacity, each cell holding whatever `new Type[size]` leaves there,
      written `blank` as for `Allocate`. */
  function WithSize<T>(size: nat, blank: T): (v: SimpleVector<T>)
    ensures Valid(v) && v.size == size && v.capacity == size
    ensures forall i :: 0 <= i < size ==> Elements(v)[i] == blank
  {
    SimpleVector(Allocate(size, blank), size, size)
  }

  /** `SimpleVector(size, value)`: a fresh buffer of `size` cells, each then
      overwritten with `value` by `std::fill`. */
  function Filled<T>(size: nat, value: T, blank: T): (v: SimpleVector<T>)
    ensures Valid(v) && v.size == size && v.capacity == size
    ensures forall i :: 0 <= i < size ==> Elements(v)[i] == value
  {
    var newItems := Allocate(size, blank);
    var items := if size == 0 then newItems else CopyInto(seq(size, _ => value), newItems, 0);
    SimpleVector(items, size, size)
  }

  /** `SimpleVector(std::initializer_list)`: the listed values, in order, with
      capacity equal to their number. */
  function FromList<T>(init: seq<T>, blank: T): (v: SimpleVector<T>)
    ensures Valid(v) && v.capacity == |init|
    ensures Elements(v) == init
  {
    var newItems := Allocate(|init|, blank);
    var items := if |init| == 0 then newItems else CopyInto(init, newItems, 0);
    SimpleVector(items, |init|, |init|)
  }

  /** The copy constructor: a vector with the same elements whose capacity
      shrinks to the source's size. */
  function Copy<T>(other: SimpleVector<T>, blank: T): (v: SimpleVector<T>)
    requires Valid(other)
    ensures Valid(v) && v.capacity == other.size
    ensures Elements(v) == Elements(other)
  {
    FromList(Elements(other), blank)
  }

  /** Copy assignment: copy-and-swap, skipped when both sides are one object
      (`aliased`, the `this == &other` check). */
  function CopyAssign<T>(self: SimpleVector<T>, other: SimpleVector<T>, aliased: bool, blank: T): (v: SimpleVector<T>)
    requires Valid(self) && Valid(other)
    requires aliased ==> self == other
    ensures Valid(v)
    ensures Elements(v) == Elements(other)
    ensures aliased ==> v == self
    ensures !aliased ==> v.capacity == other.size
  {
    if aliased then self else Swap(self, Copy(other, blank)).0
  }

  /** The move constructor: the new vector takes over the source's buffer,
      size and capacity; the source is left empty with no storage. */
  function MoveConstruct<T>(other: SimpleVector<T>): (r: (SimpleVector<T>, SimpleVector<T>))
    requires Valid(other)
    ensures Valid(r.0) && Valid(r.1)
    ensures Elements(r.0) == Elements(other) && r.0.capacity == other.capacity
    ensures Elements(r.1) == [] && r.1.capacity == 0
  {
    var (items, moved) := ArrayPtrs.MoveConstruct(other.items);
    (SimpleVector(items, other.size, other.capacity), SimpleVector(moved, 0, 0))
  }

  /** Move assignment, returning the new values of `self` and `other`; a
      no-op when both are one object. */
  function MoveAssign<T>(self: SimpleVector<T>, other: SimpleVector<T>, aliased: bool): (r: (SimpleVector<T>, SimpleVector<T>))
    requires Valid(self) && Valid(other)
    requires aliased ==> self == other
    ensures Valid(r.0) && Valid(r.1)
    ensures aliased ==> r == (self, other)
    ensures !aliased ==> Elements(r.0) == Elements(other) && r.0.capacity == other.capacity
    ensures !aliased ==> Elements(r.1) == [] && r.1.capacity == 0
  {
    if aliased then (self, other)
    else
      var (items, moved) := ArrayPtrs.MoveAssign(self.items, other.items, false);
      (SimpleVector(items, other.size, other.capacity), SimpleVector(moved, 0, 0))
  }

  /** `swap`: the two vectors exchange buffers, sizes and capacities. */
  function Swap<T>(a: SimpleVector<T>, b: SimpleVector<T>): (r: (SimpleVector<T>, SimpleVector<T>))
    requires Valid(a) && Valid(b)
    ensures Valid(r.0) && Valid(r.1)
    ensures Elements(r.0) == Elements(b) && r.0.capacity == b.capacity
    ensures Elements(r.1) == Elements(a) && r.1.capacity == a.capacity
  {
    var (itemsA, itemsB) := ArrayPtrs.Swap(a.items, b.items);
    (SimpleVector(itemsA, b.size, b.capacity), SimpleVector(itemsB, a.size, a.capacity))
  }

  // ---------------------------------------------------------------------------
  // Observers and element access
  // ---------------------------------------------------------------------------

  /** `IsEmpty`: whether the vector holds no element. */
  function IsEmpty<T>(v: SimpleVector<T>): (r: bool)
    requires Valid(v)
    ensures r <==> Elements(v) == []
  {
    v.size == 0
  }

  /** `operator[]` read. The source checks nothing beyond the non-null buffer,
      so any cell of the buffer may be read; inside the size it is an element. */
  function Get<T>(v: SimpleVector<T>, index: nat): (r: T)
    requires Valid(v) && index < v.capacity
    ensures index < v.size ==> r == Elements(v)[index]
  {
    Index(v.items, index)
  }

  /** `operator[]` write `v[index] = value`. */
  function Set<T>(v: SimpleVector<T>, index: nat, value: T): (r: SimpleVector<T>)
    requires Valid(v) && index < v.capacity
    ensures Valid(r) && r.size == v.size && r.capacity == v.capacity
    ensures index < v.size ==> Elements(r) == Elements(v)[index := value]
    ensures index >= v.size ==> Elements(r) == Elements(v)
  {
    SimpleVector(Store(v.items, index, value), v.size, v.capacity)
  }

  // ---------------------------------------------------------------------------
  // Modifiers
  // ---------------------------------------------------------------------------

  /** `Clear`: drops every element, keeps the storage. */
  function Clear<T>(v: SimpleVector<T>): (r: SimpleVector<T>)
    requires Valid(v)
    ensures Valid(r) && Elements(r) == [] && r.capacity == v.capacity
  {
    v.(size := 0)
  }

  /** `PopBack`: drops the last element; does nothing to an empty vector. */
  function PopBack<T>(v: SimpleVector<T>): (r: SimpleVector<T>)
    requires Valid(v)
    ensures Valid(r) && r.capacity == v.capacity
    ensures v.size == 0 ==> r == v
    ensures v.size > 0 ==> Elements(r) == Elements(v)[..v.size - 1]
  {
    if v.size > 0 then v.(size := v.size - 1) else v
  }

  /** `Reserve(new_capacity)`: when the request exceeds the capacity, the
      elements move to a fresh buffer of exactly the requested capacity;
      otherwise nothing changes. */
  function Reserve<T>(v: SimpleVector<T>, newCapacity: nat, blank: T): (r: SimpleVector<T>)
    requires Valid(v)
    ensures Valid(r) && Elements(r) == Elements(v)
    ensures newCapacity <= v.capacity ==> r == v
    ensures newCapacity > v.capacity ==> r.capacity == newCapacity
  {
    if newCapacity > v.capacity then
      var newItems := Allocate(newCapacity, blank);
      SimpleVector(CopyInto(Elements(v), newItems, 0), v.size, newCapacity)
    else
      v
  }

  /** The capacity an insertion into a full vector grows to. */
  function Grown(capacity: nat): (c: nat)
    ensures c > capacity
  {
    if capacity == 0 then 1 else 2 * capacity
  }

  /** `items_[size_] = value; ++size_;` on a vector with room to spare. */
  function StoreAtEnd<T>(v: SimpleVector<T>, value: T): (r: SimpleVector<T>)
    requires Valid(v) && v.size < v.capacity
    ensures Valid(r) && r.capacity == v.capacity
    ensures Elements(r) == Elements(v) + [value]
  {
    var r := SimpleVector(Store(v.items, v.size, value), v.size + 1, v.capacity);
    assert forall i :: 0 <= i < r.size ==> Elements(r)[i] == (Elements(v) + [value])[i];
    r
  }

  /** `PushBack`: appends `value`, first growing a full vector to capacity 1
      (from 0) or to twice its capacity. */
  function PushBack<T>(v: SimpleVector<T>, value: T, blank: T): (r: SimpleVector<T>)
    requires Valid(v)
    ensures Valid(r) && Elements(r) == Elements(v) + [value]
    ensures v.size == v.capacity ==> r.capacity == Grown(v.capacity)
    ensures v.size < v.capacity ==> r.capacity == v.capacity
  {
    var grown := if v.size == v.capacity then Reserve(v, Grown(v.capacity), blank) else v;
    StoreAtEnd(grown, value)
  }

  /** The in-place branch of `Insert`: `std::move_backward` moves the elements
      from `index` on one cell up, then `value` is stored at `index`. */
  function InsertInPlace<T>(v: SimpleVector<T>, index: nat, value: T): (r: SimpleVector<T>)
    requires Valid(v) && index <= v.size < v.capacity
    ensures Valid(r) && r.capacity == v.capacity
    ensures Elements(r) == Elements(v)[..index] + [value] + Elements(v)[index..]
  {
    var s := Elements(v);
    var shifted := CopyInto(s[index..], v.items, index + 1);
    var items := Store(shifted, index, value);
    var r := SimpleVector(items, v.size + 1, v.capacity);
    assert forall i :: 0 <= i < r.size ==> Elements(r)[i] == (s[..index] + [value] + s[index..])[i];
    r
  }

  /** The reallocating branch of `Insert`: the elements before `index`, then
      `value`, then the remaining elements are moved into a fresh buffer of
      `Grown` capacity. */
  function InsertGrowing<T>(v: SimpleVector<T>, index: nat, value: T, blank: T): (r: SimpleVector<T>)
    requires Valid(v) && index <= v.size
    ensures Valid(r) && r.capacity == Grown(v.capacity)
    ensures Elements(r) == Elements(v)[..index] + [value] + Elements(v)[index..]
  {
    var s := Elements(v);
    var newCapacity := Grown(v.capacity);
    var newItems := Allocate(newCapacity, blank);
    var front := CopyInto(s[..index], newItems, 0);
    var middle := Store(front, index, value);
    var items := CopyInto(s[index..], middle, index + 1);
    var r := SimpleVector(items, v.size + 1, newCapacity);
    assert forall i :: 0 <= i < r.size ==> Elements(r)[i] == (s[..index] + [value] + s[index..])[i];
    r
  }

  /** `Insert(pos, value)`, with the iterator `pos` given as its index: the
      value lands at `index` and the later elements move one cell up. Only a
      full vector moves to a buffer of `Grown` capacity. Returns the new
      vector and the index of the inserted element. */
  function Insert<T>(v: SimpleVector<T>, index: nat, value: T, blank: T): (r: (SimpleVector<T>, nat))
    requires Valid(v) && index <= v.size
    ensures Valid(r.0)
    ensures Elements(r.0) == Elements(v)[..index] + [value] + Elements(v)[index..]
    ensures r.1 == index
    ensures v.size < v.capacity ==> r.0.capacity == v.capacity
    ensures v.size == v.capacity ==> r.0.capacity == Grown(v.capacity)
  {
    if v.size < v.capacity then (InsertInPlace(v, index, value), index)
    else (InsertGrowing(v, index, value, blank), index)
  }

  /** The loop of `Erase`: for `i` from `from` up to `last - 1`, cell `i`
      receives the value of cell `i + 1`. */
  function ShiftDown<T>(p: ArrayPtr<T>, from: nat, last: nat): (q: ArrayPtr<T>)
    requires IsSet(p) && last <= Length(p)
    ensures IsSet(q) && Length(q) == Length(p)
    ensures forall i :: 0 <= i < Length(p) && !(from <= i < last - 1) ==> Index(q, i) == Index(p, i)
    ensures forall i :: from <= i < last - 1 ==> Index(q, i) == Index(p, i + 1)
    decreases last - from
  {
    if from + 1 >= last then p
    else ShiftDown(Store(p, from, Index(p, from + 1)), from + 1, last)
  }

  /** `Erase(pos)`, with the iterator `pos` given as its index: the element
      there is removed, the later ones move one cell down and the capacity
      stays. Returns the new vector and the index that now follows the
      removed element. */
  function Erase<T>(v: SimpleVector<T>, index: nat): (r: (SimpleVector<T>, nat))
    requires Valid(v) && index < v.size
    ensures Valid(r.0) && r.0.capacity == v.capacity
    ensures Elements(r.0) == Elements(v)[..index] + Elements(v)[index + 1..]
    ensures r.1 == index
  {
    var items := ShiftDown(v.items, index, v.size);
    var r := SimpleVector(items, v.size - 1, v.capacity);
    assert forall i :: 0 <= i < r.size ==> Elements(r)[i] == (Elements(v)[..index] + Elements(v)[index + 1..])[i];
    (r, index)
  }

  // ---------------------------------------------------------------------------
  // Comparison
  // ---------------------------------------------------------------------------

  /** `std::equal` over two ranges: equal lengths and equal elements pairwise. */
  function EqualRanges<T(==)>(xs: seq<T>, ys: seq<T>): (r: bool)
    ensures r <==> xs == ys
  {
    if |xs| != |ys| then false
    else if |xs| == 0 then true
    else
      assert xs == [xs[0]] + xs[1..] && ys == [ys[0]] + ys[1..];
      xs[0] == ys[0] && EqualRanges(xs[1..], ys[1..])
  }

  /** `std::lexicographical_compare` with `less` as the element order: the
      first position where one element is less than the other decides; when
      one range runs out first, the shorter range is the lesser. */
  function LexCompare<T>(xs: seq<T>, ys: seq<T>, less: (T, T) -> bool): bool
  {
    if |ys| == 0 then false
    else if |xs| == 0 then true
    else if less(xs[0], ys[0]) then true
    else if less(ys[0], xs[0]) then false
    else LexCompare(xs[1..], ys[1..], less)
  }

  /** Position `k` is where `xs` and `ys` first differ in `xs`'s favour: all
      earlier elements are equivalent, and at `k` either `xs` has the lesser
      element or `xs` has ended while `ys` has not. */
  ghost predicate DecidesLess<T>(xs: seq<T>, ys: seq<T>, less: (T, T) -> bool, k: nat) {
    && k <= |xs| && k < |ys|
    && (forall j :: 0 <= j < k ==> !less(xs[j], ys[j]) && !less(ys[j], xs[j]))
    && (k == |xs| || less(xs[k], ys[k]))
  }

  /** The textbook definition of lexicographic order. */
  ghost predicate LexLess<T>(xs: seq<T>, ys: seq<T>, less: (T, T) -> bool) {
    exists k: nat :: DecidesLess(xs, ys, less, k)
  }

  /** `std::lexicographical_compare` computes exactly the textbook order. */
  lemma {:induction false} LexCompareIsLexLess<T>(xs: seq<T>, ys: seq<T>, less: (T, T) -> bool)
    ensures LexCompare(xs, ys, less) <==> LexLess(xs, ys, less)
    decreases |xs|
  {
    if |ys| == 0 {
    } else if |xs| == 0 {
      assert DecidesLess(xs, ys, less, 0);
    } else if less(xs[0], ys[0]) {
      assert DecidesLess(xs, ys, less, 0);
    } else if less(ys[0], xs[0]) {
      assert forall k: nat :: !DecidesLess(xs, ys, less, k);
    } else {
      LexCompareIsLexLess(xs[1..], ys[1..], less);
      if LexCompare(xs, ys, less) {
        var k: nat :| DecidesLess(xs[1..], ys[1..], less, k);
        assert DecidesLess(xs, ys, less, k + 1);
      }
      if LexLess(xs, ys, less) {
        var k: nat :| DecidesLess(xs, ys, less, k);
        assert k > 0;
        assert DecidesLess(xs[1..], ys[1..], less, k - 1);
      }
    }
  }

  /** `operator==`. */
  function Equal<T(==)>(a: SimpleVector<T>, b: SimpleVector<T>): (r: bool)
    requires Valid(a) && Valid(b)
    ensures r <==> |Elements(a)| == |Elements(b)| && forall i :: 0 <= i < a.size ==> Elements(a)[i] == Elements(b)[i]
  {
    EqualRanges(Elements(a), Elements(b))
  }

  /** `operator!=`. */
  function NotEqual<T(==)>(a: SimpleVector<T>, b: SimpleVector<T>): (r: bool)
    requires Valid(a) && Valid(b)
    ensures r <==> Elements(a) != Elements(b)
  {
    !Equal(a, b)
  }

  /** `operator<`: lexicographic order of the elements. */
  function Less<T>(a: SimpleVector<T>, b: SimpleVector<T>, less: (T, T) -> bool): (r: bool)
    requires Valid(a) && Valid(b)
    ensures r <==> LexLess(Elements(a), Elements(b), less)
  {
    LexCompareIsLexLess(Elements(a), Elements(b), less);
    LexCompare(Elements(a), Elements(b), less)
  }

  /** `operator>`, defined as `rhs < lhs`. */
  function Greater<T>(a: SimpleVector<T>, b: SimpleVector<T>, less: (T, T) -> bool): (r: bool)
    requires Valid(a) && Valid(b)
    ensures r <==> LexLess(Elements(b), Elements(a), less)
  {
    Less(b, a, less)
  }

  /** `operator<=`, defined as `!(lhs > rhs)`. */
  function LessOrEqual<T>(a: SimpleVector<T>, b: SimpleVector<T>, less: (T, T) -> bool): (r: bool)
    requires Valid(a) && Valid(b)
    ensures r <==> !LexLess(Elements(b), Elements(a), less)
  {
    !Greater(a, b, less)
  }

  /** `operator>=`, defined as `!(lhs < rhs)`. */
  function GreaterOrEqual<T>(a: SimpleVector<T>, b: SimpleVector<T>, less: (T, T) -> bool): (r: bool)
    requires Valid(a) && Valid(b)
    ensures r <==> !LexLess(Elements(a), Elements(b), less)
  {
    !Less(a, b, less)
  }

  /** An element order in which two values are equivalent only when equal:
      the order `operator<` of `int` and of most element types provides. */
  ghost predicate StrictTotalOrder<T(!new)>(less: (T, T) -> bool) {
    && (forall x, y :: less(x, y) ==> !less(y, x))
    && (forall x, y :: x != y ==> less(x, y) || less(y, x))
  }

  /** Over a strict total element order, exactly one of `lhs < rhs`,
      `lhs == rhs` and `rhs < lhs` holds for element sequences. */
  lemma {:induction false} LexTrichotomy<T(!new)>(xs: seq<T>, ys: seq<T>, less: (T, T) -> bool)
    requires StrictTotalOrder(less)
    ensures LexCompare(xs, ys, less) || xs == ys || LexCompare(ys, xs, less)
    ensures !(LexCompare(xs, ys, less) && LexCompare(ys, xs, less))
    ensures xs == ys ==> !LexCompare(xs, ys, less)
    decreases |xs|
  {
    if |xs| == 0 || |ys| == 0 {
    } else if less(xs[0], ys[0]) || less(ys[0], xs[0]) {
    } else {
      LexTrichotomy(xs[1..], ys[1..], less);
      assert xs == [xs[0]] + xs[1..] && ys == [ys[0]] + ys[1..];
    }
  }

  /** The derived comparisons agree with `<` and `==`: over a strict total
      element order, `lhs <= rhs` holds exactly when `lhs < rhs` or
      `lhs == rhs`, `lhs >= rhs` exactly when `rhs < lhs` or `lhs == rhs`, and
      exactly one of `<`, `==`, `>` holds. */
  lemma DerivedComparisonsConsistent<T(!new)>(a: SimpleVector<T>, b: SimpleVector<T>, less: (T, T) -> bool)
    requires Valid(a) && Valid(b) && StrictTotalOrder(less)
    ensures LessOrEqual(a, b, less) <==> Less(a, b, less) || Equal(a, b)
    ensures GreaterOrEqual(a, b, less) <==> Greater(a, b, less) || Equal(a, b)
    ensures Less(a, b, less) ==> !Equal(a, b) && !Greater(a, b, less)
    ensures Less(a, b, less) || Equal(a, b) || Greater(a, b, less)
  {
    var xs, ys := Elements(a), Elements(b);
    LexTrichotomy(xs, ys, less);
    LexCompareIsLexLess(xs, ys, less);
    LexCompareIsLexLess(ys, xs, less);
  }

  // ---------------------------------------------------------------------------
  // Relations between operations
  // ---------------------------------------------------------------------------

  /** `PopBack` undoes `PushBack`. */
  lemma PushBackThenPopBack<T>(v: SimpleVector<T>, value: T, blank: T)
    requires Valid(v)
    ensures Elements(PopBack(PushBack(v, value, blank))) == Elements(v)
  {
    var s := Elements(v);
    assert (s + [value])[..|s|] == s;
  }

  /** Erasing at the position `Insert` returned undoes the insertion, leaving
      the capacity `Insert` produced. */
  lemma InsertThenErase<T>(v: SimpleVector<T>, index: nat, value: T, blank: T)
    requires Valid(v) && index <= v.size
    ensures Elements(Erase(Insert(v, index, value, blank).0, Insert(v, index, value, blank).1).0) == Elements(v)
  {
    var s := Elements(v);
    var t := s[..index] + [value] + s[index..];
    assert t[..index] + t[index + 1..] == s;
  }

  /** A copy compares equal to its source. */
  lemma CopyIsEqual<T>(v: SimpleVector<T>, blank: T)
    requires Valid(v)
    ensures Equal(Copy(v, blank), v)
  {
  }
}
