/** The owning array handle `ArrayPtr<Type>` (codes/projects/Simplevector/array_ptr.h).

    The handle owns at most one heap array. A null handle is `raw == None`;
    a non-null one is `raw == Some(cells)`, the array's cells in order. The
    destructor's `delete[]` cannot be observed in a value model and is left
    out; moves and swaps are functions returning the new values of both
    objects they touch. */
module ArrayPtrs {
  import opened Wrappers

  datatype ArrayPtr<T> = ArrayPtr(raw: Option<seq<T>>)

  /** The number of cells of the owned array; 0 for a null handle. */
  function Length<T>(p: ArrayPtr<T>): nat {
    if p.raw.Some? then |p.raw.value| else 0
  }

  /** The default constructor: a handle that owns nothing. */
  function Null<T>(): (p: ArrayPtr<T>)
    ensures !IsSet(p)
    ensures Length(p) == 0
  {
    ArrayPtr(None)
  }

  /** `ArrayPtr(size)`: a zero size yields a null handle, any other size a
      fresh array of `size` cells. `blank` stands for the value `new Type[size]`
      leaves in every cell. */
  function Allocate<T>(size: nat, blank: T): (p: ArrayPtr<T>)
    ensures IsSet(p) <==> size > 0
    ensures Length(p) == size
    ensures forall i :: 0 <= i < Length(p) ==> Index(p, i) == blank
  {
    if size == 0 then ArrayPtr(None) else ArrayPtr(Some(seq(size, _ => blank)))
  }

  /** `ArrayPtr(Type* raw_ptr)`: adopts an existing array, or null. */
  function FromRaw<T>(raw: Option<seq<T>>): (p: ArrayPtr<T>)
    ensures Get(p) == raw
  {
    ArrayPtr(raw)
  }

  /** The move constructor: returns the new handle and the moved-from source.
      The new handle takes over the source's array and the source becomes null. */
  function MoveConstruct<T>(other: ArrayPtr<T>): (r: (ArrayPtr<T>, ArrayPtr<T>))
    ensures Get(r.0) == Get(other)
    ensures !IsSet(r.1)
  {
    (ArrayPtr(other.raw), Null())
  }

  /** Move assignment `self = std::move(other)`, returning the new values of
      `self` and `other`. `aliased` says that both names denote one object,
      the `this == &other` case, which the source turns into a no-op. */
  function MoveAssign<T>(self: ArrayPtr<T>, other: ArrayPtr<T>, aliased: bool): (r: (ArrayPtr<T>, ArrayPtr<T>))
    requires aliased ==> self == other
    ensures aliased ==> r == (self, other)
    ensures !aliased ==> Get(r.0) == Get(other) && !IsSet(r.1)
  {
    if aliased then (self, other) else (other, Null())
  }

  /** `Release`: returns the owned array and the handle, now null. */
  function Release<T>(p: ArrayPtr<T>): (r: (Option<seq<T>>, ArrayPtr<T>))
    ensures r.0 == Get(p)
    ensures !IsSet(r.1)
  {
    (p.raw, Null())
  }

  /** `operator bool`: whether the handle owns an array. */
  predicate IsSet<T>(p: ArrayPtr<T>): (b: bool)
    ensures b <==> p != ArrayPtr(None)
    ensures !b ==> Length(p) == 0
  {
    p.raw != None
  }

  /** `Get()`: the raw pointer, null or the array. */
  function Get<T>(p: ArrayPtr<T>): (r: Option<seq<T>>)
    ensures r.Some? <==> IsSet(p)
    ensures r.Some? ==> |r.value| == Length(p)
  {
    p.raw
  }

  /** `Get(index)`: the address `raw_ptr_ + index`, as an offset into the
      owned array; only offset 0 may be taken from a null handle, and then the
      result is null again. */
  function GetAt<T>(p: ArrayPtr<T>, index: nat): (r: Option<nat>)
    requires IsSet(p) || index == 0
    ensures r.Some? <==> IsSet(p)
    ensures r.Some? ==> r.value == index
  {
    if p.raw.Some? then Some(index) else None
  }

  /** `operator[]` read: the handle must be non-null (the source asserts it)
      and the index must fall inside the owned array. */
  function Index<T>(p: ArrayPtr<T>, index: nat): (r: T)
    requires IsSet(p) && index < Length(p)
    ensures Get(p).Some? && r == Get(p).value[index]
  {
    p.raw.value[index]
  }

  /** `operator[]` write `p[index] = value`: only that cell changes. */
  function Store<T>(p: ArrayPtr<T>, index: nat, value: T): (q: ArrayPtr<T>)
    requires IsSet(p) && index < Length(p)
    ensures IsSet(q) && Length(q) == Length(p)
    ensures Index(q, index) == value
    ensures forall i :: 0 <= i < Length(p) && i != index ==> Index(q, i) == Index(p, i)
  {
    ArrayPtr(Some(p.raw.value[index := value]))
  }

  /** `swap`: the two handles exchange their arrays. */
  function Swap<T>(a: ArrayPtr<T>, b: ArrayPtr<T>): (r: (ArrayPtr<T>, ArrayPtr<T>))
    ensures Get(r.0) == Get(b) && Get(r.1) == Get(a)
  {
    (b, a)
  }

  /** Releasing a handle and adopting the released pointer again gives back
      the same handle: `Release` loses nothing. */
  lemma ReleaseThenAdopt<T>(p: ArrayPtr<T>)
    ensures FromRaw(Release(p).0) == p
  {
  }

  /** Moving an array into a new handle and releasing it there hands back
      exactly the array the source held, and both handles end up null. */
  lemma MoveThenRelease<T>(p: ArrayPtr<T>)
    ensures Release(MoveConstruct(p).0).0 == Get(p)
    ensures !IsSet(Release(MoveConstruct(p).0).1) && !IsSet(MoveConstruct(p).1)
  {
  }

  /** Swapping twice restores both handles. */
  lemma SwapInvolution<T>(a: ArrayPtr<T>, b: ArrayPtr<T>)
    ensures Swap(Swap(a, b).0, Swap(a, b).1) == (a, b)
  {
  }
}
