/** The single-object owning pointer `ScopedPtr<T>` (codes/test4.cpp).

    The held raw pointer is `ptr`: `None` for nullptr, `Some(obj)` for a
    pointer to the object `obj`. The destructor's `delete` cannot be observed
    in a value model and is left out. */
module ScopedPtrs {
  import opened Wrappers

  datatype ScopedPtr<T> = ScopedPtr(ptr: Option<T>)

  /** `operator bool`: whether a pointer is held. */
  predicate IsSet<T>(p: ScopedPtr<T>): (b: bool)
    ensures b <==> p != ScopedPtr(None)
  {
    p.ptr.Some?
  }

  /** The default constructor: holds nothing. */
  function Empty<T>(): (p: ScopedPtr<T>)
    ensures !IsSet(p)
  {
    ScopedPtr(None)
  }

  /** `ScopedPtr(T* raw_ptr)`: takes ownership of `raw`, which may be null. */
  function FromRaw<T>(raw: Option<T>): (p: ScopedPtr<T>)
    ensures IsSet(p) <==> raw.Some?
    ensures GetRawPtr(p) == raw
  {
    ScopedPtr(raw)
  }

  /** `GetRawPtr`: the held pointer; the holder is left as it was. */
  function GetRawPtr<T>(p: ScopedPtr<T>): (r: Option<T>)
    ensures r.Some? <==> IsSet(p)
    ensures p == ScopedPtr(r)
  {
    p.ptr
  }

  /** `Release`: hands the held pointer back to the caller and leaves the
      holder empty, so it will delete nothing. */
  function Release<T>(p: ScopedPtr<T>): (r: (Option<T>, ScopedPtr<T>))
    ensures r.0 == GetRawPtr(p)
    ensures !IsSet(r.1)
  {
    (p.ptr, ScopedPtr(None))
  }

  /** `operator*`: throws `logic_error` on an empty holder, otherwise yields
      the held object. */
  function Deref<T>(p: ScopedPtr<T>): (r: Result<T, StdError>)
    ensures r.Failure? <==> !IsSet(p)
    ensures r.Failure? ==> r.error == LogicError
    ensures r.Success? ==> GetRawPtr(p) == Some(r.value)
  {
    match p.ptr
    case None => Failure(LogicError)
    case Some(obj) => Success(obj)
  }

  /** `operator->`: throws `logic_error` on an empty holder, otherwise yields
      the held (non-null) pointer. */
  function Arrow<T>(p: ScopedPtr<T>): (r: Result<Option<T>, StdError>)
    ensures r.Failure? <==> !IsSet(p)
    ensures r.Failure? ==> r.error == LogicError
    ensures r.Success? ==> r.value == GetRawPtr(p) && r.value.Some?
  {
    if p.ptr.None? then Failure(LogicError) else Success(p.ptr)
  }

  /** Adopting a pointer and releasing it hands the same pointer back and
      leaves a holder that can no longer be dereferenced. */
  lemma AdoptThenRelease<T>(raw: Option<T>)
    ensures Release(FromRaw(raw)).0 == raw
    ensures Deref(Release(FromRaw(raw)).1) == Failure(LogicError)
    ensures Arrow(Release(FromRaw(raw)).1) == Failure(LogicError)
  {
  }

  /** `operator*` and `operator->` agree: both fail on the same holders, and
      on a set holder `->` points at the object `*` yields. */
  lemma DerefAgreesWithArrow<T>(p: ScopedPtr<T>)
    ensures Deref(p).Success? <==> Arrow(p).Success?
    ensures Deref(p).Success? ==> Arrow(p).value == Some(Deref(p).value)
  {
  }
}
