/** `IntoNestedWrapper` in sealedstruct/src/wrapper.rs: a one-field wrapper for
    values whose type the user does not control. It seals to itself, never fails,
    and hands out its single field. */
module Wrapper {
  import opened Errors
  import opened Sealable

  datatype IntoNestedWrapper<T> = IntoNestedWrapper(inner: T)

  function Seal<T>(w: IntoNestedWrapper<T>): Result<IntoNestedWrapper<T>>
  {
    Ok(w)
  }

  function Open<T>(sealed: IntoNestedWrapper<T>): IntoNestedWrapper<T>
  {
    sealed
  }

  /** Compares the wrapped values with `T`'s own `PartialEq`, passed as `eq`;
      that comparison need not be reflexive (a wrapped NaN is not equal to
      itself). */
  function PartialEq<T>(raw: IntoNestedWrapper<T>, sealed: IntoNestedWrapper<T>, eq: (T, T) -> bool): bool
  {
    eq(raw.inner, sealed.inner)
  }

  /** `From`: wraps a value. */
  function From<T>(x: T): IntoNestedWrapper<T>
  {
    IntoNestedWrapper(x)
  }

  /** `Deref`: the wrapped value. */
  function Deref<T>(w: IntoNestedWrapper<T>): T
  {
    w.inner
  }

  /** `DerefMut`: a write through the mutable reference changes the single
      field and nothing else; `update` is what the caller does with it. */
  function DerefMut<T>(w: IntoNestedWrapper<T>, update: T -> T): IntoNestedWrapper<T>
  {
    w.(inner := update(w.inner))
  }

  /** Sealing never fails and opening gives the wrapper back; the wrapper
      round-trips exactly when its value compares equal to itself. */
  lemma WrapperRoundTrip<T>(w: IntoNestedWrapper<T>, eq: (T, T) -> bool)
    ensures Seal(w) == Ok(w) && Open(Seal(w).v) == w
    ensures RoundTripsAt(Seal, Open, (a, b) => PartialEq(a, b, eq), w) <==> eq(w.inner, w.inner)
  {
  }

  /** Where `T`'s comparison is equality, comparing two wrappers is comparing
      the whole wrappers. */
  lemma PartialEqIsEquality<T>(a: IntoNestedWrapper<T>, b: IntoNestedWrapper<T>)
    ensures PartialEq(a, b, (x, y) => x == y) <==> a == b
  {
  }

  /** `From` and `Deref` are inverse; a write through `DerefMut` is read back by
      `Deref` and leaves nothing else behind. */
  lemma FromDeref<T>(x: T, w: IntoNestedWrapper<T>, update: T -> T)
    ensures Deref(From(x)) == x && From(Deref(w)) == w
    ensures Deref(DerefMut(w, update)) == update(Deref(w))
    ensures DerefMut(w, update) == From(update(Deref(w)))
  {
  }
}
