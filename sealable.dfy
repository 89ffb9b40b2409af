/** The `Sealable` contract and its instances in sealedstruct/src/lib.rs:
    the leaf types that seal to themselves, pairs, triples and `Arc`.

    An instance of `Sealable` for a raw type R with target T is modelled by
    its three functions, passed explicitly: `seal: R -> Result<T>`,
    `open: T -> R` and `partial_eq: (R, T) -> bool`. The generic instances
    take the instances of their components as parameters. */
module Sealable {
  import opened Errors

  /** The round-trip law at `x`: when `x` seals, opening the sealed value gives
      back `x`, and `x` compares equal to its sealed value. */
  ghost predicate RoundTripsAt<R, T>(seal: R -> Result<T>, open: T -> R, eq: (R, T) -> bool, x: R)
  {
    seal(x).Ok? ==> open(seal(x).v) == x && eq(x, seal(x).v)
  }

  // ---------------------------------------------------------------------
  // Leaf types (integers, bool, strings, durations, addresses, ...)
  // ---------------------------------------------------------------------

  function SealLeaf<T>(x: T): Result<T>
  {
    Ok(x)
  }

  function OpenLeaf<T>(sealed: T): T
  {
    sealed
  }

  function PartialEqLeaf<T(==)>(raw: T, sealed: T): bool
  {
    raw == sealed
  }

  /** A leaf never fails to seal, seals to itself, and round-trips. */
  lemma LeafRoundTrip<T>(x: T)
    ensures SealLeaf(x) == Ok(x)
    ensures RoundTripsAt(SealLeaf, OpenLeaf, PartialEqLeaf, x)
    ensures forall y :: PartialEqLeaf(x, y) <==> x == y
  {
  }

  // ---------------------------------------------------------------------
  // Pairs
  // ---------------------------------------------------------------------

  /** Seals the components left to right and stops at the first failure
      (the `?` operator): a later component's failures are not reported. */
  function Seal2<A, B, TA, TB>(x: (A, B), sa: A -> Result<TA>, sb: B -> Result<TB>): (r: Result<(TA, TB)>)
    ensures r.Ok? <==> sa(x.0).Ok? && sb(x.1).Ok?
    ensures r.Ok? ==> r.v == (sa(x.0).v, sb(x.1).v)
    ensures r.Err? ==> r.e == (if sa(x.0).Err? then sa(x.0).e else sb(x.1).e)
  {
    match sa(x.0)
    case Err(e) => Err(e)
    case Ok(a) =>
      match sb(x.1)
      case Err(e) => Err(e)
      case Ok(b) => Ok((a, b))
  }

  function Open2<A, B, TA, TB>(sealed: (TA, TB), oa: TA -> A, ob: TB -> B): (A, B)
  {
    (oa(sealed.0), ob(sealed.1))
  }

  function PartialEq2<A, B, TA, TB>(raw: (A, B), sealed: (TA, TB), ea: (A, TA) -> bool, eb: (B, TB) -> bool): bool
  {
    ea(raw.0, sealed.0) && eb(raw.1, sealed.1)
  }

  /** Sealing a pair agrees with `combine` on the components, except when both
      fail: `combine` reports both lists, the pair only the first one. */
  lemma Seal2VersusCombine<A, B, TA, TB>(x: (A, B), sa: A -> Result<TA>, sb: B -> Result<TB>)
    ensures sa(x.0).Ok? || sb(x.1).Ok? ==> Seal2(x, sa, sb) == Combine(sa(x.0), sb(x.1))
    ensures sa(x.0).Err? && sb(x.1).Err? ==>
      Seal2(x, sa, sb).e == sa(x.0).e &&
      Combine(sa(x.0), sb(x.1)).e == sa(x.0).e + sb(x.1).e
  {
  }

  /** Pairs of round-tripping components round-trip. */
  lemma Tuple2RoundTrip<A, B, TA, TB>(
    x: (A, B),
    sa: A -> Result<TA>, oa: TA -> A, ea: (A, TA) -> bool,
    sb: B -> Result<TB>, ob: TB -> B, eb: (B, TB) -> bool)
    requires RoundTripsAt(sa, oa, ea, x.0) && RoundTripsAt(sb, ob, eb, x.1)
    ensures RoundTripsAt(
      y => Seal2(y, sa, sb), s => Open2(s, oa, ob), (y, s) => PartialEq2(y, s, ea, eb), x)
  {
  }

  // ---------------------------------------------------------------------
  // Triples
  // ---------------------------------------------------------------------

  /** Seals the components left to right and stops at the first failure. */
  function Seal3<A, B, C, TA, TB, TC>(x: (A, B, C), sa: A -> Result<TA>, sb: B -> Result<TB>, sc: C -> Result<TC>)
    : (r: Result<(TA, TB, TC)>)
    ensures r.Ok? <==> sa(x.0).Ok? && sb(x.1).Ok? && sc(x.2).Ok?
    ensures r.Ok? ==> r.v == (sa(x.0).v, sb(x.1).v, sc(x.2).v)
    ensures r.Err? ==> r.e == (if sa(x.0).Err? then sa(x.0).e else if sb(x.1).Err? then sb(x.1).e else sc(x.2).e)
  {
    match sa(x.0)
    case Err(e) => Err(e)
    case Ok(a) =>
      match sb(x.1)
      case Err(e) => Err(e)
      case Ok(b) =>
        match sc(x.2)
        case Err(e) => Err(e)
        case Ok(c) => Ok((a, b, c))
  }

  function Open3<A, B, C, TA, TB, TC>(sealed: (TA, TB, TC), oa: TA -> A, ob: TB -> B, oc: TC -> C): (A, B, C)
  {
    (oa(sealed.0), ob(sealed.1), oc(sealed.2))
  }

  function PartialEq3<A, B, C, TA, TB, TC>(
    raw: (A, B, C), sealed: (TA, TB, TC), ea: (A, TA) -> bool, eb: (B, TB) -> bool, ec: (C, TC) -> bool): bool
  {
    ea(raw.0, sealed.0) && eb(raw.1, sealed.1) && ec(raw.2, sealed.2)
  }

  /** Triples of round-tripping components round-trip. */
  lemma Tuple3RoundTrip<A, B, C, TA, TB, TC>(
    x: (A, B, C),
    sa: A -> Result<TA>, oa: TA -> A, ea: (A, TA) -> bool,
    sb: B -> Result<TB>, ob: TB -> B, eb: (B, TB) -> bool,
    sc: C -> Result<TC>, oc: TC -> C, ec: (C, TC) -> bool)
    requires RoundTripsAt(sa, oa, ea, x.0) && RoundTripsAt(sb, ob, eb, x.1) && RoundTripsAt(sc, oc, ec, x.2)
    ensures RoundTripsAt(
      y => Seal3(y, sa, sb, sc), s => Open3(s, oa, ob, oc), (y, s) => PartialEq3(y, s, ea, eb, ec), x)
  {
  }

  // ---------------------------------------------------------------------
  // Arc, a transparent box
  // ---------------------------------------------------------------------

  datatype Arc<T> = Arc(inner: T)

  /** Seals the pointee and boxes the result; failures pass through unchanged. */
  function SealArc<R, T>(x: Arc<R>, seal: R -> Result<T>): (r: Result<Arc<T>>)
    ensures r.Ok? <==> seal(x.inner).Ok?
    ensures r.Ok? ==> r.v.inner == seal(x.inner).v
    ensures r.Err? ==> r.e == seal(x.inner).e
  {
    match seal(x.inner)
    case Ok(t) => Ok(Arc(t))
    case Err(e) => Err(e)
  }

  function OpenArc<R, T>(sealed: Arc<T>, open: T -> R): Arc<R>
  {
    Arc(open(sealed.inner))
  }

  function PartialEqArc<R, T>(raw: Arc<R>, sealed: Arc<T>, eq: (R, T) -> bool): bool
  {
    eq(raw.inner, sealed.inner)
  }

  /** A box round-trips when its pointee does. */
  lemma ArcRoundTrip<R, T>(x: Arc<R>, seal: R -> Result<T>, open: T -> R, eq: (R, T) -> bool)
    requires RoundTripsAt(seal, open, eq, x.inner)
    ensures RoundTripsAt(y => SealArc(y, seal), s => OpenArc(s, open), (y, s) => PartialEqArc(y, s, eq), x)
  {
  }
}
