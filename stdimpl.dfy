/** The `Sealable` instances for the standard containers in
    sealedstruct/src/stdimpl.rs: `Option`, `Vec` (a `seq`), `HashSet` (a `set`)
    and `HashMap` (a `map`).

    The hash containers are visited in their hash iteration order, which the
    library leaves unspecified; it is a parameter `order` here, a duplicate-free
    listing of the keys. It decides which failure a seal reports. It also
    decides which entry wins when two keys collapse to one. A lookup through
    `Borrow` is modelled by a function `borrow` from the sealed element to the
    raw one. */
module StdImpl {
  import opened Errors
  import opened Sealable

  datatype Option<T> = None | Some(value: T)

  // ---------------------------------------------------------------------
  // Collecting outcomes: `collect::<Result<_>>` stops at the first failure
  // ---------------------------------------------------------------------

  /** The position of the first failing outcome, or |rs| when all succeed. */
  function FirstFailure<T>(rs: seq<Result<T>>): (k: nat)
    ensures k <= |rs|
    ensures forall j :: 0 <= j < k ==> rs[j].Ok?
    ensures k < |rs| ==> rs[k].Err?
  {
    if |rs| == 0 || rs[0].Err? then 0 else 1 + FirstFailure(rs[1..])
  }

  /** Collects outcomes front to back: all values when every outcome succeeds,
      otherwise exactly the failures of the first failing outcome. */
  function Collect<T>(rs: seq<Result<T>>): (r: Result<seq<T>>)
    ensures r.Ok? <==> FirstFailure(rs) == |rs|
    ensures r.Ok? ==> |r.v| == |rs| && forall i :: 0 <= i < |rs| ==> r.v[i] == rs[i].v
    ensures r.Err? ==> r.e == rs[FirstFailure(rs)].e
  {
    if |rs| == 0 then Ok([])
    else
      match rs[0]
      case Err(e) => Err(e)
      case Ok(t) =>
        match Collect(rs[1..])
        case Err(e) => Err(e)
        case Ok(ts) => Ok([t] + ts)
  }

  /** `iter().map(f)` on a sequence. */
  function MapSeq<X, Y>(xs: seq<X>, f: X -> Y): (r: seq<Y>)
    ensures |r| == |xs| && forall i :: 0 <= i < |xs| ==> r[i] == f(xs[i])
  {
    seq(|xs|, i requires 0 <= i < |xs| => f(xs[i]))
  }

  // ---------------------------------------------------------------------
  // Vec
  // ---------------------------------------------------------------------

  /** Seals element by element and stops at the first failing element. */
  function SealVec<R, T>(v: seq<R>, seal: R -> Result<T>): (r: Result<seq<T>>)
    ensures r.Ok? <==> forall i :: 0 <= i < |v| ==> seal(v[i]).Ok?
    ensures r.Ok? ==> |r.v| == |v| && forall i :: 0 <= i < |v| ==> r.v[i] == seal(v[i]).v
    ensures r.Err? ==>
      var k := FirstFailure(MapSeq(v, seal));
      k < |v| && seal(v[k]).Err? && (forall j :: 0 <= j < k ==> seal(v[j]).Ok?) && r.e == seal(v[k]).e
  {
    Collect(MapSeq(v, seal))
  }

  function OpenVec<R, T>(sealed: seq<T>, open: T -> R): (r: seq<R>)
    ensures |r| == |sealed| && forall i :: 0 <= i < |sealed| ==> r[i] == open(sealed[i])
  {
    MapSeq(sealed, open)
  }

  /** The left fold `acc && eq(a, b)` over the pairs of `zip`, which stops at
      the shorter side. */
  function FoldZip<R, T>(raw: seq<R>, sealed: seq<T>, eq: (R, T) -> bool, acc: bool): (r: bool)
    ensures r <==> acc && forall i :: 0 <= i < |raw| && i < |sealed| ==> eq(raw[i], sealed[i])
    decreases |raw|
  {
    if |raw| == 0 || |sealed| == 0 then acc
    else FoldZip(raw[1..], sealed[1..], eq, acc && eq(raw[0], sealed[0]))
  }

  /** Same length, then every pair in order compares equal. */
  function PartialEqVec<R, T>(raw: seq<R>, sealed: seq<T>, eq: (R, T) -> bool): (r: bool)
    ensures r <==> |raw| == |sealed| && forall i :: 0 <= i < |raw| ==> eq(raw[i], sealed[i])
  {
    |raw| == |sealed| && FoldZip(raw, sealed, eq, true)
  }

  /** A sequence whose elements round-trip round-trips. */
  lemma VecRoundTrip<R, T>(v: seq<R>, seal: R -> Result<T>, open: T -> R, eq: (R, T) -> bool)
    requires forall i :: 0 <= i < |v| ==> RoundTripsAt(seal, open, eq, v[i])
    ensures RoundTripsAt(x => SealVec(x, seal), s => OpenVec(s, open), (x, s) => PartialEqVec(x, s, eq), v)
  {
    var r := SealVec(v, seal);
    if r.Ok? {
      assert OpenVec(r.v, open) == v;
    }
  }

  /** Once a sequence compares equal to a sealed one, pushing an element onto it
      or clearing a non-empty one makes the comparison false. */
  lemma PartialEqVecPushOrClear<R, T>(raw: seq<R>, sealed: seq<T>, eq: (R, T) -> bool, x: R)
    requires PartialEqVec(raw, sealed, eq)
    ensures !PartialEqVec(raw + [x], sealed, eq)
    ensures raw != [] ==> !PartialEqVec([], sealed, eq)
  {
  }

  // ---------------------------------------------------------------------
  // Option
  // ---------------------------------------------------------------------

  /** `None` is always valid; `Some` seals its content and passes its failures
      through untouched, with no path added. */
  function SealOption<R, T>(x: Option<R>, seal: R -> Result<T>): (r: Result<Option<T>>)
    ensures x.None? ==> r == Ok(None)
    ensures x.Some? ==> (r.Ok? <==> seal(x.value).Ok?)
    ensures x.Some? && r.Ok? ==> r.v == Some(seal(x.value).v)
    ensures x.Some? && r.Err? ==> r.e == seal(x.value).e
  {
    match x
    case None => Ok(None)
    case Some(y) =>
      match seal(y)
      case Ok(t) => Ok(Some(t))
      case Err(e) => Err(e)
  }

  function OpenOption<R, T>(sealed: Option<T>, open: T -> R): Option<R>
  {
    match sealed
    case None => None
    case Some(t) => Some(open(t))
  }

  function PartialEqOption<R, T>(raw: Option<R>, sealed: Option<T>, eq: (R, T) -> bool): bool
  {
    match (raw, sealed)
    case (None, None) => true
    case (None, Some(_)) => false
    case (Some(_), None) => false
    case (Some(a), Some(b)) => eq(a, b)
  }

  /** The comparison of options: equal exactly when both are `None`, or both are
      `Some` with equal contents. */
  lemma PartialEqOptionCases<R, T>(raw: Option<R>, sealed: Option<T>, eq: (R, T) -> bool)
    ensures PartialEqOption(raw, sealed, eq) <==>
      (raw.None? && sealed.None?) || (raw.Some? && sealed.Some? && eq(raw.value, sealed.value))
  {
  }

  /** An option round-trips when its content does. */
  lemma OptionRoundTrip<R, T>(x: Option<R>, seal: R -> Result<T>, open: T -> R, eq: (R, T) -> bool)
    requires x.Some? ==> RoundTripsAt(seal, open, eq, x.value)
    ensures RoundTripsAt(y => SealOption(y, seal), s => OpenOption(s, open), (y, s) => PartialEqOption(y, s, eq), x)
  {
  }

  // ---------------------------------------------------------------------
  // Hash iteration order and Borrow lookups
  // ---------------------------------------------------------------------

  /** `order` lists every element of `s` exactly once. */
  ghost predicate Enumerates<T>(order: seq<T>, s: set<T>)
  {
    && (forall i :: 0 <= i < |order| ==> order[i] in s)
    && (forall x :: x in s ==> x in order)
    && (forall i, j :: 0 <= i < j < |order| ==> order[i] != order[j])
  }

  /** The raw views of the sealed elements. */
  function BorrowedSet<T, R(==)>(sealed: set<T>, borrow: T -> R): set<R>
  {
    set t | t in sealed :: borrow(t)
  }

  /** `Borrow` promises that distinct sealed keys have distinct raw views. */
  ghost predicate InjectiveOn<T, R>(keys: set<T>, borrow: T -> R)
  {
    forall a, b :: a in keys && b in keys && borrow(a) == borrow(b) ==> a == b
  }

  // ---------------------------------------------------------------------
  // HashSet
  // ---------------------------------------------------------------------

  /** Seals the elements in iteration order and stops at the first failure;
      on success the set of sealed elements. */
  function SealSet<R(==), T(==)>(s: set<R>, order: seq<R>, seal: R -> Result<T>): (r: Result<set<T>>)
    requires Enumerates(order, s)
    ensures r.Ok? <==> forall x :: x in s ==> seal(x).Ok?
    ensures r.Ok? ==> r.v == set x | x in s && seal(x).Ok? :: seal(x).v
    ensures r.Err? ==>
      var k := FirstFailure(MapSeq(order, seal));
      k < |order| && seal(order[k]).Err? && r.e == seal(order[k]).e
  {
    match SealVec(order, seal)
    case Err(e) => Err(e)
    case Ok(ts) =>
      assert forall x :: x in s ==> seal(x).Ok? && seal(x).v in ts by {
        forall x | x in s ensures seal(x).Ok? && seal(x).v in ts {
          var i :| 0 <= i < |order| && order[i] == x;
          assert ts[i] == seal(x).v;
        }
      }
      Ok(set t | t in ts)
  }

  function OpenSet<R(==), T>(sealed: set<T>, open: T -> R): set<R>
  {
    set t | t in sealed :: open(t)
  }

  /** What the comparison of sets decides: same size, and every raw element is
      found among the sealed ones. */
  ghost predicate SetMatches<R, T>(raw: set<R>, sealed: set<T>, borrow: T -> R)
  {
    |raw| == |sealed| && raw <= BorrowedSet(sealed, borrow)
  }

  /** `partial_eq` on sets: a size check, then a loop over the raw elements
      that returns false at the first one the sealed set does not hold. */
  method PartialEqSet<R(==), T>(raw: set<R>, sealed: set<T>, borrow: T -> R) returns (r: bool)
    ensures r == SetMatches(raw, sealed, borrow)
  {
    if |raw| != |sealed| {
      return false;
    }
    var todo := raw;
    while todo != {}
      invariant todo <= raw
      invariant forall x :: x in raw - todo ==> x in BorrowedSet(sealed, borrow)
      decreases todo
    {
      var x :| x in todo;
      if x !in BorrowedSet(sealed, borrow) {
        return false;
      }
      todo := todo - {x};
    }
    return true;
  }

  /** A proper subset of a finite set is smaller. */
  lemma {:induction false} ProperSubsetSmaller<T>(a: set<T>, b: set<T>)
    requires a <= b && a != b
    ensures |a| < |b|
  {
    var x :| x in b && x !in a;
    assert a <= b - {x};
    SubsetNotLarger(a, b - {x});
  }

  lemma {:induction false} SubsetNotLarger<T>(a: set<T>, b: set<T>)
    requires a <= b
    ensures |a| <= |b|
    decreases |b|
  {
    if a != {} {
      var x :| x in a;
      SubsetNotLarger(a - {x}, b - {x});
    }
  }

  /** For leaf elements (the sealed element is the raw one) the comparison of
      sets is set equality: removing or replacing an element makes it false. */
  lemma PartialEqSetLeaf<T>(raw: set<T>, sealed: set<T>)
    ensures SetMatches(raw, sealed, x => x) <==> raw == sealed
  {
    assert BorrowedSet(sealed, x => x) == sealed;
    if SetMatches(raw, sealed, x => x) && raw != sealed {
      ProperSubsetSmaller(raw, sealed);
    }
  }

  /** Leaf sets seal to themselves and open back unchanged, in any order. */
  lemma SetLeafRoundTrip<T>(s: set<T>, order: seq<T>)
    requires Enumerates(order, s)
    ensures SealSet(s, order, SealLeaf) == Ok(s)
    ensures OpenSet(s, OpenLeaf) == s
    ensures SetMatches(s, s, x => x)
  {
    var seal: T -> Result<T> := SealLeaf;
    assert forall x :: seal(x) == Ok(x);
    var r := SealSet(s, order, seal);
    assert r.Ok?;
    assert r.v == s by {
      assert r.v == set x | x in s && seal(x).Ok? :: seal(x).v;
    }
    assert OpenSet(s, OpenLeaf) == s;
    PartialEqSetLeaf(s, s);
  }

  /** A set whose elements round-trip opens back to itself. */
  lemma SetOpenRoundTrip<R, T>(s: set<R>, order: seq<R>, seal: R -> Result<T>, open: T -> R, eq: (R, T) -> bool)
    requires Enumerates(order, s)
    requires forall x :: x in s ==> RoundTripsAt(seal, open, eq, x)
    ensures SealSet(s, order, seal).Ok? ==> OpenSet(SealSet(s, order, seal).v, open) == s
  {
    var r := SealSet(s, order, seal);
    if r.Ok? {
      var back := OpenSet(r.v, open);
      forall x | x in s ensures x in back {
        assert seal(x).v in r.v;
      }
    }
  }

  /** The image of a set under a function that is injective on it has as
      many elements as the set. */
  lemma {:induction false} InjectiveImageSize<A, B>(s: set<A>, f: A -> B)
    requires InjectiveOn(s, f)
    ensures |BorrowedSet(s, f)| == |s|
    decreases |s|
  {
    if s != {} {
      var x :| x in s;
      var rest := s - {x};
      InjectiveImageSize(rest, f);
      assert BorrowedSet(s, f) == BorrowedSet(rest, f) + {f(x)};
      assert f(x) !in BorrowedSet(rest, f);
    }
  }

  /** A set whose elements round-trip compares equal to its sealed set, when
      the raw view of a sealed element is its opened value. */
  lemma SetPartialEqRoundTrip<R, T>(
    s: set<R>, order: seq<R>, seal: R -> Result<T>, open: T -> R, eq: (R, T) -> bool)
    requires Enumerates(order, s)
    requires forall x :: x in s ==> RoundTripsAt(seal, open, eq, x)
    ensures SealSet(s, order, seal).Ok? ==> SetMatches(s, SealSet(s, order, seal).v, open)
  {
    var r := SealSet(s, order, seal);
    if r.Ok? {
      SetOpenRoundTrip(s, order, seal, open, eq);
      assert BorrowedSet(r.v, open) == s;
      assert InjectiveOn(r.v, open) by {
        forall a, b | a in r.v && b in r.v && open(a) == open(b) ensures a == b {
          var x :| x in s && seal(x).Ok? && seal(x).v == a;
          var y :| y in s && seal(y).Ok? && seal(y).v == b;
        }
      }
      InjectiveImageSize(r.v, open);
    }
  }

  // ---------------------------------------------------------------------
  // HashMap
  // ---------------------------------------------------------------------

  /** The outcome of each entry in iteration order: key and value are sealed
      and `combine`d, so an entry can report a bad key and a bad value at once. */
  function EntryResults<K, V, TK, TV>(m: map<K, V>, order: seq<K>, sk: K -> Result<TK>, sv: V -> Result<TV>)
    : (rs: seq<Result<(TK, TV)>>)
    requires forall i :: 0 <= i < |order| ==> order[i] in m
    ensures |rs| == |order|
    ensures forall i :: 0 <= i < |order| ==> rs[i] == Combine(sk(order[i]), sv(m[order[i]]))
  {
    seq(|order|, i requires 0 <= i < |order| => Combine(sk(order[i]), sv(m[order[i]])))
  }

  /** `collect` into a `HashMap`: pairs are inserted in order, so every pair's
      key ends up in the map and the last pair's value is the one kept. */
  function CollectMap<K, V>(pairs: seq<(K, V)>): (r: map<K, V>)
    ensures forall i :: 0 <= i < |pairs| ==> pairs[i].0 in r
    ensures |pairs| > 0 ==> r[pairs[|pairs| - 1].0] == pairs[|pairs| - 1].1
  {
    if |pairs| == 0 then map[]
    else
      var init := pairs[..|pairs| - 1];
      var last := pairs[|pairs| - 1];
      assert forall i :: 0 <= i < |pairs| - 1 ==> pairs[i] == init[i];
      CollectMap(init)[last.0 := last.1]
  }

  /** Every key of the collected map comes from some pair. */
  lemma {:induction false} CollectMapSource<K, V>(pairs: seq<(K, V)>, k: K) returns (i: nat)
    requires k in CollectMap(pairs)
    ensures i < |pairs| && pairs[i].0 == k
  {
    var init := pairs[..|pairs| - 1];
    if pairs[|pairs| - 1].0 == k {
      i := |pairs| - 1;
    } else {
      assert k in CollectMap(init);
      i := CollectMapSource(init, k);
      assert pairs[i] == init[i];
    }
  }

  /** A pair that no later pair overrides keeps its value in the map. */
  lemma {:induction false} CollectMapLast<K, V>(pairs: seq<(K, V)>, i: nat)
    requires i < |pairs|
    requires forall j :: i < j < |pairs| ==> pairs[j].0 != pairs[i].0
    ensures CollectMap(pairs)[pairs[i].0] == pairs[i].1
  {
    if i < |pairs| - 1 {
      var init := pairs[..|pairs| - 1];
      assert init[i] == pairs[i];
      assert forall j :: i < j < |init| ==> init[j] == pairs[j];
      CollectMapLast(init, i);
    }
  }

  /** Seals every entry in iteration order and stops at the first failing
      entry; on success the sealed pairs are collected into a map. */
  function SealMap<K, V, TK, TV>(m: map<K, V>, order: seq<K>, sk: K -> Result<TK>, sv: V -> Result<TV>)
    : Result<map<TK, TV>>
    requires Enumerates(order, m.Keys)
  {
    match Collect(EntryResults(m, order, sk, sv))
    case Err(e) => Err(e)
    case Ok(ps) => Ok(CollectMap(ps))
  }

  /** Sealing a map succeeds exactly when every key and every value seals, and
      then its keys are the sealed raw keys. Otherwise it reports the failures
      of the first failing entry in iteration order, those of its key before
      those of its value. */
  lemma SealMapOutcome<K, V, TK, TV>(m: map<K, V>, order: seq<K>, sk: K -> Result<TK>, sv: V -> Result<TV>)
    requires Enumerates(order, m.Keys)
    ensures var r := SealMap(m, order, sk, sv);
      && (r.Ok? <==> forall k :: k in m ==> sk(k).Ok? && sv(m[k]).Ok?)
      && (r.Ok? ==> r.v.Keys == set k | k in m && sk(k).Ok? :: sk(k).v)
      && (r.Err? ==>
            var n := FirstFailure(EntryResults(m, order, sk, sv));
            n < |order| && r.e == Errs(sk(order[n])) + Errs(sv(m[order[n]])))
  {
    var rs := EntryResults(m, order, sk, sv);
    var c := Collect(rs);
    if c.Ok? {
      SealMapKeys(m, order, sk, sv);
    } else {
      var n := FirstFailure(rs);
      assert order[n] in m && rs[n].Err?;
    }
  }

  /** A successful seal collects, in iteration order, the pair of each raw
      entry's sealed key and sealed value. */
  lemma SealMapCollected<K, V, TK, TV>(m: map<K, V>, order: seq<K>, sk: K -> Result<TK>, sv: V -> Result<TV>)
    returns (ps: seq<(TK, TV)>)
    requires Enumerates(order, m.Keys)
    requires SealMap(m, order, sk, sv).Ok?
    ensures SealMap(m, order, sk, sv).v == CollectMap(ps)
    ensures |ps| == |order|
    ensures forall i :: 0 <= i < |order| ==>
      sk(order[i]).Ok? && sv(m[order[i]]).Ok? && ps[i] == (sk(order[i]).v, sv(m[order[i]]).v)
  {
    var rs := EntryResults(m, order, sk, sv);
    ps := Collect(rs).v;
    forall i | 0 <= i < |order|
      ensures sk(order[i]).Ok? && sv(m[order[i]]).Ok? && ps[i] == (sk(order[i]).v, sv(m[order[i]]).v)
    {
      assert rs[i].Ok?;
    }
  }

  /** A successful seal holds every key and value sealed, and its keys are
      the sealed raw keys. */
  lemma SealMapKeys<K, V, TK, TV>(m: map<K, V>, order: seq<K>, sk: K -> Result<TK>, sv: V -> Result<TV>)
    requires Enumerates(order, m.Keys)
    requires SealMap(m, order, sk, sv).Ok?
    ensures forall k :: k in m ==> sk(k).Ok? && sv(m[k]).Ok?
    ensures SealMap(m, order, sk, sv).v.Keys == set k | k in m && sk(k).Ok? :: sk(k).v
  {
    var ps := SealMapCollected(m, order, sk, sv);
    var r := CollectMap(ps);
    forall k | k in m ensures sk(k).Ok? && sv(m[k]).Ok? && sk(k).v in r {
      var i :| 0 <= i < |order| && order[i] == k;
    }
    forall t | t in r ensures t in set k | k in m && sk(k).Ok? :: sk(k).v {
      var i := CollectMapSource(ps, t);
      assert order[i] in m;
    }
  }

  /** When distinct keys seal to distinct keys, each sealed entry holds the
      sealed value of its raw entry. */
  lemma SealMapValues<K, V, TK, TV>(m: map<K, V>, order: seq<K>, sk: K -> Result<TK>, sv: V -> Result<TV>, k: K)
    requires Enumerates(order, m.Keys)
    requires SealMap(m, order, sk, sv).Ok?
    requires forall a, b :: a in m && b in m && sk(a) == sk(b) ==> a == b
    requires k in m
    ensures SealMap(m, order, sk, sv).v[sk(k).v] == sv(m[k]).v
  {
    var ps := SealMapCollected(m, order, sk, sv);
    var i :| 0 <= i < |order| && order[i] == k;
    assert ps[i] == (sk(k).v, sv(m[k]).v);
    forall j | i < j < |ps| ensures ps[j].0 != ps[i].0 {
      var kj := order[j];
      assert kj in m && kj != k;
      assert sk(kj) != sk(k);
      assert sk(kj).Ok? && sk(k).Ok? && ps[j].0 == sk(kj).v;
    }
    CollectMapLast(ps, i);
  }

  /** When a sealed entry fails in both key and value, the map reports both:
      the key's failures, then the value's. */
  lemma SealMapKeyAndValueErrors<K, V, TK, TV>(m: map<K, V>, order: seq<K>, sk: K -> Result<TK>, sv: V -> Result<TV>)
    requires Enumerates(order, m.Keys)
    requires |order| > 0 && sk(order[0]).Err? && sv(m[order[0]]).Err?
    ensures SealMap(m, order, sk, sv) == Err(sk(order[0]).e + sv(m[order[0]]).e)
  {
    assert FirstFailure(EntryResults(m, order, sk, sv)) == 0;
  }

  /** The opened entries, visited in the sealed map's iteration order. */
  function OpenedEntries<K, V, TK, TV>(sealed: map<TK, TV>, order: seq<TK>, ok: TK -> K, ov: TV -> V)
    : (ps: seq<(K, V)>)
    requires forall i :: 0 <= i < |order| ==> order[i] in sealed
    ensures |ps| == |order|
    ensures forall i :: 0 <= i < |order| ==> ps[i] == (ok(order[i]), ov(sealed[order[i]]))
  {
    seq(|order|, i requires 0 <= i < |order| => (ok(order[i]), ov(sealed[order[i]])))
  }

  /** `open` on maps: the opened entries collected into a map. */
  function OpenMap<K, V, TK, TV>(sealed: map<TK, TV>, order: seq<TK>, ok: TK -> K, ov: TV -> V): map<K, V>
    requires Enumerates(order, sealed.Keys)
  {
    CollectMap(OpenedEntries(sealed, order, ok, ov))
  }

  /** Opening a map gives one key per opened sealed key; when distinct keys
      open to distinct keys, each entry holds the opened value. */
  lemma OpenMapOutcome<K, V, TK, TV>(sealed: map<TK, TV>, order: seq<TK>, ok: TK -> K, ov: TV -> V, t: TK)
    requires Enumerates(order, sealed.Keys)
    ensures OpenMap(sealed, order, ok, ov).Keys == set u | u in sealed :: ok(u)
    ensures t in sealed && InjectiveOn(sealed.Keys, ok) ==> OpenMap(sealed, order, ok, ov)[ok(t)] == ov(sealed[t])
  {
    var ps := OpenedEntries(sealed, order, ok, ov);
    var r := CollectMap(ps);
    forall u | u in sealed ensures ok(u) in r {
      var i :| 0 <= i < |order| && order[i] == u;
      assert ps[i].0 == ok(u);
    }
    forall k | k in r ensures k in set u | u in sealed :: ok(u) {
      var i := CollectMapSource(ps, k);
      assert order[i] in sealed;
    }
    if t in sealed && InjectiveOn(sealed.Keys, ok) {
      var i :| 0 <= i < |order| && order[i] == t;
      forall j | i < j < |ps| ensures ps[j].0 != ps[i].0 {
        assert order[j] != order[i];
      }
      CollectMapLast(ps, i);
    }
  }

  /** Collecting a map's own entries in any enumeration gives the map back. */
  lemma CollectOwnEntries<K, V>(m: map<K, V>, order: seq<K>)
    requires Enumerates(order, m.Keys)
    ensures CollectMap(seq(|order|, i requires 0 <= i < |order| => (order[i], m[order[i]]))) == m
  {
    var ps := seq(|order|, i requires 0 <= i < |order| => (order[i], m[order[i]]));
    var r := CollectMap(ps);
    assert r.Keys == m.Keys by {
      forall k | k in m ensures k in r {
        var i :| 0 <= i < |order| && order[i] == k;
        assert ps[i].0 == k;
      }
      forall k | k in r ensures k in m {
        var i := CollectMapSource(ps, k);
      }
    }
    forall k | k in m ensures r[k] == m[k] {
      var i :| 0 <= i < |order| && order[i] == k;
      forall j | i < j < |ps| ensures ps[j].0 != ps[i].0 {
        assert order[j] != order[i];
      }
      CollectMapLast(ps, i);
    }
  }

  /** Leaf maps seal to themselves and open back unchanged, in any order. */
  lemma MapLeafRoundTrip<K, V>(m: map<K, V>, order: seq<K>)
    requires Enumerates(order, m.Keys)
    ensures SealMap(m, order, SealLeaf, SealLeaf) == Ok(m)
    ensures OpenMap(m, order, OpenLeaf, OpenLeaf) == m
  {
    var rs := EntryResults(m, order, SealLeaf, SealLeaf);
    var ps := seq(|order|, i requires 0 <= i < |order| => (order[i], m[order[i]]));
    assert forall i :: 0 <= i < |rs| ==> rs[i] == Ok(ps[i]);
    assert FirstFailure(rs) == |rs|;
    assert Collect(rs).v == ps;
    CollectOwnEntries(m, order);
    assert OpenedEntries(m, order, OpenLeaf, OpenLeaf) == ps;
  }

  /** Raw keys that round-trip seal to distinct keys. */
  lemma SealedKeysDistinct<K, TK>(keys: set<K>, sk: K -> Result<TK>, ok: TK -> K, ek: (K, TK) -> bool)
    requires forall k :: k in keys ==> RoundTripsAt(sk, ok, ek, k) && sk(k).Ok?
    ensures forall a, b :: a in keys && b in keys && sk(a) == sk(b) ==> a == b
  {
    forall a, b | a in keys && b in keys && sk(a) == sk(b) ensures a == b {
      assert a == ok(sk(a).v) && b == ok(sk(b).v);
    }
  }

  /** When keys round-trip, opening is injective on the sealed keys and gives
      back exactly the raw keys. */
  lemma SealedKeysOpenBack<K, V, TK, TV>(
    m: map<K, V>, order: seq<K>, sk: K -> Result<TK>, ok: TK -> K, ek: (K, TK) -> bool, sv: V -> Result<TV>)
    requires Enumerates(order, m.Keys)
    requires forall k :: k in m ==> RoundTripsAt(sk, ok, ek, k)
    requires SealMap(m, order, sk, sv).Ok?
    ensures InjectiveOn(SealMap(m, order, sk, sv).v.Keys, ok)
    ensures BorrowedSet(SealMap(m, order, sk, sv).v.Keys, ok) == m.Keys
  {
    var ps := SealMapCollected(m, order, sk, sv);
    var keys := CollectMap(ps).Keys;
    forall t | t in keys ensures ok(t) in m && sk(ok(t)) == Ok(t) {
      var i := CollectMapSource(ps, t);
      assert RoundTripsAt(sk, ok, ek, order[i]);
    }
    forall k | k in m ensures k in BorrowedSet(keys, ok) {
      var i :| 0 <= i < |order| && order[i] == k;
      assert ps[i].0 in keys && RoundTripsAt(sk, ok, ek, k);
    }
  }

  /** A map whose keys and values round-trip opens back to itself after
      sealing, whatever the iteration orders of both maps. */
  lemma MapOpenRoundTrip<K, V, TK, TV>(
    m: map<K, V>, order: seq<K>,
    sk: K -> Result<TK>, ok: TK -> K, ek: (K, TK) -> bool,
    sv: V -> Result<TV>, ov: TV -> V, ev: (V, TV) -> bool,
    sorder: seq<TK>)
    requires Enumerates(order, m.Keys)
    requires forall k :: k in m ==> RoundTripsAt(sk, ok, ek, k) && RoundTripsAt(sv, ov, ev, m[k])
    requires SealMap(m, order, sk, sv).Ok?
    requires Enumerates(sorder, SealMap(m, order, sk, sv).v.Keys)
    ensures OpenMap(SealMap(m, order, sk, sv).v, sorder, ok, ov) == m
  {
    var sealed := SealMap(m, order, sk, sv).v;
    SealMapOutcome(m, order, sk, sv);
    SealedKeysDistinct(m.Keys, sk, ok, ek);
    SealedKeysOpenBack(m, order, sk, ok, ek, sv);
    var back := OpenMap(sealed, sorder, ok, ov);
    forall k | k in m ensures k in back && back[k] == m[k] {
      var t := sk(k).v;
      assert t in sealed;
      SealMapValues(m, order, sk, sv, k);
      OpenMapOutcome(sealed, sorder, ok, ov, t);
    }
    if sealed == map[] {
      assert sorder == [];
    } else {
      var t0 :| t0 in sealed;
      OpenMapOutcome(sealed, sorder, ok, ov, t0);
      assert back.Keys == BorrowedSet(sealed.Keys, ok);
    }
  }

  /** The sealed map seen through `Borrow`: keyed by the raw view of each key. */
  function Borrowed<TK, K(==), TV>(sealed: map<TK, TV>, borrow: TK -> K): (r: map<K, TV>)
    requires InjectiveOn(sealed.Keys, borrow)
    ensures r.Keys == BorrowedSet(sealed.Keys, borrow)
    ensures forall t :: t in sealed ==> r[borrow(t)] == sealed[t]
  {
    map t | t in sealed :: borrow(t) := sealed[t]
  }

  /** `HashMap::get` with a raw key on the sealed map. */
  function Get<TK, K(==), TV>(sealed: map<TK, TV>, borrow: TK -> K, key: K): (r: Option<TV>)
    requires InjectiveOn(sealed.Keys, borrow)
    ensures r.Some? <==> exists t :: t in sealed && borrow(t) == key
    ensures forall t :: t in sealed && borrow(t) == key ==> r == Some(sealed[t])
  {
    var view := Borrowed(sealed, borrow);
    if key in view then Some(view[key]) else None
  }

  /** What the comparison of maps decides: same size, and every raw key is found
      on the sealed side with a value that compares equal. */
  ghost predicate MapMatches<K, V, TK, TV>(raw: map<K, V>, sealed: map<TK, TV>, borrow: TK -> K, eq: (V, TV) -> bool)
    requires InjectiveOn(sealed.Keys, borrow)
  {
    && |raw| == |sealed|
    && forall k :: k in raw ==> Get(sealed, borrow, k).Some? && eq(raw[k], Get(sealed, borrow, k).value)
  }

  /** `partial_eq` on maps: a size check, then a loop over the raw entries that
      returns false at the first key missing on the sealed side or the first
      value that does not compare equal. */
  method PartialEqMap<K, V, TK, TV>(raw: map<K, V>, sealed: map<TK, TV>, borrow: TK -> K, eq: (V, TV) -> bool)
    returns (r: bool)
    requires InjectiveOn(sealed.Keys, borrow)
    ensures r == MapMatches(raw, sealed, borrow, eq)
  {
    if |raw| != |sealed| {
      return false;
    }
    var todo := raw.Keys;
    while todo != {}
      invariant todo <= raw.Keys
      invariant forall k :: k in raw.Keys - todo ==>
        Get(sealed, borrow, k).Some? && eq(raw[k], Get(sealed, borrow, k).value)
      decreases todo
    {
      var key :| key in todo;
      var found := Get(sealed, borrow, key);
      if found.Some? {
        if !eq(raw[key], found.value) {
          return false;
        }
      } else {
        return false;
      }
      todo := todo - {key};
    }
    return true;
  }

  /** For leaf keys and values the comparison of maps is map equality. */
  lemma PartialEqMapLeaf<K, V>(raw: map<K, V>, sealed: map<K, V>)
    ensures InjectiveOn(sealed.Keys, x => x)
    ensures MapMatches(raw, sealed, x => x, PartialEqLeaf) <==> raw == sealed
  {
    assert InjectiveOn(sealed.Keys, x => x);
    if MapMatches(raw, sealed, x => x, PartialEqLeaf) {
      forall k | k in raw ensures k in sealed && raw[k] == sealed[k] {
        assert Get(sealed, x => x, k).Some?;
      }
      if raw.Keys != sealed.Keys {
        ProperSubsetSmaller(raw.Keys, sealed.Keys);
      }
    }
  }

  /** A map whose keys and values round-trip compares equal to its sealed
      map, when the raw view of a sealed key is its opened key. */
  lemma MapPartialEqRoundTrip<K, V, TK, TV>(
    m: map<K, V>, order: seq<K>,
    sk: K -> Result<TK>, ok: TK -> K, ek: (K, TK) -> bool,
    sv: V -> Result<TV>, ov: TV -> V, ev: (V, TV) -> bool)
    requires Enumerates(order, m.Keys)
    requires forall k :: k in m ==> RoundTripsAt(sk, ok, ek, k) && RoundTripsAt(sv, ov, ev, m[k])
    requires SealMap(m, order, sk, sv).Ok?
    ensures InjectiveOn(SealMap(m, order, sk, sv).v.Keys, ok)
    ensures MapMatches(m, SealMap(m, order, sk, sv).v, ok, ev)
  {
    var sealed := SealMap(m, order, sk, sv).v;
    SealMapOutcome(m, order, sk, sv);
    SealedKeysDistinct(m.Keys, sk, ok, ek);
    SealedKeysOpenBack(m, order, sk, ok, ek, sv);
    InjectiveImageSize(sealed.Keys, ok);
    assert |m| == |m.Keys| && |sealed| == |sealed.Keys|;
    forall k | k in m ensures Get(sealed, ok, k).Some? && ev(m[k], Get(sealed, ok, k).value) {
      var t := sk(k).v;
      assert t in sealed && ok(t) == k;
      SealMapValues(m, order, sk, sv, k);
    }
  }

  /** A map that compares equal to its sealed counterpart stops doing so when
      one raw value is replaced by one that does not compare equal. */
  lemma PartialEqMapChangedValue<K, V, TK, TV>(
    raw: map<K, V>, sealed: map<TK, TV>, borrow: TK -> K, eq: (V, TV) -> bool, k: K, v: V)
    requires InjectiveOn(sealed.Keys, borrow)
    requires MapMatches(raw, sealed, borrow, eq)
    requires k in raw && !eq(v, Get(sealed, borrow, k).value)
    ensures !MapMatches(raw[k := v], sealed, borrow, eq)
  {
    assert raw[k := v][k] == v;
  }

  /** ... or when a raw entry is removed, or a new raw key is added. */
  lemma PartialEqMapResized<K, V, TK, TV>(
    raw: map<K, V>, sealed: map<TK, TV>, borrow: TK -> K, eq: (V, TV) -> bool, k: K, v: V)
    requires InjectiveOn(sealed.Keys, borrow)
    requires MapMatches(raw, sealed, borrow, eq)
    ensures k in raw ==> !MapMatches(raw - {k}, sealed, borrow, eq)
    ensures k !in raw ==> !MapMatches(raw[k := v], sealed, borrow, eq)
  {
    assert |raw| == |sealed|;
    if k in raw {
      assert |(raw - {k}).Keys| == |raw.Keys - {k}| == |raw| - 1;
    } else {
      assert |raw[k := v].Keys| == |raw.Keys + {k}| == |raw| + 1;
    }
  }

  /** ... or when a raw key is replaced by a key the raw map did not hold, so
      that the sizes still agree: the new key is not found on the sealed side. */
  lemma PartialEqMapKeyReplaced<K, V, TK, TV>(
    raw: map<K, V>, sealed: map<TK, TV>, borrow: TK -> K, eq: (V, TV) -> bool, k: K, k2: K, v: V)
    requires InjectiveOn(sealed.Keys, borrow)
    requires MapMatches(raw, sealed, borrow, eq)
    requires k in raw && k2 !in raw
    ensures |(raw - {k})[k2 := v]| == |sealed|
    ensures !MapMatches((raw - {k})[k2 := v], sealed, borrow, eq)
  {
    var view := BorrowedSet(sealed.Keys, borrow);
    assert raw.Keys <= view by {
      forall x | x in raw ensures x in view {
        assert Get(sealed, borrow, x).Some?;
      }
    }
    InjectiveImageSize(sealed.Keys, borrow);
    if raw.Keys != view {
      ProperSubsetSmaller(raw.Keys, view);
    }
    var replaced := (raw - {k})[k2 := v];
    assert |replaced.Keys| == |(raw.Keys - {k}) + {k2}| == |raw| by {
      assert replaced.Keys == (raw.Keys - {k}) + {k2};
    }
    assert k2 !in view;
    assert k2 in replaced && Get(sealed, borrow, k2).None?;
  }

  /** ... or when an entry is removed from the sealed side. */
  lemma PartialEqMapSealedRemoved<K, V, TK, TV>(
    raw: map<K, V>, sealed: map<TK, TV>, borrow: TK -> K, eq: (V, TV) -> bool, t: TK)
    requires InjectiveOn(sealed.Keys, borrow)
    requires MapMatches(raw, sealed, borrow, eq)
    requires t in sealed
    ensures InjectiveOn((sealed - {t}).Keys, borrow)
    ensures !MapMatches(raw, sealed - {t}, borrow, eq)
  {
    assert (sealed - {t}).Keys == sealed.Keys - {t};
    assert |sealed - {t}| == |sealed| - 1;
  }
}
