# sealedstruct runtime, modelled in Dafny

`sealedstruct` turns an unchecked "raw" value into a validated "sealed" value.
It does not stop at the first failure. Failures are values: a
`ValidationError` is a list of field-path segments (`""` means "the value
itself") plus a reason, and `ValidationErrors` is an ordered list of them. A
type takes part by implementing `Sealable`:

- `seal` is the fallible raw-to-sealed conversion;
- `open` is the total sealed-to-raw conversion;
- `partial_eq` compares a raw value with a sealed one.

The library provides `Sealable` for leaf types, tuples, `Arc`, `Option`, `Vec`,
`HashSet`, `HashMap` and the `IntoNestedWrapper`. Its derive macros emit a
struct-level fold that labels each field's failures with the field's name and
keeps the failures of every field.

The project has five modules, one per part of the runtime:

- `Errors` (`errors.dfy`) covers `ValidationError`, `ValidationErrors`,
  `combine_with`, and `combine`, `prepend_path` and `append_error` on
  `Result`. Where the code changes things in place, the model is a method with
  loops proved against a specification function:
  - `combine_with` extends a vector (`CombineWith`);
  - `on_fields` pushes the remaining segments (`OnFields`);
  - `prepend_path` rewrites every segment of every error (`PrependPath`).
- `Sealable` (`sealable.dfy`) covers the round-trip law `RoundTripsAt`, the
  leaf instances, pairs, triples and `Arc`, which is modelled as a transparent
  box. An instance is its three functions, passed explicitly:
  `seal: R -> Result<T>`, `open: T -> R` and `partial_eq: (R, T) -> bool`.
- `StdImpl` (`stdimpl.dfy`) covers `Option`, `Vec` (`seq`), `HashSet` (`set`)
  and `HashMap` (`map`):
  - a fail-fast `collect` is modelled as `Collect`;
  - the comparison loops of sets and maps, which return early, are methods.
- `Wrapper` (`wrapper.dfy`) covers `IntoNestedWrapper` and its `Deref`,
  `DerefMut` and `From`.
- `DeriveFold` (`derivefold.dfy`) gives the runtime meaning of the fold that
  the derive macros emit: `prepend_path(name)` on every field's outcome, then a
  left fold with `combine`.

Hash containers are visited in hash iteration order, which the library leaves
unspecified. The model takes it as a parameter `order`, a duplicate-free
listing of the keys. This order decides:

- which failure a `HashSet`/`HashMap` seal reports, because `collect` stops at
  the first failure;
- which entry survives when two raw keys seal (or open) to the same key,
  because the later insert replaces the earlier one.

Looking up a raw key in a sealed container goes through `Borrow`. The model
uses a function `borrow` from sealed key to raw key, which must be injective on
the sealed keys. That is the consistency `Borrow` demands of `Eq`.

Sealing stops at the first failure in two places:

- The tuple instances use `?`, so only the first failing component's failures
  are reported. `Seal2VersusCombine` states how this differs from `combine`,
  which keeps the failures of both sides.
- `Vec`, `HashSet` and `HashMap` use a fail-fast `collect`, so only the first
  failing element's failures are reported.

The round-trip lemmas for sets and maps take the raw view of a sealed element
(its `Borrow`) to be its opened value.

## Model

| member | source | states |
|---|---|---|
| `Errors.New` | sealedstruct/src/lib.rs:116-121 | the error has exactly one segment, `""`, and the given reason |
| `Errors.OnField` | sealedstruct/src/lib.rs:123-128 | the error has exactly the one segment `field` |
| `Errors.OnFields` | sealedstruct/src/lib.rs:130-141 | the loop that pushes the remaining segments produces `[first] + rest` in order (never empty) with the given reason |
| `Errors.ErrorsNew` | sealedstruct/src/lib.rs:80-82 | a list holding exactly the one error |
| `Errors.CombineWith` | sealedstruct/src/lib.rs:83-86 | extending in place yields `self + other`, left operand's errors first, length `\|self\| + \|other\|` |
| `Errors.CombineWithMonoid` | sealedstruct/src/lib.rs:42-43 | concatenation is associative and the default empty list is its identity on both sides |
| `Errors.Combine` | sealedstruct/src/lib.rs:164-171 | Ok exactly when both sides are Ok (then the pair of values); otherwise the errors of `self` followed by those of `other`, so one failure passes unchanged and two failures are both kept |
| `Errors.AppendError` | sealedstruct/src/lib.rs:191-196 | always Err, with the earlier errors (none for Ok) followed by the new one |
| `Errors.PrependPath` | sealedstruct/src/lib.rs:173-189 | the nested loops inserting `'.'` and the path in front of each segment produce exactly `Prepended`: Ok unchanged, every segment `""` becomes the path and every `s` becomes `path.s` |
| `Errors.PrependedKeepsShape` | sealedstruct/src/lib.rs:173-189 | prepending keeps Ok/Err, leaves Ok unchanged, and keeps the number and order of errors, every reason and each error's number of segments, so a well-formed error (at least one segment) stays well-formed |
| `Errors.PrependedSegments` | sealedstruct/src/lib.rs:177-184 | under a non-empty path every resulting segment is non-empty and starts with the path |
| `Errors.PrependedTwice` | sealedstruct/src/lib.rs:173-189 | prepending `inner` then `outer` equals prepending `outer.inner` once, for non-empty `inner` (how nested fields get dotted paths) |
| `Errors.PrependPathExample` | sealedstruct/src/lib.rs:364-374 | `Foo` under `Baz` becomes the single segment `Baz.Foo` with the reason kept |
| `Sealable.SealLeaf` | sealedstruct/src/lib.rs:205-207 | no contract of its own; its behaviour is stated by `Sealable.LeafRoundTrip` |
| `Sealable.OpenLeaf` | sealedstruct/src/lib.rs:209-211 | no contract of its own; its behaviour is stated by `Sealable.LeafRoundTrip` |
| `Sealable.PartialEqLeaf` | sealedstruct/src/lib.rs:213-215 | no contract of its own; its behaviour is stated by `Sealable.LeafRoundTrip` |
| `Sealable.LeafRoundTrip` | sealedstruct/src/lib.rs:199-230 | a leaf seals to `Ok(x)`, opens to itself, round-trips, and `partial_eq` is equality |
| `Sealable.Seal2` | sealedstruct/src/lib.rs:235-237 | Ok exactly when both components seal, with the pair of sealed values; otherwise only the first failing component's errors |
| `Sealable.Open2` | sealedstruct/src/lib.rs:239-241 | no contract of its own; its behaviour is stated by `Sealable.Tuple2RoundTrip` |
| `Sealable.PartialEq2` | sealedstruct/src/lib.rs:243-245 | no contract of its own; its behaviour is stated by `Sealable.Tuple2RoundTrip` |
| `Sealable.Seal2VersusCombine` | sealedstruct/src/lib.rs:235-237 | a pair agrees with `combine` unless both components fail, where the pair drops the second component's errors and `combine` keeps both |
| `Sealable.Tuple2RoundTrip` | sealedstruct/src/lib.rs:232-246 | a pair whose components round-trip round-trips (open and `partial_eq` component-wise) |
| `Sealable.Seal3` | sealedstruct/src/lib.rs:250-252 | Ok exactly when all three components seal; otherwise the errors of the first failing component only |
| `Sealable.Open3` | sealedstruct/src/lib.rs:254-256 | no contract of its own; its behaviour is stated by `Sealable.Tuple3RoundTrip` |
| `Sealable.PartialEq3` | sealedstruct/src/lib.rs:258-260 | no contract of its own; its behaviour is stated by `Sealable.Tuple3RoundTrip` |
| `Sealable.Tuple3RoundTrip` | sealedstruct/src/lib.rs:247-261 | a triple whose components round-trip round-trips |
| `Sealable.SealArc` | sealedstruct/src/lib.rs:269-271 | seals the pointee: Ok with the boxed sealed value exactly when the pointee seals, its errors unchanged otherwise |
| `Sealable.OpenArc` | sealedstruct/src/lib.rs:273-275 | no contract of its own; its behaviour is stated by `Sealable.ArcRoundTrip` |
| `Sealable.PartialEqArc` | sealedstruct/src/lib.rs:277-279 | no contract of its own; its behaviour is stated by `Sealable.ArcRoundTrip` |
| `Sealable.ArcRoundTrip` | sealedstruct/src/lib.rs:263-280 | a box whose pointee round-trips round-trips; `partial_eq` delegates to the pointee |
| `StdImpl.FirstFailure` | sealedstruct/src/stdimpl.rs:52-54 | the index of the first Err outcome (or the length): all before it are Ok, it is Err |
| `StdImpl.Collect` | sealedstruct/src/stdimpl.rs:52-54 | fail-fast collect: Ok exactly when no outcome fails, with every value in order; otherwise exactly the errors of the first failing outcome |
| `StdImpl.SealVec` | sealedstruct/src/stdimpl.rs:52-54 | Ok exactly when every element seals; same length and element i is the sealed element i; otherwise the errors of the first failing element, all before it sealing |
| `StdImpl.OpenVec` | sealedstruct/src/stdimpl.rs:56-58 | same length, element i is the opened element i |
| `StdImpl.FoldZip` | sealedstruct/src/stdimpl.rs:63-69 | the `zip`/`fold` is true exactly when the accumulator is true and every zipped pair compares equal |
| `StdImpl.PartialEqVec` | sealedstruct/src/stdimpl.rs:60-70 | true exactly when the lengths agree and every index pair compares equal, in order |
| `StdImpl.VecRoundTrip` | sealedstruct/src/stdimpl.rs:46-71 | a sequence whose elements round-trip round-trips |
| `StdImpl.PartialEqVecPushOrClear` | sealedstruct/tests/stdimpl.rs:32-42 | after a push, or clearing a non-empty vector, the comparison is false |
| `StdImpl.SealOption` | sealedstruct/src/stdimpl.rs:106-111 | `None` seals to `Ok(None)`; `Some(x)` to `Some` of x's sealed value, or x's errors unchanged with no path added |
| `StdImpl.OpenOption` | sealedstruct/src/stdimpl.rs:112-114 | no contract of its own; its behaviour is stated by `StdImpl.OptionRoundTrip` |
| `StdImpl.PartialEqOption` | sealedstruct/src/stdimpl.rs:116-122 | no contract of its own; its behaviour is stated by `StdImpl.PartialEqOptionCases` |
| `StdImpl.PartialEqOptionCases` | sealedstruct/src/stdimpl.rs:116-122 | true for None/None, false for None/Some either way, and delegates for Some/Some |
| `StdImpl.OptionRoundTrip` | sealedstruct/src/stdimpl.rs:100-123 | an option whose content round-trips round-trips; `open` maps `open` over the content |
| `StdImpl.SealSet` | sealedstruct/src/stdimpl.rs:80-82 | Ok exactly when every element seals, with the set of sealed elements; otherwise the errors of the first failing element in iteration order |
| `StdImpl.PartialEqSet` | sealedstruct/src/stdimpl.rs:87-97 | the loop with early return decides `SetMatches`: same size and every raw element is held by the sealed set (membership only) |
| `StdImpl.PartialEqSetLeaf` | sealedstruct/tests/stdimpl.rs:45-54 | for leaf elements the comparison is set equality, so removing or swapping an element makes it false |
| `StdImpl.SetLeafRoundTrip` | sealedstruct/src/stdimpl.rs:80-97 | a leaf set seals to itself in any iteration order, opens back to itself, and compares equal to itself |
| `StdImpl.OpenSet` | sealedstruct/src/stdimpl.rs:83-85 | no contract of its own; its behaviour is stated by `StdImpl.SetOpenRoundTrip` and `StdImpl.SetLeafRoundTrip` |
| `StdImpl.SetOpenRoundTrip` | sealedstruct/src/stdimpl.rs:80-85 | a set whose elements round-trip opens back to itself after sealing |
| `StdImpl.SetPartialEqRoundTrip` | sealedstruct/src/stdimpl.rs:80-97 | a set whose elements round-trip compares equal to its sealed set: same size, every element found |
| `StdImpl.InjectiveImageSize` | sealedstruct/src/stdimpl.rs:88-90 | an injective image of a set has as many elements as the set (the size check that sealing keeps) |
| `StdImpl.ProperSubsetSmaller` | sealedstruct/src/stdimpl.rs:88-95 | a proper subset of a finite set is strictly smaller (why an equal-size subset check is equality) |
| `StdImpl.EntryResults` | sealedstruct/src/stdimpl.rs:16-20 | each entry's outcome is `combine` of its key's and its value's seal, in iteration order |
| `StdImpl.CollectMap` | sealedstruct/src/stdimpl.rs:16-27 | collecting pairs into a map holds every pair's key, and the last pair's value is the one kept |
| `StdImpl.CollectMapSource` | sealedstruct/src/stdimpl.rs:16-27 | every key of the collected map is the key of some pair (no other keys appear) |
| `StdImpl.CollectMapLast` | sealedstruct/src/stdimpl.rs:16-27 | a pair whose key no later pair repeats keeps its value: a later insert replaces an earlier one |
| `StdImpl.SealMap` | sealedstruct/src/stdimpl.rs:16-20 | no contract of its own; its behaviour is stated by `StdImpl.SealMapOutcome`, `StdImpl.SealMapKeys`, `StdImpl.SealMapCollected` and `StdImpl.SealMapValues` |
| `StdImpl.SealMapOutcome` | sealedstruct/src/stdimpl.rs:16-20 | Ok exactly when every key and value seals, with the sealed raw keys as keys; otherwise the first failing entry's key errors followed by its value errors |
| `StdImpl.SealMapKeys` | sealedstruct/src/stdimpl.rs:16-20 | a successful seal means every key and value sealed, and its keys are exactly the sealed raw keys |
| `StdImpl.SealMapCollected` | sealedstruct/src/stdimpl.rs:16-20 | a successful seal collects, in iteration order, each entry's sealed key paired with its sealed value |
| `StdImpl.SealMapValues` | sealedstruct/src/stdimpl.rs:16-20 | when distinct keys seal to distinct keys, the entry at a sealed key holds the sealed value of its raw entry |
| `StdImpl.SealMapKeyAndValueErrors` | sealedstruct/src/stdimpl.rs:16-20 | one entry with a bad key and a bad value reports both, key errors first |
| `StdImpl.OpenedEntries` | sealedstruct/src/stdimpl.rs:22-27 | each sealed entry is opened key and value, in iteration order |
| `StdImpl.OpenMap` | sealedstruct/src/stdimpl.rs:22-27 | no contract of its own; its behaviour is stated by `StdImpl.OpenMapOutcome` and `StdImpl.MapOpenRoundTrip` |
| `StdImpl.OpenMapOutcome` | sealedstruct/src/stdimpl.rs:22-27 | the opened map's keys are the opened sealed keys; with distinct opened keys each holds its opened value |
| `StdImpl.CollectOwnEntries` | sealedstruct/src/stdimpl.rs:16-27 | collecting a map's own entries in any enumeration gives the map back |
| `StdImpl.MapLeafRoundTrip` | sealedstruct/src/stdimpl.rs:16-27 | a leaf map seals to itself and opens back to itself in any iteration order |
| `StdImpl.SealedKeysDistinct` | sealedstruct/src/stdimpl.rs:16-20 | raw keys that round-trip seal to distinct keys, so no sealed entry replaces another |
| `StdImpl.SealedKeysOpenBack` | sealedstruct/src/stdimpl.rs:16-27 | with round-tripping keys, opening is injective on the sealed keys and gives back exactly the raw keys |
| `StdImpl.MapOpenRoundTrip` | sealedstruct/src/stdimpl.rs:16-27 | a map whose keys and values round-trip opens back to itself after sealing, in any iteration orders |
| `StdImpl.Borrowed` | sealedstruct/src/stdimpl.rs:12 | the sealed map seen through `Borrow`: keyed by each key's raw view, with the same values |
| `StdImpl.Get` | sealedstruct/src/stdimpl.rs:34 | a lookup by raw key finds a value exactly when some sealed key borrows to it, and then that key's value |
| `StdImpl.PartialEqMap` | sealedstruct/src/stdimpl.rs:29-43 | the loop with early return decides `MapMatches`: same size and every raw key found on the sealed side with a value that compares equal |
| `StdImpl.PartialEqMapLeaf` | sealedstruct/src/stdimpl.rs:29-43 | for leaf keys and values the comparison is map equality (both directions) |
| `StdImpl.MapPartialEqRoundTrip` | sealedstruct/src/stdimpl.rs:16-43 | a map whose keys and values round-trip compares equal to its sealed map: same size, every key found with a matching value |
| `StdImpl.PartialEqMapChangedValue` | sealedstruct/tests/stdimpl.rs:19-21 | replacing one raw value by one that does not compare equal makes the comparison false |
| `StdImpl.PartialEqMapResized` | sealedstruct/tests/stdimpl.rs:22-23 | removing a raw entry, or adding a raw key it did not hold, changes the size and makes the comparison false |
| `StdImpl.PartialEqMapKeyReplaced` | sealedstruct/tests/stdimpl.rs:24-25 | replacing a matching map's raw key by a key it did not hold keeps the sizes equal but makes the comparison false, because the new key is not found on the sealed side |
| `StdImpl.PartialEqMapSealedRemoved` | sealedstruct/tests/stdimpl.rs:27-28 | removing a sealed entry makes the comparison false |
| `Wrapper.Seal` | sealedstruct/src/wrapper.rs:14-16 | no contract of its own; its behaviour is stated by `Wrapper.WrapperRoundTrip` |
| `Wrapper.Open` | sealedstruct/src/wrapper.rs:18-20 | no contract of its own; its behaviour is stated by `Wrapper.WrapperRoundTrip` |
| `Wrapper.PartialEq` | sealedstruct/src/wrapper.rs:22-24 | no contract of its own; its behaviour is stated by `Wrapper.WrapperRoundTrip` and `Wrapper.PartialEqIsEquality` |
| `Wrapper.WrapperRoundTrip` | sealedstruct/src/wrapper.rs:14-24 | sealing never fails and returns the wrapper itself, opening gives it back, and the wrapper round-trips exactly when its value compares equal to itself under `T`'s `PartialEq` (a wrapped NaN does not) |
| `Wrapper.PartialEqIsEquality` | sealedstruct/src/wrapper.rs:22-24 | when `T`'s comparison is equality, comparing the wrapped values is equality of the wrappers |
| `Wrapper.From` | sealedstruct/src/wrapper.rs:40-44 | no contract of its own; its behaviour is stated by `Wrapper.FromDeref` |
| `Wrapper.Deref` | sealedstruct/src/wrapper.rs:27-33 | no contract of its own; its behaviour is stated by `Wrapper.FromDeref` |
| `Wrapper.DerefMut` | sealedstruct/src/wrapper.rs:34-38 | no contract of its own; its behaviour is stated by `Wrapper.FromDeref` |
| `Wrapper.FromDeref` | sealedstruct/src/wrapper.rs:27-44 | `deref(from(x)) == x` and `from(deref(w)) == w`; a write through `deref_mut` changes the single field only |
| `DeriveFold.FieldErrorsAllValid` | sealedstruct_derive/src/nested.rs:214-231 | with no failing field there are no errors to report |
| `DeriveFold.FieldErrorsValid` | sealedstruct_derive/src/nested.rs:214-231 | when every field reports only well-formed errors (at least one segment), so does the struct |
| `DeriveFold.FieldErrorsSnoc` | sealedstruct_derive/src/nested.rs:214-231 | a struct's errors are those of its leading fields followed by those of its last field under its name |
| `DeriveFold.StructFold` | sealedstruct_derive/src/nested.rs:214-231 | Ok exactly when every field is Ok, with the values in declaration order; otherwise the concatenation, in declaration order, of each failing field's errors with its name prepended |
| `DeriveFold.Finish` | sealedstruct_derive/src/seal_simple.rs:127-131 | the destructured pair becomes the earlier values followed by the next one; errors pass through |
| `DeriveFold.FieldErrorsCount` | sealedstruct_derive/src/seal_simple.rs:113-131 | the reported errors number exactly the sum of the fields' error counts |
| `DeriveFold.StructFoldCountsAll` | sealedstruct_derive/src/seal_simple.rs:113-131 | no field's failure is dropped: the fold's error count is the sum over all fields |
| `DeriveFold.PrefixOne` | sealedstruct/src/lib.rs:173-189 | prefixing a one-segment error rewrites that segment only |
| `DeriveFold.ErrorPathExample` | sealedstruct/tests/nested.rs:95-116 | a `WrapperRaw` whose `numbers.int8` is 127 fails with exactly one error on `numbers.int8` |
| `DeriveFold.TwoFailingFields` | sealedstruct_derive/src/nested.rs:214-231 | two independently invalid fields give exactly two errors, on the two field names, in declaration order |

## Left out

- The `Display` summary of `ValidationErrors` (sealedstruct/src/lib.rs:46-77): it groups through a `HashMap` whose order is unspecified and is documented as a non-machine-readable summary.
- `ValidationError::iter_fields`, `ValidationErrors::iter` and `into_iter`: the model's segments and errors are already sequences, and iterating them is reading them in order.
- The `SmallVec` inline storage: any sequence behaves the same.
- The `f32`/`f64` leaf instances: floating point, where NaN breaks reflexive equality.
- The uuid and chrono leaf instances, and the `Validator` and `TryIntoNested` traits (sealedstruct/src/lib.rs:33-40): the first are the same leaf instance for foreign types, and the traits declare no behaviour of the runtime.
- The serde bindings of `IntoNestedWrapper` (sealedstruct/src/wrapper.rs:46-63): foreign serialisation glue.
- `Arc` sharing and cloning: `Arc` is a plain box here.
- `Hash` bounds and hash iteration order: the order is a parameter, so every order is covered, but which order the program would use is not modelled.
- The `sealedstruct_derive` crate's token generation: only the runtime meaning of the fold it emits is modelled.
- DeriveFold.StructFold: the fields share one value type and the values come back as a sequence, not the nested pairs of the generated code.
- Wrapper.FromDeref: `deref_mut` hands out a mutable reference; the model describes a write through it as a function `update` applied to the single field.
