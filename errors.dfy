/** The error model of sealedstruct and the extensions on validation outcomes:
    `ValidationError`, `ValidationErrors`, `combine_with`, and `combine`,
    `prepend_path` and `append_error` on `Result`. */
module Errors {

  /** One failure: the field-path segments it concerns and a reason.
      The segment "" stands for "the value itself". */
  datatype ValidationError = ValidationError(fields: seq<string>, reason: string)
  {
    /** Every constructor gives an error at least one segment. */
    predicate Valid() { |fields| >= 1 }
  }

  /** An ordered list of failures, in insertion order. */
  type ValidationErrors = seq<ValidationError>

  /** The outcome of a validation: the validated value, or every failure found. */
  datatype Result<T> = Ok(v: T) | Err(e: ValidationErrors)

  /** The failures an outcome carries: none for `Ok`. */
  function Errs<T>(res: Result<T>): ValidationErrors
  {
    if res.Ok? then [] else res.e
  }

  // ---------------------------------------------------------------------
  // ValidationError
  // ---------------------------------------------------------------------

  /** A failure of the value itself. */
  function New(reason: string): (r: ValidationError)
    ensures r.Valid() && r.fields == [""] && r.reason == reason
  {
    ValidationError([""], reason)
  }

  /** A failure scoped to one field. */
  function OnField(field: string, reason: string): (r: ValidationError)
    ensures r.Valid() && r.fields == [field] && r.reason == reason
  {
    ValidationError([field], reason)
  }

  /** A failure scoped to several fields: the error is built with `first`
      and the remaining segments are then pushed one by one. */
  method OnFields(first: string, rest: seq<string>, reason: string) returns (r: ValidationError)
    ensures r.Valid()
    ensures r.fields == [first] + rest && r.reason == reason
  {
    r := ValidationError([first], reason);
    var i := 0;
    while i < |rest|
      invariant 0 <= i <= |rest|
      invariant r.fields == [first] + rest[..i] && r.reason == reason
    {
      r := r.(fields := r.fields + [rest[i]]);
      i := i + 1;
    }
    assert rest[..|rest|] == rest;
  }

  // ---------------------------------------------------------------------
  // ValidationErrors
  // ---------------------------------------------------------------------

  /** The list holding just `error`; also the `From<ValidationError>` conversion. */
  function ErrorsNew(error: ValidationError): (r: ValidationErrors)
    ensures |r| == 1 && r[0] == error
  {
    [error]
  }

  /** `combine_with`: the errors of `other` are pushed, in order, after those of `self`. */
  method CombineWith(self: ValidationErrors, other: ValidationErrors) returns (r: ValidationErrors)
    ensures r == self + other
    ensures |r| == |self| + |other|
  {
    r := self;
    var i := 0;
    while i < |other|
      invariant 0 <= i <= |other|
      invariant r == self + other[..i]
    {
      r := r + [other[i]];
      i := i + 1;
    }
    assert other[..|other|] == other;
  }

  /** Concatenation, which `CombineWith` computes, is a monoid whose identity
      is the empty (default) list. */
  lemma CombineWithMonoid(a: ValidationErrors, b: ValidationErrors, c: ValidationErrors)
    ensures (a + b) + c == a + (b + c)
    ensures a + [] == a && [] + a == a
  {
  }

  // ---------------------------------------------------------------------
  // ValidationResultExtensions
  // ---------------------------------------------------------------------

  /** `combine`: pairs two successes; otherwise keeps the failures of both sides,
      those of `self` first. */
  function Combine<A, B>(self: Result<A>, other: Result<B>): (r: Result<(A, B)>)
    ensures r.Ok? <==> self.Ok? && other.Ok?
    ensures r.Ok? ==> r.v == (self.v, other.v)
    ensures r.Err? ==> r.e == Errs(self) + Errs(other)
  {
    match (self, other)
    case (Ok(a), Ok(b)) => Ok((a, b))
    case (Ok(_), Err(e)) => Err(e)
    case (Err(e), Ok(_)) => Err(e)
    case (Err(a), Err(b)) => Err(a + b)
  }

  /** `append_error`: one more failure after all earlier ones; a success is discarded. */
  function AppendError<T>(self: Result<T>, error: ValidationError): (r: Result<T>)
    ensures r.Err? && r.e == Errs(self) + [error]
  {
    match self
    case Ok(_) => Err(ErrorsNew(error))
    case Err(prev) => Err(prev + ErrorsNew(error))
  }

  /** How `prepend_path` rewrites one segment: "" becomes the bare path,
      any other segment `s` becomes `path.s`. */
  function PrefixSegment(path: string, segment: string): string
  {
    if segment == "" then path else path + "." + segment
  }

  /** One error with every segment rewritten under `path`; the reason is kept. */
  function PrefixError(path: string, error: ValidationError): ValidationError
  {
    error.(fields := seq(|error.fields|, j requires 0 <= j < |error.fields| => PrefixSegment(path, error.fields[j])))
  }

  /** Every error rewritten under `path`, in the same order. */
  function PrefixErrors(path: string, errors: ValidationErrors): ValidationErrors
  {
    seq(|errors|, i requires 0 <= i < |errors| => PrefixError(path, errors[i]))
  }

  /** The outcome `prepend_path` returns: a success is unchanged. */
  function Prepended<T>(self: Result<T>, path: string): Result<T>
  {
    match self
    case Ok(_) => self
    case Err(errors) => Err(PrefixErrors(path, errors))
  }

  /** `prepend_path`: for each error, for each of its segments, insert '.' in
      front of a non-empty segment and then insert the path in front of it. */
  method PrependPath<T>(self: Result<T>, path: string) returns (r: Result<T>)
    ensures r == Prepended(self, path)
  {
    if self.Ok? {
      return self;
    }
    var errors := self.e;
    var i := 0;
    while i < |errors|
      invariant 0 <= i <= |errors| && |errors| == |self.e|
      invariant forall k :: 0 <= k < i ==> errors[k] == PrefixError(path, self.e[k])
      invariant forall k :: i <= k < |errors| ==> errors[k] == self.e[k]
    {
      var error := errors[i];
      var fields := error.fields;
      var j := 0;
      while j < |fields|
        invariant 0 <= j <= |fields| && |fields| == |error.fields|
        invariant forall m :: 0 <= m < j ==> fields[m] == PrefixSegment(path, error.fields[m])
        invariant forall m :: j <= m < |fields| ==> fields[m] == error.fields[m]
      {
        var field := fields[j];
        if field != "" {
          field := ['.'] + field;
        }
        field := path + field;
        fields := fields[j := field];
        j := j + 1;
      }
      errors := errors[i := error.(fields := fields)];
      i := i + 1;
    }
    r := Err(errors);
  }

  /** `prepend_path` keeps the number and order of errors, every reason and the
      number of segments of each error; on a success it changes nothing. */
  lemma PrependedKeepsShape<T>(self: Result<T>, path: string)
    ensures Prepended(self, path).Ok? <==> self.Ok?
    ensures self.Ok? ==> Prepended(self, path) == self
    ensures |Errs(Prepended(self, path))| == |Errs(self)|
    ensures forall i :: 0 <= i < |Errs(self)| ==>
      Errs(Prepended(self, path))[i].reason == Errs(self)[i].reason &&
      |Errs(Prepended(self, path))[i].fields| == |Errs(self)[i].fields|
    ensures forall i :: 0 <= i < |Errs(self)| && Errs(self)[i].Valid() ==> Errs(Prepended(self, path))[i].Valid()
  {
  }

  /** Under a non-empty path no segment of the result is the empty "self" segment,
      and every segment starts with the path. */
  lemma PrependedSegments<T>(self: Result<T>, path: string, i: nat, j: nat)
    requires path != ""
    requires i < |Errs(self)| && j < |Errs(self)[i].fields|
    ensures var s := Errs(Prepended(self, path))[i].fields[j];
      s != "" && |s| >= |path| && s[..|path|] == path
  {
  }

  /** Prepending twice is prepending the dotted path once: this is how a nested
      field's error ends up as `outer.inner.field`. The inner path must not be
      empty: an empty inner path leaves "" segments empty, and the outer path
      then replaces them without the trailing dot. */
  lemma {:induction false} PrependedTwice<T>(self: Result<T>, inner: string, outer: string)
    requires inner != ""
    ensures Prepended(Prepended(self, inner), outer) == Prepended(self, outer + "." + inner)
  {
    if self.Err? {
      var once := PrefixErrors(inner, self.e);
      var twice := PrefixErrors(outer, once);
      var direct := PrefixErrors(outer + "." + inner, self.e);
      forall i | 0 <= i < |self.e|
        ensures twice[i] == direct[i]
      {
        var f := self.e[i].fields;
        forall j | 0 <= j < |f|
          ensures twice[i].fields[j] == direct[i].fields[j]
        {
          if f[j] == "" {
            assert twice[i].fields[j] == outer + "." + inner;
          } else {
            assert twice[i].fields[j] == outer + "." + (inner + "." + f[j]);
            assert direct[i].fields[j] == (outer + "." + inner) + "." + f[j];
          }
        }
      }
    }
  }

  /** The library's own example: `Foo` under `Baz` reads `Baz.Foo`. */
  lemma PrependPathExample()
    ensures Prepended(Result<()>.Err([OnField("Foo", "CustomMessage")]), "Baz")
      == Err([ValidationError(["Baz.Foo"], "CustomMessage")])
  {
    var e := PrefixError("Baz", OnField("Foo", "CustomMessage"));
    assert PrefixSegment("Baz", "Foo") == "Baz.Foo";
    assert e.fields == ["Baz.Foo"];
  }
}
