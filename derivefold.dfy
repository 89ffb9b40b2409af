/** The struct-level fold that the derive macros emit for a struct with named
    fields (sealedstruct_derive/src/nested.rs and seal_simple.rs): every
    field's outcome gets the field's name prepended, and the outcomes are
    combined left to right, so no field's failures are lost.

    The generated code binds the values as nested pairs `((a, b), c)`; here
    the fields share one value type and the values are collected in a
    sequence in declaration order. */
module DeriveFold {
  import opened Errors

  /** A field's name and the outcome of validating it. */
  datatype FieldResult<V> = FieldResult(name: string, result: Result<V>)

  /** The failures a struct must report: each field's failures under the
      field's name, in declaration order; a valid field contributes none. */
  function FieldErrors<V>(fields: seq<FieldResult<V>>): ValidationErrors
  {
    if |fields| == 0 then []
    else PrefixErrors(fields[0].name, Errs(fields[0].result)) + FieldErrors(fields[1..])
  }

  /** Without a failing field there is nothing to report. */
  lemma {:induction false} FieldErrorsAllValid<V>(fields: seq<FieldResult<V>>)
    requires forall i :: 0 <= i < |fields| ==> fields[i].result.Ok?
    ensures FieldErrors(fields) == []
  {
    if |fields| > 0 {
      FieldErrorsAllValid(fields[1..]);
    }
  }

  /** When every field reports only well-formed errors (each with a segment),
      so does the struct. */
  lemma {:induction false} FieldErrorsValid<V>(fields: seq<FieldResult<V>>)
    requires forall i, j :: 0 <= i < |fields| && 0 <= j < |Errs(fields[i].result)| ==> Errs(fields[i].result)[j].Valid()
    ensures forall j :: 0 <= j < |FieldErrors(fields)| ==> FieldErrors(fields)[j].Valid()
  {
    if |fields| > 0 {
      FieldErrorsValid(fields[1..]);
      var head := PrefixErrors(fields[0].name, Errs(fields[0].result));
      PrependedKeepsShape(fields[0].result, fields[0].name);
      assert forall j :: 0 <= j < |head| ==> head[j].Valid() by {
        assert forall j :: 0 <= j < |head| ==> |head[j].fields| == |Errs(fields[0].result)[j].fields|;
      }
    }
  }

  /** The failures of a struct are those of all but its last field, followed
      by those of the last field. */
  lemma {:induction false} FieldErrorsSnoc<V>(fields: seq<FieldResult<V>>)
    requires |fields| > 0
    ensures var last := fields[|fields| - 1];
      FieldErrors(fields) == FieldErrors(fields[..|fields| - 1]) + PrefixErrors(last.name, Errs(last.result))
  {
    if |fields| > 1 {
      FieldErrorsSnoc(fields[1..]);
      assert fields[1..][..|fields| - 2] == fields[..|fields| - 1][1..];
    }
  }

  /** The generated fold: `prepend_path` on the first field, then `combine`
      with each further field's prepended outcome. Starting from the empty
      success is the same as starting from the first field, because combining
      with a success keeps the other side's failures as they are. */
  function StructFold<V>(fields: seq<FieldResult<V>>): (r: Result<seq<V>>)
    ensures r.Ok? <==> forall i :: 0 <= i < |fields| ==> fields[i].result.Ok?
    ensures r.Ok? ==> |r.v| == |fields| && forall i :: 0 <= i < |fields| ==> r.v[i] == fields[i].result.v
    ensures r.Err? ==> r.e == FieldErrors(fields)
    decreases |fields|
  {
    if |fields| == 0 then Ok([])
    else
      var init := fields[..|fields| - 1];
      var last := fields[|fields| - 1];
      var prev := StructFold(init);
      var combined := Combine(prev, Prepended(last.result, last.name));
      FieldErrorsSnoc(fields);
      if prev.Ok? then
        FieldErrorsAllValid(init);
        Finish(combined)
      else
        Finish(combined)
  }

  /** The destructuring `let ((a, b), c) = ...?` of the generated code: a pair
      of the earlier values and the next value becomes one sequence. */
  function Finish<V>(res: Result<(seq<V>, V)>): (r: Result<seq<V>>)
    ensures r.Ok? <==> res.Ok?
    ensures r.Ok? ==> r.v == res.v.0 + [res.v.1]
    ensures r.Err? ==> r.e == res.e
  {
    match res
    case Ok((vs, v)) => Ok(vs + [v])
    case Err(e) => Err(e)
  }

  /** Every field's failures are reported: the number of failures of a struct
      is the sum over its fields. */
  function ErrorCount<V>(fields: seq<FieldResult<V>>): nat
  {
    if |fields| == 0 then 0 else |Errs(fields[0].result)| + ErrorCount(fields[1..])
  }

  lemma {:induction false} StructFoldCountsAll<V>(fields: seq<FieldResult<V>>)
    ensures |Errs(StructFold(fields))| == ErrorCount(fields)
  {
    if StructFold(fields).Err? {
      FieldErrorsCount(fields);
    } else {
      FieldErrorsAllValid(fields);
      FieldErrorsCount(fields);
    }
  }

  lemma {:induction false} FieldErrorsCount<V>(fields: seq<FieldResult<V>>)
    ensures |FieldErrors(fields)| == ErrorCount(fields)
  {
    if |fields| > 0 {
      FieldErrorsCount(fields[1..]);
    }
  }

  // ---------------------------------------------------------------------
  // The error-path scenario of the library's tests
  // ---------------------------------------------------------------------

  /** The validation of `NumbersRaw::int8` in the tests: below 100. */
  function CheckInt8(x: int): Result<int>
  {
    if x < 100 then Ok(x) else Err([New("int8")])
  }

  /** The fields of `NumbersRaw` with `int8 = 127` and the others valid. */
  function NumbersFields(int8: int, int16: int, int32: int, int64: int, int128: int): seq<FieldResult<int>>
  {
    [ FieldResult("int8", CheckInt8(int8)), FieldResult("int16", Ok(int16)), FieldResult("int32", Ok(int32)),
      FieldResult("int64", Ok(int64)), FieldResult("int128", Ok(int128)) ]
  }

  /** Prefixing a one-segment error. */
  lemma PrefixOne(path: string, segment: string, reason: string)
    ensures PrefixErrors(path, [ValidationError([segment], reason)])
      == [ValidationError([PrefixSegment(path, segment)], reason)]
  {
    var e := PrefixError(path, ValidationError([segment], reason));
    assert e.fields == [PrefixSegment(path, segment)];
  }

  /** Sealing a `WrapperRaw` whose `numbers.int8` is 127 reports exactly one
      failure, on the path `numbers.int8`. The fields `ip`, `optional`,
      `direction` and `always` stand for any valid value: they only have to
      seal, and the fold's values share one type, here `seq<int>` as for the
      sealed `numbers`. */
  lemma ErrorPathExample(int16: int, int32: int, int64: int, int128: int, ip: seq<int>, optional: seq<int>,
                         direction: seq<int>, always: seq<int>)
    ensures var numbers := StructFold(NumbersFields(127, int16, int32, int64, int128));
      StructFold([ FieldResult("numbers", numbers), FieldResult("ip", Ok(ip)), FieldResult("optional", Ok(optional)),
                   FieldResult("direction", Ok(direction)), FieldResult("always", Ok(always)) ])
      == Err([ValidationError(["numbers.int8"], "int8")])
  {
    var inner := NumbersFields(127, int16, int32, int64, int128);
    assert FieldErrors(inner) == [ValidationError(["int8"], "int8")] by {
      FieldErrorsAllValid(inner[1..]);
      PrefixOne("int8", "", "int8");
      assert PrefixSegment("int8", "") == "int8";
    }
    var outer := [ FieldResult("numbers", StructFold(inner)), FieldResult("ip", Ok(ip)),
                   FieldResult("optional", Ok(optional)), FieldResult("direction", Ok(direction)),
                   FieldResult("always", Ok(always)) ];
    assert FieldErrors(outer) == [ValidationError(["numbers.int8"], "int8")] by {
      FieldErrorsAllValid(outer[1..]);
      PrefixOne("numbers", "int8", "int8");
      assert PrefixSegment("numbers", "int8") == "numbers.int8";
    }
  }

  /** Two independently invalid fields both get reported, in declaration
      order, each under its own name. */
  lemma TwoFailingFields<V>(a: string, ra: string, b: string, rb: string, c: string, x: V)
    ensures StructFold([FieldResult(a, Err([New(ra)])), FieldResult(b, Err([New(rb)])), FieldResult(c, Ok(x))])
      == Err([ValidationError([a], ra), ValidationError([b], rb)])
  {
    var fields := [FieldResult(a, Err([New(ra)])), FieldResult(b, Err([New(rb)])), FieldResult(c, Ok(x))];
    assert fields[1..][1..] == fields[2..];
    assert FieldErrors(fields[2..]) == [] by { FieldErrorsAllValid(fields[2..]); }
    PrefixOne(a, "", ra);
    PrefixOne(b, "", rb);
    assert FieldErrors(fields[1..]) == [ValidationError([b], rb)];
  }
}
