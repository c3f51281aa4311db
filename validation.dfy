/** The four assertions `noteKeeperPlugin` makes on its options before it
    touches the schema, in the order it makes them. */
module Validation {
  import opened JsValues

  /** The value passed as `options.fields`: either an array of field names or
      any other JavaScript value (an absent property reads as `Undefined`).
      The `raw` of `NotArray` is never an array: every array is a `FieldArray`. */
  datatype FieldsOption =
    | FieldArray(names: seq<string>)
    | NotArray(raw: Value)

  /** One error per assertion; the source's messages name no field. */
  datatype ConfigError =
    | FieldsUndefined   // "options.fields must be defined."
    | FieldsNotArray    // "options.fields must be an array."
    | FieldsEmpty       // "options.fields must be a non-empty array."
    | FieldNotInSchema  // "Not all values in `options.fields` exist in the schema definition."

  datatype Result<+T> = Ok(value: T) | Err(error: ConfigError)

  /** `options.fields` is truthy (an array always is). */
  predicate Defined(fields: FieldsOption) {
    fields.FieldArray? || Truthy(fields.raw)
  }

  /** Every watched name resolves through `schema.path`. */
  predicate AllInSchema(names: seq<string>, paths: set<string>) {
    forall n :: n in names ==> n in paths
  }

  /** The validated field list, or the error of the first assertion that fails. */
  function Validate(fields: FieldsOption, paths: set<string>): (r: Result<seq<string>>)
    ensures r.Ok? <==> fields.FieldArray? && |fields.names| > 0 && AllInSchema(fields.names, paths)
    ensures r.Ok? ==> r.value == fields.names
    ensures r == Err(FieldsUndefined) <==> !Defined(fields)
    ensures r == Err(FieldsNotArray) <==> fields.NotArray? && Truthy(fields.raw)
    ensures r == Err(FieldsEmpty) <==> fields == FieldArray([])
    ensures r == Err(FieldNotInSchema) <==>
              fields.FieldArray? && |fields.names| > 0 && !AllInSchema(fields.names, paths)
  {
    if !Defined(fields) then Err(FieldsUndefined)
    else if !fields.FieldArray? then Err(FieldsNotArray)
    else if |fields.names| == 0 then Err(FieldsEmpty)
    else if !AllInSchema(fields.names, paths) then Err(FieldNotInSchema)
    else Ok(fields.names)
  }

  /** The checks run in a fixed order: an empty array is reported as empty
      whatever the schema holds, and a falsy non-array as undefined. */
  lemma EarlierCheckWins(paths: set<string>, other: set<string>, v: Value)
    ensures Validate(FieldArray([]), paths) == Validate(FieldArray([]), other) == Err(FieldsEmpty)
    ensures !Truthy(v) ==> Validate(NotArray(v), paths) == Err(FieldsUndefined)
    ensures Truthy(v) ==> Validate(NotArray(v), paths) == Err(FieldsNotArray)
  {
  }

  /** Validation depends on the schema only through the watched names:
      adding paths never turns an accepted list into a rejected one. */
  lemma {:induction false} ValidateMonotone(fields: FieldsOption, paths: set<string>, more: set<string>)
    requires paths <= more
    requires Validate(fields, paths).Ok?
    ensures Validate(fields, more) == Validate(fields, paths)
  {
    assert AllInSchema(fields.names, more) by {
      forall n | n in fields.names ensures n in more {
        assert n in paths;
      }
    }
  }
}
