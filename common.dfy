/** Shared vocabulary of the model: optional values, record identifiers and
    the scalar values a JSON request body can carry. */
module Common {

  datatype Option<T> = None | Some(value: T)

  /** Database identifiers (the storage layer generates them as strings). */
  type Id = string

  /** A scalar JSON value, as found in the body of a stage update. */
  datatype Value = Null | Bool(b: bool) | Num(n: int) | Str(s: string)

  /** The identifiers listed in a request, as a set. */
  function IdSet(q: seq<Id>): (r: set<Id>)
    ensures forall x :: x in r <==> x in q
  {
    set x | x in q
  }

  /** JavaScript falsiness of an optional string parameter: an absent
      parameter and the empty string are both falsy. */
  predicate Falsy(v: Option<string>): (r: bool)
    ensures !r <==> v.Some? && |v.value| > 0
  {
    v.None? || v.value == ""
  }
}
