/** C#'s nullable reference values, and the one string test the controllers use on them. */
module Nullable {

  /** A reference that may be null: `None` is null, `Some(v)` is the value v. */
  datatype Option<+T> = None | Some(value: T)

  /** `string.IsNullOrEmpty`: true for null and for the empty string. */
  predicate IsNullOrEmpty(s: Option<string>)
  {
    s.None? || s.value == ""
  }
}
