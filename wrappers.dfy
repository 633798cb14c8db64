/** Option and Result values shared by every module of the model. */
module Wrappers {

  /** A value that may be missing: Python's `None`, a pandas NaN cell, JavaScript's `null`. */
  datatype Option<+T> = None | Some(value: T)

  /** Either a value or the error that a Python `raise` or a JavaScript `throw` reports. */
  datatype Result<+T, +E> = Ok(value: T) | Err(error: E)

  /** Truthiness of an optional string in Python (`if x:`) and JavaScript
      (`x || ...`, `filter(Boolean)`): present and not empty. */
  predicate Truthy(s: Option<string>) {
    s.Some? && s.value != ""
  }
}
