/** Small value types shared by the other modules. */
module Base {

  /** Python's `None` or a present value. */
  datatype Option<+T> = None | Some(value: T)

  /** Python truthiness of an optional string: `None` and `""` are false. */
  predicate Truthy(s: Option<string>) {
    s.Some? && s.value != ""
  }
}
