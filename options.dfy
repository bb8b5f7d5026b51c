/** The Option datatype used where the engine returns a nullable pointer. */
module Options {

  /** `None` stands for a null pointer, `Some(v)` for a pointer to `v`. */
  datatype Option<+T> = None | Some(value: T)
}
