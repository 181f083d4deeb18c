/** Small value types shared by every part of the model. */
module Common {

  /** An optional value: `null`/`undefined` in the program becomes `None`. */
  datatype Option<T> = None | Some(value: T)

  /** A strictly positive real: task durations and frame periods. */
  type Positive = r: real | r > 0.0 witness 1.0
}
