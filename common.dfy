/** Small shared datatypes. */
module Common {

  /** A value that may be absent: JavaScript's `undefined`/`null`/`NaN` results. */
  datatype Option<+T> = None | Some(value: T)
}
