/** Outcome datatypes shared by the codec and the utility model. */
module Results {

  /** A value that may be absent: the codec's `null` result. */
  datatype Option<+T> = None | Some(value: T)

  /** A value or the error that prevented computing it: a thrown exception. */
  datatype Result<+T, +E> = Ok(value: T) | Err(error: E)
}
