/** The two outcome types of the model. */
module Results {

  /** A value that may be absent. */
  datatype Option<T> = None | Some(value: T)

  /** The value an operation returns, or the index-out-of-bounds exception
      it throws instead. */
  datatype Result<T> = Ok(value: T) | OutOfBounds
}
