/** Result types shared by the components. */
module Common {

  datatype Option<+T> = None | Some(value: T)

  datatype Result<+T, +E> = Ok(value: T) | Err(error: E)

  /** One more than the largest value of `uint64_t`. */
  const WORD := 0x1_0000_0000_0000_0000

  type reg_t = x: nat | x < WORD
}
