/** Small shared vocabulary of the generators and the driver. */
module Common {
  /** A value that may be missing: the source's `None` or a failed choice. */
  datatype Option<T> = None | Some(value: T)

  function Max(a: int, b: int): int { if a <= b then b else a }
}
