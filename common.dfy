/** Shared value types: optional values, results and the machine integer widths the program uses. */
module Common {

  datatype Option<+T> = None | Some(value: T) {
    /** The value, or `default` when there is none (Rust's `unwrap_or`). */
    function GetOr(default: T): T {
      match this
      case Some(v) => v
      case None => default
    }
  }

  datatype Result<+T, +E> = Ok(value: T) | Err(error: E)

  /** The outcome of one side-effecting step of a library that is not part of this model. */
  datatype Step = Succeeds | FailsWith(reason: string)

  type byte = x: int | 0 <= x < 0x100
  type u16 = x: int | 0 <= x < 0x1_0000
  type u64 = x: int | 0 <= x < 0x1_0000_0000_0000_0000
}
