/** Option and Result, the two shapes the compiler's Rust code returns. */
module Wrappers {

  datatype Option<+T> = None | Some(value: T)

  /** How a compilation step stops early. `Rejected` is an `Err(String)` the
      source returns on purpose; `Panic` stands for an `unwrap()` or `panic!`
      that aborts the Rust program, modelled as an error value instead. */
  datatype Failure = Rejected(message: string) | Panic(reason: string)

  datatype Result<+T> = Ok(value: T) | Err(error: Failure)
}
