// Result shapes shared by every module of the model.
module Wrappers {
  datatype Option<T> = None | Some(value: T)

  datatype Result<T, E> = Ok(value: T) | Err(error: E)

  /** The outcome of a computation that can abort: `Panics` stands for a Rust `panic!`,
    * a failed `assert!`/`unwrap`, or `unimplemented!`, carrying the reason. */
  datatype Outcome<T> = Returns(value: T) | Panics(reason: string)
}
