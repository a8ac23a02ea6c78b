/** Failure-carrying datatypes shared by every module of the model. */
module Wrappers {

  /** An optional value, as Rust's `Option<T>`. */
  datatype Option<+T> = None | Some(value: T)

  /** A value or an error, as Rust's `Result<T, E>`. */
  datatype Result<+T, +E> = Success(value: T) | Failure(error: E)

  /** The places where the daemon calls `expect` or `unwrap` on a value that can be
      absent or malformed; reaching one ends the handling thread. */
  datatype Panic =
    | NoPortProvided      // the target is not `host` and no port field follows it
    | NoCommandProvided   // no command field follows the target
    | MissingArgument     // `arguments.get(0).unwrap()` on an empty argument list
    | BadInstanceId       // `parse::<u16>().unwrap()` on the instance id
    | LengthOverflow      // `write_u24` given a length that does not fit in 24 bits
    | BadSocketAddr       // `parse::<SocketAddr>().unwrap()` in the older draft server
}
