/** Failure-carrying result types shared by the curve engines.
    `None` stands for a Go `nil` slice or a failed primitive; `Err` carries
    the message of a returned Go `error`. */
module Wrappers {

  datatype Option<+T> = None | Some(value: T)

  datatype Result<+T> = Ok(value: T) | Err(msg: string)
}
