/** Optional values and success/failure outcomes, used where the C program
    returns NULL or terminates the process with an error status. */
module Outcomes {

  datatype Option<+T> = None | Some(value: T)

  datatype Result<+T, +E> = Ok(value: T) | Err(error: E)
}
