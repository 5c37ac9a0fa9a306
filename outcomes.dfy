/** Python exceptions as values: what the source raises becomes an `Err`. */
module Outcomes {

  /** An exception: its class name (`type(e).__name__`) and `str(e)`. */
  datatype Exception = Exception(typeName: string, message: string)

  datatype Option<T> = None | Some(value: T)

  datatype Result<T> = Ok(value: T) | Err(error: Exception)

  function ValueError(message: string): Exception { Exception("ValueError", message) }
  function RuntimeError(message: string): Exception { Exception("RuntimeError", message) }
  function IndexError(message: string): Exception { Exception("IndexError", message) }
}
