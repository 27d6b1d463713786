/** Option and Result values standing for Python's "missing" and raised-error outcomes. */
module Wrappers {

  datatype Option<+T> = None | Some(value: T)

  /** The Python exceptions the modelled code can raise on bad input. */
  datatype PyError = IndexError | KeyError

  datatype Result<+T> = Ok(value: T) | Err(error: PyError)

  function Min(a: int, b: int): int { if a <= b then a else b }

  function Max(a: int, b: int): int { if a <= b then b else a }
}
