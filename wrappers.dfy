/** Option, the Python exceptions the core can raise, and a Result that carries either. */
module Wrappers {

  datatype Option<+T> = None | Some(value: T)

  /** The Python exception classes that the modelled code can raise. The string says where. */
  datatype Error =
    | KeyError(key: string)
    | IndexError(what: string)
    | ValueError(what: string)
    | AttributeError(what: string)
    | NameError(name: string)

  /** A computation that either returns a value or raises one of the exceptions above. */
  datatype Result<+T> = Ok(value: T) | Err(error: Error)
}
