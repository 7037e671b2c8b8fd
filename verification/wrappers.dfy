/** Option and Result values shared by the models: a Python exception or a C error
    return becomes an error value instead of a precondition. */
module Wrappers {

  datatype Option<+T> = None | Some(value: T)

  datatype Result<+T, +E> = Ok(value: T) | Err(error: E)
}

/** The Python exceptions the modelled scripts raise, as values. */
module PyExceptions {

  datatype Exception =
    | ValueError(message: string)
    | KeyError(key: string)
    | IndexError(message: string)
    | ZeroDivisionError
    | StructError(message: string)
}
