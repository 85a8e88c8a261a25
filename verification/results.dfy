/** Outcome types shared by every module: the Python exceptions that the core can
    raise become explicit `Err` values. */
module Results {

  /** The failures the modelled code can raise. */
  datatype Error =
    /** `float()` rejected the amount capture (a Python `ValueError`). */
    | BadAmount(text: string)
    /** The verb check of the parser rejected the verb (a Python `ValueError`). */
    | UnrecognizedVerb(verb: string)
    /** A name used by the code was never imported (a Python `NameError`). */
    | UndefinedName(name: string)
    /** Date arithmetic left the range 0001-01-01 .. 9999-12-31 (a Python `OverflowError`). */
    | DateOutOfRange

  datatype Option<+T> = None | Some(value: T)

  datatype Result<+T> = Ok(value: T) | Err(error: Error)
}
