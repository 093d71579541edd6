/** Failure-carrying datatypes shared by every stage of the analysis.

    The script has no error handling of its own beyond the parse step: every
    failure below is a Python exception that would end the run.  The model
    returns it as a value instead, naming the exception the script would raise.
 */
module Results {

  datatype Option<T> = None | Some(value: T)

  datatype Result<T, E> = Success(value: T) | Failure(error: E)

  /** The Python exception a step of the script raises. */
  datatype Error =
    | UnboundLocalError(variable: string)  // a local read before it was bound, a kind of NameError
    | ValueError(argument: string)         // a builtin refused its argument
    | AttributeError                       // a method called on a value that lacks it
    | IndexError                           // a list subscript past the end
}
