/** The ways the packaging script can fail, a Result type that carries them, and Option. */
module Errors {

  /** One constructor per exception the script lets escape. */
  datatype Error =
    | MalformedVersion          // ValueError: `git describe` did not unpack into three fields
    | EmptyDocument             // IndexError: the header chop ran out of lines
    | ConverterUnavailable      // ImportError: the pandoc binding is missing
    | MissingFile(path: string) // IOError: a file the chosen tier reads does not exist
    | UndefinedName(name: string) // NameError: a name that is never bound in the module

  datatype Result<+T> = Success(value: T) | Failure(error: Error) {

    predicate IsFailure() {
      Failure?
    }

    function PropagateFailure<U>(): Result<U>
      requires Failure?
    {
      Failure(error)
    }

    function Extract(): T
      requires Success?
    {
      value
    }
  }

  datatype Option<+T> = None | Some(value: T)
}
