/** Failure-compatible result types shared by every module of the model, and
    the Java exception classes the modelled code throws. */
module Wrappers {

  datatype Option<+T> = None | Some(value: T)

  /** The exception classes raised by the modelled code. `IOException` stands
      for a plain `java.io.IOException`; its subclasses are listed separately. */
  datatype Kind =
    | IOException
    | EOFException
    | ZipException
    | FileNotFoundException
    | UnsupportedOperationException
    | ServiceConfigurationError
    | ArrayIndexOutOfBoundsException

  /** A thrown exception: its class and its message. */
  datatype Error = Error(kind: Kind, message: string)

  datatype Result<+T> = Ok(value: T) | Err(error: Error) {
    predicate IsFailure() {
      Err?
    }

    function PropagateFailure<U>(): Result<U>
      requires Err?
    {
      Err(error)
    }

    function Extract(): T
      requires Ok?
    {
      value
    }
  }

  /** True when `r` failed with exactly this exception class and message. */
  predicate FailsWith<T>(r: Result<T>, kind: Kind, message: string) {
    r.Err? && r.error == Error(kind, message)
  }
}
