/** Failure-compatible datatypes standing in for Python's None and for the
    exceptions raised inside the handlers' `try` blocks. */
module Outcomes {

  /** Python's optional value: `None` or a present value. */
  datatype Option<+T> = None | Some(value: T)

  /** What a call into the repository engine (or the file system) produced:
      a value, an exception of class `ValueError` (or a subclass, such as
      `UnicodeDecodeError`), or any other exception. The message is the
      exception's `str(e)`. Usable with `:-`, so that a chain of calls stops
      at the first exception, as the statements of a `try` block do. */
  datatype Outcome<+T> =
    | Found(value: T)
    | ValueErrorRaised(message: string)
    | OtherError(message: string)
  {
    predicate IsFailure() {
      !Found?
    }

    /** Re-types an exception so that it propagates unchanged. */
    function PropagateFailure<U>(): (r: Outcome<U>)
      requires IsFailure()
      ensures r.IsFailure()
      ensures r.ValueErrorRaised? <==> ValueErrorRaised?
      ensures r.message == message
    {
      if ValueErrorRaised? then ValueErrorRaised(message) else OtherError(message)
    }

    function Extract(): T
      requires Found?
    {
      value
    }
  }
}
