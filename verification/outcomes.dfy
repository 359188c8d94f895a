/**
  Failure-carrying datatypes shared by the whole model.

  Python signals failure by raising; the model returns a `Result` whose
  `Failure` arm names the exception the source would raise.
 */
module Outcomes {

  datatype Option<+T> = None | Some(value: T)

  datatype Result<+R> = Success(value: R) | Failure(error: Error)

  /** The exceptions the modelled code raises or lets propagate. */
  datatype Error =
    | FileNotFound(path: string)          // FileNotFoundError(path)
    | AssertionFailed                     // a bare `assert` that does not hold
    | InvalidOutput(message: string)      // motleycrew's InvalidOutput(message)
    | ValueError(message: string)         // ValueError raised by the code or by numpy
    | IndexError                          // indexing a tuple past its end
    | RunStop(message: string)            // RunStopException(message)
    | ServiceFailure                      // an external service call raised

  /**
    Python's `text or fallback` for a text that may be `None`: the text when
    it is truthy, that is present and non-empty, the fallback otherwise.
   */
  function OrElse(text: Option<string>, fallback: string): (r: string)
    ensures text.Some? && text.value != [] ==> r == text.value
    ensures text.None? || text.value == [] ==> r == fallback
  {
    if text.Some? && text.value != [] then text.value else fallback
  }
}
