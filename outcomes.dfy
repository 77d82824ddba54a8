/** The success/failure wrapper used for the places where the page's
    functions either return a value or stop with an error. */
module Outcomes {

  datatype Result<+T, +E> = Success(value: T) | Failure(error: E)
}
