/** Optional values and results, the shapes PHP expresses with null and exceptions. */
module Wrappers {

  /** A value that may be missing: PHP's `null`. */
  datatype Option<+T> = None | Some(value: T) {
    function GetOr(default: T): T {
      match this
      case Some(v) => v
      case None => default
    }
  }

  /** A result or the error that the PHP code raises instead. */
  datatype Result<+T, +E> = Success(value: T) | Failure(error: E)

  /** The errors the core raises. */
  datatype BookError =
    | ParserNotSet                  // BookDataService::parse without a parser
    | NullReturned(getter: string)  // a getter typed `string`, `int` or `array` met an unset field (a PHP TypeError)
}
