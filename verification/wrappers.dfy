/** The optional-value type shared by the model: a PHP lookup that finds
    nothing, a json_decode that throws, a search that finds no match. */
module Wrappers {

  datatype Option<+T> = None | Some(value: T) {

    /** The encapsulated value, or `default` when there is none (PHP's `??`). */
    function GetOr(default: T): T {
      match this
      case Some(v) => v
      case None => default
    }
  }
}
