/** Optional values, standing for the null pointers, empty `std::optional`s and
    undefined-behaviour cases of the modelled C++ code. */
module Wrappers {

  datatype Option<+T> = None | Some(value: T) {

    /** The value, or `default` when there is none. */
    function GetOr(default: T): T {
      match this
      case Some(v) => v
      case None => default
    }
  }
}
