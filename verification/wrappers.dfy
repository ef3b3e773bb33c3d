/** Optional values: the model's rendering of JavaScript's `undefined` / `null`
    and of "not found" results such as `Array.prototype.find` returning nothing. */
module Wrappers {

  datatype Option<+T> = None | Some(value: T) {

    /** Returns the value held in Some, or the default when None. */
    function GetOr(default: T): T {
      match this
      case Some(v) => v
      case None => default
    }
  }
}
