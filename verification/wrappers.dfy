/** Optional values: a field of a JSON request body is either supplied or
    absent. JavaScript's `undefined` and `null` are both modelled as `None`. */
module Wrappers {

  datatype Option<+T> = None | Some(value: T) {

    /** The supplied value, or `default` when absent: the `??` operator. */
    function GetOr(default: T): T
    {
      match this
      case Some(v) => v
      case None => default
    }
  }
}
