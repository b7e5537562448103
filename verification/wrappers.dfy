/** The optional value used wherever the scripts test a value for `undefined`,
    `null` or JavaScript falsiness. */
module Wrappers {

  datatype Option<+T> = None | Some(value: T) {

    /** Returns the value in Some, or `default` for None (the `x || default` idiom). */
    function GetOr(default: T): T
    {
      match this
      case Some(v) => v
      case None => default
    }
  }
}
