/** A cell of the panel that may be missing (a NaN in the original data frame). */
module Wrappers {

  datatype Option<+T> = None | Some(value: T) {

    /** The value, or `default` when the cell is missing (pandas `fillna(default)`). */
    function GetOr(default: T): T {
      match this
      case Some(v) => v
      case None => default
    }
  }
}
