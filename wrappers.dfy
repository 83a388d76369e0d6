/** Optional values (a pandas NaN cell) and results (a load that raises). */
module Wrappers {

  /** A cell that may be missing: `None` stands for NaN / None in the table. */
  datatype Option<+T> = None | Some(value: T) {

    /** The value, or `default` when missing (pandas `fillna(default)`). */
    function GetOr(default: T): T
    {
      match this
      case Some(v) => v
      case None => default
    }
  }

  /** Either a value or the error that the source would raise instead. */
  datatype Result<+T, +E> = Ok(value: T) | Err(error: E)
}
