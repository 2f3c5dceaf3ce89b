/** Optional values and results shared by every module of the depot model.
    An optional TypeScript field (`berthId?: string`) becomes an `Option`;
    the error taxonomy of the checked transition uses `Result`. */
module Wrappers {

  datatype Option<+T> = None | Some(value: T) {

    /** The wrapped value, or `default` when there is none (the `??` of the source). */
    function GetOr(default: T): T {
      match this
      case Some(v) => v
      case None => default
    }
  }

  datatype Result<+R, +E> = Ok(value: R) | Err(error: E)
}
