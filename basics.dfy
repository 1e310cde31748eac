/** Small value types shared by every module of the model. */
module Basics {

  /** Python's `None` or a present value. */
  datatype Option<+T> = None | Some(value: T) {
    function GetOr(default: T): T {
      match this
      case Some(v) => v
      case None => default
    }
  }

  /** Identifiers are the decimal strings the platform's API returns. */
  type Oid = string
  type BvId = string
  type Rpid = string
}
