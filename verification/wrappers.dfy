/**
 * JavaScript's `null` and `undefined`: a form field or a record value is either one of
 * them (`None`) or a present value (`Some`).
 */
module Wrappers {

  datatype Option<T> = None | Some(value: T) {

    /** `v || fallback` on a string `v`. Only an absent value is replaced: the one other
        falsy string, `""`, gives `""` either way when the fallback is `""`. */
    function GetOr(fallback: T): T {
      match this
      case Some(v) => v
      case None => fallback
    }
  }
}
