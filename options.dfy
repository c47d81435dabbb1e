/** JavaScript's `null` / `undefined` next to a present value. */
module Options {

  datatype Option<+T> = None | Some(value: T) {

    /** The `??` operator: the value when present, otherwise `default`. */
    function GetOr(default: T): (r: T)
      ensures Some? ==> r == value
      ensures None? ==> r == default
    {
      match this
      case Some(v) => v
      case None => default
    }
  }
}
