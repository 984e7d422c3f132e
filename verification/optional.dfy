/** The Some/None wrapper used for Ruby's `nil`: an absent header parameter,
    an omitted optional argument, or the "no value" result of an aggregate. */
module Optional {

  datatype Option<+T> = None | Some(value: T) {

    /** The wrapped value, or `default` when there is none. */
    function GetOr(default: T): (r: T)
      ensures Some? ==> r == value
      ensures None? ==> r == default
    {
      match this
      case Some(v) => v
      case None => default
    }
  }
}
