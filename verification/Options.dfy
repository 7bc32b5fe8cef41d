/** A value that may be missing. */
module Options {
  datatype Option<T> = None | Some(value: T)

  function UnwrapOr<T>(option: Option<T>, default: T): T {
    if option.Some? then option.value else default
  }
}
