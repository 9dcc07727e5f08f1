/** An optional value: a nullable reference, a missing dictionary entry or
    an absent filter bound. */
module Options {
  datatype Option<T> = None | Some(value: T)
}
