/** The "a value or nothing" type used wherever the source returns None or
    starts from an absent best value. */
module Optional {
  datatype Option<T> = None | Some(value: T)
}
