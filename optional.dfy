/** An optional value, for a dialog that may be cancelled or a line that
    may not parse. */
module Optional {
  datatype Option<T> = None | Some(value: T)
}
