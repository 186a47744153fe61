/** Python's `None`-or-value results and C++ error exits, as a value. */
module Optional {
  datatype Option<T> = None | Some(value: T)
}
