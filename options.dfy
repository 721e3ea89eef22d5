/** Optional values: `None` stands for the exception or the missing value of
    the source, `Some` for a normal result. */
module Options {
  datatype Option<T> = None | Some(value: T)
}
