/** Optional values: `None` stands for Python's `None`, and for a NaN position. */
module Options {

  datatype Option<+T> = None | Some(value: T)

}
