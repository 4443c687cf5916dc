/** Optional values, for what the source answers as nil, as a failure block or as an error. */
module Options {

  datatype Option<+T> = None | Some(value: T)
}
