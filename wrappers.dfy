/** Optional values, used wherever the downloader's Python code has `None`. */
module Wrappers {

  datatype Option<+T> = None | Some(value: T)
}
