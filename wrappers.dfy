/** Optional values: `None` stands for Python's `None` and for "an exception was raised". */
module Wrappers {

  datatype Option<+T> = None | Some(value: T)

}
