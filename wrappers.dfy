/** Optional values, standing for the C# nullable references (`string?`) of the linter. */
module Wrappers {

  datatype Option<+T> = None | Some(value: T)
}
