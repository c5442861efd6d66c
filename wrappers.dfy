/** Optional values, standing for the engine's `std::optional` results and null pointers. */
module Wrappers {

  datatype Option<+T> = None | Some(value: T)

}
