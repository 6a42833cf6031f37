/** The optional value returned by the engine's lookups and extractors. */
module Wrappers {

  datatype Option<+T> = None | Some(value: T)
}
