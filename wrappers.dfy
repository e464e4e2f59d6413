/** The optional value the scripts' lookups and decoders return: a value, or none where Python raises or finds nothing. */
module Wrappers {
  datatype Option<T> = None | Some(value: T)
}
