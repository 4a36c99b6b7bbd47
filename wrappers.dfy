/** The optional value used across the model: a missing match, an undecodable payload, a JSON null. */
module Wrappers {

  datatype Option<+T> = None | Some(value: T)
}
