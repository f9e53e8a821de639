/** The optional-value type used for every collaborator that may fail (raise, in the source). */
module Wrappers {

  datatype Option<+T> = None | Some(value: T)
}
