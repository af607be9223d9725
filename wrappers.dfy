/** The optional-value type used throughout the model: a .NET `null` reference, a failed
    `TryParse`, or an unsuccessful regular-expression match is `None`. */
module Wrappers {

  datatype Option<+T> = None | Some(value: T)

}
