/** The optional value used wherever the TypeScript code returns or stores
    something that may be `undefined`. */
module Wrappers {

  datatype Option<+T> = None | Some(value: T)
}
