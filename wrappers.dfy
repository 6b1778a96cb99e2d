/** The optional value used wherever the TypeScript code returns `T | null`
    or `T | undefined`. */
module Wrappers {

  datatype Option<+T> = None | Some(value: T)
}
