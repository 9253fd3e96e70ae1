/** The optional value used wherever the TypeScript code may produce "nothing":
    a NaN from parseInt, an undefined from Array.prototype.find. */
module Wrappers {

  datatype Option<+T> = None | Some(value: T)

}
