/** The optional value used where the wrapper answers "no such member" or "nothing to report". */
module Wrappers {

  datatype Option<+T> = None | Some(value: T)
}
