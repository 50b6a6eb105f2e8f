/** The usual optional-value datatype, used where the load balancer returns a nil pointer. */
module Wrappers {

  datatype Option<+T> = None | Some(value: T)

}
