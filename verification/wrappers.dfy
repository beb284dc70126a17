/** Small failure-carrying datatype shared by the other modules. */
module Wrappers {

  /** A value that may be absent: a lookup that found nothing, a text that does not parse. */
  datatype Option<+T> = None | Some(value: T)
}
