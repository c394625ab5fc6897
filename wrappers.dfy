/** Small helper types shared by the two components. */
module Wrappers {

  /** A value that may be absent: the timer handle that is `null` when no timer is armed,
      the highlight that is not drawn when there is nothing to show. */
  datatype Option<T> = None | Some(value: T)
}
