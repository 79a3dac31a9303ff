/** Failure-carrying values shared by the cart modules. */
module Wrappers {

  /** `None` stands for a lookup that found nothing or a request that threw. */
  datatype Option<+T> = None | Some(value: T)
}
