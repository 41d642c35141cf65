/** The optional value used for the nullable `manager_id` column. */
module Wrappers {

  /** `None` plays the part of JavaScript's `null`; two `None`s are equal,
      as `null === null` is true. */
  datatype Option<+T> = None | Some(value: T)
}
