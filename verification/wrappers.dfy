/** The sentinel results of the store: `Option` stands for the source's
    `Event | null` return values. */
module Wrappers {

  datatype Option<+T> = None | Some(value: T)
}
