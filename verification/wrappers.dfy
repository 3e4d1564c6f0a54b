/** The "value or nothing" result that the codec uses where `lsb_encode`
    and `lsb_decode` return either a value or False. */
module Wrappers {
  datatype Option<T> = None | Some(value: T)
}
