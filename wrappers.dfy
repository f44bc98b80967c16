/** Optional values, standing in for C's NULL-or-pointer returns and out-parameters
    that may be left unset. */
module Wrappers {

  datatype Option<+T> = None | Some(value: T)
}
