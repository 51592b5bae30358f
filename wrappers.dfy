/** Option, for values that may be absent (a validator moniker the join did
    not find, a block height the range endpoint did not deliver). */
module Wrappers {

  datatype Option<+T> = None | Some(value: T)
}
