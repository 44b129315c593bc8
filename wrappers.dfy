/** Optional values, used where the bot either produces something or stays silent. */
module Wrappers {
  datatype Option<+T> = None | Some(value: T)
}
