/** Optional values, used for the debouncer's nil timers, its emissions and a
    regular expression that failed to compile. */
module Wrappers {

  datatype Option<+T> = None | Some(value: T)
}
