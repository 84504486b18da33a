/** Optional values: stands for a pointer that may be null or an out-parameter that may be left unset. */
module Wrappers {
  datatype Option<+T> = None | Some(value: T) {
    function GetOr(default: T): T {
      if Some? then value else default
    }
  }
}
