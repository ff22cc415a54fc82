/** Optional values: a cell reference that may be null. */
module Wrappers {

  datatype Option<+T> = None | Some(value: T)

  /** The values an optional reference points at: none, or exactly one. */
  function Marked<T>(o: Option<T>): set<T>
  {
    if o.Some? then {o.value} else {}
  }
}
