/** Optional values: a C# reference that may be null, or an out-parameter
    that is only meaningful when the call reports success. */
module Wrappers {
  datatype Option<T> = None | Some(value: T)
  {
    predicate IsSome() { this.Some? }
  }
}
