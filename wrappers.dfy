/** Optional values, used for the source's `optional<T>` results and
    arguments, and btn::min / btn::max on integers. */
module Wrappers {

  datatype Option<+T> = None | Some(value: T)

  function Min(a: int, b: int): int {
    if a <= b then a else b
  }

  function Max(a: int, b: int): int {
    if a >= b then a else b
  }
}
