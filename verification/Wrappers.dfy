/** Optional values, used where the original returns a value or nothing, and two counting helpers. */
module Wrappers {
  datatype Option<+T> = None | Some(value: T)

  function Min(a: nat, b: nat): nat { if a < b then a else b }

  function Indicator(b: bool): nat { if b then 1 else 0 }
}
