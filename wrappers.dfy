/** Optional values: the `null`/`undefined` of the application's records. */
module Wrappers {

  datatype Option<+T> = None | Some(value: T) {

    /** The value, or `default` when absent (JavaScript's `x ?? default`). */
    function GetOr(default: T): T {
      match this
      case Some(v) => v
      case None => default
    }
  }

  /** JavaScript's `(x || 0)` / `(x ?? 0)` on an optional number: absent counts as 0. */
  function OrZero(x: Option<int>): int {
    x.GetOr(0)
  }

  /** A string or `null` used as a condition (`if (x)`, `!x`, `x || …`): present and not empty. */
  predicate Truthy(x: Option<string>) {
    x.Some? && x.value != ""
  }
}
