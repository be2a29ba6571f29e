/** Failure-carrying result types shared by every other module. */
module Wrappers {

  /** A value that may be absent; Python's `None` is `None` here. */
  datatype Option<+T> = None | Some(value: T) {

    /** The value, or `default` when absent. */
    function GetOr(default: T): T {
      match this
      case Some(v) => v
      case None => default
    }
  }

  /** The outcome of an operation that can raise: `Failure` carries the exception. */
  datatype Result<+T, +E> = Success(value: T) | Failure(error: E)

  /** Python's `d.get(key)`: the value stored under `key`, or `None`. */
  function Get<K, V>(m: map<K, V>, key: K): Option<V> {
    if key in m then Some(m[key]) else None
  }

  /** Python truthiness of an optional string or list: present and non-empty. */
  predicate Truthy<T>(s: Option<seq<T>>) {
    s.Some? && |s.value| > 0
  }
}
