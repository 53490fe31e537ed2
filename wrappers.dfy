/** Optional values: a JSON key that may be missing, a Python value that may be `None`. */
module Wrappers {

  datatype Option<+T> = None | Some(value: T) {

    /** `d.get(key, default)`: the value if present, else `default`. */
    function GetOr(default: T): T {
      match this
      case Some(v) => v
      case None => default
    }
  }

  /** Python truthiness of an optional string: present and non-empty. */
  predicate Truthy(s: Option<string>) {
    s.Some? && s.value != ""
  }
}
