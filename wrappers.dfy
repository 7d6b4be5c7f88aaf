/** The optional-value datatype used throughout the model: `None` stands for
    "absent", which covers both a missing result and a read that raised and
    was swallowed by a bare `except`. */
module Wrappers {

  datatype Option<+T> = None | Some(value: T) {

    /** The value, or `default` when absent. */
    function GetOr(default: T): T {
      match this
      case Some(v) => v
      case None => default
    }
  }

  /** Python truthiness of an optional string: present and non-empty. */
  predicate NonEmpty(o: Option<string>) {
    o.Some? && o.value != ""
  }

  /** `x or ""` applied to a read that may fail: the empty string stands in for
      both a failed read and an empty value. */
  function OrEmpty(o: Option<string>): string {
    o.GetOr("")
  }
}
