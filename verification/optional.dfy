/** An optional field of a request body: `None` stands for a property that is absent
    (`undefined`), `Some(v)` for one that is present. */
module Optional {

  datatype Option<+T> = None | Some(value: T) {

    /** The value if present, else `default`; this is JavaScript's `??` operator. */
    function GetOr(default: T): T {
      match this
      case Some(v) => v
      case None => default
    }
  }

  /** JavaScript truthiness of an optional string: present and not empty. */
  predicate Truthy(s: Option<string>) {
    s.Some? && s.value != ""
  }

  /** JavaScript truthiness of an optional number: present and not zero. */
  predicate TruthyNumber(n: Option<int>) {
    n.Some? && n.value != 0
  }
}
