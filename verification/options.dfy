/** Optional values: a JavaScript property that may be absent (`undefined`). */
module Options {

  datatype Option<+T> = None | Some(value: T)

  /** JavaScript truthiness of an optional string: present and non-empty. */
  predicate Present(o: Option<string>) {
    o.Some? && |o.value| > 0
  }

  /** JavaScript truthiness of `xs?.length`: present and non-empty. */
  predicate NonEmpty<T>(o: Option<seq<T>>) {
    o.Some? && |o.value| > 0
  }
}
