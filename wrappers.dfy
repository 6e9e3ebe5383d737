/** Result and Option values standing for the C++ code's exceptions and sentinel returns. */
module Wrappers {
  datatype Option<T> = None | Some(value: T)

  /** `Err(msg)` stands for an exception whose `what()` is `msg`. */
  datatype Result<T> = Ok(value: T) | Err(msg: string)

  /**
   * `order` lists every key of `m` exactly once: one visiting order of an `unordered_map`,
   * whose actual order the C++ standard leaves unspecified.
   */
  ghost predicate IsKeyOrder<K(!new), V>(order: seq<K>, m: map<K, V>)
  {
    && (forall k :: k in m ==> k in order)
    && (forall i :: 0 <= i < |order| ==> order[i] in m)
    && (forall i, j :: 0 <= i < j < |order| ==> order[i] != order[j])
  }
}
