// Sort keys of the neighbour search.
//
// The neighbour search in src/main.rs keys every candidate by an `f32` and uses
// `f32::INFINITY` as the placeholder of the self slot; the comparison is
// `partial_cmp`. Over the reals
// there is no NaN, so the placeholder is the only key that is not a number.

module Keys {

  /** A sort key: a finite real, or the infinity that marks the self slot. */
  datatype Key = Inf | Fin(d: real)

  /** An element of the scratch array: a key and the node index it stands for. */
  type Entry = (Key, nat)

  /**
   * `partial_cmp` as a relation: `a` is not greater than `b`. The placeholder
   * `Inf` is the greatest key: every key is at most `Inf`, and `Inf` is at
   * most no finite key.
   */
  predicate KeyLe(a: Key, b: Key)
  {
    match (a, b)
    case (Fin(x), Fin(y)) => x <= y
    case (_, Inf) => true
    case (Inf, Fin(_)) => false
  }

  /** `a` sorts strictly before `b`. */
  predicate KeyLt(a: Key, b: Key)
  {
    !KeyLe(b, a)
  }

  /** KeyLe is a total order: total, antisymmetric, transitive. */
  lemma KeyLeTotalOrder(a: Key, b: Key, c: Key)
    ensures KeyLe(a, b) || KeyLe(b, a)
    ensures KeyLe(a, b) && KeyLe(b, a) ==> a == b
    ensures KeyLe(a, b) && KeyLe(b, c) ==> KeyLe(a, c)
    ensures KeyLt(a, b) ==> KeyLe(a, b) && a != b
  {
  }
}
