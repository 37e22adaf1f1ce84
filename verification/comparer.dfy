/** `IEqualityComparer<T>` as a function on pairs. A `null` comparer stands for
  * `EqualityComparer<T>.Default`, which is plain equality. */
module Comparers {
  import opened Wrappers

  /** The comparer agrees with equality on every pair. */
  ghost predicate IsEquality<T(!new)>(eq: (T, T) -> bool)
  {
    forall x, y :: eq(x, y) <==> x == y
  }

  /** `comparer ?? EqualityComparer<T>.Default` */
  function OrDefault<T(==)>(comparer: Option<(T, T) -> bool>): (T, T) -> bool
  {
    if comparer.None? then (x: T, y: T) => x == y else comparer.value
  }

  /** The default comparer is plain equality. */
  lemma DefaultIsEquality<T(!new)>()
    ensures IsEquality(OrDefault<T>(None))
  {
  }
}
