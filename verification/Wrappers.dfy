/** The nullable columns and absent lookups of the modelled program, and one fact about sets. */
module Wrappers {
  datatype Option<+T> = None | Some(value: T)

  /** SQL's two-argument COALESCE: the first argument that is not NULL. */
  function Coalesce<T>(first: Option<T>, second: Option<T>): Option<T> {
    if first.Some? then first else second
  }

  lemma {:induction false} SubsetSize<T>(a: set<T>, b: set<T>)
    requires a <= b
    ensures |a| <= |b|
    ensures a < b ==> |a| < |b|
  {
    assert b == a + (b - a);
  }
}
