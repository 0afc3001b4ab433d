/** What several modules share. */
module Basics {
  /** One minute, in the nanoseconds of `time.Duration`. */
  const MINUTE := 60_000_000_000

  lemma {:induction false} SubsetSize<T>(a: set<T>, b: set<T>)
    requires a <= b
    ensures |a| <= |b|
  {
    assert b == a + (b - a);
  }
}
