/**
 Cardinality of finite sets of numbers.
 */
module FiniteSets {
  lemma Smaller(a: set<nat>, b: set<nat>)
    requires a < b
    ensures |a| < |b|
  {
    assert b == a + (b - a);
  }
}
