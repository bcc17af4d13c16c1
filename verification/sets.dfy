/** Cardinality facts about finite sets that the counting proofs rely on. */
module Sets {

  /** A subset is no larger than its superset. */
  lemma {:induction false} SubsetCardinality<T>(a: set<T>, b: set<T>)
    requires a <= b
    ensures |a| <= |b|
    decreases |b|
  {
    if a != {} {
      var x :| x in a;
      SubsetCardinality(a - {x}, b - {x});
    }
  }

  /** A subset as large as its superset is the superset itself. */
  lemma SubsetSameCardinality<T>(a: set<T>, b: set<T>)
    requires a <= b && |a| == |b|
    ensures a == b
  {
    if a != b {
      assert b - a != {} by {
        if b - a == {} {
          forall x | x in b
            ensures x in a
          {
            assert x !in b - a;
          }
          assert false;
        }
      }
      var x :| x in b - a;
      SubsetCardinality(a, b - {x});
    }
  }
}
