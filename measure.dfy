/** The termination measure shared by every cycle-guarded recursion of the
    auditor: the number of group keys not yet visited. */
module Measure {

  lemma {:induction false} SubsetCardinality(a: set<string>, b: set<string>)
    requires a <= b
    ensures |a| <= |b|
    decreases |b|
  {
    if a != {} {
      var x :| x in a;
      SubsetCardinality(a - {x}, b - {x});
    }
  }

  /** Visiting more keys leaves no more group keys to visit, and visiting
      a new group key leaves strictly fewer: the termination measure. */
  lemma Remaining(keys: set<string>, before: set<string>, after: set<string>)
    requires before <= after
    ensures |keys - after| <= |keys - before|
    ensures (exists k :: k in keys && k in after && k !in before) ==> |keys - after| < |keys - before|
  {
    SubsetCardinality(keys - after, keys - before);
    if exists k :: k in keys && k in after && k !in before {
      var k :| k in keys && k in after && k !in before;
      SubsetCardinality(keys - after, (keys - before) - {k});
    }
  }
}
