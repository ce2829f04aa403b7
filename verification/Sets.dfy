/** Facts about finite sets that termination and counting arguments share. */
module Sets {

  lemma {:induction false} SubsetSmaller<T>(a: set<T>, b: set<T>)
    requires a < b
    ensures |a| < |b|
    decreases |a|
  {
    if a == {} {
      var x :| x in b;
      assert |b| >= 1;
    } else {
      var x :| x in a;
      var y :| y in b && y !in a;
      assert y in b - {x} && y !in a - {x};
      SubsetSmaller(a - {x}, b - {x});
    }
  }
}
