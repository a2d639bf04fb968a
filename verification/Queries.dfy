/** Query results: rows in no particular order, each once. */
module Queries {

  ghost predicate NoRepeats<T>(s: seq<T>) {
    forall i, j :: 0 <= i < j < |s| ==> s[i] != s[j]
  }

  /** The selected keys, in whatever order the database returns them. */
  method Rows<T(==)>(selected: set<T>) returns (batch: seq<T>)
    ensures (forall x :: x in batch <==> x in selected) && NoRepeats(batch) && |batch| == |selected|
  {
    batch := [];
    var rest := selected;
    while rest != {}
      invariant (forall x :: x in selected <==> x in batch || x in rest) && NoRepeats(batch)
      invariant forall x :: x in batch ==> x !in rest
      invariant |batch| + |rest| == |selected|
      decreases rest
    {
      var x :| x in rest;
      batch, rest := batch + [x], rest - {x};
    }
  }
}
