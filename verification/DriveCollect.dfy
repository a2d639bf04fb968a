/** Collecting the files of a selection for a download: `collectFilesRecursive` of pkg/services/file.go. */
module DriveCollect {
  import opened DriveTables
  import opened Queries
  import opened Records

  /** An active row of the user. */
  predicate Visible(t: Table, user: int, x: Id) {
    IsActive(t, x) && t[x].user == user
  }

  /** `x` is visible, and it is selected or reached from a selected row through at most `k` visible folders. */
  ghost predicate ReachedIn(t: Table, ids: set<Id>, user: int, x: Id, k: nat)
    decreases k
  {
    && Visible(t, user, x)
    && (x in ids || (k > 0 && t[x].parent.Some? && Opens(t, t[x].parent.value)
                     && ReachedIn(t, ids, user, t[x].parent.value, k - 1)))
  }

  predicate Opens(t: Table, p: Id) {
    p in t && t[p].kind.Folder?
  }

  ghost predicate Reached(t: Table, ids: set<Id>, user: int, x: Id) {
    exists k: nat :: ReachedIn(t, ids, user, x, k)
  }

  lemma ReachedStep(t: Table, ids: set<Id>, user: int, x: Id)
    ensures Reached(t, ids, user, x) <==>
              Visible(t, user, x)
              && (x in ids || (t[x].parent.Some? && Opens(t, t[x].parent.value)
                               && Reached(t, ids, user, t[x].parent.value)))
  {
    if Reached(t, ids, user, x) {
      var k: nat :| ReachedIn(t, ids, user, x, k);
      assert x in ids || ReachedIn(t, ids, user, t[x].parent.value, k - 1);
    }
    assert Visible(t, user, x) && x in ids ==> ReachedIn(t, ids, user, x, 0);
    if Visible(t, user, x) && t[x].parent.Some? && Opens(t, t[x].parent.value)
       && Reached(t, ids, user, t[x].parent.value) {
      var k: nat :| ReachedIn(t, ids, user, t[x].parent.value, k);
      assert ReachedIn(t, ids, user, x, k + 1);
    }
  }

  /**
   A way down to `x`: it begins with a selected row, each other row is in the folder before it, and all are visible.
   */
  ghost predicate IsWay(t: Table, ids: set<Id>, user: int, way: seq<Id>, x: Id) {
    && way != [] && way[0] in ids && way[|way| - 1] == x
    && (forall i :: 0 <= i < |way| ==> Visible(t, user, way[i]))
    && (forall i :: 0 <= i < |way| - 1 ==> Descends(t, way, i))
  }

  predicate Descends(t: Table, way: seq<Id>, i: nat)
    requires i < |way| - 1
  {
    way[i + 1] in t && t[way[i + 1]].parent == Some(way[i]) && Opens(t, way[i])
  }

  lemma {:induction false} WayDown(t: Table, ids: set<Id>, user: int, x: Id, k: nat) returns (way: seq<Id>)
    requires ReachedIn(t, ids, user, x, k)
    ensures IsWay(t, ids, user, way, x)
    decreases k
  {
    if x in ids {
      way := [x];
    } else {
      var front := WayDown(t, ids, user, t[x].parent.value, k - 1);
      way := front + [x];
      forall i | 0 <= i < |way| - 1 ensures Descends(t, way, i) {
        assert i < |front| - 1 ==> Descends(t, front, i);
      }
    }
  }

  lemma {:induction false} WayReaches(t: Table, ids: set<Id>, user: int, way: seq<Id>, x: Id)
    requires IsWay(t, ids, user, way, x)
    ensures Reached(t, ids, user, x)
    decreases |way|
  {
    ReachedStep(t, ids, user, x);
    if |way| > 1 {
      var front := way[..|way| - 1];
      assert Visible(t, user, way[|way| - 1]) && Descends(t, way, |way| - 2);
      forall i | 0 <= i < |front| - 1 ensures Descends(t, front, i) {
        assert Descends(t, way, i);
      }
      WayReaches(t, ids, user, front, way[|way| - 2]);
    }
  }

  /**
   To what is reached there is a way down from a selected row, through the user's active rows, each in the folder
   before it.
   */
  lemma WayTo(t: Table, ids: set<Id>, user: int, x: Id) returns (way: seq<Id>)
    requires Reached(t, ids, user, x)
    ensures 0 < |way| && way[0] in ids && way[|way| - 1] == x
            && (forall i :: 0 <= i < |way| ==>
                  way[i] in t && t[way[i]].status.Active? && t[way[i]].user == user)
            && (forall i, j {:trigger way[i], way[j]} :: 0 <= i < j < |way| && j - i == 1 ==>
                  t[way[j]].parent == Some(way[i]) && t[way[i]].kind.Folder?)
  {
    var k: nat :| ReachedIn(t, ids, user, x, k);
    way := WayDown(t, ids, user, x, k);
    forall i | 0 <= i < |way| ensures way[i] in t && t[way[i]].status.Active? && t[way[i]].user == user {
      assert Visible(t, user, way[i]);
    }
    forall i, j | 0 <= i < j < |way| && j - i == 1
      ensures t[way[j]].parent == Some(way[i]) && t[way[i]].kind.Folder?
    {
      assert Descends(t, way, i);
    }
  }

  /** And what there is such a way to is reached. */
  lemma WayFrom(t: Table, ids: set<Id>, user: int, x: Id, way: seq<Id>)
    requires 0 < |way| && way[0] in ids && way[|way| - 1] == x
            && (forall i :: 0 <= i < |way| ==>
                  way[i] in t && t[way[i]].status.Active? && t[way[i]].user == user)
            && (forall i, j {:trigger way[i], way[j]} :: 0 <= i < j < |way| && j - i == 1 ==>
                  t[way[j]].parent == Some(way[i]) && t[way[i]].kind.Folder?)
    ensures Reached(t, ids, user, x)
  {
    forall i | 0 <= i < |way| - 1 ensures Descends(t, way, i) {
      var j := i + 1;
      assert way[j] in t && way[i] in t;
    }
    assert IsWay(t, ids, user, way, x);
    WayReaches(t, ids, user, way, x);
  }

  function VisibleAmong(t: Table, user: int, ids: seq<Id>): set<Id> {
    set x | x in t && x in ids && Visible(t, user, x)
  }

  function VisibleChildren(t: Table, user: int, p: Id): set<Id> {
    set x | x in t && t[x].parent == Some(p) && Visible(t, user, x)
  }

  /** What the loop has found so far, and what it still has to look at. */
  ghost predicate Progress(t: Table, ids: set<Id>, user: int, toProcess: seq<Id>, processed: set<Id>, files: seq<Id>) {
    && processed <= t.Keys
    && (forall x :: x in processed ==> Reached(t, ids, user, x))
    && (forall x :: x in toProcess && Visible(t, user, x) ==> Reached(t, ids, user, x))
    && (forall x :: x in ids && Visible(t, user, x) ==> x in processed || x in toProcess)
    && (forall p, x :: p in processed && Opens(t, p) && x in VisibleChildren(t, user, p) ==>
          x in processed || x in toProcess)
    && NoRepeats(files) && (forall x :: x in files <==> x in processed && t[x].kind.File?)
  }

  lemma {:induction false} ClosedHolds(t: Table, ids: set<Id>, user: int, processed: set<Id>, files: seq<Id>, x: Id,
                                       k: nat)
    requires Progress(t, ids, user, [], processed, files) && ReachedIn(t, ids, user, x, k)
    ensures x in processed
    decreases k
  {
    if x !in ids {
      var p := t[x].parent.value;
      ClosedHolds(t, ids, user, processed, files, p, k - 1);
      assert x in VisibleChildren(t, user, p);
    }
  }

  /**
   Collects, for any table, cyclic ones included, exactly the user's active files that are selected or lie below a
   selected row through active folders, each of them once.
   */
  method CollectFilesRecursive(t: Table, ids: seq<Id>, user: int) returns (files: seq<Id>)
    ensures NoRepeats(files)
    ensures forall x :: x in files <==> Reached(t, (set i | i in ids), user, x) && t[x].kind.File?
    ensures forall x :: x in files ==> x in t && t[x].user == user && t[x].status.Active?
  {
    ghost var selected := set i | i in ids;
    files := [];
    var toProcess, processed := ids, {};
    forall x | x in ids && Visible(t, user, x) ensures Reached(t, selected, user, x) {
      ReachedStep(t, selected, user, x);
    }
    while |toProcess| > 0
      invariant Progress(t, selected, user, toProcess, processed, files)
      decreases t.Keys - processed, |toProcess|
    {
      var currentBatch := Rows(VisibleAmong(t, user, toProcess));
      toProcess, processed, files := ProcessBatch(t, selected, user, toProcess, currentBatch, processed, files);
    }
    assert toProcess == [];
    forall x | Reached(t, selected, user, x) ensures x in processed {
      var k: nat :| ReachedIn(t, selected, user, x, k);
      ClosedHolds(t, selected, user, processed, files, x, k);
    }
  }

  /** A row that was processed before is passed over. */
  lemma SkipProcessed(t: Table, ids: set<Id>, user: int, a: seq<Id>, x: Id, b: seq<Id>, processed: set<Id>,
                      files: seq<Id>)
    requires Progress(t, ids, user, a + [x] + b, processed, files) && x in processed
    ensures Progress(t, ids, user, a + b, processed, files)
  {
    assert forall y :: y in a + [x] + b <==> y in a + b || y == x;
  }

  /** A new row is processed: a file is found, a folder's visible children are to be processed as well. */
  lemma TakeNew(t: Table, ids: set<Id>, user: int, a: seq<Id>, x: Id, b: seq<Id>, processed: set<Id>, files: seq<Id>,
                children: seq<Id>)
    requires Progress(t, ids, user, a + [x] + b, processed, files) && x !in processed && Visible(t, user, x)
    requires forall c :: c in children <==> t[x].kind.Folder? && c in VisibleChildren(t, user, x)
    ensures Progress(t, ids, user, a + children + b, processed + {x}, if t[x].kind.File? then files + [x] else files)
  {
    assert forall y :: y in a + [x] + b <==> y in a + b || y == x;
    assert forall y :: y in a + children + b <==> y in a + b || y in children;
    assert x in a + [x] + b;
    forall c | c in children ensures Reached(t, ids, user, c) {
      ReachedStep(t, ids, user, c);
    }
  }

  lemma SameElements(t: Table, ids: set<Id>, user: int, was: seq<Id>, batch: seq<Id>, processed: set<Id>,
                     files: seq<Id>)
    requires Progress(t, ids, user, was, processed, files)
    requires forall x :: x in batch <==> x in VisibleAmong(t, user, was)
    ensures Progress(t, ids, user, batch, processed, files)
    ensures forall x :: x in batch ==> Visible(t, user, x)
  {
  }

  method ProcessBatch(t: Table, ghost selected: set<Id>, user: int, ghost was: seq<Id>, batch: seq<Id>,
                      done: set<Id>, found: seq<Id>)
    returns (toProcess: seq<Id>, processed: set<Id>, files: seq<Id>)
    requires Progress(t, selected, user, was, done, found) && done <= t.Keys
    requires (forall x :: x in batch <==> x in VisibleAmong(t, user, was))
    ensures Progress(t, selected, user, toProcess, processed, files)
    ensures t.Keys - processed < t.Keys - done || (processed == done && toProcess == [])
  {
    hide Progress, Reached, VisibleAmong, VisibleChildren, NoRepeats;
    SameElements(t, selected, user, was, batch, done, found);
    toProcess, processed, files := [], done, found;
    assert [] + batch == batch;
    for i := 0 to |batch|
      invariant Progress(t, selected, user, toProcess + batch[i..], processed, files)
      invariant done <= processed <= t.Keys && (processed == done ==> toProcess == [])
      invariant forall x :: x in batch ==> Visible(t, user, x)
    {
      var x := batch[i];
      assert toProcess + batch[i..] == toProcess + [x] + batch[i + 1..];
      if x in processed {
        SkipProcessed(t, selected, user, toProcess, x, batch[i + 1..], processed, files);
      } else {
        assert Visible(t, user, x);
        var childIds := Rows(if t[x].kind.Folder? then VisibleChildren(t, user, x) else {});
        TakeNew(t, selected, user, toProcess, x, batch[i + 1..], processed, files, childIds);
        files := if t[x].kind.File? then files + [x] else files;
        toProcess, processed := toProcess + childIds, processed + {x};
      }
    }
    assert toProcess + batch[|batch|..] == toProcess;
  }
}
