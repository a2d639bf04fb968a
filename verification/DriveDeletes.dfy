/** Deleting in the drive: `deleteFilesBulk` of pkg/services/file.go, one recursive statement. */
module DriveDeletes {
  import opened DriveTables
  import opened Records

  /** The rows of the recursive part of the statement: the caller's rows among `ids` and everything below them. */
  ghost function Targets(t: Table, ids: set<Id>, user: int): set<Id> {
    Subtree(t, Owned(t, ids, user))
  }

  function Owned(t: Table, ids: set<Id>, user: int): set<Id> {
    set x | x in ids && x in t && t[x].user == user
  }

  function Remaining(t: Table, ids: set<Id>, targets: set<Id>): Table {
    map x | x in t && !(x in targets && t[x].kind.Folder?) ::
      if t[x].kind.File? && (x in ids || (t[x].parent.Some? && t[x].parent.value in targets))
      then t[x].(status := PendingDeletion) else t[x]
  }

  /** What `deleteFilesBulk` leaves: its target folders are gone, the files in them are marked. */
  ghost function Deleted(t: Table, ids: set<Id>, user: int): Table {
    Remaining(t, ids, Targets(t, ids, user))
  }

  lemma TargetsOfOne(t: Table, e: Id, user: int)
    requires e in t && t[e].user == user
    ensures Targets(t, {e}, user) == Subtree(t, {e})
  {
    assert Owned(t, {e}, user) == {e};
  }

  lemma DeletedKeepsParents(t: Table, ids: set<Id>, user: int)
    requires UniqueNames(t) && ParentsPresent(t)
    ensures var t' := Deleted(t, ids, user); UniqueNames(t') && ParentsPresent(t')
  {
    var t' := Deleted(t, ids, user);
    var roots := Owned(t, ids, user);
    forall x | IsActive(t', x) && t'[x].parent.Some? ensures t'[x].parent.value in t' {
      InsideStep(t, roots, x);
    }
  }

  lemma DeletedKeepsTree(t: Table, ids: set<Id>, user: int)
    requires Tree(t)
    ensures Tree(Deleted(t, ids, user))
  {
    DeletedKeepsParents(t, ids, user);
    FewerIsAcyclic(t, Deleted(t, ids, user));
  }

  lemma InsideOne(t: Table, roots: set<Id>, x: Id)
    ensures Inside(t, roots, x) <==> exists r :: r in roots && Inside(t, {r}, x)
  {
    if Inside(t, roots, x) {
      var k: nat :| Within(t, roots, x, k);
      var r := WithinOne(t, roots, x, k);
    }
    if r :| r in roots && Inside(t, {r}, x) {
      InsideStep(t, roots, r);
      InsideTransitive(t, {r}, roots, x);
    }
  }

  /**
   What a deletion does to each row: folders that are among the user's rows of the ids or below one are gone, files are
   marked if they lie in such a folder or the ids name them, and every other row is as it was.
   */
  lemma DeletedIs(t: Table, ids: set<Id>, user: int, x: Id)
    ensures Deleted(t, ids, user).Keys <= t.Keys
    ensures x in t ==>
      var t' := Deleted(t, ids, user);
      if t[x].kind.Folder? && exists r :: r in ids && r in t && t[r].user == user && Inside(t, {r}, x) then x !in t'
      else
        && x in t'
        && t'[x] == if t[x].kind.File?
                       && (x in ids
                           || (t[x].parent.Some?
                               && exists r :: r in ids && r in t && t[r].user == user
                                              && Inside(t, {r}, t[x].parent.value)))
                    then t[x].(status := PendingDeletion) else t[x]
  {
    var roots := Owned(t, ids, user);
    InsideOne(t, roots, x);
    if x in t && t[x].parent.Some? {
      InsideOne(t, roots, t[x].parent.value);
      InsideStep(t, roots, t[x].parent.value);
    }
  }

  // Whose rows a deletion touches.

  /** The deletion leaves the rows of other users as they were. */
  ghost predicate LeavesOthers(t: Table, ids: set<Id>, user: int) {
    var t' := Deleted(t, ids, user);
    forall x :: x in t && t[x].user != user ==> x in t' && t'[x] == t[x]
  }

  /**
   It does so if and only if no row of another user lies below the rows it starts from, and the ids name no file of
   another user, but for files that are to be deleted already. The ids are not asked whose files they are, and neither
   are the rows on the way down.
   */
  lemma DeletionIsIsolated(t: Table, ids: set<Id>, user: int)
    ensures LeavesOthers(t, ids, user) <==>
              forall x :: x in t && t[x].user != user ==>
                && (Inside(t, Owned(t, ids, user), x) ==> t[x].kind.File? && t[x].status.PendingDeletion?)
                && (x in ids && t[x].kind.File? ==> t[x].status.PendingDeletion?)
  {
    var roots, t' := Owned(t, ids, user), Deleted(t, ids, user);
    forall x | x in t && t[x].user != user
      ensures (x in t' && t'[x] == t[x]) <==>
                && (Inside(t, roots, x) ==> t[x].kind.File? && t[x].status.PendingDeletion?)
                && (x in ids && t[x].kind.File? ==> t[x].status.PendingDeletion?)
    {
      InsideStep(t, roots, x);
      if t[x].parent.Some? {
        InsideStep(t, roots, t[x].parent.value);
      }
    }
  }

  /** What lies below a row belongs to the same user. */
  ghost predicate OwnBranches(t: Table) {
    forall x :: HasParent(t, x) && t[x].parent.value in t ==> t[x].user == t[t[x].parent.value].user
  }

  lemma {:induction false} TargetsAreOwn(t: Table, ids: set<Id>, user: int, x: Id, k: nat)
    requires OwnBranches(t) && x in t && Within(t, Owned(t, ids, user), x, k)
    ensures t[x].user == user
    decreases k
  {
    if x !in Owned(t, ids, user) {
      var p := t[x].parent.value;
      assert p in Owned(t, ids, user) || HasParent(t, p);
      TargetsAreOwn(t, ids, user, p, k - 1);
    }
  }

  /** Where users keep to their own branches only the ids matter. */
  lemma OwnBranchesAreIsolated(t: Table, ids: set<Id>, user: int)
    requires OwnBranches(t)
    ensures LeavesOthers(t, ids, user) <==>
              forall x :: x in ids && x in t && t[x].user != user && t[x].kind.File? ==> t[x].status.PendingDeletion?
  {
    DeletionIsIsolated(t, ids, user);
    hide LeavesOthers;
    forall x | x in t && Inside(t, Owned(t, ids, user), x) ensures t[x].user == user {
      var k: nat :| Within(t, Owned(t, ids, user), x, k);
      TargetsAreOwn(t, ids, user, x, k);
    }
  }

  // The recursive query. It keeps every row that turns up, so it ends only if nothing turns up again and again.

  /** The rows that lie exactly `k` levels below a root, along some way up. */
  ghost function Generation(t: Table, roots: set<Id>, k: nat): set<Id> {
    if k == 0 then roots
    else set x | x in t && t[x].parent.Some? && t[x].parent.value in Generation(t, roots, k - 1)
  }

  ghost predicate DiesOut(t: Table, roots: set<Id>, k: nat) {
    Generation(t, roots, k) == {}
  }

  ghost predicate OnCycle(t: Table, x: Id) {
    HasParent(t, x) && Inside(t, {x}, t[x].parent.value)
  }

  ghost predicate Circular(t: Table, roots: set<Id>) {
    exists x :: Inside(t, roots, x) && OnCycle(t, x)
  }

  lemma {:induction false} EmptyStays(t: Table, roots: set<Id>, k: nat, n: nat)
    requires k <= n && Generation(t, roots, k) == {}
    ensures Generation(t, roots, n) == {}
  {
    if k < n {
      EmptyStays(t, roots, k, n - 1);
    }
  }

  lemma {:induction false} GenerationInside(t: Table, roots: set<Id>, x: Id, k: nat)
    requires x in Generation(t, roots, k)
    ensures Inside(t, roots, x)
    decreases k
  {
    if k > 0 {
      GenerationInside(t, roots, t[x].parent.value, k - 1);
    }
    InsideStep(t, roots, x);
  }

  /** Whatever lies below a row of some generation is in a later one, or the same. */
  lemma {:induction false} LaterGeneration(t: Table, roots: set<Id>, a: Id, k: nat, x: Id, m: nat) returns (n: nat)
    requires a in Generation(t, roots, k) && Within(t, {a}, x, m)
    ensures n >= k && x in Generation(t, roots, n)
    decreases m
  {
    if x == a {
      n := k;
    } else {
      n := LaterGeneration(t, roots, a, k, t[x].parent.value, m - 1);
      n := n + 1;
    }
  }

  lemma InsideGeneration(t: Table, roots: set<Id>, x: Id) returns (n: nat)
    requires Inside(t, roots, x)
    ensures x in Generation(t, roots, n)
  {
    var k: nat :| Within(t, roots, x, k);
    var r := WithinOne(t, roots, x, k);
    n := LaterGeneration(t, roots, r, 0, x, k);
  }

  /** A row on a cycle turns up in generation after generation. */
  lemma {:induction false} CycleRecurs(t: Table, roots: set<Id>, x: Id, n: nat) returns (k: nat)
    requires Inside(t, roots, x) && OnCycle(t, x)
    ensures k >= n && x in Generation(t, roots, k)
    decreases n
  {
    if n == 0 {
      k := InsideGeneration(t, roots, x);
    } else {
      k := CycleRecurs(t, roots, x, n - 1);
      var m: nat :| Within(t, {x}, t[x].parent.value, m);
      k := LaterGeneration(t, roots, x, k, t[x].parent.value, m);
      k := k + 1;
    }
  }

  /** The rows on the way up from a row of generation `k`, itself included. */
  ghost function WayUp(t: Table, roots: set<Id>, x: Id, k: nat): set<Id>
    requires x in Generation(t, roots, k)
    decreases k
  {
    {x} + if k == 0 then {} else WayUp(t, roots, t[x].parent.value, k - 1)
  }

  lemma {:induction false} WayUpIsLong(t: Table, roots: set<Id>, x: Id, k: nat)
    requires roots <= t.Keys && x in Generation(t, roots, k) && !Circular(t, roots)
    ensures |WayUp(t, roots, x, k)| == k + 1 && WayUp(t, roots, x, k) <= t.Keys
    ensures forall y :: y in WayUp(t, roots, x, k) ==> Inside(t, {y}, x)
    decreases k
  {
    GenerationInside(t, roots, x, k);
    InsideStep(t, {x}, x);
    if k > 0 {
      var p := t[x].parent.value;
      WayUpIsLong(t, roots, p, k - 1);
      forall y | y in WayUp(t, roots, p, k - 1) ensures Inside(t, {y}, x) {
        InsideStep(t, {y}, x);
      }
      assert x !in WayUp(t, roots, p, k - 1);
    }
  }

  lemma SubsetSize(a: set<Id>, b: set<Id>)
    requires a <= b
    ensures |a| <= |b|
  {
    assert b == a + (b - a);
  }

  /** The query ends if and only if there is no cycle below its roots, and then after no more generations than rows. */
  lemma QueryEnds(t: Table, roots: set<Id>)
    requires roots <= t.Keys
    ensures (exists k: nat :: DiesOut(t, roots, k)) <==> !Circular(t, roots)
    ensures !Circular(t, roots) <==> DiesOut(t, roots, |t.Keys|)
  {
    if x :| Inside(t, roots, x) && OnCycle(t, x) {
      forall k: nat ensures !DiesOut(t, roots, k) {
        var n := CycleRecurs(t, roots, x, k);
        if DiesOut(t, roots, k) {
          EmptyStays(t, roots, k, n);
        }
      }
    } else if x :| x in Generation(t, roots, |t.Keys|) {
      WayUpIsLong(t, roots, x, |t.Keys|);
      SubsetSize(WayUp(t, roots, x, |t.Keys|), t.Keys);
    } else {
      assert DiesOut(t, roots, |t.Keys|);
    }
  }

  /** The recursive query, generation after generation. One that does not end is known by more generations than rows. */
  method Closure(t: Table, roots: set<Id>) returns (ends: bool, targets: set<Id>)
    requires roots <= t.Keys
    ensures ends <==> !Circular(t, roots)
    ensures ends ==> targets == Subtree(t, roots)
  {
    targets := {};
    var k, generation := 0, roots;
    QueryEnds(t, roots);
    while generation != {}
      invariant k <= |t.Keys| && generation == Generation(t, roots, k)
      invariant forall x :: x in targets <==> exists j :: 0 <= j < k && x in Generation(t, roots, j)
      decreases |t.Keys| - k
    {
      if k == |t.Keys| {
        assert !DiesOut(t, roots, |t.Keys|);
        return false, {};
      }
      targets := targets + generation;
      generation := set x | x in t && t[x].parent.Some? && t[x].parent.value in generation;
      k := k + 1;
    }
    ends := true;
    assert DiesOut(t, roots, k);
    forall x ensures x in targets <==> x in Subtree(t, roots) {
      if x in targets {
        var j :| 0 <= j < k && x in Generation(t, roots, j);
        GenerationInside(t, roots, x, j);
        assert x in roots || x in t;
      }
      if x in Subtree(t, roots) {
        var n := InsideGeneration(t, roots, x);
        if n >= k {
          EmptyStays(t, roots, k, n);
        }
      }
    }
  }

  /** A table is acyclic if and only if no row is above itself. */
  lemma AcyclicMeansNoCycle(t: Table)
    ensures Acyclic(t) <==> forall x :: x in t && t[x].parent.Some? ==> !Inside(t, {x}, t[x].parent.value)
  {
    if Acyclic(t) {
      forall x | x in t && t[x].parent.Some? ensures !Inside(t, {x}, t[x].parent.value) {
        AcyclicEnds(t, {x});
        InsideStep(t, {x}, x);
        assert !OnCycle(t, x);
      }
    }
    if forall x :: x in t && t[x].parent.Some? ==> !Inside(t, {x}, t[x].parent.value) {
      var rank := map x | x in t :: |Above(t, x)|;
      forall x | HasParent(t, x) && t[x].parent.value in t ensures rank[t[x].parent.value] < rank[x] {
        MoreAbove(t, x);
      }
      assert Ranked(t, rank);
    }
  }

  ghost function Above(t: Table, x: Id): set<Id> {
    set y | y in t && Inside(t, {y}, x)
  }

  lemma MoreAbove(t: Table, x: Id)
    requires HasParent(t, x) && t[x].parent.value in t && !Inside(t, {x}, t[x].parent.value)
    ensures |Above(t, t[x].parent.value)| < |Above(t, x)|
  {
    var p := t[x].parent.value;
    forall y | y in Above(t, p) ensures y in Above(t, x) {
      InsideStep(t, {y}, x);
    }
    InsideStep(t, {x}, x);
    SubsetSize(Above(t, p) + {x}, Above(t, x));
  }

  /** What a tree is: unique names among active siblings, the parents of active rows there, and no row above itself. */
  lemma TreeIs(t: Table)
    ensures Tree(t) <==>
              && (forall x, y :: x in t && y in t && x != y && t[x].status.Active? && t[y].status.Active? ==>
                    t[x].name != t[y].name || t[x].parent != t[y].parent || t[x].user != t[y].user)
              && (forall x :: x in t && t[x].status.Active? && t[x].parent.Some? ==> t[x].parent.value in t)
              && (forall x :: x in t && t[x].parent.Some? ==> !Inside(t, {x}, t[x].parent.value))
  {
    AcyclicMeansNoCycle(t);
  }

  /** On an acyclic table every query ends. */
  lemma AcyclicEnds(t: Table, roots: set<Id>)
    requires Acyclic(t)
    ensures !Circular(t, roots)
  {
    forall x | HasParent(t, x) ensures !OnCycle(t, x) {
      var p := t[x].parent.value;
      if OnCycle(t, x) {
        InsideStep(t, {x}, p);
        NotInsideChild(t, p, x);
      }
    }
  }

  lemma CycleGoesUp(t: Table, x: Id)
    requires OnCycle(t, x)
    ensures OnCycle(t, t[x].parent.value)
  {
    var p := t[x].parent.value;
    InsideStep(t, {x}, p);
    if p != x {
      InsideStep(t, {p}, p);
      InsideStep(t, {p}, x);
      InsideTransitive(t, {x}, {p}, t[p].parent.value);
    }
  }

  /** Below a row that is on no cycle there is none. */
  lemma {:induction false} NoCycleBelow(t: Table, root: Id, x: Id, k: nat)
    requires !OnCycle(t, root) && Within(t, {root}, x, k)
    ensures !OnCycle(t, x)
    decreases k
  {
    if x != root {
      NoCycleBelow(t, root, t[x].parent.value, k - 1);
      if OnCycle(t, x) {
        CycleGoesUp(t, x);
      }
    }
  }
}
