/** The files table of the drive, as a map from id to row, and the forest that its parent column spells out. */
module DriveTables {
  import opened Records

  datatype Kind = File | Folder

  datatype Status = Active | PendingDeletion | OtherStatus

  datatype Row = Row(parent: Option<Id>, name: string, user: int, status: Status, kind: Kind)

  type Table = map<Id, Row>

  predicate IsActive(t: Table, x: Id) {
    x in t && t[x].status.Active?
  }

  predicate HasParent(t: Table, x: Id) {
    x in t && t[x].parent.Some?
  }

  // Subtrees.

  /** `x` is one of the roots or at most `k` levels below one. */
  ghost predicate Within(t: Table, roots: set<Id>, x: Id, k: nat)
    decreases k
  {
    x in roots || (k > 0 && HasParent(t, x) && Within(t, roots, t[x].parent.value, k - 1))
  }

  /** `x` is one of the roots or a descendant of one. */
  ghost predicate Inside(t: Table, roots: set<Id>, x: Id) {
    exists k: nat :: Within(t, roots, x, k)
  }

  ghost function Subtree(t: Table, roots: set<Id>): set<Id> {
    set x | x in t && Inside(t, roots, x)
  }

  lemma InsideStep(t: Table, roots: set<Id>, x: Id)
    ensures Inside(t, roots, x) <==> x in roots || (HasParent(t, x) && Inside(t, roots, t[x].parent.value))
  {
    assert x in roots ==> Within(t, roots, x, 0);
    if Inside(t, roots, x) {
      var k: nat :| Within(t, roots, x, k);
      assert x in roots || Within(t, roots, t[x].parent.value, k - 1);
    }
    if HasParent(t, x) && Inside(t, roots, t[x].parent.value) {
      var k: nat :| Within(t, roots, t[x].parent.value, k);
      assert Within(t, roots, x, k + 1);
    }
  }

  lemma {:induction false} InsideTransitive(t: Table, roots: set<Id>, tops: set<Id>, x: Id)
    requires Inside(t, roots, x) && forall r :: r in roots ==> Inside(t, tops, r)
    ensures Inside(t, tops, x)
  {
    var k: nat :| Within(t, roots, x, k);
    WithinTransitive(t, roots, tops, x, k);
  }

  lemma {:induction false} WithinTransitive(t: Table, roots: set<Id>, tops: set<Id>, x: Id, k: nat)
    requires Within(t, roots, x, k) && forall r :: r in roots ==> Inside(t, tops, r)
    ensures Inside(t, tops, x)
    decreases k
  {
    if x !in roots {
      WithinTransitive(t, roots, tops, t[x].parent.value, k - 1);
      InsideStep(t, tops, x);
    }
  }

  /** A row inside one of the roots is inside some single one. */
  lemma {:induction false} WithinOne(t: Table, roots: set<Id>, x: Id, k: nat) returns (r: Id)
    requires Within(t, roots, x, k)
    ensures r in roots && Within(t, {r}, x, k)
    decreases k
  {
    if x in roots {
      r := x;
    } else {
      r := WithinOne(t, roots, t[x].parent.value, k - 1);
    }
  }

  // Acyclicity: rows can be ranked so that every parent ranks below its children.

  ghost predicate Ranked(t: Table, rank: map<Id, nat>) {
    && t.Keys <= rank.Keys
    && forall x :: HasParent(t, x) && t[x].parent.value in t ==> rank[t[x].parent.value] < rank[x]
  }

  ghost predicate Acyclic(t: Table) {
    exists rank :: Ranked(t, rank)
  }

  lemma {:induction false} RankFalls(t: Table, rank: map<Id, nat>, root: Id, x: Id, k: nat)
    requires Ranked(t, rank) && root in t && x in t && Within(t, {root}, x, k)
    ensures rank[root] <= rank[x] && (x != root ==> rank[root] < rank[x])
    decreases k
  {
    if x != root {
      var p := t[x].parent.value;
      assert p in {root} || HasParent(t, p);
      RankFalls(t, rank, root, p, k - 1);
    }
  }

  /** In an acyclic table no row is inside one of its descendants. */
  lemma NotInsideChild(t: Table, x: Id, child: Id)
    requires Acyclic(t) && x in t && HasParent(t, child) && t[child].parent == Some(x)
    ensures !Inside(t, {child}, x)
  {
    var rank :| Ranked(t, rank);
    if Inside(t, {child}, x) {
      var k: nat :| Within(t, {child}, x, k);
      RankFalls(t, rank, child, x, k);
    }
  }

  /** Rows with the same parents and keys, or fewer of them, have no more cycles. */
  lemma FewerIsAcyclic(t: Table, t': Table)
    requires Acyclic(t) && t'.Keys <= t.Keys && forall x :: x in t' ==> t'[x].parent == t[x].parent
    ensures Acyclic(t')
  {
    var rank :| Ranked(t, rank);
    assert Ranked(t', rank);
  }

  lemma {:induction false} FewerWithin(t: Table, t': Table, roots: set<Id>, x: Id, k: nat)
    requires t'.Keys <= t.Keys && forall x :: x in t' ==> t'[x].parent == t[x].parent
    requires Within(t', roots, x, k)
    ensures Within(t, roots, x, k)
    decreases k
  {
    if x !in roots {
      FewerWithin(t, t', roots, t'[x].parent.value, k - 1);
    }
  }

  // What the database and the service rely on.

  predicate SameSlot(a: Row, b: Row) {
    a.parent == b.parent && a.name == b.name && a.user == b.user
  }

  /** The unique index on active names. */
  predicate UniqueNames(t: Table) {
    forall x, y :: x in t && y in t && t[x].status.Active? && t[y].status.Active? && SameSlot(t[x], t[y]) ==> x == y
  }

  /** The parent of an active row is there. */
  predicate ParentsPresent(t: Table) {
    forall x :: x in t && t[x].status.Active? && t[x].parent.Some? ==> t[x].parent.value in t
  }

  ghost predicate Tree(t: Table) {
    UniqueNames(t) && ParentsPresent(t) && Acyclic(t)
  }

  // Giving rows another parent.

  function Reparented(t: Table, moved: set<Id>, p: Option<Id>): Table {
    map x | x in t :: if x in moved then t[x].(parent := p) else t[x]
  }

  /** Moving rows under a row that is in none of their subtrees makes no cycle. */
  lemma ReparentedIsAcyclic(t: Table, moved: set<Id>, p: Option<Id>)
    requires Acyclic(t) && (p.Some? && p.value in t ==> !Inside(t, moved, p.value))
    ensures Acyclic(Reparented(t, moved, p))
  {
    var rank :| Ranked(t, rank);
    var lift := if p.Some? && p.value in t then rank[p.value] + 1 else 0;
    var rank' := map x | x in t :: if Inside(t, moved, x) then rank[x] + lift else rank[x];
    var t' := Reparented(t, moved, p);
    forall x | HasParent(t', x) && t'[x].parent.value in t' ensures rank'[t'[x].parent.value] < rank'[x] {
      InsideStep(t, moved, x);
    }
    assert Ranked(t', rank');
  }

  /** Moving rows under a row inside one of their subtrees makes a cycle. */
  lemma ReparentedIsCyclic(t: Table, moved: set<Id>, p: Id)
    requires moved <= t.Keys && p in t && Inside(t, moved, p)
    ensures !Acyclic(Reparented(t, moved, Some(p)))
  {
    var t' := Reparented(t, moved, Some(p));
    var k: nat :| Within(t, moved, p, k);
    var m := FirstMoved(t, moved, p, p, k);
    if rank :| Ranked(t', rank) {
      RankFalls(t', rank, m, p, k);
    }
  }

  /** The first moved row above `x` is above it after the move as well. */
  lemma {:induction false} FirstMoved(t: Table, moved: set<Id>, p: Id, x: Id, k: nat) returns (m: Id)
    requires Within(t, moved, x, k)
    ensures m in moved && Within(Reparented(t, moved, Some(p)), {m}, x, k)
    decreases k
  {
    if x in moved {
      m := x;
    } else {
      m := FirstMoved(t, moved, p, t[x].parent.value, k - 1);
    }
  }

  /** What lies above a row outside the moved subtrees stays the same. */
  lemma {:induction false} OutsideKept(t: Table, moved: set<Id>, p: Option<Id>, roots: set<Id>, x: Id, k: nat)
    requires !Inside(t, moved, x)
    ensures Within(Reparented(t, moved, p), roots, x, k) <==> Within(t, roots, x, k)
    decreases k
  {
    InsideStep(t, moved, x);
    if HasParent(t, x) && k > 0 {
      OutsideKept(t, moved, p, roots, t[x].parent.value, k - 1);
    }
  }

  lemma OutsideStays(t: Table, moved: set<Id>, p: Option<Id>, roots: set<Id>, x: Id)
    requires !Inside(t, moved, x)
    ensures Inside(Reparented(t, moved, p), roots, x) <==> Inside(t, roots, x)
  {
    forall k: nat ensures Within(Reparented(t, moved, p), roots, x, k) <==> Within(t, roots, x, k) {
      OutsideKept(t, moved, p, roots, x, k);
    }
  }

  /** A path of rows whose parents are the same in both tables, up to the roots, is a path in both. */
  lemma {:induction false} WithinKept(t: Table, t': Table, roots: set<Id>, x: Id, k: nat)
    requires Within(t, roots, x, k)
    requires forall y :: y !in roots && y in t && Inside(t, roots, y) && Within(t, {y}, x, k) ==>
               y in t' && t'[y].parent == t[y].parent
    ensures Within(t', roots, x, k)
    decreases k
  {
    if x !in roots {
      assert Within(t, {x}, x, k);
      var p := t[x].parent.value;
      forall y | y !in roots && y in t && Inside(t, roots, y) && Within(t, {y}, p, k - 1)
        ensures y in t' && t'[y].parent == t[y].parent
      {
        assert Within(t, {y}, x, k);
      }
      WithinKept(t, t', roots, p, k - 1);
    }
  }
}
