/** Moving in the drive: `FilesMove` of pkg/services/file.go. */
module DriveMoves {
  import opened DriveDeletes
  import opened DriveTables
  import opened Records

  // Moving under another name, over what is there.

  /** What the query for the destination finds: an active row of the user with that name and parent, if there is one. */
  ghost predicate Displaces(t: Table, dest: Option<Id>, name: string, user: int, e: Option<Id>) {
    if e.Some? then InSlot(t, dest, name, user, e.value) else forall x :: !InSlot(t, dest, name, user, x)
  }

  predicate InSlot(t: Table, dest: Option<Id>, name: string, user: int, x: Id) {
    IsActive(t, x) && t[x].parent == dest && t[x].name == name && t[x].user == user
  }

  function ActiveChildren(t: Table, p: Id): set<Id> {
    set x | x in t && t[x].status.Active? && t[x].parent == Some(p)
  }

  predicate NameTaken(t: Table, p: Id, name: string) {
    exists x :: x in t && t[x].status.Active? && t[x].parent == Some(p) && t[x].name == name
  }

  /** The children of the displaced folder that go over to the source: those whose name the source has no child of. */
  function MergedChildren(t: Table, e: Id, s: Id): set<Id>
    requires e in t && s in t
  {
    if t[s].kind.Folder? && t[e].kind.Folder? then set x | x in ActiveChildren(t, e) && !NameTaken(t, s, t[x].name)
    else {}
  }

  function Merged(t: Table, e: Id, s: Id): Table
    requires e in t && s in t
  {
    Reparented(t, MergedChildren(t, e, s), Some(s))
  }

  function Renamed(t: Table, s: Id, user: int, dest: Option<Id>, name: string): Table {
    if s in t && t[s].user == user then t[s := t[s].(parent := dest, name := name)] else t
  }

  /** The three statements one after the other. */
  ghost function Cleared(t: Table, s: Id, e: Option<Id>, user: int): Table
    requires s in t && (e.Some? ==> e.value in t)
  {
    if e.Some? then Deleted(Merged(t, e.value, s), {e.value}, user) else t
  }

  ghost function RenameMoved(t: Table, s: Id, e: Option<Id>, dest: Option<Id>, name: string, user: int): Table
    requires s in t && (e.Some? ==> e.value in t)
  {
    Renamed(Cleared(t, s, e, user), s, user, dest, name)
  }

  /** The source is the user's, and `e` is what the query for its new place finds. */
  ghost predicate Asked(t: Table, s: Id, e: Option<Id>, dest: Option<Id>, name: string, user: int) {
    s in t && t[s].user == user && Displaces(t, dest, name, user, e)
  }

  /** And what it displaces is neither the source nor an ancestor of it. */
  ghost predicate Movable(t: Table, s: Id, e: Option<Id>, dest: Option<Id>, name: string, user: int) {
    Asked(t, s, e, dest, name, user) && (e.Some? ==> !Inside(t, {e.value}, s))
  }

  /** The destination is there and not inside the source. */
  ghost predicate Reachable(t: Table, s: Id, dest: Option<Id>)
    requires s in t
  {
    dest.Some? ==> (dest.value in t || !t[s].status.Active?) && !Inside(t, {s}, dest.value)
  }

  /** The merge, seen from outside the subtrees it moves. */
  lemma MergeFacts(t: Table, s: Id, e: Id)
    requires Tree(t) && s in t && e in t && !Inside(t, {e}, s)
    ensures var moved := MergedChildren(t, e, s);
            && !Inside(t, moved, s) && !Inside(t, moved, e)
            && forall x :: !Inside(t, {e}, x) ==> !Inside(t, moved, x)
    ensures Tree(Merged(t, e, s)) && !Inside(Merged(t, e, s), {e}, s)
  {
    var moved := MergedChildren(t, e, s);
    forall x | Inside(t, moved, x) ensures Inside(t, {e}, x) {
      MovedBelow(t, moved, e, x);
    }
    if Inside(t, moved, e) {
      var k: nat :| Within(t, moved, e, k);
      var c := WithinOne(t, moved, e, k);
      NotInsideChild(t, e, c);
    }
    ReparentedIsAcyclic(t, moved, Some(s));
    OutsideStays(t, moved, Some(s), {e}, s);
  }

  lemma MovedBelow(t: Table, moved: set<Id>, e: Id, x: Id)
    requires Inside(t, moved, x) && forall c :: c in moved ==> c in t && t[c].parent == Some(e)
    ensures Inside(t, {e}, x)
  {
    forall c | c in moved ensures Inside(t, {e}, c) {
      InsideStep(t, {e}, e);
      InsideStep(t, {e}, c);
    }
    InsideTransitive(t, moved, {e}, x);
  }

  /** After the merge, exactly what was below the displaced row and did not go over is still below it. */
  lemma BelowAfterMerge(t: Table, s: Id, e: Id, x: Id)
    requires Tree(t) && s in t && e in t && !Inside(t, {e}, s)
    ensures Inside(Merged(t, e, s), {e}, x) <==> Inside(t, {e}, x) && !Inside(t, MergedChildren(t, e, s), x)
  {
    MergeFacts(t, s, e);
    var moved := MergedChildren(t, e, s);
    if Inside(t, moved, x) {
      var k: nat :| Within(t, moved, x, k);
      MovedIsAway(t, s, e, x, k);
    } else {
      OutsideStays(t, moved, Some(s), {e}, x);
    }
  }

  lemma {:induction false} MovedIsAway(t: Table, s: Id, e: Id, x: Id, k: nat)
    requires s in t && e in t && !Inside(t, MergedChildren(t, e, s), e) && !Inside(Merged(t, e, s), {e}, s)
    requires Within(t, MergedChildren(t, e, s), x, k)
    ensures !Inside(Merged(t, e, s), {e}, x)
    decreases k
  {
    var moved := MergedChildren(t, e, s);
    InsideStep(Merged(t, e, s), {e}, x);
    assert x != e;
    if x !in moved {
      MovedIsAway(t, s, e, t[x].parent.value, k - 1);
    }
  }

  /** The destination, above the displaced row, is touched by neither the merge nor the deletion. */
  lemma DestinationStays(t: Table, s: Id, e: Id, dest: Id, user: int)
    requires Tree(t) && s in t && e in t && t[e].user == user && !Inside(t, {e}, s)
    requires t[e].parent == Some(dest) && dest in t
    ensures var t' := Cleared(t, s, Some(e), user);
            s in t' && dest in t' && (Inside(t', {s}, dest) <==> Inside(t, {s}, dest))
  {
    NotInsideChild(t, dest, e);
    MergeFacts(t, s, e);
    BelowAfterMerge(t, s, e, dest);
    var t1, t' := Merged(t, e, s), Cleared(t, s, Some(e), user);
    TargetsOfOne(t1, e, user);
    OutsideStays(t, MergedChildren(t, e, s), Some(s), {s}, dest);
    if Inside(t1, {s}, dest) {
      var k: nat :| Within(t1, {s}, dest, k);
      forall y | y in t1 && Within(t1, {y}, dest, k) ensures y in t' && t'[y].parent == t1[y].parent {
        if Inside(t1, {e}, y) {
          InsideTransitive(t1, {y}, {e}, dest);
        }
      }
      WithinKept(t1, t', {s}, dest, k);
    }
    if Inside(t', {s}, dest) {
      var k: nat :| Within(t', {s}, dest, k);
      FewerWithin(t1, t', {s}, dest, k);
    }
  }

  lemma ClearedFacts(t: Table, s: Id, e: Option<Id>, dest: Option<Id>, name: string, user: int)
    requires Tree(t) && Movable(t, s, e, dest, name, user)
    ensures var t' := Cleared(t, s, e, user);
            && Tree(t') && s in t' && t'[s] == t[s]
            && (forall x :: !InSlot(t', dest, name, user, x) || dest == Some(s))
            && (dest.Some? ==> (dest.value in t' <==> dest.value in t)
                               && (Inside(t', {s}, dest.value) <==> Inside(t, {s}, dest.value)))
  {
    if e.Some? {
      MergeFacts(t, s, e.value);
      var t1 := Merged(t, e.value, s);
      DeletedKeepsTree(t1, {e.value}, user);
      TargetsOfOne(t1, e.value, user);
      InsideStep(t1, {e.value}, e.value);
      assert s !in MergedChildren(t, e.value, s) by {
        InsideStep(t, MergedChildren(t, e.value, s), s);
      }
      NotBelow(t1, e.value, s);
      if dest.Some? {
        DestinationStays(t, s, e.value, dest.value, user);
      }
    }
  }

  lemma NotBelow(t: Table, e: Id, s: Id)
    requires e in t && s in t && !Inside(t, {e}, s)
    ensures s != e && (t[s].parent.Some? ==> t[s].parent.value !in Subtree(t, {e}))
  {
    InsideStep(t, {e}, s);
  }

  /**
   A move under a new name keeps the tree (unique names among active siblings, every active row's parent present,
   no cycle) if and only if the destination is there and not inside the source.
   */
  lemma RenameMoveKeepsTree(t: Table, s: Id, e: Option<Id>, dest: Option<Id>, name: string, user: int)
    requires Tree(t) && Asked(t, s, e, dest, name, user)
    ensures Tree(RenameMoved(t, s, e, dest, name, user)) <==> Reachable(t, s, dest)
  {
    if Movable(t, s, e, dest, name, user) {
      MovableKeepsTree(t, s, e, dest, name, user);
    } else {
      DisplacedKeepsTree(t, s, e.value, dest, name, user);
    }
  }

  lemma MovableKeepsTree(t: Table, s: Id, e: Option<Id>, dest: Option<Id>, name: string, user: int)
    requires Tree(t) && Movable(t, s, e, dest, name, user)
    ensures Tree(RenameMoved(t, s, e, dest, name, user)) <==> Reachable(t, s, dest)
  {
    hide Acyclic, Ranked, Cleared;
    ClearedFacts(t, s, e, dest, name, user);
    var t2, t3 := Cleared(t, s, e, user), RenameMoved(t, s, e, dest, name, user);
    var moved := Reparented(t2, {s}, dest);
    if Reachable(t, s, dest) {
      ReparentedIsAcyclic(t2, {s}, dest);
      FewerIsAcyclic(moved, t3);
      assert dest != Some(s) by {
        InsideStep(t, {s}, s);
      }
      RenamedIsUnique(t2, s, user, dest, name);
    } else if Inside(t, {s}, dest.value) {
      if Acyclic(t3) {
        FewerIsAcyclic(t3, moved);
        InsideIsRow(t, s, dest.value);
        ReparentedIsCyclic(t2, {s}, dest.value);
      }
    } else {
      assert IsActive(t3, s) && t3[s].parent == dest && dest.value !in t3;
    }
  }

  /**
   The displaced row holds the source: its children may go over to a row below them, which the move then lifts out.
   */
  lemma DisplacedKeepsTree(t: Table, s: Id, e: Id, dest: Option<Id>, name: string, user: int)
    requires Tree(t) && Asked(t, s, Some(e), dest, name, user) && Inside(t, {e}, s)
    ensures Tree(RenameMoved(t, s, Some(e), dest, name, user)) && Reachable(t, s, dest)
  {
    hide Acyclic, Ranked;
    AboveDisplaced(t, s, e, dest);
    var moved := MergedChildren(t, e, s);
    var t1, t2, t3 := Merged(t, e, s), Cleared(t, s, Some(e), user), RenameMoved(t, s, Some(e), dest, name, user);
    RowsAfter(t, s, e, dest, name, user);
    LiftedIsAcyclic(t, s, e, dest, t3);
    MergedParents(t, s, e);
    DeletedKeepsParents(t1, {e}, user);
    TargetsOfOne(t1, e, user);
    InsideStep(t1, {e}, e);
    if dest.Some? {
      OutsideStays(t, moved, Some(s), {e}, dest.value);
    }
    RenamedIsUnique(t2, s, user, dest, name);
  }

  lemma RowsAfter(t: Table, s: Id, e: Id, dest: Option<Id>, name: string, user: int)
    requires s in t && t[s].user == user && e in t
    ensures var last := RenameMoved(t, s, Some(e), dest, name, user);
            last.Keys <= t.Keys && forall x :: x in last ==>
              last[x].parent == if x == s then dest else if x in MergedChildren(t, e, s) then Some(s) else t[x].parent
  {
    hide Targets;
  }

  lemma AboveDisplaced(t: Table, s: Id, e: Id, dest: Option<Id>)
    requires Tree(t) && IsActive(t, e) && t[e].parent == dest && s in t && Inside(t, {e}, s)
    ensures Reachable(t, s, dest) && dest != Some(s)
    ensures dest.Some? ==>
      dest.value in t && !Inside(t, {e}, dest.value) && !Inside(t, MergedChildren(t, e, s), dest.value)
  {
    if dest.Some? {
      NotInsideChild(t, dest.value, e);
      if Inside(t, {s}, dest.value) {
        InsideTransitive(t, {s}, {e}, dest.value);
      }
      if Inside(t, MergedChildren(t, e, s), dest.value) {
        MovedBelow(t, MergedChildren(t, e, s), e, dest.value);
      }
    }
  }

  lemma MergedParents(t: Table, s: Id, e: Id)
    requires UniqueNames(t) && ParentsPresent(t) && s in t && e in t
    ensures UniqueNames(Merged(t, e, s)) && ParentsPresent(Merged(t, e, s))
  {
  }

  /** Whatever is left at the end has the parents it would have if the source had been moved first. */
  lemma LiftedIsAcyclic(t: Table, s: Id, e: Id, dest: Option<Id>, last: Table)
    requires Tree(t) && s in t && e in t && Reachable(t, s, dest) && dest != Some(s)
    requires dest.Some? ==> dest.value in t && !Inside(t, MergedChildren(t, e, s), dest.value)
    requires last.Keys <= t.Keys && forall x :: x in last ==>
               last[x].parent == if x == s then dest else if x in MergedChildren(t, e, s) then Some(s) else t[x].parent
    ensures Acyclic(last)
  {
    ReparentedIsAcyclic(t, {s}, dest);
    var lifted, moved := Reparented(t, {s}, dest), MergedChildren(t, e, s) - {s};
    InsideStep(lifted, moved, s);
    if dest.Some? {
      if Inside(t, moved, dest.value) {
        FewerRoots(t, moved, MergedChildren(t, e, s), dest.value);
      }
      OutsideStays(t, {s}, dest, moved, dest.value);
    }
    ReparentedIsAcyclic(lifted, moved, Some(s));
    FewerIsAcyclic(Reparented(lifted, moved, Some(s)), last);
  }

  lemma FewerRoots(t: Table, roots: set<Id>, more: set<Id>, x: Id)
    requires roots <= more && Inside(t, roots, x)
    ensures Inside(t, more, x)
  {
    forall r | r in roots ensures Inside(t, more, r) {
      InsideStep(t, more, r);
    }
    InsideTransitive(t, roots, more, x);
  }

  /** The source stays an active row unless it is inside what it displaces and does not go over with its children. */
  lemma SourceSurvives(t: Table, s: Id, e: Option<Id>, dest: Option<Id>, name: string, user: int)
    requires Tree(t) && Asked(t, s, e, dest, name, user) && t[s].status.Active?
    ensures IsActive(RenameMoved(t, s, e, dest, name, user), s) <==>
              (e.Some? && Inside(t, {e.value}, s) ==> GoesOver(t, s, e, s))
  {
    if e.Some? {
      var t1 := Merged(t, e.value, s);
      SourceBelow(t, s, e.value);
      TargetsOfOne(t1, e.value, user);
      InsideStep(t1, {e.value}, s);
    }
  }

  lemma SourceBelow(t: Table, s: Id, e: Id)
    requires Tree(t) && s in t && e in t
    ensures Inside(Merged(t, e, s), {e}, s) <==> Inside(t, {e}, s) && !Inside(t, MergedChildren(t, e, s), s)
  {
    var t1, moved := Merged(t, e, s), MergedChildren(t, e, s);
    if Inside(t, moved, s) {
      if Inside(t, moved, e) {
        var k: nat :| Within(t, moved, e, k);
        var c := WithinOne(t, moved, e, k);
        NotInsideChild(t, e, c);
      }
      forall k: nat ensures !Within(t1, {e}, s, k) {
        CircleAvoids(t, s, e, s, k);
      }
    } else {
      OutsideStays(t, moved, Some(s), {e}, s);
    }
  }

  /** Once the source hangs below the children that went over to it, none of them leads to the displaced row. */
  lemma {:induction false} CircleAvoids(t: Table, s: Id, e: Id, x: Id, k: nat)
    requires s in t && e in t && Inside(t, MergedChildren(t, e, s), s) && !Inside(t, MergedChildren(t, e, s), e)
    requires Inside(t, MergedChildren(t, e, s), x)
    ensures !Within(Merged(t, e, s), {e}, x, k)
    decreases k
  {
    var moved := MergedChildren(t, e, s);
    InsideStep(t, moved, x);
    assert x != e;
    if k > 0 {
      CircleAvoids(t, s, e, if x in moved then s else t[x].parent.value, k - 1);
    }
  }

  lemma RenamedIsUnique(t: Table, s: Id, user: int, dest: Option<Id>, name: string)
    requires UniqueNames(t) && forall x :: !InSlot(t, dest, name, user, x)
    ensures UniqueNames(Renamed(t, s, user, dest, name))
  {
    var t' := Renamed(t, s, user, dest, name);
    forall x, y | x in t' && y in t' && t'[x].status.Active? && t'[y].status.Active? && SameSlot(t'[x], t'[y])
      ensures x == y
    {
      assert !InSlot(t, dest, name, user, x) && !InSlot(t, dest, name, user, y);
    }
  }

  lemma InsideIsRow(t: Table, root: Id, x: Id)
    requires root in t && Inside(t, {root}, x)
    ensures x in t
  {
    InsideStep(t, {root}, x);
  }

  /** The rows that go over to the source together with the displaced folder's children. */
  ghost predicate GoesOver(t: Table, s: Id, e: Option<Id>, x: Id)
    requires s in t && (e.Some? ==> e.value in t)
  {
    e.Some? && Inside(t, MergedChildren(t, e.value, s), x)
  }

  function Children(t: Table, s: Id, e: Option<Id>): set<Id>
    requires s in t && (e.Some? ==> e.value in t)
  {
    if e.Some? then MergedChildren(t, e.value, s) else {}
  }

  lemma RowAfter(t: Table, s: Id, e: Option<Id>, dest: Option<Id>, name: string, user: int, x: Id)
    requires Tree(t) && Movable(t, s, e, dest, name, user) && x in t
    ensures var t' := RenameMoved(t, s, e, dest, name, user);
            if x == s then x in t' && t'[x] == t[x].(parent := dest, name := name)
            else if x in Children(t, s, e) then x in t' && t'[x] == t[x].(parent := Some(s))
            else if GoesOver(t, s, e, x) || e.None? || !Inside(t, {e.value}, x) then x in t' && t'[x] == t[x]
            else if t[x].kind.Folder? then x !in t'
            else x in t' && t'[x] == t[x].(status := PendingDeletion)
    ensures RenameMoved(t, s, e, dest, name, user).Keys <= t.Keys
  {
    ClearedFacts(t, s, e, dest, name, user);
    if e.Some? && x != s {
      MergeFacts(t, s, e.value);
      var t1, moved := Merged(t, e.value, s), MergedChildren(t, e.value, s);
      TargetsOfOne(t1, e.value, user);
      BelowAfterMerge(t, s, e.value, x);
      InsideStep(t, moved, x);
      InsideStep(t1, {e.value}, x);
      InsideStep(t, {e.value}, e.value);
    }
  }

  /**
   What a move under a new name does to each row. The source gets its new place. If it and the displaced row are
   folders, those active children of the displaced one that have no namesake among the active children of the source
   become the source's, with all that is below them. Of what else is below the displaced row the folders are gone and
   the files marked. Every other row is as it was, and there are no new ones.
   */
  lemma RenameMoveEffect(t: Table, s: Id, e: Option<Id>, dest: Option<Id>, name: string, user: int, x: Id)
    requires Tree(t) && Movable(t, s, e, dest, name, user) && x in t
    ensures var t' := RenameMoved(t, s, e, dest, name, user);
            var over := set c | c in t && e.Some? && t[s].kind.Folder? && t[e.value].kind.Folder?
                                && t[c].status.Active? && t[c].parent == e
                                && forall y :: y in t && t[y].status.Active? && t[y].parent == Some(s)
                                               ==> t[y].name != t[c].name;
            if x == s then x in t' && t'[x] == t[x].(parent := dest, name := name)
            else if x in over then x in t' && t'[x] == t[x].(parent := Some(s))
            else if e.None? || !Inside(t, {e.value}, x) || Inside(t, over, x) then x in t' && t'[x] == t[x]
            else if t[x].kind.Folder? then x !in t'
            else x in t' && t'[x] == t[x].(status := PendingDeletion)
    ensures RenameMoved(t, s, e, dest, name, user).Keys <= t.Keys
  {
    RowAfter(t, s, e, dest, name, user, x);
    var over := set c | c in t && e.Some? && t[s].kind.Folder? && t[e.value].kind.Folder?
                        && t[c].status.Active? && t[c].parent == e
                        && forall y :: y in t && t[y].status.Active? && t[y].parent == Some(s)
                                       ==> t[y].name != t[c].name;
    assert over == Children(t, s, e);
  }

  lemma ChildrenAfter(t: Table, s: Id, e: Option<Id>, dest: Option<Id>, name: string, user: int)
    requires Tree(t) && Movable(t, s, e, dest, name, user) && Reachable(t, s, dest)
    ensures ActiveChildren(RenameMoved(t, s, e, dest, name, user), s) == ActiveChildren(t, s) + Children(t, s, e)
  {
    var t' := RenameMoved(t, s, e, dest, name, user);
    InsideStep(t, {s}, s);
    if e.Some? {
      MergeFacts(t, s, e.value);
      InsideStep(t, MergedChildren(t, e.value, s), s);
    }
    forall x | x in t ensures x in ActiveChildren(t', s) <==> x in ActiveChildren(t, s) + Children(t, s, e) {
      RowAfter(t, s, e, dest, name, user, x);
      if x in ActiveChildren(t, s) {
        NotInsideChild(t, s, x);
        InsideStep(t, {x}, s);
        if e.Some? {
          ChildOfSource(t, s, e.value, dest, x);
        }
      }
    }
  }

  /**
   The source's active children afterwards are its own and, if both are folders, exactly those active children of the
   displaced one whose name none of its own has.
   */
  lemma RenameMoveChildren(t: Table, s: Id, e: Option<Id>, dest: Option<Id>, name: string, user: int, x: Id)
    requires Tree(t) && Movable(t, s, e, dest, name, user) && Reachable(t, s, dest)
    ensures var t' := RenameMoved(t, s, e, dest, name, user);
            x in t' && t'[x].status.Active? && t'[x].parent == Some(s) <==>
              && x in t && t[x].status.Active?
              && (|| t[x].parent == Some(s)
                  || (&& e.Some? && t[x].parent == e && t[s].kind.Folder? && t[e.value].kind.Folder?
                      && forall y :: y in t && t[y].status.Active? && t[y].parent == Some(s)
                                     ==> t[y].name != t[x].name))
  {
    ChildrenAfter(t, s, e, dest, name, user);
    var t' := RenameMoved(t, s, e, dest, name, user);
    assert x in ActiveChildren(t', s) <==> x in ActiveChildren(t, s) || x in Children(t, s, e);
  }

  lemma ChildOfSource(t: Table, s: Id, e: Id, dest: Option<Id>, x: Id)
    requires Tree(t) && s in t && e in t && t[e].parent == dest && dest != Some(s) && !Inside(t, {e}, s)
    requires x in ActiveChildren(t, s)
    ensures !Inside(t, {e}, x)
  {
    InsideStep(t, {e}, x);
  }

  /** Moving an active item to where it is, under the name it has, is no move: the item is deleted. */
  lemma MoveOntoItselfDeletes(t: Table, s: Id, dest: Option<Id>, name: string, user: int)
    requires InSlot(t, dest, name, user, s)
    ensures Displaces(t, dest, name, user, Some(s))
    ensures !IsActive(RenameMoved(t, s, Some(s), dest, name, user), s)
  {
    forall x | x in ActiveChildren(t, s) ensures NameTaken(t, s, t[x].name) {
    }
    assert MergedChildren(t, s, s) == {};
    assert Merged(t, s, s) == t;
    TargetsOfOne(t, s, user);
    InsideStep(t, {s}, s);
  }

  /** What the statements of a rename-move leave, one by one; what the deletion leaves is `DeletedIs`. */
  lemma StatementsAre(t: Table, s: Id, e: Option<Id>, dest: Option<Id>, name: string, user: int)
    requires s in t && t[s].user == user && (e.Some? ==> e.value in t)
    ensures e.Some? ==>
      var merged := Merged(t, e.value, s);
      && merged.Keys == t.Keys
      && forall x :: x in t ==>
           merged[x] == if && t[s].kind.Folder? && t[e.value].kind.Folder? && t[x].status.Active? && t[x].parent == e
                           && forall y :: y in t && t[y].status.Active? && t[y].parent == Some(s)
                                          ==> t[y].name != t[x].name
                        then t[x].(parent := Some(s)) else t[x]
    ensures var cleared := if e.Some? then Deleted(Merged(t, e.value, s), {e.value}, user) else t;
            RenameMoved(t, s, e, dest, name, user)
            == if s in cleared && cleared[s].user == user then cleared[s := cleared[s].(parent := dest, name := name)]
               else cleared
  {
  }

  // Moving several rows.

  function MovedAll(t: Table, ids: set<Id>, dest: Option<Id>, user: int): Table {
    Reparented(t, Owned(t, ids, user), dest)
  }

  /** Moving rows keeps the forest free of cycles if and only if the destination is inside none of them. */
  lemma MoveManyKeepsAcyclic(t: Table, ids: set<Id>, dest: Option<Id>, user: int)
    requires Acyclic(t)
    ensures Acyclic(MovedAll(t, ids, dest, user)) <==>
              (dest.Some? && dest.value in t ==> !Inside(t, Owned(t, ids, user), dest.value))
  {
    var moved := Owned(t, ids, user);
    if dest.Some? && dest.value in t && Inside(t, moved, dest.value) {
      ReparentedIsCyclic(t, moved, dest.value);
    } else {
      ReparentedIsAcyclic(t, moved, dest);
    }
  }

  /** A folder of user 1, and one of user 2 with this parent. */
  function TwoFolders(p: Option<Id>): Table {
    map["a" := Row(None, "a", 1, Active, Folder), "b" := Row(p, "b", 2, Active, Folder)]
  }

  lemma TwoFoldersAreTree(p: Option<Id>)
    requires p == None || p == Some("a")
    ensures Tree(TwoFolders(p)) && (OwnBranches(TwoFolders(p)) <==> p == None)
  {
    var t := TwoFolders(p);
    assert "a" != "b" && t.Keys == {"a", "b"};
    assert HasParent(t, "b") <==> p.Some?;
    assert Ranked(t, map["a" := 0, "b" := 1]);
  }

  /**
   A move may put a user's folder below another user's: nobody asks whose the destination is. When the other user
   deletes that, the folder is gone, though the ids name no row of its owner.
   */
  lemma MovedBelowAnother()
    ensures var t, t' := TwoFolders(None), MovedAll(TwoFolders(None), {"b"}, Some("a"), 2);
            && Tree(t) && OwnBranches(t) && Tree(t') && !OwnBranches(t')
            && "b" in t' && t'["b"].user == 2 && "b" !in Deleted(t', {"a"}, 1)
  {
    hide TwoFolders, MovedAll, Tree, OwnBranches, Deleted;
    TwoFoldersAreTree(None);
    TwoFoldersAreTree(Some("a"));
    SecondMoved();
    GoneWithFolder();
  }

  lemma SecondMoved()
    ensures var t' := TwoFolders(Some("a"));
            MovedAll(TwoFolders(None), {"b"}, Some("a"), 2) == t' && "b" in t' && t'["b"].user == 2
  {
    assert "a" != "b" && Owned(TwoFolders(None), {"b"}, 2) == {"b"};
  }

  lemma GoneWithFolder()
    ensures "b" !in Deleted(TwoFolders(Some("a")), {"a"}, 1)
  {
    var t := TwoFolders(Some("a"));
    assert "a" != "b" && Owned(t, {"a"}, 1) == {"a"};
    InsideStep(t, {"a"}, "a");
    InsideStep(t, {"a"}, "b");
  }

  /**
   What it takes of the names: no two of the moved active rows, which come to lie side by side, have the same name, and
   none has that of a row that is there already.
   */
  ghost predicate SlotsFree(t: Table, moved: set<Id>, dest: Option<Id>) {
    && (forall x, y :: x in moved && y in moved && Namesakes(t, x, y) ==> x == y)
    && (forall x, y :: x in moved && y !in moved && Namesakes(t, x, y) ==> t[y].parent != dest)
  }

  predicate Namesakes(t: Table, x: Id, y: Id) {
    IsActive(t, x) && IsActive(t, y) && t[x].name == t[y].name && t[x].user == t[y].user
  }

  /** Moving several rows keeps the names unique if and only if their slots are free. */
  lemma MoveManyKeepsNames(t: Table, ids: set<Id>, dest: Option<Id>, user: int)
    requires UniqueNames(t)
    ensures UniqueNames(MovedAll(t, ids, dest, user)) <==> SlotsFree(t, Owned(t, ids, user), dest)
  {
    var moved, t' := Owned(t, ids, user), MovedAll(t, ids, dest, user);
    if UniqueNames(t') {
      forall x, y | x in moved && y in moved && Namesakes(t, x, y) ensures x == y {
        assert SameSlot(t'[x], t'[y]);
      }
      forall x, y | x in moved && y !in moved && Namesakes(t, x, y) ensures t[y].parent != dest {
        assert t[y].parent == dest ==> SameSlot(t'[x], t'[y]);
      }
    }
  }

  /**
   Moving several rows keeps the tree if and only if their slots at the destination are free, the destination is there,
   unless no active row is moved, and it is inside none of them.
   */
  lemma MoveManyKeepsTree(t: Table, ids: set<Id>, dest: Option<Id>, user: int)
    requires Tree(t)
    ensures Tree(MovedAll(t, ids, dest, user)) <==>
              && SlotsFree(t, Owned(t, ids, user), dest)
              && (dest.Some? ==> if dest.value in t then !Inside(t, Owned(t, ids, user), dest.value)
                                 else forall x :: x in Owned(t, ids, user) ==> !IsActive(t, x))
  {
    MoveManyKeepsNames(t, ids, dest, user);
    MoveManyKeepsAcyclic(t, ids, dest, user);
    hide Acyclic, UniqueNames, SlotsFree;
    var moved, t' := Owned(t, ids, user), MovedAll(t, ids, dest, user);
    if dest.Some? && dest.value !in t && exists x :: x in moved && IsActive(t, x) {
      var x :| x in moved && IsActive(t, x);
      assert IsActive(t', x) && t'[x].parent == dest;
    }
  }

  /** In a tree the deletion in the middle of a rename-move ends, even where the merge before it made a cycle. */
  lemma ClearingEnds(t: Table, s: Id, e: Id, user: int)
    requires Tree(t) && s in t && e in t && t[e].user == user
    ensures !Circular(Merged(t, e, s), Owned(Merged(t, e, s), {e}, user))
  {
    var t1, moved := Merged(t, e, s), MergedChildren(t, e, s);
    assert Owned(t1, {e}, user) == {e};
    if Inside(t, moved, e) {
      var k: nat :| Within(t, moved, e, k);
      var c := WithinOne(t, moved, e, k);
      NotInsideChild(t, e, c);
    }
    InsideStep(t, moved, e);
    if OnCycle(t1, e) {
      var p := t[e].parent.value;
      OutsideStays(t, moved, Some(s), {e}, p);
      InsideStep(t, {e}, p);
      NotInsideChild(t, p, e);
    }
    forall x | Inside(t1, {e}, x) ensures !OnCycle(t1, x) {
      var k: nat :| Within(t1, {e}, x, k);
      NoCycleBelow(t1, e, x, k);
    }
  }

  /** The steps of a rename-move never break the unique index: what has the name makes room for the source. */
  lemma RenameMoveNeverConflicts(t: Table, s: Id, e: Option<Id>, dest: Option<Id>, name: string, user: int)
    requires UniqueNames(t) && Asked(t, s, e, dest, name, user)
    ensures e.Some? ==> UniqueNames(Merged(t, e.value, s))
    ensures UniqueNames(RenameMoved(t, s, e, dest, name, user))
  {
    var t' := Cleared(t, s, e, user);
    if e.Some? {
      TargetsOfOne(Merged(t, e.value, s), e.value, user);
      InsideStep(Merged(t, e.value, s), {e.value}, e.value);
      ActiveStays(Merged(t, e.value, s), {e.value}, user);
    }
    forall x ensures !InSlot(t', dest, name, user, x) {
      if e.Some? && InSlot(t', dest, name, user, x) && x !in MergedChildren(t, e.value, s) {
        assert SameSlot(t[x], t[e.value]);
      }
    }
    RenamedIsUnique(t', s, user, dest, name);
  }

  /** What is active after a deletion was so before, in the same place. */
  lemma ActiveStays(t: Table, ids: set<Id>, user: int)
    ensures var t' := Deleted(t, ids, user);
            && (forall x :: IsActive(t', x) ==> x in t && t'[x] == t[x])
            && (UniqueNames(t) ==> UniqueNames(t'))
  {
  }

  /** `NoAnswer` is a statement that does not end. */
  datatype MoveError = Nil | NotFound | Conflict | NoAnswer

  /** Under the unique index a rename-move goes through, unless there is a cycle below what it displaces. */
  ghost function RenameMoveResult(t: Table, s: Id, e: Option<Id>): MoveError
    requires s in t && (e.Some? ==> e.value in t)
  {
    if e.Some? && Circular(Merged(t, e.value, s), {e.value}) then NoAnswer else Nil
  }

  /** On a tree it always goes through. */
  lemma RenameMoveGoesThrough(t: Table, s: Id, e: Option<Id>, user: int)
    requires Tree(t) && s in t && (e.Some? ==> e.value in t && t[e.value].user == user)
    ensures RenameMoveResult(t, s, e) == Nil
  {
    if e.Some? {
      ClearingEnds(t, s, e.value, user);
      assert Owned(Merged(t, e.value, s), {e.value}, user) == {e.value};
    }
  }

  class Drive {
    var rows: Table

    constructor (rows: Table)
      ensures this.rows == rows
    {
      this.rows := rows;
    }

    /** The statement ends unless there is a cycle below the rows it starts from. */
    method DeleteFilesBulk(ids: set<Id>, user: int) returns (ends: bool)
      modifies this
      ensures ends <==> !Circular(old(rows), Owned(old(rows), ids, user))
      ensures rows == if ends then Deleted(old(rows), ids, user) else old(rows)
    {
      var targets;
      ends, targets := Closure(rows, Owned(rows, ids, user));
      if ends {
        rows := Remaining(rows, ids, targets);
      }
    }

    /** An update under the unique index: it fails, and leaves everything, if two active rows would share a slot. */
    method Update(t: Table) returns (err: MoveError)
      modifies this
      ensures if UniqueNames(t) then err == Nil && rows == t else err == Conflict && rows == old(rows)
      ensures err == Conflict <==>
                exists x, y :: x in t && y in t && x != y && t[x].status.Active? && t[y].status.Active?
                               && t[x].parent == t[y].parent && t[x].name == t[y].name && t[x].user == t[y].user
    {
      if UniqueNames(t) {
        rows, err := t, Nil;
      } else {
        err := Conflict;
      }
    }

    /** The row the destination query finds, if any. */
    method FindInSlot(dest: Option<Id>, name: string, user: int) returns (e: Option<Id>)
      ensures Displaces(rows, dest, name, user, e)
      ensures e.Some? ==>
        && e.value in rows && rows[e.value].status.Active? && rows[e.value].parent == dest
        && rows[e.value].name == name && rows[e.value].user == user
      ensures e.None? ==>
        forall x :: x in rows && rows[x].status.Active? && rows[x].parent == dest ==>
          rows[x].name != name || rows[x].user != user
    {
      var found := set x | x in rows && InSlot(rows, dest, name, user, x);
      if found == {} {
        assert forall x :: InSlot(rows, dest, name, user, x) ==> x in found;
        assert forall x :: x in rows ==> !InSlot(rows, dest, name, user, x);
        e := None;
      } else {
        var x :| x in found;
        e := Some(x);
      }
    }

    /**
     Moves rows under the destination; a single one may get a name at the same time and then takes the place of
     the row that has it. All of it is one transaction.
     */
    method FilesMove(ids: seq<Id>, dest: Option<Id>, name: string, user: int)
      returns (err: MoveError, ghost e: Option<Id>)
      requires ids != []
      modifies this
      ensures err != Nil ==> rows == old(rows)
      ensures err == NotFound <==> ids[0] !in old(rows) || old(rows)[ids[0]].user != user
      ensures e.Some? ==> e.value in old(rows)
      ensures err != NotFound && |ids| == 1 && name != "" ==>
        && Displaces(old(rows), dest, name, user, e)
        && (err == Nil ==> rows == RenameMoved(old(rows), ids[0], e, dest, name, user))
        && (UniqueNames(old(rows)) ==> err == RenameMoveResult(old(rows), ids[0], e))
      ensures err != NotFound && !(|ids| == 1 && name != "") ==>
        && (err == Nil <==> UniqueNames(MovedAll(old(rows), (set x | x in ids), dest, user)))
        && (err == Nil ==> rows == MovedAll(old(rows), (set x | x in ids), dest, user))
      ensures err == Nil && !(|ids| == 1 && name != "") ==>
        && rows.Keys == old(rows).Keys
        && forall x :: x in rows ==>
             rows[x] == if x in ids && old(rows)[x].user == user then old(rows)[x].(parent := dest) else old(rows)[x]
    {
      e := None;
      if ids[0] !in rows || rows[ids[0]].user != user {
        return NotFound, e;
      }
      if |ids| == 1 && name != "" {
        err, e := RenameMove(ids[0], dest, name, user);
      } else {
        err := Update(MovedAll(rows, (set x | x in ids), dest, user));
      }
    }

    method RenameMove(s: Id, dest: Option<Id>, name: string, user: int) returns (err: MoveError, e: Option<Id>)
      requires s in rows && rows[s].user == user
      modifies this
      ensures err != NotFound && (err != Nil ==> rows == old(rows))
      ensures Displaces(old(rows), dest, name, user, e) && (e.Some? ==> e.value in old(rows))
      ensures err == Nil ==> rows == RenameMoved(old(rows), s, e, dest, name, user)
      ensures UniqueNames(old(rows)) ==> err == RenameMoveResult(old(rows), s, e)
    {
      var before := rows;
      e := FindInSlot(dest, name, user);
      err := Nil;
      if UniqueNames(before) {
        RenameMoveNeverConflicts(before, s, e, dest, name, user);
      }
      if e.Some? {
        if rows[s].kind.Folder? && rows[e.value].kind.Folder? {
          err := Update(Merged(rows, e.value, s));
        }
        if err == Nil {
          assert rows == Merged(before, e.value, s);
          assert Owned(rows, {e.value}, user) == {e.value};
          var ends := DeleteFilesBulk({e.value}, user);
          if !ends {
            err := NoAnswer;
          }
        }
      }
      if err == Nil {
        err := Update(Renamed(rows, s, user, dest, name));
      }
      if err != Nil {
        rows := before;
      }
    }
  }
}
