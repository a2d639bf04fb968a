/**
 From ids to paths and back: `getFullPath`, `assertIdsWithinShare` of pkg/services/file.go and `resolvePathID` of
 pkg/services/common.go.
 */
module DrivePaths {
  import opened DriveTables
  import opened Paths
  import opened Records
  import opened Strings

  const ROOT := "/root"

  /** Some ranking of an acyclic table. */
  ghost function Rank(t: Table): (rank: map<Id, nat>)
    requires Acyclic(t)
    ensures Ranked(t, rank)
  {
    var rank :| Ranked(t, rank);
    rank
  }

  predicate Climbs(t: Table, x: Id) {
    HasParent(t, x) && t[x].parent.value in t
  }

  /** The names on the way down to `x`. */
  ghost function Names(t: Table, x: Id): (names: seq<string>)
    requires Acyclic(t) && x in t
    ensures names != [] && names[|names| - 1] == t[x].name
    decreases Rank(t)[x]
  {
    (if Climbs(t, x) then Names(t, t[x].parent.value) else []) + [t[x].name]
  }

  /** What `getFullPath` answers; an id without a row has the empty path. */
  ghost function FullPath(t: Table, x: Id): string
    requires Acyclic(t)
  {
    var path := if x in t then Join(Names(t, x)) else "";
    TrimPrefix(if path != "" then "/" + path else path, ROOT)
  }

  /** The recursive query goes up parent by parent; the aggregate puts the names in order from the top. */
  method GetFullPath(t: Table, x: Id) returns (path: string)
    requires Acyclic(t)
    ensures path == FullPath(t, x)
  {
    hide Acyclic, Join, TrimPrefix;
    path := "";
    if x in t {
      var names, at := [t[x].name], x;
      while Climbs(t, at)
        invariant at in t && (if Climbs(t, at) then Names(t, t[at].parent.value) else []) + names == Names(t, x)
        decreases Rank(t)[at]
      {
        at := t[at].parent.value;
        names := [t[at].name] + names;
      }
      assert [] + names == names;
      path := Join(names);
    }
    if path != "" {
      path := "/" + path;
    }
    path := TrimPrefix(path, ROOT);
  }

  /** The rows of the user form one tree, under a row called root; names are proper, and unique among siblings. */
  ghost predicate OneTree(t: Table, user: int, root: Id) {
    && Acyclic(t) && root in t && t[root].user == user && t[root].parent.None? && t[root].name == "root"
    && (forall x :: x in t && t[x].user == user && x != root ==> Climbs(t, x))
    && (forall x :: Climbs(t, x) ==> (t[x].user == user <==> t[t[x].parent.value].user == user))
    && (forall x, y :: x in t && y in t && t[x].user == user && SameSlot(t[x], t[y]) ==> x == y)
    && (forall x :: x in t && t[x].user == user ==> ValidName(t[x].name))
  }

  /** The row and every row above it are active. */
  ghost predicate ActiveUp(t: Table, x: Id) {
    forall y :: y in t && Inside(t, {y}, x) ==> IsActive(t, y)
  }

  lemma ActiveStep(t: Table, x: Id)
    requires x in t
    ensures ActiveUp(t, x) <==> IsActive(t, x) && (Climbs(t, x) ==> ActiveUp(t, t[x].parent.value))
  {
    InsideStep(t, {x}, x);
    forall y | y in t ensures Inside(t, {y}, x) <==> y == x || (Climbs(t, x) && Inside(t, {y}, t[x].parent.value)) {
      InsideStep(t, {y}, x);
      if t[x].parent.Some? {
        InsideStep(t, {y}, t[x].parent.value);
      }
    }
  }

  ghost predicate Mine(t: Table, user: int, x: Id) {
    x in t && t[x].user == user
  }

  /** What lies above a row: nothing above the root, a row of the same user above any other of the user's rows. */
  lemma OneUp(t: Table, user: int, root: Id, x: Id)
    requires OneTree(t, user, root) && x in t
    ensures Mine(t, user, root) && t[root].parent.None? && t[root].name == "root" && Names(t, root) == ["root"]
    ensures Mine(t, user, x) && x != root ==> Climbs(t, x)
    ensures Climbs(t, x) ==>
      && (Mine(t, user, x) <==> Mine(t, user, t[x].parent.value))
      && Names(t, x) == Names(t, t[x].parent.value) + [t[x].name]
  {
    assert !Climbs(t, root);
  }

  lemma {:induction false} NamesInTree(t: Table, user: int, root: Id, x: Id)
    requires OneTree(t, user, root) && Mine(t, user, x)
    ensures ValidNames(Names(t, x)) && Names(t, x)[0] == "root" && (|Names(t, x)| == 1 <==> x == root)
    decreases Rank(t)[x]
  {
    if x != root {
      NamesInTree(t, user, root, t[x].parent.value);
    } else {
      assert !Climbs(t, x);
    }
  }

  /** In the tree, the names on the way identify the row. */
  lemma {:induction false} NamesIdentify(t: Table, user: int, root: Id, x: Id, y: Id)
    requires OneTree(t, user, root) && Mine(t, user, x) && Mine(t, user, y) && Names(t, x) == Names(t, y)
    ensures x == y
    decreases Rank(t)[x]
  {
    NamesInTree(t, user, root, x);
    NamesInTree(t, user, root, y);
    if x != root {
      var px, py := t[x].parent.value, t[y].parent.value;
      assert Names(t, px) == Names(t, x)[..|Names(t, x)| - 1] == Names(t, py);
      NamesIdentify(t, user, root, px, py);
    }
  }

  /** The path of a row is the names below the root, each after a slash. */
  lemma PathIsNames(t: Table, user: int, root: Id, x: Id)
    requires OneTree(t, user, root) && Mine(t, user, x)
    ensures FullPath(t, x) == Slashed(Names(t, x)[1..])
  {
    assert Acyclic(t);
    hide OneTree, Names, Join, Slashed, Acyclic, TrimPrefix;
    NamesInTree(t, user, root, x);
    PathOfNames(Names(t, x));
  }

  lemma PathOfNames(names: seq<string>)
    requires names != [] && names[0] == "root" && ValidNames(names)
    ensures Join(names) != "" && TrimPrefix("/" + Join(names), ROOT) == Slashed(names[1..])
  {
    hide Join, Slashed;
    SlashedIsJoin(names);
    JoinEnds(names);
    SlashedStep(names);
    assert Slashed(names) == ROOT + Slashed(names[1..]);
  }

  /** A root and a file in it. */
  function TwoRows(r: Id, f: Id, name: string): Table {
    map[r := Row(None, "root", 1, Active, Folder), f := Row(Some(r), name, 1, Active, File)]
  }

  /** They are one tree, and the file's path is what one would think. */
  lemma TwoRowsAreTree(r: Id, f: Id, name: string)
    requires r != f && ValidName(name)
    ensures OneTree(TwoRows(r, f, name), 1, r) && FullPath(TwoRows(r, f, name), f) == "/" + name
  {
    var t := TwoRows(r, f, name);
    TwoRowsAreOne(r, f, name);
    assert Climbs(t, f);
    OneUp(t, 1, r, f);
    PathIsNames(t, 1, r, f);
    assert Names(t, f) == ["root"] + [name];
    assert Names(t, f)[1..] == [name];
    SlashedStep([name]);
    assert [name][1..] == [] && "/" + name + "" == "/" + name;
  }

  lemma TwoRowsAreOne(r: Id, f: Id, name: string)
    requires r != f && ValidName(name)
    ensures OneTree(TwoRows(r, f, name), 1, r)
  {
    var t := TwoRows(r, f, name);
    assert t.Keys == {r, f};
    assert Ranked(t, map[r := 0, f := 1]);
    assert ValidName("root");
  }

  // Ancestry.

  lemma {:induction false} AboveIsPrefix(t: Table, user: int, root: Id, s: Id, f: Id, k: nat)
    requires OneTree(t, user, root) && Mine(t, user, s) && Mine(t, user, f) && Within(t, {s}, f, k)
    ensures Names(t, s) <= Names(t, f)
    decreases k
  {
    if f != s {
      InsideStep(t, {s}, f);
      assert f != root;
      AboveIsPrefix(t, user, root, s, t[f].parent.value, k - 1);
    }
  }

  lemma {:induction false} PrefixIsAbove(t: Table, user: int, root: Id, s: Id, f: Id)
    requires OneTree(t, user, root) && Mine(t, user, s) && Mine(t, user, f) && Names(t, s) <= Names(t, f)
    ensures Inside(t, {s}, f)
    decreases Rank(t)[f]
  {
    InsideStep(t, {s}, f);
    if |Names(t, s)| == |Names(t, f)| {
      NamesIdentify(t, user, root, s, f);
    } else {
      NamesInTree(t, user, root, f);
      NamesInTree(t, user, root, s);
      var p := t[f].parent.value;
      assert Names(t, p) == Names(t, f)[..|Names(t, f)| - 1];
      PrefixIsAbove(t, user, root, s, p);
    }
  }

  /** The test on the path strings says exactly whether `f` is `s` or a descendant of it. */
  lemma ShareTestIsAncestry(t: Table, user: int, root: Id, s: Id, f: Id)
    requires OneTree(t, user, root) && Mine(t, user, s) && Mine(t, user, f)
    ensures PathWithinShare(FullPath(t, s), FullPath(t, f)) <==> Inside(t, {s}, f)
  {
    assert Acyclic(t);
    hide FullPath, PathWithinShare, Slashed, OneTree, Names, Acyclic, ValidNames;
    PathIsNames(t, user, root, s);
    PathIsNames(t, user, root, f);
    NamesInTree(t, user, root, s);
    NamesInTree(t, user, root, f);
    NamesWithinShare(Names(t, s), Names(t, f));
    AncestryIsPrefix(t, user, root, s, f);
  }

  lemma NamesWithinShare(a: seq<string>, b: seq<string>)
    requires a != [] && b != [] && a[0] == b[0] && ValidNames(a) && ValidNames(b)
    ensures PathWithinShare(Slashed(a[1..]), Slashed(b[1..])) <==> a <= b
  {
    hide PathWithinShare, Slashed;
    WithinShareIsPrefix(a[1..], b[1..]);
    assert a == [a[0]] + a[1..] && b == [b[0]] + b[1..];
  }

  lemma AncestryIsPrefix(t: Table, user: int, root: Id, s: Id, f: Id)
    requires OneTree(t, user, root) && Mine(t, user, s) && Mine(t, user, f)
    ensures Names(t, s) <= Names(t, f) <==> Inside(t, {s}, f)
  {
    assert Acyclic(t);
    hide OneTree;
    if Inside(t, {s}, f) {
      var k: nat :| Within(t, {s}, f, k);
      AboveIsPrefix(t, user, root, s, f, k);
    }
    if Names(t, s) <= Names(t, f) {
      PrefixIsAbove(t, user, root, s, f);
    }
  }

  datatype Share = Share(fileId: Id, ofFile: bool, user: int, path: string)

  /** Whether every requested id is covered by the share. */
  method AssertIdsWithinShare(t: Table, share: Share, ids: seq<Id>) returns (ok: bool)
    requires Acyclic(t)
    ensures share.ofFile ==> (ok <==> forall i :: 0 <= i < |ids| ==> ids[i] == share.fileId)
    ensures !share.ofFile ==>
      (ok <==> forall i :: 0 <= i < |ids| ==>
         ids[i] in t && t[ids[i]].user == share.user && PathWithinShare(share.path, FullPath(t, ids[i])))
  {
    if share.ofFile {
      for i := 0 to |ids|
        invariant forall j :: 0 <= j < i ==> ids[j] == share.fileId
      {
        if ids[i] != share.fileId {
          return false;
        }
      }
      return true;
    }
    for i := 0 to |ids|
      invariant forall j :: 0 <= j < i ==>
        ids[j] in t && t[ids[j]].user == share.user && PathWithinShare(share.path, FullPath(t, ids[j]))
    {
      if ids[i] !in t || t[ids[i]].user != share.user {
        return false;
      }
      var path := GetFullPath(t, ids[i]);
      if !PathWithinShare(share.path, path) {
        return false;
      }
    }
    ok := true;
  }

  /** For a shared folder, exactly the owner's rows in its subtree are let through. */
  method SharedSubtreeOnly(t: Table, root: Id, share: Share, ids: seq<Id>) returns (ok: bool)
    requires OneTree(t, share.user, root) && Mine(t, share.user, share.fileId) && !share.ofFile
    requires share.path == FullPath(t, share.fileId)
    ensures ok <==> forall i :: 0 <= i < |ids| ==> Mine(t, share.user, ids[i]) && Inside(t, {share.fileId}, ids[i])
  {
    ok := AssertIdsWithinShare(t, share, ids);
    forall i | 0 <= i < |ids| && Mine(t, share.user, ids[i])
      ensures PathWithinShare(share.path, FullPath(t, ids[i])) <==> Inside(t, {share.fileId}, ids[i])
    {
      ShareTestIsAncestry(t, share.user, root, share.fileId, ids[i]);
    }
  }

  // Resolving.

  /** What `resolvePathID` splits: the path, with the root put in front unless it begins with it. */
  function PathParts(path: string): seq<string> {
    var full := if ROOT <= path then path else ROOT + "/" + Trim(path);
    StringToArray(Trim(full))
  }

  predicate Matches(t: Table, x: Id, name: string) {
    IsActive(t, x) && t[x].name == name
  }

  /** The rows at depth `k` of the hierarchy that follow the first `k` parts. */
  function Level(t: Table, user: int, parts: seq<string>, k: nat): set<Id>
    requires 1 <= k <= |parts|
  {
    if k == 1 then set x | x in t && Matches(t, x, parts[0]) && t[x].user == user && t[x].parent.None?
    else
      var above := Level(t, user, parts, k - 1);
      set x | x in t && Matches(t, x, parts[k - 1]) && t[x].parent.Some? && t[x].parent.value in above
  }

  /** Some row at the last depth, if there is one. */
  method ResolvePathID(t: Table, path: string, user: int) returns (id: Option<Id>)
    ensures var parts := PathParts(path);
            if parts == [] || Level(t, user, parts, |parts|) == {} then id.None?
            else id.Some? && id.value in Level(t, user, parts, |parts|)
  {
    var parts := PathParts(path);
    if parts == [] {
      return None;
    }
    var level := set x | x in t && Matches(t, x, parts[0]) && t[x].user == user && t[x].parent.None?;
    for k := 1 to |parts|
      invariant level == Level(t, user, parts, k)
    {
      level := set x | x in t && Matches(t, x, parts[k]) && t[x].parent.Some? && t[x].parent.value in level;
    }
    if level == {} {
      return None;
    }
    var x :| x in level;
    id := Some(x);
  }

  /**
   In the tree, the rows at depth `k` are the one whose names are the first `k` parts, if it is there and active all
   the way up.
   */
  lemma {:induction false} LevelIsNames(t: Table, user: int, root: Id, parts: seq<string>, k: nat, x: Id)
    requires OneTree(t, user, root) && 1 <= k <= |parts|
    ensures x in Level(t, user, parts, k) <==> Mine(t, user, x) && Names(t, x) == parts[..k] && ActiveUp(t, x)
    decreases k
  {
    assert Acyclic(t);
    hide OneTree, Names, Acyclic, ActiveUp;
    if x in t {
      OneUp(t, user, root, x);
      if k == 1 {
        FirstLevel(t, user, root, parts, x);
      } else if t[x].parent.Some? {
        LevelIsNames(t, user, root, parts, k - 1, t[x].parent.value);
        NextLevel(t, user, root, parts, k, x);
      } else if Mine(t, user, x) {
        assert |Names(t, x)| == 1;
      }
    }
  }

  lemma FirstLevel(t: Table, user: int, root: Id, parts: seq<string>, x: Id)
    requires OneTree(t, user, root) && parts != []
    requires x in t
    ensures x in Level(t, user, parts, 1) <==> Mine(t, user, x) && Names(t, x) == parts[..1] && ActiveUp(t, x)
  {
    assert Acyclic(t);
    hide OneTree, Names, Acyclic, ActiveUp;
    OneUp(t, user, root, x);
    ActiveStep(t, x);
    if Mine(t, user, x) && x != root {
      OneUp(t, user, root, t[x].parent.value);
      assert |Names(t, x)| > 1;
    }
  }

  lemma NextLevel(t: Table, user: int, root: Id, parts: seq<string>, k: nat, x: Id)
    requires OneTree(t, user, root) && 2 <= k <= |parts|
    requires HasParent(t, x)
    requires var p := t[x].parent.value;
             p in Level(t, user, parts, k - 1) <==> Mine(t, user, p) && Names(t, p) == parts[..k - 1] && ActiveUp(t, p)
    ensures x in Level(t, user, parts, k) <==> Mine(t, user, x) && Names(t, x) == parts[..k] && ActiveUp(t, x)
  {
    assert Acyclic(t);
    var p := t[x].parent.value;
    assert x in Level(t, user, parts, k) <==> Matches(t, x, parts[k - 1]) && p in Level(t, user, parts, k - 1);
    hide OneTree, Names, Acyclic, Level, ActiveUp;
    OneUp(t, user, root, x);
    ActiveStep(t, x);
    if Climbs(t, x) {
      Snoc(Names(t, p), t[x].name, parts, k);
    }
  }

  lemma Snoc(names: seq<string>, name: string, parts: seq<string>, k: nat)
    requires 1 <= k <= |parts|
    ensures names + [name] == parts[..k] <==> names == parts[..k - 1] && name == parts[k - 1]
  {
    assert parts[..k] == parts[..k - 1] + [parts[k - 1]];
    if names + [name] == parts[..k] {
      assert names == (names + [name])[..|names|];
    }
  }

  lemma LevelIsRow(t: Table, user: int, root: Id, x: Id)
    requires OneTree(t, user, root) && Mine(t, user, x)
    ensures Level(t, user, Names(t, x), |Names(t, x)|) == if ActiveUp(t, x) then {x} else {}
  {
    var names := Names(t, x);
    assert names[..|names|] == names;
    forall y ensures y in Level(t, user, names, |names|) <==> y == x && ActiveUp(t, x) {
      LevelIsNames(t, user, root, names, |names|, y);
      if Mine(t, user, y) && Names(t, y) == names {
        NamesIdentify(t, user, root, x, y);
      }
    }
  }

  lemma BeginsWithRoot(names: seq<string>)
    requires names != [] && ValidNames(names)
    ensures ROOT <= Slashed(names) <==> "root" <= names[0]
  {
    var path, rest := Slashed(names), Slashed(names[1..]);
    assert path == "/" + (names[0] + rest) && path[1..] == names[0] + rest;
    var n := names[0];
    if |n| >= 4 {
      assert path[..5] == "/" + n[..4];
      assert ROOT == "/" + "root" && ROOT[1..] == "root" && path[..5][1..] == n[..4];
    } else {
      assert rest != "" ==> rest[0] == '/';
      assert |path| == 1 + |n| || path[1 + |n|] == '/';
      assert ROOT[1] == 'r' && ROOT[2] == 'o' && ROOT[3] == 'o' && ROOT[4] == 't';
    }
  }

  lemma PartsFromRoot(names: seq<string>)
    requires names != [] && ValidNames(names)
    ensures StringToArray(Trim(ROOT + "/" + Trim(Slashed(names)))) == ["root"] + names
  {
    hide Split, Trim, Slashed, Join;
    var all := ["root"] + names;
    assert ValidNames(all) && all[1..] == names;
    assert Slashed(all) == "/" + "root" + Slashed(names) by {
      SlashedStep(all);
    }
    SlashedIsJoin(names);
    TrimJoin(names);
    TrimJoin(all);
    SplitJoin(all);
    JoinEnds(all);
    assert ROOT + "/" + Join(names) == "/" + "root" + ("/" + Join(names));
  }

  /** A path without its first slash is always looked for below the root, whatever its first name begins with. */
  lemma WithoutSlash(names: seq<string>)
    requires names != [] && ValidNames(names)
    ensures PathParts(Join(names)) == ["root"] + names
  {
    hide Split, Trim, Slashed, Join;
    JoinEnds(names);
    assert ROOT[0] == '/';
    TrimJoin(names);
    PartsFromRoot(names);
  }

  lemma SlashedStep(names: seq<string>)
    requires names != []
    ensures Slashed(names) == "/" + names[0] + Slashed(names[1..])
  {
  }

  lemma PartsAsTheyAre(names: seq<string>)
    requires names != [] && ValidNames(names)
    ensures StringToArray(Trim(Slashed(names))) == names
  {
    TrimJoin(names);
    SplitJoin(names);
    JoinEnds(names);
  }

  lemma PartsOfPath(names: seq<string>)
    requires ValidNames(names)
    ensures var parts := PathParts(Slashed(names));
            parts == if names != [] && "root" <= names[0] then names else ["root"] + names
  {
    hide Trim, Slashed, StringToArray;
    if names == [] {
      EmptyPath();
      RootPath();
      assert ["root"] + names == ["root"];
    } else {
      BeginsWithRoot(names);
      PartsFromRoot(names);
      PartsAsTheyAre(names);
    }
  }

  lemma EmptyPath()
    ensures Slashed([]) == ""
  {
  }

  lemma RootPath()
    ensures PathParts("") == ["root"]
  {
    assert Trim("") == "";
    var full := ROOT + "/" + "";
    assert full == "/root/";
    assert TrimLeft(full) == full[1..] == "root/";
    assert TrimRight("root/") == TrimRight("root/"[..4]);
    assert "root/"[..4] == "root";
    assert Trim(full) == "root";
    SplitJoin(["root"]);
    assert Join(["root"]) == "root";
  }

  /**
   Resolving the path of a row finds that row, the root included, if and only if it and every row above it are active
   and the name of its top folder does not begin with "root".
   */
  lemma PathRoundTrip(t: Table, user: int, root: Id, x: Id)
    requires OneTree(t, user, root) && Mine(t, user, x)
    ensures var parts, names := PathParts(FullPath(t, x)), Names(t, x);
            && parts != []
            && (!BelowLikeRoot(names) && ActiveUp(t, x) ==> Level(t, user, parts, |parts|) == {x})
            && (BelowLikeRoot(names) || !ActiveUp(t, x) ==> x !in Level(t, user, parts, |parts|))
  {
    assert Acyclic(t);
    hide OneTree, Names, FullPath, Slashed, Level, PathParts, Acyclic, ActiveUp, BelowLikeRoot;
    NamesInTree(t, user, root, x);
    PathIsNames(t, user, root, x);
    PartsBelowRoot(Names(t, x));
    var parts := PathParts(FullPath(t, x));
    if !BelowLikeRoot(Names(t, x)) {
      LevelIsRow(t, user, root, x);
    } else {
      assert parts[..|parts|] == parts;
      LevelIsNames(t, user, root, parts, |parts|, x);
    }
  }

  /** The name below the root begins with the root's. */
  predicate BelowLikeRoot(names: seq<string>) {
    |names| > 1 && "root" <= names[1]
  }

  lemma PartsBelowRoot(names: seq<string>)
    requires names != [] && names[0] == "root" && ValidNames(names)
    ensures PathParts(Slashed(names[1..])) == if BelowLikeRoot(names) then names[1..] else names
  {
    hide PathParts, Slashed;
    PartsOfPath(names[1..]);
    assert names == ["root"] + names[1..];
  }

  method ResolveFullPath(t: Table, user: int, root: Id, x: Id) returns (id: Option<Id>)
    requires OneTree(t, user, root) && Mine(t, user, x)
    ensures id == Some(x) <==>
              && (forall y :: y in t && Inside(t, {y}, x) ==> t[y].status.Active?)
              && (x == root || !("root" <= Names(t, x)[1]))
  {
    NamesInTree(t, user, root, x);
    var path := GetFullPath(t, x);
    PathRoundTrip(t, user, root, x);
    id := ResolvePathID(t, path, user);
  }
}
