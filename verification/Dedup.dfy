/** Linking duplicate files to one copy: `RunDedupForUser` of pkg/services/dedup_core.go. */
module Dedup {
  import opened Queries
  import opened Records
  import opened Streams

  datatype FileRow = FileRow(
    user: int, isFile: bool, active: bool, encrypted: Option<bool>, hash: Option<string>,
    channel: Option<int>, parts: seq<int>, referenced: Option<Id>)

  type Table = map<Id, FileRow>

  /** What the parts of a channel hold, and the hash of a content. Nothing is known about either. */
  datatype Store = Store(data: (Option<int>, seq<int>) -> seq<Byte>, treeHash: seq<Byte> -> string) {
    function Content(row: FileRow): seq<Byte> {
      data(row.channel, row.parts)
    }

    /** The hash a row goes by: the one it has or, if it has none, the one that is computed for it. */
    function Key(row: FileRow): string {
      if Hashed(row) then row.hash.value else treeHash(Content(row))
    }

    /** Equal hashes mean equal content, among the files of a user that take part. */
    ghost predicate HashesTell(t: Table, user: int) {
      forall x, y :: x in t && y in t && Eligible(t[x], user) && Eligible(t[y], user) && Key(t[x]) == Key(t[y])
                     ==> Content(t[x]) == Content(t[y])
    }
  }

  predicate Hashed(row: FileRow) {
    row.hash.Some? && row.hash.value != ""
  }

  predicate Eligible(row: FileRow, user: int) {
    row.user == user && row.isFile && row.active && row.encrypted == Some(false)
  }

  /** A row as it was read. */
  datatype Found = Found(id: Id, row: FileRow)

  // Grouping.

  function WithHash(files: seq<Found>, h: string): seq<Found> {
    if files == [] then []
    else
      var front := WithHash(files[..|files| - 1], h);
      if files[|files| - 1].row.hash == Some(h) then front + [files[|files| - 1]] else front
  }

  type Groups = map<string, seq<Found>>

  /** Every file that has a hash is in the group of that hash, in the order of the list. */
  ghost predicate Grouped(files: seq<Found>, groups: Groups) {
    && (forall h :: h in groups <==> h != "" && WithHash(files, h) != [])
    && (forall h :: h in groups ==> groups[h] == WithHash(files, h))
  }

  method GroupByHash(files: seq<Found>) returns (groups: Groups)
    ensures Grouped(files, groups)
  {
    groups := map[];
    for i := 0 to |files|
      invariant Grouped(files[..i], groups)
    {
      var f := files[i];
      assert files[..i + 1][..i] == files[..i];
      if Hashed(f.row) {
        var h := f.row.hash.value;
        groups := groups[h := (if h in groups then groups[h] else []) + [f]];
      }
    }
    assert files[..|files|] == files;
  }

  /** A group holds files of the list that have its hash, each once. */
  lemma {:induction false} GroupMembers(files: seq<Found>, h: string)
    ensures forall f :: f in WithHash(files, h) <==> f in files && f.row.hash == Some(h)
    ensures Distinct(files) ==> Distinct(WithHash(files, h))
  {
    if files != [] {
      var front := files[..|files| - 1];
      GroupMembers(front, h);
      assert files == front + [files[|files| - 1]];
    }
  }

  ghost predicate Distinct(files: seq<Found>) {
    forall i, j :: 0 <= i < j < |files| ==> files[i].id != files[j].id
  }

  // Counting.

  /** The links that the groups of some hashes call for. */
  ghost function Links(groups: Groups, keys: set<string>): int
    requires keys <= groups.Keys
  {
    if keys == {} then 0
    else
      var h :| h in keys;
      |groups[h]| - 1 + Links(groups, keys - {h})
  }

  lemma {:induction false} LinksWithout(groups: Groups, keys: set<string>, h: string)
    requires keys <= groups.Keys && h in keys
    ensures Links(groups, keys) == |groups[h]| - 1 + Links(groups, keys - {h})
    decreases keys
  {
    var first :| first in keys && Links(groups, keys) == |groups[first]| - 1 + Links(groups, keys - {first});
    if first != h {
      LinksWithout(groups, keys - {first}, h);
      LinksWithout(groups, keys - {h}, first);
      assert keys - {first} - {h} == keys - {h} - {first};
    }
  }

  /** Those of the hashes whose group has duplicates. */
  function WithDuplicates(groups: Groups, keys: set<string>): set<string> {
    set h | h in keys && h in groups && |groups[h]| > 1
  }

  lemma OneMore(groups: Groups, handled: set<string>, h: string)
    requires h in groups && h !in handled
    ensures |WithDuplicates(groups, handled + {h})|
            == |WithDuplicates(groups, handled)| + (if |groups[h]| > 1 then 1 else 0)
  {
    if |groups[h]| > 1 {
      assert WithDuplicates(groups, handled + {h}) == WithDuplicates(groups, handled) + {h};
    } else {
      assert WithDuplicates(groups, handled + {h}) == WithDuplicates(groups, handled);
    }
  }

  // Linking.

  function Linked(row: FileRow, canonical: Found): FileRow {
    row.(referenced := Some(canonical.id), parts := canonical.row.parts, channel := canonical.row.channel)
  }

  /** `x` is a duplicate in the group of its hash: not the first one. */
  ghost predicate IsDuplicate(groups: Groups, h: string, x: Id) {
    h in groups && exists i :: 1 <= i < |groups[h]| && groups[h][i].id == x
  }

  ghost predicate LinkedIn(groups: Groups, before: FileRow, x: Id, after: FileRow) {
    exists h :: IsDuplicate(groups, h, x) && after == Linked(before, groups[h][0])
  }

  /** Exactly the rows of `linked` are written: each is a duplicate, and is linked to the first file of its group. */
  ghost predicate Written(groups: Groups, before: Table, after: Table, linked: set<Id>) {
    && after.Keys == before.Keys && linked <= before.Keys
    && forall x :: x in before ==>
         if x in linked then LinkedIn(groups, before[x], x, after[x]) else after[x] == before[x]
  }

  /** What the lists were read from: every file of them is a row of the table that takes part, up to the hash. */
  ghost predicate ReadFrom(store: Store, t: Table, user: int, files: seq<Found>) {
    && Distinct(files)
    && forall f :: f in files ==>
         && f.id in t && Eligible(t[f.id], user)
         && f.row == t[f.id].(hash := f.row.hash) && f.row.hash == Some(store.Key(t[f.id]))
  }

  ghost function Ids(files: seq<Found>): set<Id> {
    set f | f in files :: f.id
  }

  /** The rows that take part and have a hash, or have none. */
  function Members(t: Table, user: int, hashed: bool): set<Id> {
    set x | x in t && Eligible(t[x], user) && Hashed(t[x]) == hashed
  }

  /** Linking leaves every file's content as it was and never makes a file its own reference. */
  lemma LinkingKeepsContent(store: Store, t: Table, user: int, files: seq<Found>, groups: Groups, after: Table,
                            linked: set<Id>, x: Id)
    requires ReadFrom(store, t, user, files) && Grouped(files, groups) && store.HashesTell(t, user)
    requires Written(groups, t, after, linked) && x in t
    ensures store.Content(after[x]) == store.Content(t[x])
    ensures after[x].referenced != t[x].referenced ==> after[x].referenced != Some(x)
    ensures after[x] == t[x].(referenced := after[x].referenced, parts := after[x].parts, channel := after[x].channel)
  {
    if x in linked {
      var h :| IsDuplicate(groups, h, x) && after[x] == Linked(t[x], groups[h][0]);
      GroupMembers(files, h);
      var i :| 1 <= i < |groups[h]| && groups[h][i].id == x;
      var canonical, dup := groups[h][0], groups[h][i];
      assert canonical in groups[h] && dup in groups[h];
      assert store.Key(t[canonical.id]) == h == store.Key(t[x]);
      assert store.Content(t[canonical.id]) == store.Content(t[x]);
    }
  }

  /** Every new reference leads to a row that takes part, has the same hash and keeps its own parts. */
  lemma ReferencesLeadToCanonical(store: Store, t: Table, user: int, files: seq<Found>, groups: Groups, after: Table,
                                  linked: set<Id>, x: Id)
    requires ReadFrom(store, t, user, files) && Grouped(files, groups) && Written(groups, t, after, linked)
    requires x in linked
    ensures after[x].referenced.Some? && after[x].referenced.value in t
    ensures var c := after[x].referenced.value;
            c != x && c !in linked && Eligible(t[c], user) && store.Key(t[c]) == store.Key(t[x])
  {
    var h :| IsDuplicate(groups, h, x) && after[x] == Linked(t[x], groups[h][0]);
    GroupMembers(files, h);
    var i :| 1 <= i < |groups[h]| && groups[h][i].id == x;
    var c := groups[h][0];
    assert c in groups[h] && groups[h][i] in groups[h];
    if c.id in linked {
      var h' :| IsDuplicate(groups, h', c.id) && after[c.id] == Linked(t[c.id], groups[h'][0]);
      FirstIsNoDuplicate(store, t, user, files, groups, h, h');
    }
  }

  lemma FirstIsNoDuplicate(store: Store, t: Table, user: int, files: seq<Found>, groups: Groups, h: string, h': string)
    requires ReadFrom(store, t, user, files) && Grouped(files, groups) && h in groups
    ensures !IsDuplicate(groups, h', groups[h][0].id)
  {
    GroupMembers(files, h);
    GroupMembers(files, h');
    var c := groups[h][0];
    assert c in groups[h];
    if h' in groups {
      forall i | 1 <= i < |groups[h']| ensures groups[h'][i].id != c.id {
        assert groups[h'][i] in groups[h'];
      }
    }
  }

  /** Exactly the rows of `newly`, which take part and had no hash, got the one they go by. */
  ghost predicate Hashings(store: Store, user: int, before: Table, after: Table, newly: set<Id>) {
    && after.Keys == before.Keys && newly <= Members(before, user, false)
    && forall x :: x in before ==>
         after[x] == if x in newly then before[x].(hash := Some(store.Key(before[x]))) else before[x]
  }

  /** Giving rows the hash they go by changes neither their content nor what they go by. */
  lemma HashingKeeps(store: Store, user: int, before: Table, after: Table, newly: set<Id>, x: Id)
    requires Hashings(store, user, before, after, newly) && x in before
    ensures store.Content(after[x]) == store.Content(before[x]) && store.Key(after[x]) == store.Key(before[x])
    ensures forall u :: Eligible(after[x], u) <==> Eligible(before[x], u)
  {
  }

  /** The list is of files that take part and have no hash, as they are in the table. */
  ghost predicate Unhashed(t: Table, user: int, files: seq<Found>) {
    Distinct(files) && forall f :: f in files ==> f.id in Members(t, user, false) && f.row == t[f.id]
  }

  /** Of the first `i` files of the list some have been hashed, and written unless the run is a dry one. */
  ghost predicate Backfilling(store: Store, user: int, start: Table, now: Table, dryRun: bool, files: seq<Found>,
                              backfilled: seq<Found>, i: nat)
  {
    && Hashings(store, user, start, now, if dryRun then {} else Ids(backfilled))
    && Ids(backfilled) <= Members(start, user, false) && ReadFrom(store, now, user, backfilled)
    && forall f :: f in backfilled ==> exists j :: 0 <= j < i && j < |files| && files[j].id == f.id
  }

  lemma BackfillNone(store: Store, user: int, t: Table, dryRun: bool, files: seq<Found>)
    ensures Backfilling(store, user, t, t, dryRun, files, [], 0) && Ids([]) == {}
  {
  }

  lemma BackfillSkips(store: Store, user: int, start: Table, now: Table, dryRun: bool, files: seq<Found>,
                      backfilled: seq<Found>, i: nat)
    requires Backfilling(store, user, start, now, dryRun, files, backfilled, i)
    ensures Backfilling(store, user, start, now, dryRun, files, backfilled, i + 1)
  {
  }

  lemma BackfillFacts(store: Store, user: int, start: Table, now: Table, dryRun: bool, files: seq<Found>,
                      backfilled: seq<Found>, i: nat)
    requires Backfilling(store, user, start, now, dryRun, files, backfilled, i)
    ensures Hashings(store, user, start, now, if dryRun then {} else Ids(backfilled))
    ensures Ids(backfilled) <= Members(start, user, false) && ReadFrom(store, now, user, backfilled)
  {
  }

  function HashedNow(store: Store, file: Found): Found {
    Found(file.id, file.row.(hash := Some(store.treeHash(store.Content(file.row)))))
  }

  /** One more file of the list is hashed. */
  lemma BackfillOne(store: Store, user: int, start: Table, now: Table, dryRun: bool, files: seq<Found>,
                    backfilled: seq<Found>, i: nat)
    requires Backfilling(store, user, start, now, dryRun, files, backfilled, i)
    requires Unhashed(start, user, files) && i < |files|
    ensures var id, found := files[i].id, HashedNow(store, files[i]);
            && id in now && now[id] == files[i].row
            && Backfilling(store, user, start, if dryRun then now else now[id := found.row], dryRun, files,
                           backfilled + [found], i + 1)
            && |Ids(backfilled + [found])| == |Ids(backfilled)| + 1
  {
    hide Hashings, ReadFrom, Members;
    var file := files[i];
    assert file in files;
    forall f | f in backfilled ensures f.id != file.id {
      var j :| 0 <= j < i && files[j].id == f.id;
    }
    OneMoreId(backfilled, HashedNow(store, file));
    HashOne(store, user, start, now, if dryRun then {} else Ids(backfilled), file);
    ReadOne(store, user, now, backfilled, file, dryRun);
  }

  lemma HashOne(store: Store, user: int, start: Table, now: Table, written: set<Id>, file: Found)
    requires Hashings(store, user, start, now, written)
    requires file.id in Members(start, user, false) && file.row == start[file.id] && file.id !in written
    ensures file.id in now && now[file.id] == file.row && Eligible(file.row, user) && !Hashed(file.row)
    ensures Hashings(store, user, start, now[file.id := HashedNow(store, file).row], written + {file.id})
  {
  }

  lemma ReadOne(store: Store, user: int, now: Table, backfilled: seq<Found>, file: Found, dryRun: bool)
    requires ReadFrom(store, now, user, backfilled) && forall f :: f in backfilled ==> f.id != file.id
    requires file.id in now && now[file.id] == file.row && Eligible(file.row, user) && !Hashed(file.row)
    ensures ReadFrom(store, if dryRun then now else now[file.id := HashedNow(store, file).row], user,
                     backfilled + [HashedNow(store, file)])
  {
  }

  /** Writing one more link. */
  lemma WriteLink(groups: Groups, h: string, start: Table, now: Table, linked: set<Id>, i: nat)
    requires Written(groups, start, now, linked) && h in groups && 1 <= i < |groups[h]|
    requires groups[h][i].id in start && groups[h][i].id !in linked
    ensures var id := groups[h][i].id;
            Written(groups, start, now[id := Linked(now[id], groups[h][0])], linked + {id})
  {
    var id := groups[h][i].id;
    assert IsDuplicate(groups, h, id);
    assert LinkedIn(groups, start[id], id, Linked(start[id], groups[h][0]));
  }

  lemma OneMoreId(files: seq<Found>, f: Found)
    ensures Ids(files + [f]) == Ids(files) + {f.id}
  {
    assert forall g :: g in files + [f] <==> g in files || g == f;
  }

  lemma NothingWritten(store: Store, user: int, groups: Groups, before: Table, hashed: Table, after: Table)
    requires Hashings(store, user, before, hashed, {}) && Written(groups, hashed, after, {})
    ensures after == before
  {
    assert hashed == before && after == hashed;
  }

  lemma KeysKept(store: Store, user: int, groups: Groups, before: Table, hashed: Table, newly: set<Id>, after: Table,
                 linked: set<Id>)
    requires Hashings(store, user, before, hashed, newly) && Written(groups, hashed, after, linked)
    ensures after.Keys == before.Keys
  {
  }

  lemma GroupsFilled(files: seq<Found>, groups: Groups)
    requires Grouped(files, groups)
    ensures forall h :: h in groups ==> groups[h] != []
  {
  }

  /** A row is a duplicate in one group at most. */
  lemma OneGroup(store: Store, t: Table, user: int, files: seq<Found>, groups: Groups, h: string, h': string, x: Id)
    requires ReadFrom(store, t, user, files) && Grouped(files, groups)
    requires IsDuplicate(groups, h, x) && IsDuplicate(groups, h', x)
    ensures h == h'
  {
    GroupMembers(files, h);
    GroupMembers(files, h');
    var i :| 1 <= i < |groups[h]| && groups[h][i].id == x;
    var j :| 1 <= j < |groups[h']| && groups[h'][j].id == x;
    assert groups[h][i] in groups[h] && groups[h'][j] in groups[h'];
  }

  /**
   What has been done about duplicates: these were linked (or, in a dry run, counted as such), those were given up.
   */
  datatype Tally = Tally(linked: set<Id>, skipped: set<Id>)

  /** Exactly the duplicates of the groups of `keys`, and the first `i` members of group `h`, have been dealt with. */
  ghost predicate Dealt(groups: Groups, keys: set<string>, h: string, i: nat, dealt: set<Id>) {
    forall x :: x in dealt <==> (exists k :: k in keys && IsDuplicate(groups, k, x)) || InFront(groups, h, i, x)
  }

  ghost predicate InFront(groups: Groups, h: string, i: nat, x: Id) {
    h in groups && exists j :: 1 <= j < i && j < |groups[h]| && groups[h][j].id == x
  }

  lemma DealtFirst(groups: Groups, keys: set<string>, h: string, h': string, dealt: set<Id>)
    requires Dealt(groups, keys, h, 1, dealt)
    ensures Dealt(groups, keys, h', 1, dealt)
  {
  }

  /** The next member has not been dealt with, in this group or another. */
  lemma DealtNext(store: Store, t: Table, user: int, files: seq<Found>, groups: Groups, keys: set<string>, h: string,
                  i: nat, dealt: set<Id>)
    requires ReadFrom(store, t, user, files) && Grouped(files, groups)
    requires h in groups && h !in keys && 1 <= i < |groups[h]| && Dealt(groups, keys, h, i, dealt)
    ensures var id := groups[h][i].id; id in t && id !in dealt && Dealt(groups, keys, h, i + 1, dealt + {id})
  {
    var id := groups[h][i].id;
    GroupMembers(files, h);
    assert groups[h][i] in groups[h];
    assert IsDuplicate(groups, h, id);
    forall k | k in keys ensures !IsDuplicate(groups, k, id) {
      if IsDuplicate(groups, k, id) {
        OneGroup(store, t, user, files, groups, h, k, id);
      }
    }
    forall x ensures InFront(groups, h, i + 1, x) <==> InFront(groups, h, i, x) || x == id {
    }
  }

  lemma DealtAll(groups: Groups, keys: set<string>, h: string, dealt: set<Id>)
    requires h in groups && groups[h] != [] && Dealt(groups, keys, h, |groups[h]|, dealt)
    ensures Dealt(groups, keys + {h}, h, 1, dealt)
  {
    forall x ensures InFront(groups, h, |groups[h]|, x) <==> IsDuplicate(groups, h, x) {
    }
  }

  /** Where a run stands. */
  ghost predicate Underway(groups: Groups, start: Table, now: Table, dryRun: bool, tally: Tally) {
    && Written(groups, start, now, if dryRun then {} else tally.linked)
    && tally.linked !! tally.skipped && (dryRun ==> tally.skipped == {})
  }

  lemma LinkDone(groups: Groups, h: string, start: Table, now: Table, dryRun: bool, tally: Tally, i: nat)
    requires Underway(groups, start, now, dryRun, tally) && h in groups && 1 <= i < |groups[h]|
    requires groups[h][i].id in start && groups[h][i].id !in tally.linked + tally.skipped
    ensures var id := groups[h][i].id;
            && id in now
            && Underway(groups, start, if dryRun then now else now[id := Linked(now[id], groups[h][0])], dryRun,
                        tally.(linked := tally.linked + {id}))
            && |tally.linked + {id}| == |tally.linked| + 1
            && tally.linked + {id} + tally.skipped == tally.linked + tally.skipped + {id}
  {
    if !dryRun {
      WriteLink(groups, h, start, now, tally.linked, i);
    }
  }

  lemma LinkGivenUp(groups: Groups, start: Table, now: Table, tally: Tally, id: Id)
    requires Underway(groups, start, now, false, tally) && id !in tally.linked + tally.skipped
    ensures Underway(groups, start, now, false, tally.(skipped := tally.skipped + {id}))
    ensures |tally.skipped + {id}| == |tally.skipped| + 1
    ensures tally.linked + (tally.skipped + {id}) == tally.linked + tally.skipped + {id}
  {
  }

  lemma NothingYet(groups: Groups, start: Table, dryRun: bool)
    ensures Underway(groups, start, start, dryRun, Tally({}, {})) && Dealt(groups, {}, "", 1, {})
    ensures WithDuplicates(groups, {}) == {} && Links(groups, {}) == 0
  {
  }

  /** The duplicates of all the groups. */
  ghost function Duplicates(groups: Groups): set<Id> {
    set h, i | h in groups && 1 <= i < |groups[h]| :: groups[h][i].id
  }

  lemma DealtIsAll(groups: Groups, dealt: set<Id>)
    requires Dealt(groups, groups.Keys, "", 1, dealt)
    ensures dealt == Duplicates(groups)
  {
  }

  lemma DealtWithin(groups: Groups, keys: set<string>, h: string, dealt: set<Id>)
    requires exists i :: Dealt(groups, keys, h, i, dealt)
    ensures dealt <= Duplicates(groups)
  {
  }

  lemma GroupReady(store: Store, t: Table, user: int, files: seq<Found>, groups: Groups, h: string)
    requires ReadFrom(store, t, user, files) && Grouped(files, groups) && h in groups
    ensures groups[h] != [] && Distinct(groups[h]) && forall f :: f in groups[h] ==> f.id in t
  {
    GroupMembers(files, h);
  }

  /** The hashed files that were read first and those that have just been hashed, together. */
  lemma ReadBoth(store: Store, user: int, before: Table, now: Table, written: set<Id>, loaded: seq<Found>,
                 backfilled: seq<Found>)
    requires Hashings(store, user, before, now, written) && Distinct(loaded) && ReadFrom(store, now, user, backfilled)
    requires forall f :: f in loaded ==>
               f.id in before && f.row == before[f.id] && Eligible(f.row, user) && Hashed(f.row)
    requires Ids(backfilled) <= Members(before, user, false)
    ensures ReadFrom(store, now, user, loaded + backfilled)
    ensures Ids(loaded + backfilled) == Ids(loaded) + Ids(backfilled)
  {
    var files := loaded + backfilled;
    forall i, j | 0 <= i < j < |files| ensures files[i].id != files[j].id {
      if i < |loaded| <= j {
        assert files[i] in loaded && files[j] in backfilled;
        assert files[j].id in Ids(backfilled);
      }
    }
    forall f | f in files
      ensures f.id in now && Eligible(now[f.id], user)
              && f.row == now[f.id].(hash := f.row.hash) && f.row.hash == Some(store.Key(now[f.id]))
    {
      if f in loaded {
        HashingKeeps(store, user, before, now, written, f.id);
      }
    }
  }

  /** The hypothesis on hashes outlives the backfill. */
  lemma HashesStillTell(store: Store, user: int, before: Table, now: Table, newly: set<Id>)
    requires Hashings(store, user, before, now, newly) && store.HashesTell(before, user)
    ensures store.HashesTell(now, user)
  {
    forall x, y | x in now && y in now && Eligible(now[x], user) && Eligible(now[y], user)
                  && store.Key(now[x]) == store.Key(now[y])
      ensures store.Content(now[x]) == store.Content(now[y])
    {
      HashingKeeps(store, user, before, now, newly, x);
      HashingKeeps(store, user, before, now, newly, y);
    }
  }

  /** What the hypothesis on hashes says of the rows. */
  lemma HashesTellIs(store: Store, t: Table, user: int)
    ensures store.HashesTell(t, user) <==>
              forall x, y :: x in t && y in t
                && t[x].user == user && t[x].isFile && t[x].active && t[x].encrypted == Some(false)
                && t[y].user == user && t[y].isFile && t[y].active && t[y].encrypted == Some(false)
                && (if t[x].hash.Some? && t[x].hash.value != "" then t[x].hash.value
                    else store.treeHash(store.data(t[x].channel, t[x].parts)))
                   == (if t[y].hash.Some? && t[y].hash.value != "" then t[y].hash.value
                       else store.treeHash(store.data(t[y].channel, t[y].parts)))
                ==> store.data(t[x].channel, t[x].parts) == store.data(t[y].channel, t[y].parts)
  {
  }

  /** Only active unencrypted files of the user are written, and no row is but those that are hashed or linked. */
  lemma OnlyOwnFiles(store: Store, user: int, before: Table, hashed: Table, newly: set<Id>, files: seq<Found>,
                     groups: Groups, after: Table, linked: set<Id>, x: Id)
    requires Hashings(store, user, before, hashed, newly) && ReadFrom(store, hashed, user, files)
    requires Grouped(files, groups) && Written(groups, hashed, after, linked) && x in before
    ensures x in after && x in hashed
    ensures after[x] != before[x] ==>
      before[x].user == user && before[x].isFile && before[x].active && before[x].encrypted == Some(false)
    ensures x !in linked ==> after[x] == hashed[x]
    ensures x in linked ==>
      exists c :: c in before && c != x && c !in linked
        && before[c].user == user && before[c].isFile && before[c].active && before[c].encrypted == Some(false)
        && after[x] == hashed[x].(referenced := Some(c), parts := before[c].parts, channel := before[c].channel)
  {
    if x in linked {
      var h :| IsDuplicate(groups, h, x) && after[x] == Linked(hashed[x], groups[h][0]);
      GroupMembers(files, h);
      var i :| 1 <= i < |groups[h]| && groups[h][i].id == x;
      var c := groups[h][0];
      assert c in groups[h] && groups[h][i] in groups[h];
      ReferencesLeadToCanonical(store, hashed, user, files, groups, after, linked, x);
      assert c.id in before && after[x].referenced == Some(c.id);
    }
  }

  lemma RowOfRun(store: Store, user: int, before: Table, hashed: Table, newly: set<Id>, files: seq<Found>,
                 groups: Groups, after: Table, linked: set<Id>, x: Id)
    requires Hashings(store, user, before, hashed, newly) && ReadFrom(store, hashed, user, files)
    requires Grouped(files, groups) && Written(groups, hashed, after, linked) && x in before
    ensures x in after && x in hashed
    ensures after[x] != before[x] ==>
      before[x].user == user && before[x].isFile && before[x].active && before[x].encrypted == Some(false)
    ensures x !in linked ==> after[x] == hashed[x]
    ensures x in linked ==>
      exists c :: c in before && c in after && c != x && c !in linked
        && before[c].user == user && before[c].isFile && before[c].active && before[c].encrypted == Some(false)
        && after[x].referenced == Some(c) && after[x].parts == after[c].parts && after[x].channel == after[c].channel
  {
    OnlyOwnFiles(store, user, before, hashed, newly, files, groups, after, linked, x);
    if x in linked {
      var c :| c in before && c != x && c !in linked
               && before[c].user == user && before[c].isFile && before[c].active && before[c].encrypted == Some(false)
               && after[x] == hashed[x].(referenced := Some(c), parts := before[c].parts, channel := before[c].channel);
      OnlyOwnFiles(store, user, before, hashed, newly, files, groups, after, linked, c);
      HashingKeepsParts(store, user, before, hashed, newly, c);
      assert after[x].referenced == Some(c);
    }
  }

  lemma HashingKeepsParts(store: Store, user: int, before: Table, hashed: Table, newly: set<Id>, x: Id)
    requires Hashings(store, user, before, hashed, newly) && x in before
    ensures hashed[x].parts == before[x].parts && hashed[x].channel == before[x].channel
  {
  }

  /** Of two listed files with the same hash at least one is a duplicate. */
  lemma OneOfTwo(files: seq<Found>, groups: Groups, f: Found, g: Found)
    requires Grouped(files, groups) && Distinct(files) && f in files && g in files && f.id != g.id
    requires f.row.hash == g.row.hash && f.row.hash.Some? && f.row.hash.value != ""
    ensures f.id in Duplicates(groups) || g.id in Duplicates(groups)
  {
    var h := f.row.hash.value;
    GroupMembers(files, h);
    assert f in WithHash(files, h) && g in WithHash(files, h);
    var i :| 0 <= i < |groups[h]| && groups[h][i] == f;
    var j :| 0 <= j < |groups[h]| && groups[h][j] == g;
    assert i > 0 ==> groups[h][i].id in Duplicates(groups);
    assert j > 0 ==> groups[h][j].id in Duplicates(groups);
  }

  /** Of two files of the user with the same hash at least one is a duplicate. */
  lemma SameHashSameGroup(store: Store, user: int, before: Table, hashed: Table, newly: set<Id>, files: seq<Found>,
                          groups: Groups, x: Id, y: Id)
    requires Hashings(store, user, before, hashed, newly) && ReadFrom(store, hashed, user, files)
    requires Members(before, user, true) <= Ids(files) && Grouped(files, groups)
    requires x in Members(before, user, true) && y in Members(before, user, true) && x != y
    requires before[x].hash == before[y].hash
    ensures x in Duplicates(groups) || y in Duplicates(groups)
  {
    HashingKeeps(store, user, before, hashed, newly, x);
    HashingKeeps(store, user, before, hashed, newly, y);
    assert x in Ids(files) && y in Ids(files);
    var f :| f in files && f.id == x;
    var g :| g in files && g.id == y;
    OneOfTwo(files, groups, f, g);
  }

  lemma MembersAre(t: Table, user: int, hashed: bool)
    ensures forall x :: x in Members(t, user, hashed) <==>
              && x in t && t[x].user == user && t[x].isFile && t[x].active && t[x].encrypted == Some(false)
              && (hashed <==> t[x].hash.Some? && t[x].hash.value != "")
  {
  }

  lemma HashedRow(store: Store, user: int, before: Table, hashed: Table, newly: set<Id>, x: Id)
    requires Hashings(store, user, before, hashed, newly) && x in before
    ensures x in hashed && (x !in newly ==> hashed[x] == before[x])
    ensures x in newly ==>
      hashed[x] == before[x].(hash := Some(store.treeHash(store.data(before[x].channel, before[x].parts))))
  {
  }

  /** A whole run, seen at one row: backfill first, then the links. */
  lemma RunKeepsContent(store: Store, user: int, before: Table, hashed: Table, newly: set<Id>, files: seq<Found>,
                        groups: Groups, after: Table, linked: set<Id>, x: Id)
    requires Hashings(store, user, before, hashed, newly) && store.HashesTell(before, user)
    requires ReadFrom(store, hashed, user, files) && Grouped(files, groups) && Written(groups, hashed, after, linked)
    requires x in before
    ensures after.Keys == before.Keys && store.Content(after[x]) == store.Content(before[x])
    ensures after[x].referenced != before[x].referenced ==> after[x].referenced != Some(x)
  {
    HashesStillTell(store, user, before, hashed, newly);
    HashingKeeps(store, user, before, hashed, newly, x);
    LinkingKeepsContent(store, hashed, user, files, groups, after, linked, x);
  }

  /** A run in the terms of the rows. */
  lemma RunInRows(store: Store, user: int, before: Table, hashed: Table, newly: set<Id>, dryRun: bool,
                  files: seq<Found>, groups: Groups, after: Table, tally: Tally)
    requires Hashings(store, user, before, hashed, if dryRun then {} else newly) && ReadFrom(store, hashed, user, files)
    requires newly <= Members(before, user, false) && Grouped(files, groups)
    requires Written(groups, hashed, after, if dryRun then {} else tally.linked) && (dryRun ==> after == before)
    requires after.Keys == before.Keys
    ensures forall x :: x in after && after[x] != before[x] ==>
              var row := before[x];
              row.user == user && row.isFile && row.active && row.encrypted == Some(false)
    ensures forall x :: x in newly ==> x in before && !(before[x].hash.Some? && before[x].hash.value != "")
    ensures forall x :: x in after && x !in tally.linked ==>
              after[x] == if x in newly && !dryRun then
                            var row := before[x];
                            row.(hash := Some(store.treeHash(store.data(row.channel, row.parts))))
                          else before[x]
    ensures !dryRun ==>
      forall x :: x in tally.linked ==>
        exists c :: c in before && c in after && x in after && c != x && c !in tally.linked
          && before[c].user == user && before[c].isFile && before[c].active && before[c].encrypted == Some(false)
          && after[x].referenced == Some(c) && after[x].parts == after[c].parts && after[x].channel == after[c].channel
  {
    var written, linked := if dryRun then {} else newly, if dryRun then {} else tally.linked;
    MembersAre(before, user, false);
    hide Hashings, ReadFrom, Members, Grouped, Written;
    forall x | x in after
      ensures after[x] != before[x] ==>
                before[x].user == user && before[x].isFile && before[x].active && before[x].encrypted == Some(false)
      ensures x !in tally.linked ==>
                after[x] == if x in newly && !dryRun then
                              var row := before[x];
                              row.(hash := Some(store.treeHash(store.data(row.channel, row.parts))))
                            else before[x]
    {
      RowOfRun(store, user, before, hashed, written, files, groups, after, linked, x);
      HashedRow(store, user, before, hashed, written, x);
    }
    if !dryRun {
      forall x | x in tally.linked
        ensures exists c :: c in before && c in after && x in after && c != x && c !in tally.linked
                  && before[c].user == user && before[c].isFile && before[c].active
                  && before[c].encrypted == Some(false) && after[x].referenced == Some(c)
                  && after[x].parts == after[c].parts && after[x].channel == after[c].channel
      {
        LinkedIsRow(groups, hashed, after, linked, x);
        HashingsKeys(store, user, before, hashed, written);
        RowOfRun(store, user, before, hashed, written, files, groups, after, linked, x);
      }
    }
  }

  lemma LinkedIsRow(groups: Groups, hashed: Table, after: Table, linked: set<Id>, x: Id)
    requires Written(groups, hashed, after, linked) && x in linked
    ensures x in hashed && x in after
  {
  }

  lemma HashingsKeys(store: Store, user: int, before: Table, hashed: Table, newly: set<Id>)
    requires Hashings(store, user, before, hashed, newly)
    ensures hashed.Keys == before.Keys
  {
  }

  lemma CompletedInRows(store: Store, user: int, before: Table, hashed: Table, newly: set<Id>, dryRun: bool,
                        files: seq<Found>, groups: Groups)
    requires Hashings(store, user, before, hashed, if dryRun then {} else newly) && ReadFrom(store, hashed, user, files)
    requires Members(before, user, true) + newly == Ids(files) && Grouped(files, groups)
    ensures forall x, y :: x in before && y in before && x != y
              && before[x].user == before[y].user == user && before[x].isFile && before[y].isFile
              && before[x].active && before[y].active
              && before[x].encrypted == before[y].encrypted == Some(false)
              && before[x].hash == before[y].hash && before[x].hash.Some? && before[x].hash.value != ""
              ==> x in Duplicates(groups) || y in Duplicates(groups)
  {
    MembersAre(before, user, true);
    hide Hashings, ReadFrom, Members, Grouped, Duplicates, Ids;
    forall x, y | x in before && y in before && x != y
                  && before[x].user == before[y].user == user && before[x].isFile && before[y].isFile
                  && before[x].active && before[y].active
                  && before[x].encrypted == before[y].encrypted == Some(false)
                  && before[x].hash == before[y].hash && before[x].hash.Some? && before[x].hash.value != ""
      ensures x in Duplicates(groups) || y in Duplicates(groups)
    {
      SameHashSameGroup(store, user, before, hashed, if dryRun then {} else newly, files, groups, x, y);
    }
  }

  datatype Result = Completed | Fatal

  /** How a write ends: done, given up on a lock that would not go away, or failed for another reason. */
  datatype Write = Done | Locked | Failed

  class Deduplicator {
    const store: Store
    var rows: Table
    var duplicateGroups: nat
    var totalFilesLinked: nat
    var skippedFiles: nat
    var hashesBackfilled: nat

    constructor (store: Store, rows: Table)
      ensures this.store == store && this.rows == rows
      ensures duplicateGroups == totalFilesLinked == skippedFiles == hashesBackfilled == 0
    {
      this.store, this.rows := store, rows;
      duplicateGroups, totalFilesLinked, skippedFiles, hashesBackfilled := 0, 0, 0, 0;
    }

    method Load(user: int, hashed: bool) returns (files: seq<Found>)
      ensures Distinct(files) && |files| == |Members(rows, user, hashed)| && Ids(files) == Members(rows, user, hashed)
      ensures forall f :: f in files <==>
                f.id in rows && f.row == rows[f.id] && Eligible(f.row, user) && Hashed(f.row) == hashed
      ensures forall f :: f in files ==>
                && f.row.user == user && f.row.isFile && f.row.active && f.row.encrypted == Some(false)
                && (hashed <==> f.row.hash.Some? && f.row.hash.value != "")
    {
      var ids := Rows(Members(rows, user, hashed));
      files := [];
      for i := 0 to |ids|
        invariant |files| == i && forall j :: 0 <= j < i ==> ids[j] in rows && files[j] == Found(ids[j], rows[ids[j]])
      {
        assert ids[i] in ids;
        files := files + [Found(ids[i], rows[ids[i]])];
      }
      forall f | f in files
        ensures f.id in rows && f.row == rows[f.id] && Eligible(f.row, user) && Hashed(f.row) == hashed
      {
        var i :| 0 <= i < |files| && files[i] == f;
        assert ids[i] in ids;
      }
      forall f: Found | f.id in rows && f.row == rows[f.id] && Eligible(f.row, user) && Hashed(f.row) == hashed
        ensures f in files
      {
        assert f.id in ids;
        var i :| 0 <= i < |ids| && ids[i] == f.id;
        assert files[i] == f;
      }
    }

    /** Hashes the files that have no hash; one that cannot be hashed or written is skipped. */
    method BackfillUserHashes(user: int, dryRun: bool) returns (backfilled: seq<Found>)
      modifies this`rows, this`skippedFiles, this`hashesBackfilled
      ensures Hashings(store, user, old(rows), rows, if dryRun then {} else Ids(backfilled))
      ensures Ids(backfilled) <= Members(old(rows), user, false) && ReadFrom(store, rows, user, backfilled)
      ensures hashesBackfilled - old(hashesBackfilled) == |Ids(backfilled)|
      ensures |Ids(backfilled)| + (skippedFiles - old(skippedFiles)) == |Members(old(rows), user, false)|
    {
      hide Backfilling, Unhashed, Ids, Members;
      var files := LoadUnhashed(user);
      ghost var start := rows;
      backfilled := [];
      BackfillNone(store, user, rows, dryRun, files);
      for i := 0 to |files|
        invariant Backfilling(store, user, start, rows, dryRun, files, backfilled, i)
        invariant hashesBackfilled - old(hashesBackfilled) == |Ids(backfilled)|
        invariant |Ids(backfilled)| + (skippedFiles - old(skippedFiles)) == i
      {
        BackfillSkips(store, user, start, rows, dryRun, files, backfilled, i);
        BackfillOne(store, user, start, rows, dryRun, files, backfilled, i);
        var file := files[i];
        var hashFails := *;
        if hashFails {
          skippedFiles := skippedFiles + 1;
          continue;
        }
        var newHash := store.treeHash(store.Content(file.row));
        if !dryRun {
          var write: Write := *;
          if write != Done {
            skippedFiles := skippedFiles + 1;
            continue;
          }
          rows := rows[file.id := rows[file.id].(hash := Some(newHash))];
        }
        hashesBackfilled := hashesBackfilled + 1;
        backfilled := backfilled + [Found(file.id, file.row.(hash := Some(newHash)))];
      }
      BackfillFacts(store, user, start, rows, dryRun, files, backfilled, |files|);
    }

    method LoadUnhashed(user: int) returns (files: seq<Found>)
      ensures Unhashed(rows, user, files) && |files| == |Members(rows, user, false)|
    {
      files := Load(user, false);
    }

    /** The number of links there are to make, counted before any is made. */
    method CountLinks(groups: Groups) returns (total: int)
      requires forall h :: h in groups ==> groups[h] != []
      ensures total == Links(groups, groups.Keys)
    {
      total := 0;
      var rest := groups.Keys;
      while rest != {}
        invariant rest <= groups.Keys && total + Links(groups, rest) == Links(groups, groups.Keys)
        decreases rest
      {
        var h :| h in rest;
        LinksWithout(groups, rest, h);
        if |groups[h]| > 1 {
          total := total + |groups[h]| - 1;
        }
        rest := rest - {h};
      }
    }

    /** Links the duplicates of one group; `progress` counts those that are dealt with. */
    method LinkGroup(h: string, groups: Groups, dryRun: bool, done: nat, user: int, ghost files: seq<Found>,
                     ghost start: Table, ghost keys: set<string>, ghost before: Tally)
      returns (err: Result, progress: nat, ghost tally: Tally)
      requires ReadFrom(store, start, user, files) && Grouped(files, groups)
      requires h in groups && h !in keys && |groups[h]| > 1
      requires Dealt(groups, keys, h, 1, before.linked + before.skipped) && done == |before.linked| + |before.skipped|
      requires Underway(groups, start, rows, dryRun, before)
      modifies this`rows, this`totalFilesLinked, this`skippedFiles
      ensures Underway(groups, start, rows, dryRun, tally)
      ensures totalFilesLinked - old(totalFilesLinked) == |tally.linked| - |before.linked|
      ensures skippedFiles - old(skippedFiles) == |tally.skipped| - |before.skipped|
      ensures progress == |tally.linked| + |tally.skipped| && (dryRun ==> err == Completed)
      ensures err == Completed ==>
        Dealt(groups, keys + {h}, h, 1, tally.linked + tally.skipped) && progress == done + |groups[h]| - 1
      ensures exists i :: 1 <= i <= |groups[h]| && Dealt(groups, keys, h, i, tally.linked + tally.skipped)
    {
      hide Dealt, Underway, ReadFrom, Grouped, Linked;
      err, progress, tally := Completed, done, before;
      var group := groups[h];
      var canonical := group[0];
      for i := 1 to |group|
        invariant Underway(groups, start, rows, dryRun, tally)
        invariant totalFilesLinked - old(totalFilesLinked) == |tally.linked| - |before.linked|
        invariant skippedFiles - old(skippedFiles) == |tally.skipped| - |before.skipped|
        invariant Dealt(groups, keys, h, i, tally.linked + tally.skipped)
        invariant progress == |tally.linked| + |tally.skipped| == done + i - 1
      {
        var dup := group[i];
        DealtNext(store, start, user, files, groups, keys, h, i, tally.linked + tally.skipped);
        LinkDone(groups, h, start, rows, dryRun, tally, i);
        if !dryRun {
          var write: Write := *;
          match write {
            case Done =>
              rows := rows[dup.id := Linked(rows[dup.id], canonical)];
            case Locked =>
              LinkGivenUp(groups, start, rows, tally, dup.id);
              skippedFiles, progress := skippedFiles + 1, progress + 1;
              tally := tally.(skipped := tally.skipped + {dup.id});
              continue;
            case Failed =>
              return Fatal, progress, tally;
          }
        }
        totalFilesLinked, progress := totalFilesLinked + 1, progress + 1;
        tally := tally.(linked := tally.linked + {dup.id});
      }
      DealtAll(groups, keys, h, tally.linked + tally.skipped);
    }

    /** Links the duplicates of every group, in any order of the groups. */
    method LinkAll(user: int, groups: Groups, dryRun: bool, ghost files: seq<Found>)
      returns (err: Result, progress: nat, ghost tally: Tally)
      requires ReadFrom(store, rows, user, files) && Grouped(files, groups)
      modifies this`rows, this`totalFilesLinked, this`skippedFiles, this`duplicateGroups
      ensures Underway(groups, old(rows), rows, dryRun, tally)
      ensures totalFilesLinked == old(totalFilesLinked) + |tally.linked|
      ensures skippedFiles == old(skippedFiles) + |tally.skipped|
      ensures progress == |tally.linked| + |tally.skipped| && (dryRun ==> err == Completed)
      ensures forall x :: x in tally.linked + tally.skipped ==> x in Duplicates(groups)
      ensures err == Completed ==>
        && progress == Links(groups, groups.Keys) && tally.linked + tally.skipped == Duplicates(groups)
        && duplicateGroups == old(duplicateGroups) + |WithDuplicates(groups, groups.Keys)|
    {
      hide ReadFrom, Grouped, Dealt, Underway, WithDuplicates, Duplicates, Links;
      ghost var start := rows;
      NothingYet(groups, start, dryRun);
      err, progress, tally := Completed, 0, Tally({}, {});
      var rest := groups.Keys;
      ghost var handled: set<string> := {};
      while rest != {}
        invariant err == Completed && rest <= groups.Keys && handled == groups.Keys - rest
        invariant Underway(groups, start, rows, dryRun, tally)
        invariant totalFilesLinked == old(totalFilesLinked) + |tally.linked|
        invariant skippedFiles == old(skippedFiles) + |tally.skipped|
        invariant Dealt(groups, handled, "", 1, tally.linked + tally.skipped)
        invariant progress == |tally.linked| + |tally.skipped|
        invariant progress + Links(groups, rest) == Links(groups, groups.Keys)
        invariant duplicateGroups == old(duplicateGroups) + |WithDuplicates(groups, handled)|
        decreases rest
      {
        var h :| h in rest;
        LinksWithout(groups, rest, h);
        OneMore(groups, handled, h);
        err, progress, tally := HandleGroup(user, h, groups, dryRun, progress, files, start, handled, tally);
        if err != Completed {
          return;
        }
        rest, handled := rest - {h}, handled + {h};
      }
      assert handled == groups.Keys;
      DealtIsAll(groups, tally.linked + tally.skipped);
    }

    /** One turn of the loop over the groups. */
    method HandleGroup(user: int, h: string, groups: Groups, dryRun: bool, done: nat, ghost files: seq<Found>,
                       ghost start: Table, ghost keys: set<string>, ghost before: Tally)
      returns (err: Result, progress: nat, ghost tally: Tally)
      requires ReadFrom(store, start, user, files) && Grouped(files, groups) && h in groups && h !in keys
      requires Dealt(groups, keys, "", 1, before.linked + before.skipped) && done == |before.linked| + |before.skipped|
      requires Underway(groups, start, rows, dryRun, before)
      modifies this`rows, this`totalFilesLinked, this`skippedFiles, this`duplicateGroups
      ensures Underway(groups, start, rows, dryRun, tally)
      ensures totalFilesLinked - old(totalFilesLinked) == |tally.linked| - |before.linked|
      ensures skippedFiles - old(skippedFiles) == |tally.skipped| - |before.skipped|
      ensures progress == |tally.linked| + |tally.skipped| && (dryRun ==> err == Completed)
      ensures forall x :: x in tally.linked + tally.skipped ==> x in Duplicates(groups)
      ensures err == Completed ==>
        && Dealt(groups, keys + {h}, "", 1, tally.linked + tally.skipped) && progress == done + |groups[h]| - 1
        && duplicateGroups == old(duplicateGroups) + (if |groups[h]| > 1 then 1 else 0)
    {
      hide ReadFrom, Grouped, Dealt, Underway, Duplicates;
      err, progress, tally := Completed, done, before;
      GroupReady(store, start, user, files, groups, h);
      DealtFirst(groups, keys, "", h, before.linked + before.skipped);
      if |groups[h]| > 1 {
        duplicateGroups := duplicateGroups + 1;
        err, progress, tally := LinkGroup(h, groups, dryRun, done, user, files, start, keys, before);
      } else {
        DealtAll(groups, keys, h, before.linked + before.skipped);
      }
      DealtWithin(groups, keys, h, tally.linked + tally.skipped);
      if err == Completed {
        DealtFirst(groups, keys + {h}, h, "", tally.linked + tally.skipped);
      }
    }

    /**
     A whole run. Whatever the order of the groups and whichever writes are given up, and even if the run is broken
     off, every file keeps its content and none becomes its own reference, and the counters say exactly what was
     written: `newly` are the files that were hashed, `tally` says which duplicates were linked and which were given up.
     A run that completes has dealt with all of them. A dry run counts without writing.
     */
    method RunDedupForUser(user: int, dryRun: bool, backfill: bool)
      returns (err: Result, progress: nat, total: int, ghost files: seq<Found>, ghost groups: Groups,
               ghost hashed: Table, ghost newly: set<Id>, ghost tally: Tally)
      requires store.HashesTell(rows, user)
      modifies this`rows, this`totalFilesLinked, this`skippedFiles, this`duplicateGroups, this`hashesBackfilled
      ensures rows.Keys == old(rows).Keys
      ensures forall x :: x in rows ==> store.Content(rows[x]) == store.Content(old(rows)[x])
      ensures forall x :: x in rows && rows[x].referenced != old(rows)[x].referenced ==> rows[x].referenced != Some(x)
      ensures dryRun ==> rows == old(rows)
      ensures newly <= Members(old(rows), user, false) && (!backfill ==> newly == {})
      ensures Hashings(store, user, old(rows), hashed, if dryRun then {} else newly)
      ensures hashesBackfilled == old(hashesBackfilled) + |newly|
      ensures ReadFrom(store, hashed, user, files) && Ids(files) == Members(old(rows), user, true) + newly
      ensures Grouped(files, groups) && Written(groups, hashed, rows, if dryRun then {} else tally.linked)
      ensures tally.linked !! tally.skipped && tally.linked + tally.skipped <= Duplicates(groups)
      ensures totalFilesLinked == old(totalFilesLinked) + |tally.linked|
      ensures skippedFiles == old(skippedFiles) + |tally.skipped|
                              + (if backfill then |Members(old(rows), user, false)| - |newly| else 0)
      ensures progress == |tally.linked| + |tally.skipped| && (dryRun ==> err == Completed && tally.skipped == {})
      ensures total == Links(groups, groups.Keys)
      ensures err == Completed ==>
        && tally.linked + tally.skipped == Duplicates(groups) && progress == total
        && duplicateGroups == old(duplicateGroups) + |WithDuplicates(groups, groups.Keys)|
      // The same in the terms of the rows: what may be written,
      ensures forall x :: x in rows && rows[x] != old(rows)[x] ==>
                var row := old(rows)[x];
                row.user == user && row.isFile && row.active && row.encrypted == Some(false)
      ensures forall x :: x in newly ==>
                x in old(rows) && !(old(rows)[x].hash.Some? && old(rows)[x].hash.value != "")
      ensures forall x :: x in rows && x !in tally.linked ==>
                rows[x] == if x in newly && !dryRun then
                             var row := old(rows)[x];
                             row.(hash := Some(store.treeHash(store.data(row.channel, row.parts))))
                           else old(rows)[x]
      // what a link is,
      ensures !dryRun ==>
        forall x :: x in tally.linked ==>
          exists c :: c in old(rows) && c in rows && x in rows && c != x && c !in tally.linked
            && old(rows)[c].user == user && old(rows)[c].isFile && old(rows)[c].active
            && old(rows)[c].encrypted == Some(false)
            && rows[x].referenced == Some(c) && rows[x].parts == rows[c].parts && rows[x].channel == rows[c].channel
      // that a completed run leaves no two files with one hash as they are, but for those it gave up,
      ensures err == Completed ==>
        forall x, y :: x in old(rows) && y in old(rows) && x != y
          && old(rows)[x].user == old(rows)[y].user == user && old(rows)[x].isFile && old(rows)[y].isFile
          && old(rows)[x].active && old(rows)[y].active
          && old(rows)[x].encrypted == old(rows)[y].encrypted == Some(false)
          && old(rows)[x].hash == old(rows)[y].hash && old(rows)[x].hash.Some? && old(rows)[x].hash.value != ""
          ==> x in tally.linked + tally.skipped || y in tally.linked + tally.skipped
      // and that what any file refers to is the same.
      ensures forall x :: x in rows ==>
                store.data(rows[x].channel, rows[x].parts) == store.data(old(rows)[x].channel, old(rows)[x].parts)
    {
      hide ReadFrom, Grouped, Written, Hashings, Members, WithDuplicates, Duplicates, Ids;
      ghost var before := rows;
      err, progress, total, files, groups, hashed, newly, tally := Run(user, dryRun, backfill);
      RunInRows(store, user, before, hashed, newly, dryRun, files, groups, rows, tally);
      if err == Completed {
        CompletedInRows(store, user, before, hashed, newly, dryRun, files, groups);
      }
    }

    method Run(user: int, dryRun: bool, backfill: bool)
      returns (err: Result, progress: nat, total: int, ghost files: seq<Found>, ghost groups: Groups,
               ghost hashed: Table, ghost newly: set<Id>, ghost tally: Tally)
      requires store.HashesTell(rows, user)
      modifies this`rows, this`totalFilesLinked, this`skippedFiles, this`duplicateGroups, this`hashesBackfilled
      ensures rows.Keys == old(rows).Keys
      ensures forall x :: x in rows ==> store.Content(rows[x]) == store.Content(old(rows)[x])
      ensures forall x :: x in rows && rows[x].referenced != old(rows)[x].referenced ==> rows[x].referenced != Some(x)
      ensures dryRun ==> rows == old(rows)
      ensures newly <= Members(old(rows), user, false) && (!backfill ==> newly == {})
      ensures Hashings(store, user, old(rows), hashed, if dryRun then {} else newly)
      ensures hashesBackfilled == old(hashesBackfilled) + |newly|
      ensures ReadFrom(store, hashed, user, files) && Ids(files) == Members(old(rows), user, true) + newly
      ensures Grouped(files, groups) && Written(groups, hashed, rows, if dryRun then {} else tally.linked)
      ensures tally.linked !! tally.skipped && tally.linked + tally.skipped <= Duplicates(groups)
      ensures totalFilesLinked == old(totalFilesLinked) + |tally.linked|
      ensures skippedFiles == old(skippedFiles) + |tally.skipped|
                              + (if backfill then |Members(old(rows), user, false)| - |newly| else 0)
      ensures progress == |tally.linked| + |tally.skipped| && (dryRun ==> err == Completed && tally.skipped == {})
      ensures total == Links(groups, groups.Keys)
      ensures err == Completed ==>
        && tally.linked + tally.skipped == Duplicates(groups) && progress == total
        && duplicateGroups == old(duplicateGroups) + |WithDuplicates(groups, groups.Keys)|
    {
      hide ReadFrom, Grouped, Written, Hashings, Members, WithDuplicates, Duplicates;
      ghost var before := rows;
      var list;
      list, newly := LoadFiles(user, dryRun, backfill);
      ghost var written := if dryRun then {} else newly;
      hashed, files := rows, list;
      var all := GroupByHash(list);
      groups := all;
      GroupsFilled(list, all);
      total := CountLinks(all);
      err, progress, tally := LinkAll(user, all, dryRun, files);
      KeysKept(store, user, all, before, hashed, written, rows, if dryRun then {} else tally.linked);
      forall x | x in before
        ensures store.Content(rows[x]) == store.Content(before[x])
        ensures rows[x].referenced != before[x].referenced ==> rows[x].referenced != Some(x)
      {
        RunKeepsContent(store, user, before, hashed, written, files, all, rows, if dryRun then {} else tally.linked, x);
      }
      if dryRun {
        NothingWritten(store, user, all, before, hashed, rows);
      }
    }

    /** The files that take part: those that have a hash and, with a backfill, those that get one. */
    method LoadFiles(user: int, dryRun: bool, backfill: bool) returns (files: seq<Found>, ghost newly: set<Id>)
      modifies this`rows, this`skippedFiles, this`hashesBackfilled
      ensures newly <= Members(old(rows), user, false) && (!backfill ==> newly == {})
      ensures Hashings(store, user, old(rows), rows, if dryRun then {} else newly)
      ensures hashesBackfilled == old(hashesBackfilled) + |newly|
      ensures skippedFiles == old(skippedFiles) + (if backfill then |Members(old(rows), user, false)| - |newly| else 0)
      ensures ReadFrom(store, rows, user, files) && Ids(files) == Members(old(rows), user, true) + newly
    {
      hide ReadFrom, Hashings, Members;
      ghost var before := rows;
      files := Load(user, true);
      var backfilled: seq<Found> := [];
      BackfillNone(store, user, rows, dryRun, []);
      BackfillFacts(store, user, rows, rows, dryRun, [], [], 0);
      if backfill {
        backfilled := BackfillUserHashes(user, dryRun);
      }
      newly := Ids(backfilled);
      ReadBoth(store, user, before, rows, if dryRun then {} else newly, files, backfilled);
      files := files + backfilled;
    }
  }
}
