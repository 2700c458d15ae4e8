/**
 What the directory's operations promise when they are combined: a record
 added can be looked up again, enumeration follows insertion order, a
 modification or status update touches only its own records, removal leaves
 the other tables alone, and a split keeps every hash served by the same
 owner while keeping the ranges of a table disjoint.
 */
module TableManagerProperties {
  import opened Tablets
  import opened TableManager
  import opened DirectoryInvariants

  // ---------------------------------------------------------------------
  // addTablet and getTablet

  /**
   A record whose key triple is new is one more record, and looking up its
   triple returns it with every field as added.
   */
  lemma AddTabletThenGet(d: Directory, t: Tablet)
    requires !Contains(d, t.tableId, t.startKeyHash, t.endKeyHash)
    ensures Size(AddTablet(d, t)) == Size(d) + 1
    ensures GetTablet(AddTablet(d, t), t.tableId, t.startKeyHash, t.endKeyHash) == Ok(t)
  {
    var d' := AddTablet(d, t);
    forall j | 0 <= j < |d|
      ensures !d'[j].Matches(t.tableId, t.startKeyHash, t.endKeyHash)
    {
      assert d'[j] == d[j];
    }
    GetTabletAt(d', |d|, t.tableId, t.startKeyHash, t.endKeyHash);
  }

  /** Adding a record never changes what an existing key triple finds. */
  lemma AddTabletKeepsLookups(d: Directory, t: Tablet, table: U64, start: U64, end: U64)
    requires Contains(d, table, start, end)
    ensures GetTablet(AddTablet(d, t), table, start, end) == GetTablet(d, table, start, end)
  {
    var d' := AddTablet(d, t);
    var i := Find(d, table, start, end).value;
    GetTabletAt(d, i, table, start, end);
    assert d'[i] == d[i];
    assert forall j :: 0 <= j < i ==> d'[j] == d[j];
    GetTabletAt(d', i, table, start, end);
  }

  /** Adding keeps the directory valid exactly when the new range is non-empty and overlaps none. */
  lemma AddTabletKeepsValid(d: Directory, t: Tablet)
    ensures Valid(AddTablet(d, t))
            <==> Valid(d) && WellFormed(t) && forall u :: u in d ==> !Overlap(u, t)
  {
    var d' := AddTablet(d, t);
    assert forall i :: 0 <= i < |d| ==> d'[i] == d[i];
    if Valid(d') {
      forall u | u in d
        ensures !Overlap(u, t)
      {
        var i :| 0 <= i < |d| && d[i] == u;
        assert !Overlap(d'[i], d'[|d|]);
      }
    }
  }

  // ---------------------------------------------------------------------
  // getTabletsForTable

  /** Enumeration of a concatenation is the concatenation of the enumerations. */
  lemma {:induction false} GetTabletsForTableAppend(a: Directory, b: Directory, table: U64)
    ensures GetTabletsForTable(a + b, table) == GetTabletsForTable(a, table) + GetTabletsForTable(b, table)
    decreases |a|
  {
    if a == [] {
      assert a + b == b;
    } else {
      assert (a + b)[0] == a[0];
      assert (a + b)[1..] == a[1..] + b;
      GetTabletsForTableAppend(a[1..], b, table);
    }
  }

  /**
   Enumeration returns every record of the table as often as the directory
   holds it, and nothing else.
   */
  lemma {:induction false} GetTabletsForTableCounts(d: Directory, table: U64)
    ensures forall t: Tablet :: multiset(GetTabletsForTable(d, table))[t]
                                == if t.tableId == table then multiset(d)[t] else 0
  {
    if d != [] {
      assert d == [d[0]] + d[1..];
      GetTabletsForTableCounts(d[1..], table);
    }
  }

  /**
   Insertion order: the tablets of a table are listed in the order they were
   added, the newest last.
   */
  lemma AddTabletThenList(d: Directory, t: Tablet, table: U64)
    ensures GetTabletsForTable(AddTablet(d, t), table)
            == GetTabletsForTable(d, table) + (if t.tableId == table then [t] else [])
  {
    GetTabletsForTableAppend(d, [t], table);
    assert [t][1..] == [];
  }

  // ---------------------------------------------------------------------
  // modifyTablet

  /** After a modification, the triple looks up to the new owner, status and ctime. */
  lemma ModifyTabletThenGet(d: Directory, table: U64, start: U64, end: U64,
                            serverId: ServerId, status: Status, ctime: LogPosition)
    requires ModifyTablet(d, table, start, end, serverId, status, ctime).Ok?
    ensures GetTablet(ModifyTablet(d, table, start, end, serverId, status, ctime).value, table, start, end)
            == Ok(Tablet(table, start, end, serverId, status, ctime))
  {
    var d' := ModifyTablet(d, table, start, end, serverId, status, ctime).value;
    var i: nat :| FirstMatch(d, i, table, start, end)
                  && d'[i] == Tablet(table, start, end, serverId, status, ctime)
                  && forall j :: 0 <= j < |d| && j != i ==> d'[j] == d[j];
    assert SameKeys(d', d);
    SameKeysKeepFirstMatch(d', d, i, table, start, end);
    GetTabletAt(d', i, table, start, end);
  }

  /** A modification leaves the lookup of every other key triple as it was. */
  lemma ModifyTabletKeepsOtherLookups(d: Directory, table: U64, start: U64, end: U64,
                                      serverId: ServerId, status: Status, ctime: LogPosition,
                                      table': U64, start': U64, end': U64)
    requires ModifyTablet(d, table, start, end, serverId, status, ctime).Ok?
    requires (table', start', end') != (table, start, end)
    ensures GetTablet(ModifyTablet(d, table, start, end, serverId, status, ctime).value, table', start', end')
            == GetTablet(d, table', start', end')
  {
    var d' := ModifyTablet(d, table, start, end, serverId, status, ctime).value;
    var i: nat :| FirstMatch(d, i, table, start, end)
                  && d'[i] == Tablet(table, start, end, serverId, status, ctime)
                  && forall j :: 0 <= j < |d| && j != i ==> d'[j] == d[j];
    assert SameKeys(d', d);
    SameKeysKeepFirstMatch(d', d, 0, table', start', end');
    if Contains(d, table', start', end') {
      var k := Find(d, table', start', end').value;
      assert k != i;
      SameKeysKeepFirstMatch(d', d, k, table', start', end');
      GetTabletAt(d, k, table', start', end');
      GetTabletAt(d', k, table', start', end');
    }
  }

  /** A modification keeps the key triples, so it keeps the directory valid. */
  lemma ModifyTabletKeepsValid(d: Directory, table: U64, start: U64, end: U64,
                               serverId: ServerId, status: Status, ctime: LogPosition)
    requires Valid(d)
    requires ModifyTablet(d, table, start, end, serverId, status, ctime).Ok?
    ensures Valid(ModifyTablet(d, table, start, end, serverId, status, ctime).value)
  {
    var d' := ModifyTablet(d, table, start, end, serverId, status, ctime).value;
    var i: nat :| FirstMatch(d, i, table, start, end)
                  && d'[i] == Tablet(table, start, end, serverId, status, ctime)
                  && forall j :: 0 <= j < |d| && j != i ==> d'[j] == d[j];
    assert SameKeys(d', d);
    SameKeysKeepValid(d', d);
  }

  // ---------------------------------------------------------------------
  // removeTabletsForTable

  /** After removal no returned triple can be looked up, and the size shrank by the count returned. */
  lemma RemoveTabletsThenGet(d: Directory, table: U64)
    ensures var r := RemoveTabletsForTable(d, table);
            && Size(r.remaining) == Size(d) - |r.removed|
            && forall t :: t in r.removed ==>
                 GetTablet(r.remaining, t.tableId, t.startKeyHash, t.endKeyHash) == Err(NoSuchTablet)
  {
    var r := RemoveTabletsForTable(d, table);
    forall t | t in r.removed
      ensures !Contains(r.remaining, t.tableId, t.startKeyHash, t.endKeyHash)
    {
      assert t.tableId == table;
      assert forall i :: 0 <= i < |r.remaining| ==> r.remaining[i] in r.remaining;
    }
  }

  /** Removing a table that has no records changes nothing and returns nothing. */
  lemma {:induction false} RemoveTabletsForAbsentTable(d: Directory, table: U64)
    requires forall i :: 0 <= i < |d| ==> d[i].tableId != table
    ensures RemoveTabletsForTable(d, table) == Removal(d, [])
  {
    if d != [] {
      var tail := d[1..];
      assert forall i :: 0 <= i < |tail| ==> tail[i] == d[i + 1];
      RemoveTabletsForAbsentTable(tail, table);
      assert [d[0]] + tail == d;
    }
  }

  /** Removal splits the directory: each record ends up either remaining or returned. */
  lemma {:induction false} RemoveTabletsPartition(d: Directory, table: U64)
    ensures var r := RemoveTabletsForTable(d, table);
            multiset(r.remaining) + multiset(r.removed) == multiset(d)
  {
    if d != [] {
      assert d == [d[0]] + d[1..];
      RemoveTabletsPartition(d[1..], table);
    }
  }

  /** What remains is exactly the records of the other tables. */
  lemma {:induction false} RemoveTabletsMembers(d: Directory, table: U64)
    ensures forall u :: u in RemoveTabletsForTable(d, table).remaining <==> u in d && u.tableId != table
  {
    if d != [] {
      assert d == [d[0]] + d[1..];
      RemoveTabletsMembers(d[1..], table);
    }
  }

  /** The other tables keep all their records, in their order. */
  lemma {:induction false} RemoveTabletsKeepsOtherTables(d: Directory, table: U64, other: U64)
    requires other != table
    ensures GetTabletsForTable(RemoveTabletsForTable(d, table).remaining, other) == GetTabletsForTable(d, other)
  {
    if d != [] {
      RemoveTabletsKeepsOtherTables(d[1..], table, other);
      var rest := RemoveTabletsForTable(d[1..], table).remaining;
      if d[0].tableId != table {
        var r := [d[0]] + rest;
        assert r[0] == d[0] && r[1..] == rest;
      }
    }
  }

  /** Every lookup in another table finds what it found before the removal. */
  lemma {:induction false} RemoveTabletsKeepsOtherLookups(d: Directory, table: U64,
                                                          table': U64, start: U64, end: U64)
    requires table' != table
    ensures GetTablet(RemoveTabletsForTable(d, table).remaining, table', start, end)
            == GetTablet(d, table', start, end)
  {
    if d == [] {
    } else {
      assert d == [d[0]] + d[1..];
      RemoveTabletsKeepsOtherLookups(d[1..], table, table', start, end);
      var rest := RemoveTabletsForTable(d[1..], table).remaining;
      GetTabletCons(d[0], d[1..], table', start, end);
      if d[0].tableId != table {
        GetTabletCons(d[0], rest, table', start, end);
      }
    }
  }

  /** Validity of a directory with one more record in front. */
  lemma ValidCons(x: Tablet, rest: Directory)
    ensures Valid([x] + rest)
            <==> WellFormed(x) && (forall u :: u in rest ==> !Overlap(x, u)) && Valid(rest)
  {
    if Valid([x] + rest) {
      ValidConsSplit(x, rest);
    }
    if WellFormed(x) && (forall u :: u in rest ==> !Overlap(x, u)) && Valid(rest) {
      ValidConsJoin(x, rest);
    }
  }

  lemma ValidConsSplit(x: Tablet, rest: Directory)
    requires Valid([x] + rest)
    ensures WellFormed(x) && (forall u :: u in rest ==> !Overlap(x, u)) && Valid(rest)
  {
    var d := [x] + rest;
    assert forall i :: 0 <= i < |rest| ==> d[i + 1] == rest[i];
    assert WellFormed(d[0]);
    forall u | u in rest
      ensures !Overlap(x, u)
    {
      var k :| 0 <= k < |rest| && rest[k] == u;
      assert !Overlap(d[0], d[k + 1]);
    }
    forall i, j | 0 <= i < j < |rest|
      ensures !Overlap(rest[i], rest[j])
    {
      assert !Overlap(d[i + 1], d[j + 1]);
    }
  }

  lemma ValidConsJoin(x: Tablet, rest: Directory)
    requires WellFormed(x) && (forall u :: u in rest ==> !Overlap(x, u)) && Valid(rest)
    ensures Valid([x] + rest)
  {
    var d := [x] + rest;
    forall i, j | 0 <= i < j < |d|
      ensures !Overlap(d[i], d[j])
    {
      assert d[j] == rest[j - 1];
      if i > 0 {
        assert d[i] == rest[i - 1];
        assert !Overlap(rest[i - 1], rest[j - 1]);
      } else {
        assert d[0] == x && rest[j - 1] in rest;
      }
    }
    forall i | 0 <= i < |d|
      ensures WellFormed(d[i])
    {
      if i > 0 {
        assert d[i] == rest[i - 1];
      }
    }
  }

  /** Removal keeps the directory valid. */
  lemma {:induction false} RemoveTabletsKeepsValid(d: Directory, table: U64)
    requires Valid(d)
    ensures Valid(RemoveTabletsForTable(d, table).remaining)
  {
    if d != [] {
      var rest := d[1..];
      assert d == [d[0]] + rest;
      ValidCons(d[0], rest);
      RemoveTabletsKeepsValid(rest, table);
      var rem := RemoveTabletsForTable(rest, table).remaining;
      if d[0].tableId != table {
        RemoveTabletsMembers(rest, table);
        ValidCons(d[0], rem);
      }
    }
  }

  // ---------------------------------------------------------------------
  // setStatusForServer

  /**
   Every returned record is owned by the server, carries the new status, and
   is what a lookup of its triple now returns.
   */
  lemma SetStatusThenGet(d: Directory, serverId: ServerId, status: Status)
    requires UniqueKeys(d)
    ensures var r := SetStatusForServer(d, serverId, status);
            forall t :: t in r.updated ==>
              && t.serverId == serverId
              && t.status == status
              && GetTablet(r.directory, t.tableId, t.startKeyHash, t.endKeyHash) == Ok(t)
  {
    var r := SetStatusForServer(d, serverId, status);
    assert SameKeys(r.directory, d);
    SameKeysKeepValid(r.directory, d);
    forall t | t in r.updated
      ensures t.serverId == serverId && t.status == status
      ensures GetTablet(r.directory, t.tableId, t.startKeyHash, t.endKeyHash) == Ok(t)
    {
      var i :| 0 <= i < |r.directory| && r.directory[i] == t;
      GetTabletUnique(r.directory, i);
    }
  }

  /** The update returns as many records as the server owned before. */
  lemma {:induction false} SetStatusCountsOwned(d: Directory, serverId: ServerId, status: Status)
    ensures |SetStatusForServer(d, serverId, status).updated| == |TabletsOwnedBy(d, serverId)|
  {
    if d != [] {
      SetStatusCountsOwned(d[1..], serverId, status);
    }
  }

  /** A server owning nothing: nothing changes and nothing is returned. */
  lemma SetStatusForIdleServer(d: Directory, serverId: ServerId, status: Status)
    requires forall t :: t in d ==> t.serverId != serverId
    ensures SetStatusForServer(d, serverId, status) == StatusUpdate(d, [])
  {
    var r := SetStatusForServer(d, serverId, status);
    assert forall i :: 0 <= i < |d| ==> d[i] in d;
    assert r.directory == d;
  }

  /** Setting the same status again changes nothing more and returns the same records. */
  lemma SetStatusIdempotent(d: Directory, serverId: ServerId, status: Status)
    ensures var r := SetStatusForServer(d, serverId, status);
            SetStatusForServer(r.directory, serverId, status) == r
  {
    var r := SetStatusForServer(d, serverId, status);
    var r2 := SetStatusForServer(r.directory, serverId, status);
    assert r2.directory == r.directory;
  }

  /** Status updates keep the key triples, so they keep the directory valid. */
  lemma SetStatusKeepsValid(d: Directory, serverId: ServerId, status: Status)
    requires Valid(d)
    ensures Valid(SetStatusForServer(d, serverId, status).directory)
  {
    var r := SetStatusForServer(d, serverId, status);
    assert SameKeys(r.directory, d);
    SameKeysKeepValid(r.directory, d);
  }

  // ---------------------------------------------------------------------
  // splitTablet

  /**
   A split changes no routing: every hash of every table is served by a record
   with the same owner, status and ctime as before, and by no other.
   */
  lemma SplitTabletKeepsServing(d: Directory, table: U64, start: U64, end: U64, splitKeyHash: U64,
                                table': U64, h: U64, a: Assignment)
    requires SplitTablet(d, table, start, end, splitKeyHash).Ok?
    ensures Serves(SplitTablet(d, table, start, end, splitKeyHash).value, table', h, a)
            <==> Serves(d, table', h, a)
  {
    var d' := SplitTablet(d, table, start, end, splitKeyHash).value;
    var i: nat :| FirstMatch(d, i, table, start, end)
                  && d'[i] == Tablet(table, start, splitKeyHash - 1, d[i].serverId, d[i].status, d[i].ctime)
                  && d'[|d|] == Tablet(table, splitKeyHash, end, d[i].serverId, d[i].status, d[i].ctime)
                  && forall j :: 0 <= j < |d| && j != i ==> d'[j] == d[j];
    if Serves(d', table', h, a) {
      var j :| 0 <= j < |d'| && d'[j].Covers(table', h) && d'[j].Owner() == a;
      if j == |d| {
        assert d[i].Covers(table', h) && d[i].Owner() == a;
      } else {
        assert d[j].Covers(table', h) && d[j].Owner() == a;
      }
    }
    if Serves(d, table', h, a) {
      var j :| 0 <= j < |d| && d[j].Covers(table', h) && d[j].Owner() == a;
      if j == i && h >= splitKeyHash {
        assert d'[|d|].Covers(table', h) && d'[|d|].Owner() == a;
      } else {
        assert d'[j].Covers(table', h) && d'[j].Owner() == a;
      }
    }
  }

  /** A split keeps every range non-empty and the ranges of a table disjoint. */
  lemma SplitTabletKeepsValid(d: Directory, table: U64, start: U64, end: U64, splitKeyHash: U64)
    requires Valid(d)
    requires SplitTablet(d, table, start, end, splitKeyHash).Ok?
    ensures Valid(SplitTablet(d, table, start, end, splitKeyHash).value)
  {
    var d' := SplitTablet(d, table, start, end, splitKeyHash).value;
    var i: nat :| FirstMatch(d, i, table, start, end)
                  && d'[i] == Tablet(table, start, splitKeyHash - 1, d[i].serverId, d[i].status, d[i].ctime)
                  && d'[|d|] == Tablet(table, splitKeyHash, end, d[i].serverId, d[i].status, d[i].ctime)
                  && forall j :: 0 <= j < |d| && j != i ==> d'[j] == d[j];
    forall j, k | 0 <= j < k < |d'|
      ensures !Overlap(d'[j], d'[k])
    {
      if k == |d| {
        if j != i {
          assert !Overlap(d[j], d[i]) || !Overlap(d[i], d[j]);
        }
      } else if j == i {
        assert !Overlap(d[i], d[k]);
      } else if k == i {
        assert !Overlap(d[j], d[i]);
      } else {
        assert !Overlap(d[j], d[k]);
      }
    }
  }

  /** With valid ranges, both halves of a split are found by their own triples. */
  lemma SplitTabletThenGet(d: Directory, table: U64, start: U64, end: U64, splitKeyHash: U64)
    requires Valid(d)
    requires SplitTablet(d, table, start, end, splitKeyHash).Ok?
    ensures var t := GetTablet(d, table, start, end).value;
            var d' := SplitTablet(d, table, start, end, splitKeyHash).value;
            && GetTablet(d', table, start, splitKeyHash - 1) == Ok(t.(endKeyHash := splitKeyHash - 1))
            && GetTablet(d', table, splitKeyHash, end) == Ok(t.(startKeyHash := splitKeyHash))
  {
    var d' := SplitTablet(d, table, start, end, splitKeyHash).value;
    var i: nat :| FirstMatch(d, i, table, start, end)
                  && d'[i] == Tablet(table, start, splitKeyHash - 1, d[i].serverId, d[i].status, d[i].ctime)
                  && d'[|d|] == Tablet(table, splitKeyHash, end, d[i].serverId, d[i].status, d[i].ctime)
                  && forall j :: 0 <= j < |d| && j != i ==> d'[j] == d[j];
    GetTabletAt(d, i, table, start, end);
    SplitTabletKeepsValid(d, table, start, end, splitKeyHash);
    ValidHasUniqueKeys(d');
    GetTabletUnique(d', i);
    GetTabletUnique(d', |d|);
  }

  /** A split neither adds nor removes a table. */
  lemma SplitTabletKeepsTables(d: Directory, table: U64, start: U64, end: U64, splitKeyHash: U64)
    requires SplitTablet(d, table, start, end, splitKeyHash).Ok?
    ensures TableIds(SplitTablet(d, table, start, end, splitKeyHash).value) == TableIds(d)
  {
    var d' := SplitTablet(d, table, start, end, splitKeyHash).value;
    var i: nat :| FirstMatch(d, i, table, start, end)
                  && d'[i] == Tablet(table, start, splitKeyHash - 1, d[i].serverId, d[i].status, d[i].ctime)
                  && d'[|d|] == Tablet(table, splitKeyHash, end, d[i].serverId, d[i].status, d[i].ctime)
                  && forall j :: 0 <= j < |d| && j != i ==> d'[j] == d[j];
    forall id | id in TableIds(d')
      ensures id in TableIds(d)
    {
      var t :| t in d' && t.tableId == id;
      var j :| 0 <= j < |d'| && d'[j] == t;
      if j == |d| || j == i {
        assert d[i] in d;
      } else {
        assert d[j] in d;
      }
    }
    forall id | id in TableIds(d)
      ensures id in TableIds(d')
    {
      var t :| t in d && t.tableId == id;
      var j :| 0 <= j < |d| && d[j] == t;
      assert d'[j] in d';
    }
  }
}
