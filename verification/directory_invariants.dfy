/**
 The invariants callers of the directory keep (the directory itself does not
 check them on `addTablet`): every range is non-empty, and within one table
 no two ranges overlap. Also the lookup facts every operation's proofs share.
 */
module DirectoryInvariants {
  import opened Tablets
  import opened TableManager

  predicate WellFormed(t: Tablet) {
    t.startKeyHash <= t.endKeyHash
  }

  /** Two records of the same table whose hash ranges share a hash. */
  predicate Overlap(a: Tablet, b: Tablet) {
    a.tableId == b.tableId && a.startKeyHash <= b.endKeyHash && b.startKeyHash <= a.endKeyHash
  }

  predicate Valid(d: Directory) {
    && (forall i :: 0 <= i < |d| ==> WellFormed(d[i]))
    && (forall i, j :: 0 <= i < j < |d| ==> !Overlap(d[i], d[j]))
  }

  /** No key triple occurs twice, which exact-match lookup relies on. */
  predicate UniqueKeys(d: Directory) {
    forall i, j :: 0 <= i < j < |d| ==> !d[j].Matches(d[i].tableId, d[i].startKeyHash, d[i].endKeyHash)
  }

  /** `a` and `b` hold the same key triples at the same positions. */
  predicate SameKeys(a: Directory, b: Directory) {
    |a| == |b| && forall i :: 0 <= i < |a| ==> a[i].Matches(b[i].tableId, b[i].startKeyHash, b[i].endKeyHash)
  }

  /** Hash `h` of `table` is served by a record with assignment `a`. */
  predicate Serves(d: Directory, table: U64, h: U64, a: Assignment) {
    exists i :: 0 <= i < |d| && d[i].Covers(table, h) && d[i].Owner() == a
  }

  /** The set of tables that have at least one record. */
  ghost function TableIds(d: Directory): set<U64> {
    set t | t in d :: t.tableId
  }

  lemma ValidHasUniqueKeys(d: Directory)
    requires Valid(d)
    ensures UniqueKeys(d)
  {
    forall i, j | 0 <= i < j < |d|
      ensures !d[j].Matches(d[i].tableId, d[i].startKeyHash, d[i].endKeyHash)
    {
      assert WellFormed(d[i]) && !Overlap(d[i], d[j]);
    }
  }

  lemma SameKeysKeepValid(a: Directory, b: Directory)
    requires SameKeys(a, b)
    ensures Valid(a) <==> Valid(b)
    ensures UniqueKeys(a) <==> UniqueKeys(b)
  {
  }

  lemma SameKeysKeepFirstMatch(a: Directory, b: Directory, i: nat, table: U64, start: U64, end: U64)
    requires SameKeys(a, b)
    ensures FirstMatch(a, i, table, start, end) <==> FirstMatch(b, i, table, start, end)
    ensures Contains(a, table, start, end) <==> Contains(b, table, start, end)
  {
    if Contains(a, table, start, end) {
      var j :| 0 <= j < |a| && a[j].Matches(table, start, end);
      assert b[j].Matches(table, start, end);
    }
    if Contains(b, table, start, end) {
      var j :| 0 <= j < |b| && b[j].Matches(table, start, end);
      assert a[j].Matches(table, start, end);
    }
  }

  /** The scan stops at the first exactly matching position. */
  lemma FindAt(d: Directory, i: nat, table: U64, start: U64, end: U64)
    requires FirstMatch(d, i, table, start, end)
    ensures Find(d, table, start, end) == Some(i)
  {
    var k := Find(d, table, start, end).value;
    assert k == i;
  }

  /** Lookup returns the record at the first exactly matching position. */
  lemma GetTabletAt(d: Directory, i: nat, table: U64, start: U64, end: U64)
    requires FirstMatch(d, i, table, start, end)
    ensures GetTablet(d, table, start, end) == Ok(d[i])
  {
    var r := GetTablet(d, table, start, end);
    var k: nat :| FirstMatch(d, k, table, start, end) && d[k] == r.value;
    assert k == i;
  }

  /** With unique key triples, every record is found by its own triple. */
  lemma GetTabletUnique(d: Directory, i: nat)
    requires UniqueKeys(d)
    requires i < |d|
    ensures GetTablet(d, d[i].tableId, d[i].startKeyHash, d[i].endKeyHash) == Ok(d[i])
  {
    forall j | 0 <= j < i
      ensures !d[j].Matches(d[i].tableId, d[i].startKeyHash, d[i].endKeyHash)
    {
      assert !d[i].Matches(d[j].tableId, d[j].startKeyHash, d[j].endKeyHash);
    }
    GetTabletAt(d, i, d[i].tableId, d[i].startKeyHash, d[i].endKeyHash);
  }

  /** Lookup in a directory with one more record in front. */
  lemma GetTabletCons(x: Tablet, rest: Directory, table: U64, start: U64, end: U64)
    ensures GetTablet([x] + rest, table, start, end)
            == if x.Matches(table, start, end) then Ok(x) else GetTablet(rest, table, start, end)
  {
    var d := [x] + rest;
    if x.Matches(table, start, end) {
      GetTabletAt(d, 0, table, start, end);
    } else if Contains(rest, table, start, end) {
      var i := Find(rest, table, start, end).value;
      GetTabletAt(rest, i, table, start, end);
      assert d[i + 1] == rest[i];
      forall j | 0 <= j < i + 1
        ensures !d[j].Matches(table, start, end)
      {
        if j > 0 {
          assert d[j] == rest[j - 1];
        }
      }
      GetTabletAt(d, i + 1, table, start, end);
    } else {
      forall j | 0 <= j < |d|
        ensures !d[j].Matches(table, start, end)
      {
        if j > 0 {
          assert d[j] == rest[j - 1];
        }
      }
    }
  }
}
