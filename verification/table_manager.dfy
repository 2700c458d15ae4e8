/**
 The coordinator's tablet directory (`TableManager`): an insertion-ordered
 sequence of tablet records. Every operation is a pure function from the old
 directory to the new one (and whatever the C++ call returns); the manager's
 mutex only serialises these calls and has no counterpart here.
 */
module TableManager {
  import opened Tablets

  type Directory = seq<Tablet>

  /** Some record of `d` has exactly the key triple given. */
  predicate Contains(d: Directory, table: U64, start: U64, end: U64) {
    exists i :: 0 <= i < |d| && d[i].Matches(table, start, end)
  }

  /** `i` is the first position of `d` whose record has the key triple given. */
  predicate FirstMatch(d: Directory, i: nat, table: U64, start: U64, end: U64) {
    && i < |d|
    && d[i].Matches(table, start, end)
    && forall j :: 0 <= j < i ==> !d[j].Matches(table, start, end)
  }

  function Size(d: Directory): nat {
    |d|
  }

  /** Appends a record; no overlap or duplicate check is made. */
  function AddTablet(d: Directory, t: Tablet): (d': Directory)
    ensures |d'| == |d| + 1
    ensures d'[..|d|] == d && d'[|d|] == t
  {
    d + [t]
  }

  /** Scans `d` from position `from` for the exact key triple. */
  function FindFrom(d: Directory, table: U64, start: U64, end: U64, from: nat): (r: Option<nat>)
    requires from <= |d|
    ensures r.Some? ==> from <= r.value < |d| && d[r.value].Matches(table, start, end)
    ensures r.Some? ==> forall j :: from <= j < r.value ==> !d[j].Matches(table, start, end)
    ensures r.None? ==> forall j :: from <= j < |d| ==> !d[j].Matches(table, start, end)
    decreases |d| - from
  {
    if from == |d| then None
    else if d[from].Matches(table, start, end) then Some(from)
    else FindFrom(d, table, start, end, from + 1)
  }

  /** Position of the record with exactly this key triple, if any. */
  function Find(d: Directory, table: U64, start: U64, end: U64): (r: Option<nat>)
    ensures r.Some? <==> Contains(d, table, start, end)
    ensures r.Some? ==> FirstMatch(d, r.value, table, start, end)
  {
    FindFrom(d, table, start, end, 0)
  }

  /**
   `getTablet`: exact-match lookup. A range that merely overlaps or contains
   the query is a miss.
   */
  function GetTablet(d: Directory, table: U64, start: U64, end: U64): (r: Result<Tablet>)
    ensures r.Ok? <==> Contains(d, table, start, end)
    ensures r.Err? ==> r.error == NoSuchTablet
    ensures r.Ok? ==> r.value in d && r.value.Matches(table, start, end)
    ensures r.Ok? ==> exists i: nat :: FirstMatch(d, i, table, start, end) && d[i] == r.value
  {
    match Find(d, table, start, end)
    case None => Err(NoSuchTablet)
    case Some(i) => Ok(d[i])
  }

  /** `getTabletsForTable`: the records of one table, in directory order. */
  function GetTabletsForTable(d: Directory, table: U64): (r: seq<Tablet>)
    ensures |r| <= |d|
    ensures forall i :: 0 <= i < |r| ==> r[i].tableId == table
  {
    if d == [] then []
    else
      assert d == [d[0]] + d[1..];
      (if d[0].tableId == table then [d[0]] else []) + GetTabletsForTable(d[1..], table)
  }

  /** The records owned by one server, in directory order. */
  function TabletsOwnedBy(d: Directory, serverId: ServerId): (r: seq<Tablet>)
    ensures |r| <= |d|
    ensures forall t :: t in r <==> t in d && t.serverId == serverId
  {
    if d == [] then []
    else (if d[0].serverId == serverId then [d[0]] else []) + TabletsOwnedBy(d[1..], serverId)
  }

  /**
   `modifyTablet`: overwrites owner, status and ctime of the record with
   exactly this key triple; the key triple itself never changes.
   */
  function ModifyTablet(d: Directory, table: U64, start: U64, end: U64,
                        serverId: ServerId, status: Status, ctime: LogPosition): (r: Result<Directory>)
    ensures r.Err? <==> !Contains(d, table, start, end)
    ensures r.Err? ==> r.error == NoSuchTablet
    ensures r.Ok? ==> |r.value| == |d|
    ensures r.Ok? ==> exists i: nat :: FirstMatch(d, i, table, start, end)
                                      && r.value[i] == Tablet(table, start, end, serverId, status, ctime)
                                      && forall j :: 0 <= j < |d| && j != i ==> r.value[j] == d[j]
  {
    match Find(d, table, start, end)
    case None => Err(NoSuchTablet)
    case Some(i) => Ok(d[i := d[i].(serverId := serverId, status := status, ctime := ctime)])
  }

  /** What `removeTabletsForTable` leaves behind and what it hands back. */
  datatype Removal = Removal(remaining: Directory, removed: seq<Tablet>)

  /**
   `removeTabletsForTable`: drops every record of the table and returns them,
   in directory order; a table with no records removes nothing.
   */
  function RemoveTabletsForTable(d: Directory, table: U64): (r: Removal)
    ensures r.removed == GetTabletsForTable(d, table)
    ensures |r.remaining| + |r.removed| == |d|
    ensures forall i :: 0 <= i < |r.remaining| ==> r.remaining[i].tableId != table
  {
    if d == [] then Removal([], [])
    else
      assert d == [d[0]] + d[1..];
      var rest := RemoveTabletsForTable(d[1..], table);
      if d[0].tableId == table then Removal(rest.remaining, [d[0]] + rest.removed)
      else Removal([d[0]] + rest.remaining, rest.removed)
  }

  /** What `setStatusForServer` leaves behind and what it hands back. */
  datatype StatusUpdate = StatusUpdate(directory: Directory, updated: seq<Tablet>)

  /**
   `setStatusForServer`: sets the status of every record the server owns and
   returns those records as they are after the update, in directory order.
   */
  function SetStatusForServer(d: Directory, serverId: ServerId, status: Status): (r: StatusUpdate)
    ensures |r.directory| == |d|
    ensures forall i :: 0 <= i < |d| && d[i].serverId == serverId ==> r.directory[i] == d[i].(status := status)
    ensures forall i :: 0 <= i < |d| && d[i].serverId != serverId ==> r.directory[i] == d[i]
    ensures r.updated == TabletsOwnedBy(r.directory, serverId)
  {
    if d == [] then StatusUpdate([], [])
    else
      var rest := SetStatusForServer(d[1..], serverId, status);
      var head := if d[0].serverId == serverId then d[0].(status := status) else d[0];
      var directory := [head] + rest.directory;
      assert directory[1..] == rest.directory;
      StatusUpdate(directory, (if d[0].serverId == serverId then [head] else []) + rest.updated)
  }

  /**
   `splitTablet`: the bounds check on the caller's arguments comes first and
   runs whether or not a record exists; then the exact record is shrunk in
   place to end at `splitKeyHash - 1` and its right half, with the same
   table, owner, status and ctime, is appended at the end of the directory.
   */
  function SplitTablet(d: Directory, table: U64, start: U64, end: U64, splitKeyHash: U64): (r: Result<Directory>)
    ensures !(start < splitKeyHash <= end) ==> r == Err(BadSplit)
    ensures start < splitKeyHash <= end && !Contains(d, table, start, end) ==> r == Err(NoSuchTablet)
    ensures r.Ok? <==> start < splitKeyHash <= end && Contains(d, table, start, end)
    ensures r.Ok? ==> |r.value| == |d| + 1
    ensures r.Ok? ==> exists i: nat :: FirstMatch(d, i, table, start, end)
                                      && r.value[i] == Tablet(table, start, splitKeyHash - 1, d[i].serverId, d[i].status, d[i].ctime)
                                      && r.value[|d|] == Tablet(table, splitKeyHash, end, d[i].serverId, d[i].status, d[i].ctime)
                                      && forall j :: 0 <= j < |d| && j != i ==> r.value[j] == d[j]
  {
    if !(start < splitKeyHash <= end) then Err(BadSplit)
    else
      match Find(d, table, start, end)
      case None => Err(NoSuchTablet)
      case Some(i) =>
        var t := d[i];
        Ok(d[i := t.(endKeyHash := splitKeyHash - 1)] + [t.(startKeyHash := splitKeyHash)])
  }
}
