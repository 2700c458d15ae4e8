/**
 `serialize`: the directory as a `ProtoBuf::Tablets` snapshot, one entry per
 record in directory order. The server list is a parameter that maps a server
 to its service locator, or to nothing when the server is not in the list;
 an unknown server is reported to the caller, not skipped.
 */
module TabletSerialization {
  import opened Tablets
  import opened TableManager

  /** One `tablet { ... }` entry of the snapshot. */
  datatype Entry = Entry(
    tableId: U64,
    startKeyHash: U64,
    endKeyHash: U64,
    state: Status,
    serverId: ServerId,
    serviceLocator: string,
    ctimeLogHeadId: U64,
    ctimeLogHeadOffset: U32)

  datatype Snapshot = Tablets(entries: seq<Entry>) | UnknownServer(serverId: ServerId)

  /** The server list's locator lookup. */
  type ServerList = ServerId -> Option<string>

  /** Every record's owner is in the server list. */
  predicate Resolvable(d: Directory, serverList: ServerList) {
    forall i :: 0 <= i < |d| ==> serverList(d[i].serverId).Some?
  }

  function ToEntry(t: Tablet, locator: string): Entry {
    Entry(t.tableId, t.startKeyHash, t.endKeyHash, t.status, t.serverId, locator,
          t.ctime.segmentId, t.ctime.offset)
  }

  /** How a reader of the snapshot rebuilds a record from an entry. */
  function FromEntry(e: Entry): Tablet {
    Tablet(e.tableId, e.startKeyHash, e.endKeyHash, e.serverId, e.state,
           LogPosition(e.ctimeLogHeadId, e.ctimeLogHeadOffset))
  }

  function Serialize(d: Directory, serverList: ServerList): (r: Snapshot)
    ensures r.Tablets? <==> Resolvable(d, serverList)
    ensures r.Tablets? ==> |r.entries| == |d|
    ensures r.Tablets? ==> forall i :: 0 <= i < |d| ==>
              && r.entries[i].tableId == d[i].tableId
              && r.entries[i].startKeyHash == d[i].startKeyHash
              && r.entries[i].endKeyHash == d[i].endKeyHash
              && r.entries[i].state == d[i].status
              && r.entries[i].serverId == d[i].serverId
              && Some(r.entries[i].serviceLocator) == serverList(d[i].serverId)
              && r.entries[i].ctimeLogHeadId == d[i].ctime.segmentId
              && r.entries[i].ctimeLogHeadOffset == d[i].ctime.offset
    ensures r.UnknownServer? ==> exists i :: 0 <= i < |d| && d[i].serverId == r.serverId
                                             && serverList(d[i].serverId).None?
                                             && forall j :: 0 <= j < i ==> serverList(d[j].serverId).Some?
  {
    if d == [] then Tablets([])
    else
      match serverList(d[0].serverId)
      case None => UnknownServer(d[0].serverId)
      case Some(locator) =>
        match Serialize(d[1..], serverList)
        case UnknownServer(s) =>
          var k :| 0 <= k < |d[1..]| && d[1..][k].serverId == s && serverList(s).None?
                   && forall j :: 0 <= j < k ==> serverList(d[1..][j].serverId).Some?;
          assert d[k + 1] == d[1..][k];
          assert forall j :: 1 <= j <= k ==> d[j] == d[1..][j - 1];
          UnknownServer(s)
        case Tablets(es) =>
          var entries := [ToEntry(d[0], locator)] + es;
          assert forall i :: 1 <= i < |d| ==> entries[i] == es[i - 1] && d[i] == d[1..][i - 1];
          Tablets(entries)
  }

  function Deserialize(entries: seq<Entry>): (d: Directory)
    ensures |d| == |entries|
  {
    if entries == [] then [] else [FromEntry(entries[0])] + Deserialize(entries[1..])
  }

  /** Reading a snapshot back gives the directory it was taken from, in order. */
  lemma {:induction false} SerializeRoundTrip(d: Directory, serverList: ServerList)
    requires Resolvable(d, serverList)
    ensures Deserialize(Serialize(d, serverList).entries) == d
  {
    var es := Serialize(d, serverList).entries;
    forall i | 0 <= i < |d|
      ensures Deserialize(es)[i] == d[i]
    {
      DeserializeAt(es, i);
    }
  }

  lemma {:induction false} DeserializeAt(es: seq<Entry>, i: nat)
    requires i < |es|
    ensures Deserialize(es)[i] == FromEntry(es[i])
    decreases i
  {
    if i > 0 {
      DeserializeAt(es[1..], i - 1);
    }
  }
}
