/**
 The unit-test scenarios of the directory: the exact records each call
 returns or leaves behind, including the split at the extremes of the 64-bit
 hash space. Some scenarios are stated on literal records; the others range
 over records whose fields the scenario pins down (the table ids, the owners
 or the key triple) and leave the remaining fields free, which makes the
 statement hold for every choice of those.
 */
module TableManagerScenarios {
  import opened Tablets
  import opened TableManager
  import opened DirectoryInvariants
  import opened TableManagerProperties
  import opened TabletSerialization

  // ---------------------------------------------------------------------
  // addTablet, getTablet

  lemma ScenarioAddTablet()
    ensures var t := Tablet(1, 2, 3, ServerId(4, 5), RECOVERING, LogPosition(6, 7));
            && Size(AddTablet([], t)) == 1
            && GetTablet(AddTablet([], t), 1, 2, 3) == Ok(t)
  {
    AddTabletThenGet([], Tablet(1, 2, 3, ServerId(4, 5), RECOVERING, LogPosition(6, 7)));
  }

  /**
   The three-record fixture: record k (k = 0, 1, 2) has table b + 1, range
   [b + 2, b + 3], owner (b + 4, b + 5), status RECOVERING and ctime
   (b + 6, b + 7), where b = 10k.
   */
  function FillMap(): (d: Directory)
    ensures |d| == 3
  {
    [ Tablet(1, 2, 3, ServerId(4, 5), RECOVERING, LogPosition(6, 7)),
      Tablet(11, 12, 13, ServerId(14, 15), RECOVERING, LogPosition(16, 17)),
      Tablet(21, 22, 23, ServerId(24, 25), RECOVERING, LogPosition(26, 27)) ]
  }

  lemma ScenarioGetTablet()
    ensures GetTablet(FillMap(), 1, 2, 3) == Ok(FillMap()[0])
    ensures GetTablet(FillMap(), 11, 12, 13) == Ok(FillMap()[1])
    ensures GetTablet(FillMap(), 21, 22, 23) == Ok(FillMap()[2])
    ensures GetTablet(FillMap(), 0, 0, 0) == Err(NoSuchTablet)
  {
    var d := FillMap();
    GetTabletAt(d, 0, 1, 2, 3);
    GetTabletAt(d, 1, 11, 12, 13);
    GetTabletAt(d, 2, 21, 22, 23);
    assert !Contains(d, 0, 0, 0);
  }

  // ---------------------------------------------------------------------
  // getTabletsForTable

  function AddFive(t0: Tablet, t1: Tablet, t2: Tablet, t3: Tablet, t4: Tablet): Directory {
    AddTablet(AddTablet(AddTablet(AddTablet(AddTablet([], t0), t1), t2), t3), t4)
  }

  /** Enumerating one table of five added records: each contributes itself if it belongs to the table. */
  lemma ListFive(t0: Tablet, t1: Tablet, t2: Tablet, t3: Tablet, t4: Tablet, table: U64)
    ensures GetTabletsForTable(AddFive(t0, t1, t2, t3, t4), table)
            == (if t0.tableId == table then [t0] else []) + (if t1.tableId == table then [t1] else [])
               + (if t2.tableId == table then [t2] else []) + (if t3.tableId == table then [t3] else [])
               + (if t4.tableId == table then [t4] else [])
  {
    var d1 := AddTablet([], t0);
    var d2 := AddTablet(d1, t1);
    var d3 := AddTablet(d2, t2);
    var d4 := AddTablet(d3, t3);
    AddTabletThenList([], t0, table);
    AddTabletThenList(d1, t1, table);
    AddTabletThenList(d2, t2, table);
    AddTabletThenList(d3, t3, table);
    AddTabletThenList(d4, t4, table);
  }

  /** Table 0 of the records of ScenarioGetTabletsForTable. */
  lemma ListTable0(t0: Tablet, t1: Tablet, t2: Tablet, t3: Tablet, t4: Tablet)
    requires t0.tableId == 0 && t1.tableId == 1 && t2.tableId == 0 && t3.tableId == 1 && t4.tableId == 2
    ensures GetTabletsForTable(AddFive(t0, t1, t2, t3, t4), 0) == [t0, t2]
  {
    var d1 := AddTablet([], t0);
    var d2 := AddTablet(d1, t1);
    var d3 := AddTablet(d2, t2);
    var d4 := AddTablet(d3, t3);
    AddTabletThenList([], t0, 0);
    assert GetTabletsForTable(d1, 0) == [t0];
    AddTabletThenList(d1, t1, 0);
    AddTabletThenList(d2, t2, 0);
    assert GetTabletsForTable(d3, 0) == [t0, t2];
    AddTabletThenList(d3, t3, 0);
    AddTabletThenList(d4, t4, 0);
  }

  /** Table 1 of the records of ScenarioGetTabletsForTable. */
  lemma ListTable1(t0: Tablet, t1: Tablet, t2: Tablet, t3: Tablet, t4: Tablet)
    requires t0.tableId == 0 && t1.tableId == 1 && t2.tableId == 0 && t3.tableId == 1 && t4.tableId == 2
    ensures GetTabletsForTable(AddFive(t0, t1, t2, t3, t4), 1) == [t1, t3]
  {
    var d1 := AddTablet([], t0);
    var d2 := AddTablet(d1, t1);
    var d3 := AddTablet(d2, t2);
    var d4 := AddTablet(d3, t3);
    AddTabletThenList([], t0, 1);
    AddTabletThenList(d1, t1, 1);
    assert GetTabletsForTable(d2, 1) == [t1];
    AddTabletThenList(d2, t2, 1);
    AddTabletThenList(d3, t3, 1);
    assert GetTabletsForTable(d4, 1) == [t1, t3];
    AddTabletThenList(d4, t4, 1);
  }

  /** Tables 2 and 3 of the records of ScenarioGetTabletsForTable. */
  lemma ListTables2And3(t0: Tablet, t1: Tablet, t2: Tablet, t3: Tablet, t4: Tablet)
    requires t0.tableId == 0 && t1.tableId == 1 && t2.tableId == 0 && t3.tableId == 1 && t4.tableId == 2
    ensures GetTabletsForTable(AddFive(t0, t1, t2, t3, t4), 2) == [t4]
    ensures GetTabletsForTable(AddFive(t0, t1, t2, t3, t4), 3) == []
  {
    ListFive(t0, t1, t2, t3, t4, 2);
    assert [] + [] + [] + [] + [t4] == [t4];
    ListFive(t0, t1, t2, t3, t4, 3);
  }

  /**
   Five records added in order for tables 0, 1, 0, 1, 2 (their other fields
   do not matter): each table lists its own records in the order added, and a
   table with none lists nothing.
   */
  lemma ScenarioGetTabletsForTable(t0: Tablet, t1: Tablet, t2: Tablet, t3: Tablet, t4: Tablet)
    requires t0.tableId == 0 && t1.tableId == 1 && t2.tableId == 0 && t3.tableId == 1 && t4.tableId == 2
    ensures GetTabletsForTable(AddFive(t0, t1, t2, t3, t4), 0) == [t0, t2]
    ensures GetTabletsForTable(AddFive(t0, t1, t2, t3, t4), 1) == [t1, t3]
    ensures GetTabletsForTable(AddFive(t0, t1, t2, t3, t4), 2) == [t4]
    ensures GetTabletsForTable(AddFive(t0, t1, t2, t3, t4), 3) == []
  {
    ListTable0(t0, t1, t2, t3, t4);
    ListTable1(t0, t1, t2, t3, t4);
    ListTables2And3(t0, t1, t2, t3, t4);
  }

  // ---------------------------------------------------------------------
  // modifyTablet

  lemma ScenarioModifyTablet(t: Tablet)
    requires t.Matches(0, 1, 6)
    ensures ModifyTablet([t], 0, 1, 6, ServerId(1, 2), RECOVERING, LogPosition(3, 9))
            == Ok([Tablet(0, 1, 6, ServerId(1, 2), RECOVERING, LogPosition(3, 9))])
    ensures ModifyTablet([t], 0, 0, 0, ServerId(0, 0), NORMAL, LogPosition(0, 0)) == Err(NoSuchTablet)
  {
    FindAt([t], 0, 0, 1, 6);
    assert [t][0 := t.(serverId := ServerId(1, 2), status := RECOVERING, ctime := LogPosition(3, 9))]
           == [Tablet(0, 1, 6, ServerId(1, 2), RECOVERING, LogPosition(3, 9))];
    assert !Contains([t], 0, 0, 0);
  }

  // ---------------------------------------------------------------------
  // removeTabletsForTable

  lemma RemoveFromLast(t2: Tablet)
    requires t2.tableId == 0
    ensures RemoveTabletsForTable([t2], 1) == Removal([t2], [])
    ensures RemoveTabletsForTable([t2], 0) == Removal([], [t2])
  {
    assert [t2][1..] == [];
  }

  lemma RemoveTable1(t0: Tablet, t1: Tablet, t2: Tablet)
    requires t0.tableId == 0 && t1.tableId == 1 && t2.tableId == 0
    ensures RemoveTabletsForTable([t0, t1, t2], 1) == Removal([t0, t2], [t1])
  {
    RemoveFromLast(t2);
    assert [t1, t2][1..] == [t2];
    assert RemoveTabletsForTable([t1, t2], 1) == Removal([t2], [t1]);
    assert [t0, t1, t2][1..] == [t1, t2];
  }

  lemma RemoveTable0(t0: Tablet, t2: Tablet)
    requires t0.tableId == 0 && t2.tableId == 0
    ensures RemoveTabletsForTable([t0, t2], 0) == Removal([], [t0, t2])
  {
    RemoveFromLast(t2);
    assert [t0, t2][1..] == [t2];
  }

  /** Three records for tables 0, 1, 0: removing table 2, then 1, then 0. */
  lemma ScenarioRemoveTabletsForTable(t0: Tablet, t1: Tablet, t2: Tablet)
    requires t0.tableId == 0 && t1.tableId == 1 && t2.tableId == 0
    ensures RemoveTabletsForTable([t0, t1, t2], 2) == Removal([t0, t1, t2], [])
    ensures RemoveTabletsForTable([t0, t1, t2], 1) == Removal([t0, t2], [t1])
    ensures RemoveTabletsForTable([t0, t2], 0) == Removal([], [t0, t2])
  {
    RemoveTabletsForAbsentTable([t0, t1, t2], 2);
    RemoveTable1(t0, t1, t2);
    RemoveTable0(t0, t2);
  }

  // ---------------------------------------------------------------------
  // setStatusForServer

  lemma RecoverServer0(t0: Tablet, t1: Tablet, t2: Tablet)
    requires t0.serverId == ServerId(0, 1) && t1.serverId == ServerId(1, 1) && t2.serverId == ServerId(0, 1)
    ensures SetStatusForServer([t0, t1, t2], ServerId(0, 1), RECOVERING)
            == StatusUpdate([t0.(status := RECOVERING), t1, t2.(status := RECOVERING)],
                            [t0.(status := RECOVERING), t2.(status := RECOVERING)])
  {
    var r := SetStatusForServer([t0, t1, t2], ServerId(0, 1), RECOVERING);
    var d1 := [t0.(status := RECOVERING), t1, t2.(status := RECOVERING)];
    assert r.directory == d1;
    assert d1[1..] == [t1, t2.(status := RECOVERING)];
    assert d1[1..][1..] == [t2.(status := RECOVERING)];
    assert d1[1..][1..][1..] == [];
  }

  lemma RecoverServer1(t0: Tablet, t1: Tablet, t2: Tablet)
    requires t0.serverId == ServerId(0, 1) && t1.serverId == ServerId(1, 1) && t2.serverId == ServerId(0, 1)
    ensures var r := SetStatusForServer([t0.(status := RECOVERING), t1, t2.(status := RECOVERING)],
                                        ServerId(1, 1), RECOVERING);
            && r.directory == [t0.(status := RECOVERING), t1.(status := RECOVERING), t2.(status := RECOVERING)]
            && r.updated == [t1.(status := RECOVERING)]
  {
    var d1 := [t0.(status := RECOVERING), t1, t2.(status := RECOVERING)];
    var d2 := [t0.(status := RECOVERING), t1.(status := RECOVERING), t2.(status := RECOVERING)];
    assert SetStatusForServer(d1, ServerId(1, 1), RECOVERING).directory == d2;
    assert d2[1..] == [t1.(status := RECOVERING), t2.(status := RECOVERING)];
    assert d2[1..][1..] == [t2.(status := RECOVERING)];
    assert d2[1..][1..][1..] == [];
  }

  /** After each update, the updated triples look up to their records with the new status. */
  lemma LookupAfterRecovery(t0: Tablet, t1: Tablet, t2: Tablet)
    requires t0.Matches(0, 1, 6) && t1.Matches(1, 2, 7) && t2.Matches(0, 3, 8)
    ensures var d1 := [t0.(status := RECOVERING), t1, t2.(status := RECOVERING)];
            && GetTablet(d1, 0, 1, 6) == Ok(t0.(status := RECOVERING))
            && GetTablet(d1, 0, 3, 8) == Ok(t2.(status := RECOVERING))
    ensures var d2 := [t0.(status := RECOVERING), t1.(status := RECOVERING), t2.(status := RECOVERING)];
            GetTablet(d2, 1, 2, 7) == Ok(t1.(status := RECOVERING))
  {
    var d1 := [t0.(status := RECOVERING), t1, t2.(status := RECOVERING)];
    var d2 := [t0.(status := RECOVERING), t1.(status := RECOVERING), t2.(status := RECOVERING)];
    GetTabletAt(d1, 0, 0, 1, 6);
    GetTabletAt(d1, 2, 0, 3, 8);
    GetTabletAt(d2, 1, 1, 2, 7);
  }

  /**
   The three records (0, 1, 6), (1, 2, 7), (0, 3, 8), owned by servers (0, 1),
   (1, 1), (0, 1), all NORMAL: recovering server (2, 1) touches nothing;
   server (0, 1) updates the first and the third, which then look up as
   RECOVERING; server (1, 1) then updates the second, which looks up likewise.
   */
  lemma ScenarioSetStatusForServer(t0: Tablet, t1: Tablet, t2: Tablet)
    requires t0 == Tablet(0, 1, 6, ServerId(0, 1), NORMAL, LogPosition(0, 5))
    requires t1 == Tablet(1, 2, 7, ServerId(1, 1), NORMAL, LogPosition(1, 6))
    requires t2 == Tablet(0, 3, 8, ServerId(0, 1), NORMAL, LogPosition(2, 7))
    ensures SetStatusForServer([t0, t1, t2], ServerId(2, 1), RECOVERING) == StatusUpdate([t0, t1, t2], [])
    ensures var r := SetStatusForServer([t0, t1, t2], ServerId(0, 1), RECOVERING);
            && r.updated == [Tablet(0, 1, 6, ServerId(0, 1), RECOVERING, LogPosition(0, 5)),
                             Tablet(0, 3, 8, ServerId(0, 1), RECOVERING, LogPosition(2, 7))]
            && GetTablet(r.directory, 0, 1, 6) == Ok(Tablet(0, 1, 6, ServerId(0, 1), RECOVERING, LogPosition(0, 5)))
            && GetTablet(r.directory, 0, 3, 8) == Ok(Tablet(0, 3, 8, ServerId(0, 1), RECOVERING, LogPosition(2, 7)))
    ensures var r := SetStatusForServer([t0, t1, t2], ServerId(0, 1), RECOVERING);
            var r2 := SetStatusForServer(r.directory, ServerId(1, 1), RECOVERING);
            && r2.updated == [Tablet(1, 2, 7, ServerId(1, 1), RECOVERING, LogPosition(1, 6))]
            && GetTablet(r2.directory, 1, 2, 7) == Ok(Tablet(1, 2, 7, ServerId(1, 1), RECOVERING, LogPosition(1, 6)))
  {
    assert forall t :: t in [t0, t1, t2] ==> t.serverId != ServerId(2, 1);
    SetStatusForIdleServer([t0, t1, t2], ServerId(2, 1), RECOVERING);
    RecoverServer0(t0, t1, t2);
    RecoverServer1(t0, t1, t2);
    LookupAfterRecovery(t0, t1, t2);
  }

  // ---------------------------------------------------------------------
  // splitTablet

  /** `~0lu / 2`, the split point of the first split. */
  const HALF: U64 := MAX_KEY_HASH / 2

  const WHOLE := Tablet(0, 0, MAX_KEY_HASH, ServerId(1, 0), NORMAL, LogPosition(2, 3))
  const LEFT := Tablet(0, 0, 9223372036854775806, ServerId(1, 0), NORMAL, LogPosition(2, 3))
  const RIGHT := Tablet(0, 9223372036854775807, 18446744073709551615, ServerId(1, 0), NORMAL, LogPosition(2, 3))
  const LEFT_LEFT := Tablet(0, 0, 4611686018427387902, ServerId(1, 0), NORMAL, LogPosition(2, 3))
  const LEFT_RIGHT := Tablet(0, 4611686018427387903, 9223372036854775806, ServerId(1, 0), NORMAL, LogPosition(2, 3))

  /** Splitting the whole hash space at `~0lu / 2` = 2^63 - 1: the left half ends one below it. */
  lemma ScenarioSplitWholeRange()
    ensures HALF == 9223372036854775807
    ensures SplitTablet([WHOLE], 0, 0, MAX_KEY_HASH, HALF) == Ok([LEFT, RIGHT])
  {
    FindAt([WHOLE], 0, 0, 0, MAX_KEY_HASH);
    assert [WHOLE][0 := LEFT] + [RIGHT] == [LEFT, RIGHT];
  }

  /** Splitting the left half again appends its right part after the untouched right half. */
  lemma ScenarioSplitLeftHalf()
    ensures SplitTablet([LEFT, RIGHT], 0, 0, 9223372036854775806, 4611686018427387903)
            == Ok([LEFT_LEFT, RIGHT, LEFT_RIGHT])
  {
    FindAt([LEFT, RIGHT], 0, 0, 0, 9223372036854775806);
    assert [LEFT, RIGHT][0 := LEFT_LEFT] + [LEFT_RIGHT] == [LEFT_LEFT, RIGHT, LEFT_RIGHT];
  }

  /** The bounds check comes before the lookup; a valid split of a missing triple is not found. */
  lemma ScenarioSplitErrors()
    ensures SplitTablet([LEFT_LEFT, RIGHT, LEFT_RIGHT], 0, 0, 16, 8) == Err(NoSuchTablet)
    ensures SplitTablet([LEFT_LEFT, RIGHT, LEFT_RIGHT], 0, 0, 0, HALF) == Err(BadSplit)
    ensures SplitTablet([LEFT_LEFT, RIGHT, LEFT_RIGHT], 1, 0, MAX_KEY_HASH, HALF) == Err(NoSuchTablet)
  {
    var d := [LEFT_LEFT, RIGHT, LEFT_RIGHT];
    assert !Contains(d, 0, 0, 16);
    assert !Contains(d, 1, 0, MAX_KEY_HASH);
  }

  // ---------------------------------------------------------------------
  // serialize

  /** Two servers in the list: (1, 0) at "mock:host=one" and (2, 0) at "mock:host=two". */
  function MockServerList(s: ServerId): Option<string> {
    if s == ServerId(1, 0) then Some("mock:host=one")
    else if s == ServerId(2, 0) then Some("mock:host=two")
    else None
  }

  lemma ScenarioSerialize()
    ensures Serialize([ Tablet(0, 1, 6, ServerId(1, 0), NORMAL, LogPosition(0, 5)),
                        Tablet(1, 2, 7, ServerId(2, 0), NORMAL, LogPosition(1, 6)) ], MockServerList)
            == Tablets([ Entry(0, 1, 6, NORMAL, ServerId(1, 0), "mock:host=one", 0, 5),
                         Entry(1, 2, 7, NORMAL, ServerId(2, 0), "mock:host=two", 1, 6) ])
  {
    var d := [ Tablet(0, 1, 6, ServerId(1, 0), NORMAL, LogPosition(0, 5)),
               Tablet(1, 2, 7, ServerId(2, 0), NORMAL, LogPosition(1, 6)) ];
    assert d[1..] == [d[1]];
    assert d[1..][1..] == [];
  }
}
