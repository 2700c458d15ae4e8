# RAMCloud coordinator tablet directory, in Dafny

This project models RAMCloud's `TableManager`. It is the coordinator's
directory of tablets. A tablet is a record that says which master server owns
one contiguous range of 64-bit key hashes of one table. Each record also holds
its status (`NORMAL` or `RECOVERING`) and its creation time, which is a log
position.

The directory is an insertion-ordered sequence of records. Lookups take the key
triple (table, start hash, end hash) and match it exactly. A range that only
overlaps or contains the query is a miss. Every operation is a pure function
from the old directory to the new one, and failures come back as a `Result`
whose error is `NoSuchTablet` or `BadSplit`. The behaviour modelled is the one
the unit tests in `src/TableManagerTest.cc` pin down. The implementation file
`TableManager.cc` is not part of this model.

Files:

- `tablet.dfy` (`Tablets`):
  - 64-bit and 32-bit unsigned values;
  - `ServerId`, `Status`, `LogPosition` and the `Tablet` record;
  - the `Error`, `Result` and `Option` types.
- `table_manager.dfy` (`TableManager`):
  - the directory and its operations: `addTablet`, `getTablet`, `getTabletsForTable`, `modifyTablet`, `removeTabletsForTable`, `setStatusForServer`, `splitTablet` and `size`;
  - the exact-match scan they share.
- `directory_invariants.dfy` (`DirectoryInvariants`):
  - the invariants callers keep: non-empty ranges, and ranges of one table that do not overlap;
  - the "same key triples" relation;
  - the hash-to-owner routing relation;
  - the lookup facts the proofs share.
- `table_manager_properties.dfy` (`TableManagerProperties`): the all-inputs properties that relate the operations to each other and to the invariants.
- `tablet_serialization.dfy` (`TabletSerialization`):
  - `serialize`, producing one snapshot entry per record;
  - the server list as a lookup function;
  - the round trip back to the directory.
- `table_manager_scenarios.dfy` (`TableManagerScenarios`): each unit-test scenario, including the split at `~0lu / 2` = 2^63 − 1.
  - The add, lookup, set-status, split and serialize scenarios use the records of the tests, field for field.
  - The enumeration, modify and removal scenarios range over records that have the tested fields fixed: the table ids, or the key triple. Their other fields are free, so the statement holds for every choice of them.

## Model

| member | source | states |
|---|---|---|
| TableManager.Size | src/TableManagerTest.cc:55 | the number of records; how it changes is stated by AddTabletThenGet and RemoveTabletsThenGet |
| TableManager.AddTablet | src/TableManagerTest.cc:53-55 | adding appends the record at the end: one more record, and every earlier record stays where it was |
| TableManager.FindFrom | src/TableManagerTest.cc:65-77 | the scan from a position returns the first position at or after it whose record has exactly the key triple, and returns none when no later record matches |
| TableManager.Find | src/TableManagerTest.cc:65-77 | a position is found exactly when some record has the key triple, and it is the first such position |
| TableManager.GetTablet | src/TableManagerTest.cc:65-77 | lookup succeeds exactly when some record has the key triple, and then returns the record at the first such position; otherwise it fails with NoSuchTablet |
| TableManager.GetTabletsForTable | src/TableManagerTest.cc:80-102 | enumeration returns at most as many records as the directory holds, and every record returned belongs to the table asked for |
| TableManager.ModifyTablet | src/TableManagerTest.cc:104-114 | fails with NoSuchTablet exactly when the triple is absent; otherwise, at the first matching position, the key triple is kept and owner, status and ctime are the new ones, and every other position is unchanged |
| TableManager.RemoveTabletsForTable | src/TableManagerTest.cc:116-141 | the records returned are the table's enumeration; no record of the table remains; remaining plus returned counts equal the old size |
| TableManager.SetStatusForServer | src/TableManagerTest.cc:163-193 | same length; every record the server owns gets the new status and nothing else changes; the records returned are the server's records as they are after the update |
| TableManager.SplitTablet | src/TableManagerTest.cc:195-233 | BadSplit whenever the split point is not in (start, end], whether or not a record exists; then NoSuchTablet when the triple is absent; it succeeds exactly when the bounds hold and the triple is present, and then the first match ends at split − 1, and a record [split, end] with the same owner, status and ctime is appended last, with all else unchanged |
| TableManager.TabletsOwnedBy | src/TableManagerTest.cc:171-181 | the records of one server: exactly the directory's records with that owner |
| DirectoryInvariants.FindAt | src/TableManagerTest.cc:65-77 | the scan stops at the first position whose record has exactly the key triple |
| DirectoryInvariants.GetTabletAt | src/TableManagerTest.cc:65-77 | lookup returns the record at the first exactly matching position |
| DirectoryInvariants.GetTabletUnique | src/TableManagerTest.cc:65-77 | with unique key triples, every record is found by its own triple |
| DirectoryInvariants.GetTabletCons | src/TableManagerTest.cc:65-77 | with one more record in front, lookup returns it if it matches, and otherwise returns what the rest returns |
| DirectoryInvariants.ValidHasUniqueKeys | src/TableManagerTest.cc:65-77 | proof helper for getTablet: with non-empty ranges that do not overlap within a table, no key triple occurs twice (this validity is the callers' invariant, which the tests do not check) |
| DirectoryInvariants.SameKeysKeepValid | src/TableManagerTest.cc:104-114 | proof helper for modifyTablet and setStatusForServer: directories with the same key triples at the same positions are both valid or both invalid, and both have unique triples or neither has |
| DirectoryInvariants.SameKeysKeepFirstMatch | src/TableManagerTest.cc:104-114 | proof helper for modifyTablet: directories with the same key triples at the same positions have the same first matches and the same hits |
| TableManagerProperties.AddTabletThenGet | src/TableManagerTest.cc:53-63 | adding a record with a new triple increases the size by one, and looking up its triple returns it with every field as added |
| TableManagerProperties.AddTabletKeepsLookups | src/TableManagerTest.cc:53-78 | adding never changes what an existing key triple finds |
| TableManagerProperties.AddTabletKeepsValid | src/TableManagerTest.cc:53-55 | after adding, the directory is valid if and only if it was valid before, the new range is non-empty, and the new range overlaps no existing range of its table |
| TableManagerProperties.GetTabletsForTableAppend | src/TableManagerTest.cc:80-102 | the enumeration of a concatenation is the concatenation of the enumerations, so order is preserved |
| TableManagerProperties.GetTabletsForTableCounts | src/TableManagerTest.cc:80-102 | enumeration returns each record of the table as many times as the directory holds it, and no record of another table |
| TableManagerProperties.AddTabletThenList | src/TableManagerTest.cc:80-102 | the record added is listed last for its table, after the table's earlier records |
| TableManagerProperties.ModifyTabletThenGet | src/TableManagerTest.cc:104-110 | after a modification, the triple looks up to the new owner, status and ctime |
| TableManagerProperties.ModifyTabletKeepsOtherLookups | src/TableManagerTest.cc:104-114 | a modification leaves the lookup of every other triple unchanged |
| TableManagerProperties.ModifyTabletKeepsValid | src/TableManagerTest.cc:104-114 | a modification keeps a valid directory valid |
| TableManagerProperties.RemoveTabletsThenGet | src/TableManagerTest.cc:121-140 | the size drops by the number of records returned, and every triple returned then fails with NoSuchTablet |
| TableManagerProperties.RemoveTabletsForAbsentTable | src/TableManagerTest.cc:121-122 | removing a table that has no records changes nothing and returns nothing |
| TableManagerProperties.RemoveTabletsPartition | src/TableManagerTest.cc:116-141 | remaining and returned records together are the old directory, counted with multiplicity |
| TableManagerProperties.RemoveTabletsMembers | src/TableManagerTest.cc:116-141 | a record remains if and only if it was in the directory and belongs to another table |
| TableManagerProperties.RemoveTabletsKeepsOtherTables | src/TableManagerTest.cc:116-141 | every other table lists the same records in the same order as before the removal |
| TableManagerProperties.RemoveTabletsKeepsOtherLookups | src/TableManagerTest.cc:116-141 | lookups in other tables find what they found before the removal |
| TableManagerProperties.ValidCons | src/TableManagerTest.cc:116-141 | proof helper for removeTabletsForTable (validity is the callers' invariant, which the tests do not check): a directory with one more record in front is valid if and only if the rest is valid, the new range is non-empty, and it overlaps none of the rest |
| TableManagerProperties.ValidConsSplit | src/TableManagerTest.cc:116-141 | proof helper for removeTabletsForTable: if a directory with one more record in front is valid, that record's range is non-empty, it overlaps none of the rest, and the rest is valid |
| TableManagerProperties.ValidConsJoin | src/TableManagerTest.cc:116-141 | proof helper for removeTabletsForTable: a non-empty range that overlaps none of a valid directory can be put in front of it and the result is valid |
| TableManagerProperties.RemoveTabletsKeepsValid | src/TableManagerTest.cc:116-141 | removal keeps a valid directory valid |
| TableManagerProperties.SetStatusThenGet | src/TableManagerTest.cc:171-192 | with unique triples, every record returned is owned by the server, carries the new status, and is what a lookup of its triple now returns |
| TableManagerProperties.SetStatusCountsOwned | src/TableManagerTest.cc:168-172 | the update returns as many records as the server owned before |
| TableManagerProperties.SetStatusForIdleServer | src/TableManagerTest.cc:168-169 | for a server owning nothing, the directory is unchanged and nothing is returned |
| TableManagerProperties.SetStatusIdempotent | src/TableManagerTest.cc:163-193 | setting the same status again changes nothing and returns the same records |
| TableManagerProperties.SetStatusKeepsValid | src/TableManagerTest.cc:163-193 | a status update keeps a valid directory valid |
| TableManagerProperties.SplitTabletKeepsServing | src/TableManagerTest.cc:195-224 | a split changes no routing: a hash is served with a given owner, status and ctime after the split if and only if it was before |
| TableManagerProperties.SplitTabletKeepsValid | src/TableManagerTest.cc:195-224 | a split keeps a valid directory valid |
| TableManagerProperties.SplitTabletThenGet | src/TableManagerTest.cc:195-224 | in a valid directory, both halves of a split are found by their own triples, with the original owner, status and ctime |
| TableManagerProperties.SplitTabletKeepsTables | src/TableManagerTest.cc:195-224 | a split neither adds nor removes a table |
| TabletSerialization.Serialize | src/TableManagerTest.cc:143-161 | a snapshot exists exactly when every owner is in the server list; it has one entry per record in directory order, carrying the record's fields and its owner's locator; otherwise the first unresolvable owner is reported |
| TabletSerialization.SerializeRoundTrip | src/TableManagerTest.cc:143-161 | reading a snapshot back gives the directory it was taken from, in order |
| TabletSerialization.DeserializeAt | src/TableManagerTest.cc:143-161 | reading back maps each entry to the record at the same position |
| TabletSerialization.Deserialize | src/TableManagerTest.cc:143-161 | reading back gives one record per entry |
| TableManagerScenarios.ScenarioAddTablet | src/TableManagerTest.cc:53-63 | one record (1, 2, 3, (4, 5), RECOVERING, (6, 7)) gives size 1, and its triple looks up to it |
| TableManagerScenarios.ScenarioGetTablet | src/TableManagerTest.cc:41-78 | in the three-record fixture, each triple finds its own record, and (0, 0, 0) fails with NoSuchTablet |
| TableManagerScenarios.ScenarioGetTabletsForTable | src/TableManagerTest.cc:80-102 | with records for tables 0, 1, 0, 1, 2 added in order, table 0 lists the first and third, table 1 the second and fourth, table 2 the fifth, and table 3 nothing |
| TableManagerScenarios.ListFive | src/TableManagerTest.cc:80-102 | the enumeration of five added records is, in order, each record that belongs to the table |
| TableManagerScenarios.ScenarioModifyTablet | src/TableManagerTest.cc:104-114 | modifying (0, 1, 6) gives owner (1, 2), RECOVERING and ctime (3, 9), and modifying (0, 0, 0) fails with NoSuchTablet |
| TableManagerScenarios.ScenarioRemoveTabletsForTable | src/TableManagerTest.cc:116-141 | with tables 0, 1, 0: removing table 2 returns nothing, table 1 returns its one record, then table 0 returns both of its records and leaves nothing |
| TableManagerScenarios.ScenarioSetStatusForServer | src/TableManagerTest.cc:163-193 | with the records (0, 1, 6), (1, 2, 7), (0, 3, 8) owned by (0, 1), (1, 1), (0, 1), all NORMAL: server (2, 1) updates nothing; server (0, 1) returns the first and third records as RECOVERING, and their triples then look up to those records; server (1, 1) then returns the second as RECOVERING, and its triple looks up likewise |
| TableManagerScenarios.LookupAfterRecovery | src/TableManagerTest.cc:173-192 | after each status update, the updated triples look up to their records with the new status |
| TableManagerScenarios.ScenarioSplitWholeRange | src/TableManagerTest.cc:195-207 | `~0lu / 2` is 9223372036854775807, and splitting [0, 2^64 − 1] there gives [0, 9223372036854775806] in place, followed by [9223372036854775807, 18446744073709551615] |
| TableManagerScenarios.ScenarioSplitLeftHalf | src/TableManagerTest.cc:209-224 | splitting the left half at 4611686018427387903 gives [0, 4611686018427387902], then the untouched right half, then [4611686018427387903, 9223372036854775806] |
| TableManagerScenarios.ScenarioSplitErrors | src/TableManagerTest.cc:226-233 | (0, 0, 16) split at 8 gives NoSuchTablet; (0, 0, 0) split at `~0lu / 2` gives BadSplit with no such record; (1, 0, 2^64 − 1) split at `~0lu / 2` gives NoSuchTablet |
| TableManagerScenarios.ScenarioSerialize | src/TableManagerTest.cc:143-161 | two records on servers (1, 0) and (2, 0) serialize, in order, to entries with locators "mock:host=one" and "mock:host=two" and every field copied |

## Left out

- The implementation file `TableManager.cc` is not part of this model. The behaviour is the one the unit tests fix, completed where the tests are silent:
  - lookup, modification and split act on the first record whose triple matches exactly;
  - removal and enumeration keep directory order.
- RemoveTabletsKeepsOtherTables: the order of the records left after a removal is the model's own completion. The tests check only sizes and misses after a removal, so an unordered removal would fit them equally; this lemma, and the order in RemoveTabletsForTable's result, rest on that assumption.
- RemoveTabletsKeepsOtherLookups: rests on the same order-keeping assumption when another table holds a duplicate key triple, since lookup returns the first match. With unique triples (GetTabletUnique) a lookup does not depend on order.
- LogPosition: the offset is modelled as a 32-bit unsigned value and the segment id as a 64-bit one. The tests' small literals do not fix these widths.
- SplitTablet: the bounds check is start < split ≤ end. The tests pin only split > end (BadSplit) and a valid split of a missing triple (NoSuchTablet); split == start and split == end are not exercised.
- Locking: the manager's mutex only serialises the calls, so each call is modelled as one atomic function.
- `Context` and the logger: they carry no directory state.
- Serialize: the protobuf text form (`ShortDebugString`) is not modelled. The snapshot is a sequence of entries with the same fields, in the same order.
- Serialize: the server id is kept as the (index, generation) pair rather than packed into one 64-bit number.
- Serialize: the `CoordinatorServerList` becomes a function from server id to an optional locator. Server registration and id generation are not modelled, so the scenario names ids (1, 0) and (2, 0) directly.
- `debugString`: the split scenarios state the resulting directory as records rather than as text.
- `src/Transaction.h` holds no directory logic and is not modelled.
- `addTablet` performs no overlap or duplicate check. Validity is a caller invariant, and the properties state what each operation does to it.
