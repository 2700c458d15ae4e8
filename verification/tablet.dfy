/**
 The records kept by the coordinator's tablet directory: a tablet is one
 inclusive range of the 64-bit key-hash space of one table, owned by one
 master server, with a recovery status and the log position at which the
 ownership was established.
 */
module Tablets {

  /** Unsigned 64-bit and 32-bit integers of the C++ source. */
  type U64 = x: nat | x < 0x1_0000_0000_0000_0000
  type U32 = x: nat | x < 0x1_0000_0000

  /** The largest key hash, written `~0lu` in the source. */
  const MAX_KEY_HASH: U64 := 0xFFFF_FFFF_FFFF_FFFF

  /** A server instance: a slot index plus the generation that reused it. */
  datatype ServerId = ServerId(indexNumber: U32, generationNumber: U32)

  datatype Status = NORMAL | RECOVERING

  /** A position in a master's log: segment id and offset within it. */
  datatype LogPosition = LogPosition(segmentId: U64, offset: U32)

  /** The part of a tablet that names who serves it and since when. */
  datatype Assignment = Assignment(serverId: ServerId, status: Status, ctime: LogPosition)

  datatype Tablet = Tablet(
    tableId: U64,
    startKeyHash: U64,
    endKeyHash: U64,
    serverId: ServerId,
    status: Status,
    ctime: LogPosition)
  {
    /** True when this record has exactly the key triple given. */
    predicate Matches(table: U64, start: U64, end: U64) {
      tableId == table && startKeyHash == start && endKeyHash == end
    }

    /** True when hash `h` of table `table` falls inside this record's range. */
    predicate Covers(table: U64, h: U64) {
      tableId == table && startKeyHash <= h <= endKeyHash
    }

    function Owner(): Assignment {
      Assignment(serverId, status, ctime)
    }
  }

  /** The two exceptions the directory throws. */
  datatype Error = NoSuchTablet | BadSplit

  datatype Result<+T> = Ok(value: T) | Err(error: Error)

  datatype Option<+T> = None | Some(value: T)
}
