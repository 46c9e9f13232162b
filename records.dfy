/**
 * The values that cross the paginated cluster's interface: Java's signed
 * `byte` and `int`, the raw record a read returns, the physical position a
 * create or a position query returns, the record status and the errors.
 */
module Records {

  /** A Java `byte`: payload bytes and record-type tags are signed 8-bit values. */
  newtype int8 = x: int | -0x80 <= x < 0x80

  /** A Java `int`: record versions are signed 32-bit values (negative sentinels included). */
  newtype int32 = x: int | -0x8000_0000 <= x < 0x8000_0000

  /** Long.MAX_VALUE: no cluster position exceeds it; backward scans start from it. */
  const MAX_POSITION: int := 0x7fff_ffff_ffff_ffff

  /** A record payload, opaque to the cluster. */
  type Bytes = seq<int8>

  /** What `readRecord` returns for a present record (`ORawBuffer`). */
  datatype RawBuffer = RawBuffer(buffer: Bytes, version: int32, recordType: int8)

  /**
   * What `createRecord`, `allocatePosition` and the position queries return
   * (`OPhysicalPosition`); the data-segment pointer stays abstract.
   */
  datatype PhysicalPosition = PhysicalPosition(
    clusterPosition: nat,
    recordType: int8,
    recordSize: nat,
    recordVersion: int32)

  /** The answer of `getRecordStatus`, named as the source names it; a hidden record reports REMOVED. */
  datatype RecordStatus = NOT_EXISTENT | PRESENT | ALLOCATED | REMOVED

  /** The failures an operation reports to its caller instead of acting. */
  datatype ClusterError =
    | PositionNotAllocated   // createRecord given a reserved position that is not in state ALLOCATED
    | CannotRecycle          // recycleRecord on a record that is not deleted (OPaginatedClusterException)
}
