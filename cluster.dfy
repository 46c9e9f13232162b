/**
 * The paginated cluster: a position directory plus the running count of
 * present records, mutated in place by the record lifecycle operations.
 */
module PaginatedCluster {
  import opened Wrappers
  import opened Records
  import opened Chunking
  import opened Directory

  class Cluster {
    /** The largest fragment one page holds (MAX_RECORD_SIZE); longer payloads are chained. */
    const maxFragment: nat
    /** Positions per position-map bucket: the unit of a ceiling/floor batch. */
    const bucketSize: nat
    /** One entry per issued position; its length is the next position to issue. */
    var directory: Dir
    /** The counter getEntries reports. */
    var entries: nat

    ghost predicate Valid()
      reads this
    {
      && maxFragment > 0
      && bucketSize > 0
      && entries == CountPresent(directory)
      && ChainsFit(directory, maxFragment)
    }

    /** An empty (freshly created or truncated) cluster. */
    constructor (maxFragment: nat, bucketSize: nat)
      requires maxFragment > 0 && bucketSize > 0
      ensures Valid()
      ensures this.maxFragment == maxFragment && this.bucketSize == bucketSize
      ensures directory == [] && entries == 0
    {
      this.maxFragment := maxFragment;
      this.bucketSize := bucketSize;
      directory := [];
      entries := 0;
    }

    /** The directory entry that stores a payload: its fragment chain and header. */
    function Stored(content: Bytes, version: int32, recordType: int8): (e: Entry)
      requires maxFragment > 0
      ensures e.Present? && Concat(e.chain) == content && e.version == version && e.recordType == recordType
    {
      ConcatSplit(content, maxFragment);
      Present(Split(content, maxFragment), version, recordType)
    }

    /**
     * Every present record is stored exactly as writing back what it reads
     * would store it: the chain is determined by the payload alone.
     */
    lemma PresentIsStored(pos: nat)
      requires Valid() && IsPresent(directory, pos)
      ensures var b := ReadRecord(directory, pos).value;
              directory[pos] == Stored(b.buffer, b.version, b.recordType)
    {
      SplitConcat(directory[pos].chain, maxFragment);
    }

    /**
     * getEntries: the number of present records, i.e. positions that read
     * back a record; hidden, removed and allocated positions do not count.
     */
    method GetEntries() returns (n: nat)
      requires Valid()
      ensures n == |PresentSet(directory)| && n == entries
    {
      CountIsPresentSetSize(directory);
      n := entries;
    }

    /**
     * createRecord: stores a payload at a fresh position, or at a position
     * reserved by allocatePosition; a reserved position that is not in
     * state ALLOCATED is refused.
     */
    method CreateRecord(content: Bytes, version: int32, recordType: int8, reserved: Option<nat>)
      returns (r: Result<PhysicalPosition, ClusterError>)
      requires Valid()
      modifies this
      ensures Valid()
      ensures r.Ok? <==> reserved.None? || old(StatusOf(directory, reserved.value)) == ALLOCATED
      ensures r.Err? ==> r.error == PositionNotAllocated
                         && directory == old(directory) && entries == old(entries)
      ensures reserved.None? ==>
                && r == Ok(PhysicalPosition(old(|directory|), recordType, |content|, version))
                && directory == old(directory) + [Stored(content, version, recordType)]
      ensures reserved.Some? && r.Ok? ==>
                && r.value == PhysicalPosition(reserved.value, recordType, |content|, version)
                && directory == old(directory)[reserved.value := Stored(content, version, recordType)]
      ensures r.Ok? ==>
                && entries == old(entries) + 1
                && ReadRecord(directory, r.value.clusterPosition)
                   == Some(RawBuffer(content, version, recordType))
                && PhysicalPositionOf(directory, r.value.clusterPosition) == Some(r.value)
    {
      var e := Stored(content, version, recordType);
      SplitWellFormed(content, maxFragment);
      match reserved
      case None =>
        var pos := |directory|;
        AppendCount(directory, e);
        directory := directory + [e];
        entries := entries + 1;
        r := Ok(PhysicalPosition(pos, recordType, |content|, version));
      case Some(pos) =>
        if pos < |directory| && directory[pos].Allocated? {
          SetCount(directory, pos, e);
          directory := directory[pos := e];
          entries := entries + 1;
          r := Ok(PhysicalPosition(pos, recordType, |content|, version));
        } else {
          r := Err(PositionNotAllocated);
        }
    }

    /**
     * allocatePosition: reserves the next position in state ALLOCATED; it
     * reads as no record and is not counted until createRecord fills it.
     */
    method AllocatePosition(recordType: int8) returns (p: PhysicalPosition)
      requires Valid()
      modifies this
      ensures Valid()
      ensures directory == old(directory) + [Allocated] && entries == old(entries)
      ensures p == PhysicalPosition(old(|directory|), recordType, 0, 0)
      ensures StatusOf(directory, p.clusterPosition) == ALLOCATED
      ensures ReadRecord(directory, p.clusterPosition) == None
    {
      p := PhysicalPosition(|directory|, recordType, 0, 0);
      AppendCount(directory, Allocated);
      directory := directory + [Allocated];
    }

    /**
     * updateRecord: replaces payload, version and type unconditionally,
     * whatever the stored version; an ALLOCATED position is filled as by
     * createRecord.
     */
    method UpdateRecord(pos: nat, content: Bytes, version: int32, recordType: int8)
      requires Valid()
      requires StatusOf(directory, pos) == PRESENT || StatusOf(directory, pos) == ALLOCATED
      modifies this
      ensures Valid()
      ensures directory == old(directory)[pos := Stored(content, version, recordType)]
      ensures entries == old(entries) + (if old(directory[pos]).Allocated? then 1 else 0)
      ensures ReadRecord(directory, pos) == Some(RawBuffer(content, version, recordType))
    {
      var e := Stored(content, version, recordType);
      SplitWellFormed(content, maxFragment);
      SetCount(directory, pos, e);
      if directory[pos].Allocated? {
        entries := entries + 1;
      }
      directory := directory[pos := e];
    }

    /**
     * deleteRecord: turns a present record into a REMOVED tombstone and
     * answers true; on any other position it changes nothing and answers false.
     */
    method DeleteRecord(pos: int) returns (deleted: bool)
      requires Valid()
      modifies this
      ensures Valid()
      ensures deleted == old(IsPresent(directory, pos))
      ensures deleted ==> directory == old(directory)[pos := Removed] && entries == old(entries) - 1
      ensures !deleted ==> directory == old(directory) && entries == old(entries)
      ensures ReadRecord(directory, pos) == None && PhysicalPositionOf(directory, pos) == None
      ensures deleted ==> StatusOf(directory, pos) == REMOVED
    {
      deleted := IsPresent(directory, pos);
      if deleted {
        SetCount(directory, pos, Removed);
        directory := directory[pos := Removed];
        entries := entries - 1;
      }
    }

    /**
     * hideRecord: like deleteRecord, but leaves a HIDDEN tombstone, which
     * getRecordStatus reports as REMOVED and recycleRecord refuses.
     */
    method HideRecord(pos: int) returns (hidden: bool)
      requires Valid()
      modifies this
      ensures Valid()
      ensures hidden == old(IsPresent(directory, pos))
      ensures hidden ==> directory == old(directory)[pos := Hidden] && entries == old(entries) - 1
      ensures !hidden ==> directory == old(directory) && entries == old(entries)
      ensures ReadRecord(directory, pos) == None && PhysicalPositionOf(directory, pos) == None
      ensures hidden ==> StatusOf(directory, pos) == REMOVED
    {
      hidden := IsPresent(directory, pos);
      if hidden {
        SetCount(directory, pos, Hidden);
        directory := directory[pos := Hidden];
        entries := entries - 1;
      }
    }

    /**
     * recycleRecord: revives a deleted record at the same position with new
     * payload, version and type; a record that is not deleted (present,
     * allocated, hidden or never issued) cannot be resurrected.
     */
    method RecycleRecord(pos: int, content: Bytes, version: int32, recordType: int8)
      returns (r: Result<(), ClusterError>)
      requires Valid()
      modifies this
      ensures Valid()
      ensures r.Ok? <==> old(0 <= pos < |directory| && directory[pos].Removed?)
      ensures r.Ok? ==> directory == old(directory)[pos := Stored(content, version, recordType)]
                        && entries == old(entries) + 1
                        && ReadRecord(directory, pos) == Some(RawBuffer(content, version, recordType))
      ensures r == Ok(()) || r == Err(CannotRecycle)
      ensures r.Err? ==> directory == old(directory) && entries == old(entries)
    {
      if 0 <= pos < |directory| && directory[pos].Removed? {
        var e := Stored(content, version, recordType);
        SplitWellFormed(content, maxFragment);
        SetCount(directory, pos, e);
        directory := directory[pos := e];
        entries := entries + 1;
        r := Ok(());
      } else {
        r := Err(CannotRecycle);
      }
    }
  }
}
