/**
 * The usage scenarios the cluster's test suite runs against a truncated
 * cluster, each on a cluster of its own. The random payloads, the random
 * choice of records to remove or update and the random record sizes become
 * parameters, so every scenario is stated for all of them at once.
 */
module ClusterScenarios {
  import opened Wrappers
  import opened Records
  import opened Chunking
  import opened Directory
  import opened PaginatedCluster
  import opened Traversal

  /** The ten-byte record most scenarios start from. */
  const SmallRecord: Bytes := [1, 2, 3, 4, 5, 6, 7, 8, 9, 0]

  /** The twelve-byte record the update and resurrect scenarios write over it. */
  const UpdatedRecord: Bytes := [2, 3, 4, 5, 6, 7, 8, 9, 0, 1, 2, 3]

  /** Java's `(byte) x`: the low eight bits of x, read as a signed byte. */
  function ToByte(x: int): (b: int8) {
    var b := x % 256;
    if b < 128 then b as int8 else (b - 256) as int8
  }

  /** The payload `(byte) j` for j = 0 .. n-1 that the resurrect scenario grows. */
  function Ramp(n: nat): (r: Bytes) {
    seq(n, j => ToByte(j))
  }

  /** How many records a removal mask selects. */
  function Selected(mask: seq<bool>): (n: nat) {
    if mask == [] then 0 else Selected(mask[..|mask| - 1]) + (if mask[|mask| - 1] then 1 else 0)
  }

  lemma SelectedPrefix(mask: seq<bool>, i: nat)
    requires i < |mask|
    ensures Selected(mask[..i + 1]) == Selected(mask[..i]) + (if mask[i] then 1 else 0)
  {
    assert mask[..i + 1][..i] == mask[..i];
  }

  /** The entry deleteRecord (or, when hiding, hideRecord) leaves behind. */
  function Tombstone(hiding: bool): (e: Entry) {
    if hiding then Hidden else Removed
  }

  /** Twenty zero bytes: Java's `new byte[20]`. */
  const Zeros20: Bytes := seq(20, _ => 0)

  /** The entries a run of createRecord calls appends: one stored entry per payload, in order. */
  function Filled(c: Cluster, payloads: seq<Bytes>, version: int32, recordType: int8): (d: Dir)
    requires c.maxFragment > 0
    ensures |d| == |payloads|
  {
    if payloads == [] then []
    else Filled(c, payloads[..|payloads| - 1], version, recordType)
         + [c.Stored(payloads[|payloads| - 1], version, recordType)]
  }

  lemma {:induction false} FilledAt(c: Cluster, payloads: seq<Bytes>, version: int32, recordType: int8, j: nat)
    requires c.maxFragment > 0 && j < |payloads|
    ensures Filled(c, payloads, version, recordType)[j] == c.Stored(payloads[j], version, recordType)
    decreases |payloads|
  {
    if j < |payloads| - 1 {
      FilledAt(c, payloads[..|payloads| - 1], version, recordType, j);
    }
  }

  /** The directory after the records the mask selects were deleted (or, when hiding, hidden). */
  function Masked(d: Dir, mask: seq<bool>, hiding: bool): (r: Dir)
    requires |mask| <= |d|
    ensures |r| == |d|
  {
    if mask == [] then d
    else
      var m := Masked(d, mask[..|mask| - 1], hiding);
      if mask[|mask| - 1] then m[|mask| - 1 := Tombstone(hiding)] else m
  }

  lemma {:induction false} MaskedAt(d: Dir, mask: seq<bool>, hiding: bool, j: nat)
    requires |mask| <= |d| && j < |d|
    ensures Masked(d, mask, hiding)[j] == if j < |mask| && mask[j] then Tombstone(hiding) else d[j]
    decreases |mask|
  {
    if mask != [] {
      MaskedAt(d, mask[..|mask| - 1], hiding, j);
    }
  }

  /** Extending the mask by one position tombstones that position or leaves the directory as it was. */
  lemma MaskStep(d: Dir, mask: seq<bool>, hiding: bool, i: nat)
    requires i < |mask| <= |d|
    ensures Masked(d, mask[..i + 1], hiding)
            == if mask[i] then Masked(d, mask[..i], hiding)[i := Tombstone(hiding)] else Masked(d, mask[..i], hiding)
  {
    assert mask[..i + 1][..i] == mask[..i];
  }

  /** The directory after the records the mask selects were updated to version 3 and type 3. */
  function Updated(c: Cluster, d: Dir, mask: seq<bool>, updates: seq<Bytes>): (r: Dir)
    requires c.maxFragment > 0 && |mask| <= |d| && |mask| <= |updates|
    ensures |r| == |d|
  {
    if mask == [] then d
    else
      var m := Updated(c, d, mask[..|mask| - 1], updates);
      if mask[|mask| - 1] then m[|mask| - 1 := c.Stored(updates[|mask| - 1], 3, 3)] else m
  }

  lemma {:induction false} UpdatedAt(c: Cluster, d: Dir, mask: seq<bool>, updates: seq<Bytes>, j: nat)
    requires c.maxFragment > 0 && |mask| <= |d| && |mask| <= |updates| && j < |d|
    ensures Updated(c, d, mask, updates)[j]
            == if j < |mask| && mask[j] then c.Stored(updates[j], 3, 3) else d[j]
    decreases |mask|
  {
    if mask != [] {
      UpdatedAt(c, d, mask[..|mask| - 1], updates, j);
    }
  }

  /** Creates one record per payload at fresh positions, in order. */
  method CreateEach(c: Cluster, payloads: seq<Bytes>, version: int32, recordType: int8)
    returns (positions: seq<nat>)
    requires c.Valid()
    modifies c
    ensures c.Valid()
    ensures c.directory == old(c.directory) + Filled(c, payloads, version, recordType)
    ensures c.entries == old(c.entries) + |payloads|
    ensures |positions| == |payloads|
    ensures forall i | 0 <= i < |payloads| :: positions[i] == old(|c.directory|) + i
  {
    positions := [];
    var i := 0;
    while i < |payloads|
      invariant 0 <= i <= |payloads| && c.Valid()
      invariant c.directory == old(c.directory) + Filled(c, payloads[..i], version, recordType)
      invariant c.entries == old(c.entries) + i
      invariant |positions| == i
      invariant forall j | 0 <= j < i :: positions[j] == old(|c.directory|) + j
    {
      ghost var before := c.directory;
      var r := c.CreateRecord(payloads[i], version, recordType, None);
      assert payloads[..i + 1][..i] == payloads[..i];
      ghost var filled := Filled(c, payloads[..i], version, recordType);
      ghost var e := c.Stored(payloads[i], version, recordType);
      assert (old(c.directory) + filled) + [e] == old(c.directory) + (filled + [e]);
      positions := positions + [r.value.clusterPosition];
      i := i + 1;
    }
    assert payloads[..i] == payloads;
  }

  /**
   * testDeleteRecordAndAddNewOnItsPlace: a deleted position is not reused;
   * the next record gets the next position, carrying the version it was
   * created with.
   */
  method DeleteRecordAndAddNewOnItsPlace(maxFragment: nat, bucketSize: nat)
    returns (first: PhysicalPosition, second: PhysicalPosition, deleted: bool)
    requires maxFragment > 0 && bucketSize > 0
    ensures first == PhysicalPosition(0, 1, 10, 2) && deleted
    ensures second == PhysicalPosition(1, 1, 10, 0)
  {
    var c := new Cluster(maxFragment, bucketSize);
    var r := c.CreateRecord(SmallRecord, 2, 1, None);
    first := r.value;
    deleted := c.DeleteRecord(first.clusterPosition);
    r := c.CreateRecord(SmallRecord, 0, 1, None);
    second := r.value;
  }

  /**
   * testAddOneSmallRecord / testAddOneBigRecord: a record of any size,
   * one page or a chain of pages, reads back byte for byte with its
   * version and type.
   */
  method AddOneRecord(content: Bytes, maxFragment: nat, bucketSize: nat)
    returns (position: nat, read: Option<RawBuffer>)
    requires maxFragment > 0 && bucketSize > 0
    ensures position == 0
    ensures read == Some(RawBuffer(content, 2, 1))
  {
    var c := new Cluster(maxFragment, bucketSize);
    var r := c.CreateRecord(content, 2, 1, None);
    position := r.value.clusterPosition;
    read := ReadRecord(c.directory, position);
  }

  /**
   * testAddManySmallRecords / testAddManyBigRecords / testAddManyRecords:
   * every record of a batch reads back as created.
   */
  method AddManyRecords(payloads: seq<Bytes>, maxFragment: nat, bucketSize: nat)
    returns (positions: seq<nat>, readBack: seq<Option<RawBuffer>>)
    requires maxFragment > 0 && bucketSize > 0
    ensures |positions| == |payloads| && |readBack| == |payloads|
    ensures forall i | 0 <= i < |payloads| ::
              positions[i] == i && readBack[i] == Some(RawBuffer(payloads[i], 2, 2))
  {
    var c := new Cluster(maxFragment, bucketSize);
    positions := CreateEach(c, payloads, 2, 2);
    readBack := ReadFilled(c, payloads);
  }

  /** Reads every position of a freshly filled cluster. */
  method ReadFilled(c: Cluster, payloads: seq<Bytes>) returns (readBack: seq<Option<RawBuffer>>)
    requires c.maxFragment > 0 && c.directory == Filled(c, payloads, 2, 2)
    ensures |readBack| == |payloads|
    ensures forall i | 0 <= i < |payloads| :: readBack[i] == Some(RawBuffer(payloads[i], 2, 2))
  {
    readBack := [];
    while |readBack| < |payloads|
      invariant |readBack| <= |payloads|
      invariant forall j | 0 <= j < |readBack| :: readBack[j] == Some(RawBuffer(payloads[j], 2, 2))
    {
      FilledAt(c, payloads, 2, 2, |readBack|);
      readBack := readBack + [ReadRecord(c.directory, |readBack|)];
    }
  }

  /**
   * testAllocatePositionMap / testManyAllocatePositionMap: reserved
   * positions read as no record until createRecord fills them, after
   * which each reads back the twenty zero bytes written there.
   */
  method AllocateThenCreate(count: nat, maxFragment: nat, bucketSize: nat)
    returns (before: seq<Option<RawBuffer>>, after: seq<Option<RawBuffer>>)
    requires maxFragment > 0 && bucketSize > 0
    ensures |before| == count && |after| == count
    ensures forall i | 0 <= i < count :: before[i] == None
    ensures forall i | 0 <= i < count :: after[i] == Some(RawBuffer(Zeros20, 1, 100))
  {
    var c := new Cluster(maxFragment, bucketSize);
    var positions: seq<nat> := [];
    before := [];
    while |positions| < count
      invariant c.Valid() && fresh(c)
      invariant |before| == |positions| <= count && |c.directory| == |positions|
      invariant forall j | 0 <= j < |positions| :: positions[j] == j && c.directory[j] == Allocated
      invariant forall j | 0 <= j < |before| :: before[j] == None
    {
      var p := c.AllocatePosition(100);
      before := before + [ReadRecord(c.directory, p.clusterPosition)];
      positions := positions + [p.clusterPosition];
    }
    after := [];
    while |after| < count
      invariant c.Valid() && fresh(c)
      invariant |after| <= count && |c.directory| == count
      invariant forall j | |after| <= j < count :: c.directory[j] == Allocated
      invariant forall j | 0 <= j < |after| :: after[j] == Some(RawBuffer(Zeros20, 1, 100))
    {
      var i := |after|;
      var r := c.CreateRecord(Zeros20, 1, 100, Some(positions[i]));
      after := after + [ReadRecord(c.directory, positions[i])];
    }
  }

  /** deleteRecord (or hideRecord) on position i when the mask selects it; false otherwise. */
  method RemoveIfSelected(c: Cluster, i: nat, selected: bool, hiding: bool) returns (done: bool)
    requires c.Valid()
    modifies c
    ensures c.Valid()
    ensures done == (selected && old(IsPresent(c.directory, i)))
    ensures done ==> c.directory == old(c.directory)[i := Tombstone(hiding)] && c.entries == old(c.entries) - 1
    ensures !done ==> c.directory == old(c.directory) && c.entries == old(c.entries)
  {
    done := false;
    if selected {
      if hiding {
        done := c.HideRecord(i);
      } else {
        done := c.DeleteRecord(i);
      }
    }
  }

  /** One turn of RemoveEach: position i is removed exactly when the mask selects it. */
  method RemoveNext(c: Cluster, ghost filled: Dir, mask: seq<bool>, hiding: bool, i: nat) returns (done: bool)
    requires c.Valid() && i < |mask| <= |filled| && filled[i].Present?
    requires c.directory == Masked(filled, mask[..i], hiding)
    modifies c
    ensures c.Valid() && done == mask[i]
    ensures c.directory == Masked(filled, mask[..i + 1], hiding)
    ensures c.entries == old(c.entries) - (if mask[i] then 1 else 0)
  {
    MaskedAt(filled, mask[..i], hiding, i);
    MaskStep(filled, mask, hiding, i);
    done := RemoveIfSelected(c, i, mask[i], hiding);
  }

  /**
   * Removes the selected records of a freshly filled cluster, one position
   * at a time, reading getEntries after each removal.
   */
  method RemoveEach(c: Cluster, payloads: seq<Bytes>, mask: seq<bool>, hiding: bool)
    returns (first: seq<bool>, counts: seq<nat>)
    requires c.Valid() && |mask| == |payloads|
    requires c.directory == Filled(c, payloads, 2, 2) && c.entries == |payloads|
    modifies c
    ensures c.Valid() && c.directory == Masked(Filled(c, payloads, 2, 2), mask, hiding)
    ensures c.entries == |payloads| - Selected(mask)
    ensures |first| == |mask| && forall i | 0 <= i < |mask| && mask[i] :: first[i]
    ensures |counts| == Selected(mask) && forall k | 0 <= k < |counts| :: counts[k] == |payloads| - (k + 1)
  {
    ghost var filled := Filled(c, payloads, 2, 2);
    var n := |payloads|;
    first := [];
    counts := [];
    while |first| < n
      invariant c.Valid() && |first| <= n
      invariant c.directory == Masked(filled, mask[..|first|], hiding)
      invariant c.entries == n - Selected(mask[..|first|])
      invariant forall j | 0 <= j < |first| && mask[j] :: first[j]
      invariant |counts| + c.entries == n && forall k | 0 <= k < |counts| :: counts[k] == n - (k + 1)
    {
      var i := |first|;
      FilledAt(c, payloads, 2, 2, i);
      SelectedPrefix(mask, i);
      var done := RemoveNext(c, filled, mask, hiding, i);
      first := first + [done];
      if done {
        var count := c.GetEntries();
        assert count == n - (|counts| + 1);
        counts := counts + [count];
      }
    }
    assert mask[..n] == mask;
  }

  /** Tries to remove every selected record a second time; nothing changes. */
  method RetryEach(c: Cluster, payloads: seq<Bytes>, mask: seq<bool>, hiding: bool) returns (again: seq<bool>)
    requires c.Valid() && |mask| == |payloads|
    requires c.directory == Masked(Filled(c, payloads, 2, 2), mask, hiding)
    modifies c
    ensures c.Valid() && c.directory == old(c.directory)
    ensures |again| == |mask| && forall i | 0 <= i < |mask| && mask[i] :: !again[i]
  {
    again := [];
    while |again| < |payloads|
      invariant c.Valid() && |again| <= |payloads| && c.directory == old(c.directory)
      invariant forall j | 0 <= j < |again| && mask[j] :: !again[j]
    {
      var i := |again|;
      MaskedAt(Filled(c, payloads, 2, 2), mask, hiding, i);
      FilledAt(c, payloads, 2, 2, i);
      var retry := RemoveIfSelected(c, i, mask[i], hiding);
      again := again + [retry];
    }
  }

  /** Reads every position after the removals. */
  method ReadAfterRemoval(c: Cluster, payloads: seq<Bytes>, mask: seq<bool>, hiding: bool)
    returns (readBack: seq<Option<RawBuffer>>)
    requires c.maxFragment > 0 && |mask| == |payloads|
    requires c.directory == Masked(Filled(c, payloads, 2, 2), mask, hiding)
    ensures |readBack| == |mask|
    ensures forall i | 0 <= i < |mask| ::
              readBack[i] == (if mask[i] then None else Some(RawBuffer(payloads[i], 2, 2)))
  {
    readBack := [];
    while |readBack| < |payloads|
      invariant |readBack| <= |payloads|
      invariant forall j | 0 <= j < |readBack| ::
                  readBack[j] == (if mask[j] then None else Some(RawBuffer(payloads[j], 2, 2)))
    {
      var i := |readBack|;
      MaskedAt(Filled(c, payloads, 2, 2), mask, hiding, i);
      FilledAt(c, payloads, 2, 2, i);
      readBack := readBack + [ReadRecord(c.directory, i)];
    }
  }

  /**
   * testRemoveHalfSmallRecords / testHideHalfSmallRecords and their big and
   * mixed-size variants: getEntries first counts every record; deleting (or
   * hiding) the selected records succeeds once each, and getEntries read
   * after each removal has dropped by one per record removed so far; a
   * second attempt answers false; the deleted records read as no record
   * and every other record reads back unchanged.
   */
  method RemoveSelected(payloads: seq<Bytes>, mask: seq<bool>, hiding: bool, maxFragment: nat, bucketSize: nat)
    returns (initial: nat, first: seq<bool>, counts: seq<nat>, entries: nat,
             again: seq<bool>, readBack: seq<Option<RawBuffer>>)
    requires maxFragment > 0 && bucketSize > 0 && |mask| == |payloads|
    ensures initial == |payloads|
    ensures |first| == |mask| && |again| == |mask| && |readBack| == |mask|
    ensures forall i | 0 <= i < |mask| && mask[i] :: first[i] && !again[i]
    ensures |counts| == Selected(mask) && forall k | 0 <= k < |counts| :: counts[k] == |payloads| - (k + 1)
    ensures entries == |payloads| - Selected(mask)
    ensures forall i | 0 <= i < |mask| ::
              readBack[i] == (if mask[i] then None else Some(RawBuffer(payloads[i], 2, 2)))
  {
    var c := new Cluster(maxFragment, bucketSize);
    var positions := CreateEach(c, payloads, 2, 2);
    assert c.directory == Filled(c, payloads, 2, 2);
    initial := c.GetEntries();
    first, counts := RemoveEach(c, payloads, mask, hiding);
    entries := c.GetEntries();
    again := RetryEach(c, payloads, mask, hiding);
    readBack := ReadAfterRemoval(c, payloads, mask, hiding);
  }

  /**
   * testRemoveHalfRecordsAndAddAnotherHalfAgain / testHideHalf...AndAddAnotherHalfAgain:
   * getEntries counts every record, then drops by one with each removal;
   * records created after the removals take fresh positions past every
   * earlier one, and getEntries counts survivors plus newcomers.
   */
  method RemoveSelectedAndAddAgain(payloads: seq<Bytes>, mask: seq<bool>, hiding: bool, more: seq<Bytes>,
                                   maxFragment: nat, bucketSize: nat)
    returns (initial: nat, removed: seq<bool>, counts: seq<nat>, afterRemoval: nat, entries: nat,
             added: seq<nat>)
    requires maxFragment > 0 && bucketSize > 0 && |mask| == |payloads|
    ensures initial == |payloads|
    ensures |removed| == |mask| && forall i | 0 <= i < |mask| && mask[i] :: removed[i]
    ensures |counts| == Selected(mask) && forall k | 0 <= k < |counts| :: counts[k] == |payloads| - (k + 1)
    ensures afterRemoval == |payloads| - Selected(mask)
    ensures entries == |payloads| - Selected(mask) + |more|
    ensures |added| == |more| && forall i | 0 <= i < |more| :: added[i] == |payloads| + i
  {
    var c := new Cluster(maxFragment, bucketSize);
    var positions := CreateEach(c, payloads, 2, 2);
    assert c.directory == Filled(c, payloads, 2, 2);
    initial := c.GetEntries();
    removed, counts := RemoveEach(c, payloads, mask, hiding);
    afterRemoval := c.GetEntries();
    added := CreateEach(c, more, 2, 2);
    entries := c.GetEntries();
  }

  /**
   * testUpdateOneSmallRecord / ...VersionIsLowerCurrentOne / ...VersionIsMinusTwo /
   * testUpdateOneBigRecord: an update replaces payload, type and version
   * whatever the new version is, higher, lower or negative.
   */
  method UpdateOneRecord(original: Bytes, replacement: Bytes, newVersion: int32, maxFragment: nat, bucketSize: nat)
    returns (position: nat, read: Option<RawBuffer>)
    requires maxFragment > 0 && bucketSize > 0
    ensures position == 0
    ensures read == Some(RawBuffer(replacement, newVersion, 2))
  {
    var c := new Cluster(maxFragment, bucketSize);
    var r := c.CreateRecord(original, 2, 1, None);
    position := r.value.clusterPosition;
    c.UpdateRecord(position, replacement, newVersion, 2);
    read := ReadRecord(c.directory, position);
  }

  /** Updates the selected records of a freshly filled cluster with version 3 and type 3. */
  method UpdateEach(c: Cluster, payloads: seq<Bytes>, mask: seq<bool>, updates: seq<Bytes>)
    requires c.Valid() && |mask| == |payloads| && |updates| == |payloads|
    requires c.directory == Filled(c, payloads, 2, 2)
    modifies c
    ensures c.Valid() && c.directory == Updated(c, Filled(c, payloads, 2, 2), mask, updates)
  {
    ghost var filled := Filled(c, payloads, 2, 2);
    var i := 0;
    while i < |payloads|
      invariant 0 <= i <= |payloads| && c.Valid()
      invariant c.directory == Updated(c, filled, mask[..i], updates)
    {
      assert mask[..i + 1][..i] == mask[..i];
      if mask[i] {
        UpdatedAt(c, filled, mask[..i], updates, i);
        FilledAt(c, payloads, 2, 2, i);
        c.UpdateRecord(i, updates[i], 3, 3);
      }
      i := i + 1;
    }
    assert mask[..i] == mask;
  }

  /**
   * testUpdateManySmallRecords / testUpdateManyBigRecords / testUpdateManyRecords:
   * updated records read back their new payload, version and type; the
   * others read back exactly what they were created with.
   */
  method UpdateSelected(payloads: seq<Bytes>, mask: seq<bool>, updates: seq<Bytes>, maxFragment: nat, bucketSize: nat)
    returns (readBack: seq<Option<RawBuffer>>)
    requires maxFragment > 0 && bucketSize > 0 && |mask| == |payloads| && |updates| == |payloads|
    ensures |readBack| == |payloads|
    ensures forall i | 0 <= i < |payloads| ::
              readBack[i] == (if mask[i] then Some(RawBuffer(updates[i], 3, 3))
                              else Some(RawBuffer(payloads[i], 2, 2)))
  {
    var c := new Cluster(maxFragment, bucketSize);
    var positions := CreateEach(c, payloads, 2, 2);
    assert c.directory == Filled(c, payloads, 2, 2);
    UpdateEach(c, payloads, mask, updates);
    readBack := [];
    while |readBack| < |payloads|
      invariant |readBack| <= |payloads|
      invariant c.directory == Updated(c, Filled(c, payloads, 2, 2), mask, updates)
      invariant forall j | 0 <= j < |readBack| ::
                  readBack[j] == (if mask[j] then Some(RawBuffer(updates[j], 3, 3))
                                  else Some(RawBuffer(payloads[j], 2, 2)))
    {
      var i := |readBack|;
      UpdatedAt(c, Filled(c, payloads, 2, 2), mask, updates, i);
      FilledAt(c, payloads, 2, 2, i);
      readBack := readBack + [ReadRecord(c.directory, i)];
    }
  }

  /**
   * testGetPhysicalPosition: getPhysicalPosition reports the position,
   * type, size and version createRecord returned, until the record is
   * deleted, after which it reports nothing.
   */
  method GetPhysicalPositions(payloads: seq<Bytes>, mask: seq<bool>, maxFragment: nat, bucketSize: nat)
    returns (created: seq<PhysicalPosition>, before: seq<Option<PhysicalPosition>>,
             after: seq<Option<PhysicalPosition>>)
    requires maxFragment > 0 && bucketSize > 0 && |mask| == |payloads|
    requires |payloads| + 2 <= 0x7fff_ffff
    ensures |created| == |payloads| && |before| == |payloads| && |after| == |payloads|
    ensures forall i | 0 <= i < |payloads| ::
              created[i] == PhysicalPosition(i, ToByte(i), |payloads[i]|, (i + 3) as int32)
    ensures forall i | 0 <= i < |payloads| :: before[i] == Some(created[i])
    ensures forall i | 0 <= i < |payloads| :: after[i] == (if mask[i] then None else Some(created[i]))
  {
    var c := new Cluster(maxFragment, bucketSize);
    var n := |payloads|;
    created := [];
    while |created| < n
      invariant c.Valid() && fresh(c) && |created| <= n && |c.directory| == |created|
      invariant forall j | 0 <= j < |created| ::
                  && created[j] == PhysicalPosition(j, ToByte(j), |payloads[j]|, (j + 3) as int32)
                  && PhysicalPositionOf(c.directory, j) == Some(created[j])
    {
      var i := |created|;
      var r := c.CreateRecord(payloads[i], (i + 3) as int32, ToByte(i), None);
      created := created + [r.value];
    }
    before := [];
    while |before| < n
      invariant c.Valid() && fresh(c) && |before| <= n && |c.directory| == n
      invariant forall j | 0 <= j < n ::
                  PhysicalPositionOf(c.directory, j)
                  == (if j < |before| && mask[j] then None else Some(created[j]))
      invariant forall j | 0 <= j < |before| :: before[j] == Some(created[j])
    {
      var i := |before|;
      before := before + [PhysicalPositionOf(c.directory, i)];
      if mask[i] {
        var deleted := c.DeleteRecord(i);
      }
    }
    after := [];
    while |after| < n
      invariant |after| <= n
      invariant forall j | 0 <= j < |after| :: after[j] == (if mask[j] then None else Some(created[j]))
    {
      after := after + [PhysicalPositionOf(c.directory, |after|)];
    }
  }

  /** Present exactly where the mask kept the record: what the iteration scenarios walk over. */
  lemma SurvivorsArePresent(c: Cluster, payloads: seq<Bytes>, mask: seq<bool>, hiding: bool)
    requires c.maxFragment > 0 && |mask| == |payloads|
    requires c.directory == Masked(Filled(c, payloads, 2, 2), mask, hiding)
    ensures forall p: nat :: IsPresent(c.directory, p) <==> p < |mask| && !mask[p]
    ensures forall p: nat :: p in PresentSet(c.directory) <==> p < |mask| && !mask[p]
  {
    forall p: nat | p < |mask|
      ensures IsPresent(c.directory, p) <==> !mask[p]
    {
      MaskedAt(Filled(c, payloads, 2, 2), mask, hiding, p);
      FilledAt(c, payloads, 2, 2, p);
    }
  }

  /**
   * testForwardIteration: each selected record is deleted successfully; the
   * ceiling/higher walk from position 0 visits exactly the surviving
   * positions in ascending order, as many as getEntries reports, from
   * getFirstPosition to getLastPosition.
   */
  method ForwardScan(payloads: seq<Bytes>, mask: seq<bool>, maxFragment: nat, bucketSize: nat)
    returns (removed: seq<bool>, visited: seq<nat>, entries: nat, first: Option<nat>, last: Option<nat>)
    requires maxFragment > 0 && bucketSize > 0 && |mask| == |payloads|
    ensures |removed| == |mask| && forall i | 0 <= i < |mask| && mask[i] :: removed[i]
    ensures forall i, j | 0 <= i < j < |visited| :: visited[i] < visited[j]
    ensures forall p: nat :: p in visited <==> p < |mask| && !mask[p]
    ensures |visited| == entries
    ensures visited != [] ==> first == Some(visited[0]) && last == Some(visited[|visited| - 1])
  {
    var c := new Cluster(maxFragment, bucketSize);
    var positions := CreateEach(c, payloads, 2, 2);
    assert c.directory == Filled(c, payloads, 2, 2);
    var counts;
    removed, counts := RemoveEach(c, payloads, mask, false);
    visited := ForwardIteration(c.directory, c.bucketSize);
    AscendingScan(c.directory);
    entries := c.GetEntries();
    first := FirstPosition(c.directory);
    last := LastPosition(c.directory);
    SurvivorsArePresent(c, payloads, mask, false);
  }

  /**
   * testBackwardIteration: each selected record is deleted successfully;
   * the floor/lower walk from Long.MAX_VALUE visits
   * exactly the surviving positions in descending order, as many as
   * getEntries reports, from getLastPosition down to getFirstPosition.
   */
  method BackwardScan(payloads: seq<Bytes>, mask: seq<bool>, maxFragment: nat, bucketSize: nat)
    returns (removed: seq<bool>, visited: seq<nat>, entries: nat, first: Option<nat>, last: Option<nat>)
    requires maxFragment > 0 && bucketSize > 0 && |mask| == |payloads|
    requires |payloads| <= MAX_POSITION + 1
    ensures |removed| == |mask| && forall i | 0 <= i < |mask| && mask[i] :: removed[i]
    ensures forall i, j | 0 <= i < j < |visited| :: visited[i] > visited[j]
    ensures forall p: nat :: p in visited <==> p < |mask| && !mask[p]
    ensures |visited| == entries
    ensures visited != [] ==> last == Some(visited[0]) && first == Some(visited[|visited| - 1])
  {
    var c := new Cluster(maxFragment, bucketSize);
    var positions := CreateEach(c, payloads, 2, 2);
    assert c.directory == Filled(c, payloads, 2, 2);
    var counts;
    removed, counts := RemoveEach(c, payloads, mask, false);
    visited := BackwardIteration(c.directory, c.bucketSize);
    DescendingScan(c.directory, visited);
    entries := c.GetEntries();
    CountIsPresentSetSize(c.directory);
    first := FirstPosition(c.directory);
    last := LastPosition(c.directory);
    SurvivorsArePresent(c, payloads, mask, false);
  }

  /** What one round of testResurrectRecord observes. */
  datatype Round = Round(
    refused: Result<(), ClusterError>,     // recycleRecord on the present record
    statusBefore: RecordStatus,            // getRecordStatus before deleteRecord
    statusDeleted: RecordStatus,           // getRecordStatus after deleteRecord
    readDeleted: Option<RawBuffer>,        // readRecord after deleteRecord
    revived: Result<(), ClusterError>,     // recycleRecord on the deleted record
    readRevived: Option<RawBuffer>,        // readRecord after recycleRecord
    readUpdated: Option<RawBuffer>)        // readRecord after ten growing updates

  /** The growing updates of one round: payloads of 0, 10, ..., 90 bytes, type 4. */
  method GrowingUpdates(c: Cluster, version: int32)
    requires c.Valid() && |c.directory| == 1 && c.directory[0].Present?
    modifies c
    ensures c.Valid() && c.directory == [c.Stored(Ramp(90), version, 4)]
  {
    var k := 0;
    while k < 10
      invariant 0 <= k <= 10 && c.Valid() && |c.directory| == 1 && c.directory[0].Present?
      invariant k > 0 ==> c.directory == [c.Stored(Ramp(10 * (k - 1)), version, 4)]
    {
      c.UpdateRecord(0, Ramp(10 * k), version, 4);
      k := k + 1;
    }
  }

  /** The observations every round of testResurrectRecord must make with the given version. */
  function Expected(version: int32): (r: Round) {
    Round(Err(CannotRecycle), PRESENT, REMOVED, None, Ok(()),
          Some(RawBuffer(UpdatedRecord, version, 2)),
          Some(RawBuffer(Ramp(90), version, 4)))
  }

  /** What round i observes: the record was created with version 2 and each round raises it by one. */
  function ExpectedRound(i: nat): (r: Round)
    requires i + 3 <= 0x7fff_ffff
  {
    Expected((i + 3) as int32)
  }

  /** One round of testResurrectRecord on the single present record at position 0. */
  method ResurrectRound(c: Cluster, version: int32) returns (round: Round)
    requires c.Valid() && |c.directory| == 1 && c.directory[0].Present?
    modifies c
    ensures c.Valid() && |c.directory| == 1 && c.directory[0].Present?
    ensures round == Expected(version)
  {
    var refused := c.RecycleRecord(0, UpdatedRecord, version, 2);
    var statusBefore := StatusOf(c.directory, 0);
    var deleted := c.DeleteRecord(0);
    var statusDeleted := StatusOf(c.directory, 0);
    var readDeleted := ReadRecord(c.directory, 0);
    assert c.directory == [Removed];
    var revived := c.RecycleRecord(0, UpdatedRecord, version, 2);
    var readRevived := ReadRecord(c.directory, 0);
    GrowingUpdates(c, version);
    var readUpdated := ReadRecord(c.directory, 0);
    round := Round(refused, statusBefore, statusDeleted, readDeleted, revived, readRevived, readUpdated);
  }

  /**
   * testResurrectRecord: the freshly created record has status PRESENT
   * and a present record cannot be resurrected; once
   * deleted it reads as no record with status REMOVED, and recycleRecord
   * brings it back at the same position with the new payload, version and
   * type; growing updates afterwards keep it readable.
   */
  method ResurrectRecord(rounds: nat, maxFragment: nat, bucketSize: nat)
    returns (position: nat, initialStatus: RecordStatus, observed: seq<Round>)
    requires maxFragment > 0 && bucketSize > 0
    requires rounds + 2 <= 0x7fff_ffff
    ensures position == 0 && initialStatus == PRESENT && |observed| == rounds
    ensures forall i | 0 <= i < rounds :: observed[i] == Expected((i + 3) as int32)
  {
    var c := new Cluster(maxFragment, bucketSize);
    var r := c.CreateRecord(SmallRecord, 2, 1, None);
    position := r.value.clusterPosition;
    initialStatus := StatusOf(c.directory, position);
    observed := [];
    while |observed| < rounds
      invariant c.Valid() && fresh(c) && |observed| <= rounds
      invariant |c.directory| == 1 && c.directory[0].Present?
      invariant forall j | 0 <= j < |observed| :: observed[j] == ExpectedRound(j)
    {
      var round := ResurrectRound(c, (|observed| + 3) as int32);
      observed := observed + [round];
    }
  }
}
