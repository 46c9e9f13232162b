/**
 * The position directory: one entry per issued cluster position, indexed by
 * the position itself, so its length is the next position to be issued.
 * Every read-only query of the cluster is a function of the directory.
 */
module Directory {
  import opened Wrappers
  import opened Records
  import opened Chunking

  /** The state of an issued position. Positions at or past the end are NOT_EXISTENT. */
  datatype Entry =
    | Allocated                                                   // reserved by allocatePosition, no payload yet
    | Present(chain: seq<Bytes>, version: int32, recordType: int8) // head of the fragment chain, with its header
    | Removed                                                     // tombstone left by deleteRecord
    | Hidden                                                      // tombstone left by hideRecord

  type Dir = seq<Entry>

  predicate IsPresent(dir: Dir, pos: int) {
    0 <= pos < |dir| && dir[pos].Present?
  }

  /** Every stored chain is well formed for pages holding `cap` bytes. */
  predicate ChainsFit(dir: Dir, cap: nat) {
    forall p | 0 <= p < |dir| && dir[p].Present? :: WellFormed(dir[p].chain, cap)
  }

  /** The set of positions whose record is present. */
  function PresentSet(dir: Dir): (s: set<nat>) {
    set p: nat | p < |dir| && dir[p].Present?
  }

  // ---------------------------------------------------------------------------
  // Point queries: readRecord, getRecordStatus, getPhysicalPosition

  /** readRecord: the stored record, reassembled from its chain, or no record. */
  function ReadRecord(dir: Dir, pos: int): (r: Option<RawBuffer>)
    ensures r.Some? <==> IsPresent(dir, pos)
    ensures r.Some? ==> r.value.buffer == Concat(dir[pos].chain)
                        && r.value.version == dir[pos].version
                        && r.value.recordType == dir[pos].recordType
  {
    if IsPresent(dir, pos) then
      var e := dir[pos];
      Some(RawBuffer(Concat(e.chain), e.version, e.recordType))
    else None
  }

  /** getRecordStatus; a hidden record is reported as REMOVED. */
  function StatusOf(dir: Dir, pos: int): (s: RecordStatus)
    ensures s == PRESENT <==> IsPresent(dir, pos)
    ensures s == NOT_EXISTENT <==> !(0 <= pos < |dir|)
  {
    if !(0 <= pos < |dir|) then NOT_EXISTENT
    else match dir[pos]
      case Allocated => ALLOCATED
      case Present(_, _, _) => PRESENT
      case Removed => REMOVED
      case Hidden => REMOVED
  }

  /** getPhysicalPosition: the type, size and version of a present record, or nothing. */
  function PhysicalPositionOf(dir: Dir, pos: int): (r: Option<PhysicalPosition>)
    ensures r.Some? <==> IsPresent(dir, pos)
    ensures r.Some? ==> r.value.clusterPosition == pos
                        && r.value.recordType == dir[pos].recordType
                        && r.value.recordSize == |Concat(dir[pos].chain)|
                        && r.value.recordVersion == dir[pos].version
  {
    if IsPresent(dir, pos) then
      var e := dir[pos];
      Some(PhysicalPosition(pos, e.recordType, |Concat(e.chain)|, e.version))
    else None
  }

  /** A present record's physical position agrees with what reading it returns. */
  lemma PhysicalPositionMatchesRead(dir: Dir, pos: int)
    ensures PhysicalPositionOf(dir, pos).Some? <==> ReadRecord(dir, pos).Some?
    ensures ReadRecord(dir, pos).Some? ==>
      var b := ReadRecord(dir, pos).value;
      PhysicalPositionOf(dir, pos).value
        == PhysicalPosition(pos, b.recordType, |b.buffer|, b.version)
  {
  }

  /** Writing one directory entry leaves what every other position reads, and its status, unchanged. */
  lemma OthersUnchanged(dir: Dir, pos: nat, e: Entry)
    requires pos < |dir|
    ensures forall q | q != pos :: ReadRecord(dir[pos := e], q) == ReadRecord(dir, q)
    ensures forall q | q != pos :: StatusOf(dir[pos := e], q) == StatusOf(dir, q)
  {
  }

  /** Appending an entry leaves what every earlier position reads unchanged. */
  lemma AppendKeepsReads(dir: Dir, e: Entry)
    ensures forall q | q != |dir| :: ReadRecord(dir + [e], q) == ReadRecord(dir, q)
  {
  }

  // ---------------------------------------------------------------------------
  // getEntries

  /** The number of present entries, counted from the end of the directory. */
  function CountPresent(dir: Dir): (n: nat) {
    if dir == [] then 0
    else CountPresent(dir[..|dir| - 1]) + (if dir[|dir| - 1].Present? then 1 else 0)
  }

  /** The count of present entries is the size of the set of present positions. */
  lemma {:induction false} CountIsPresentSetSize(dir: Dir)
    ensures CountPresent(dir) == |PresentSet(dir)|
    decreases |dir|
  {
    if dir != [] {
      var n := |dir| - 1;
      var init := dir[..n];
      CountIsPresentSetSize(init);
      assert n !in PresentSet(init);
      if dir[n].Present? {
        assert PresentSet(dir) == PresentSet(init) + {n};
      } else {
        assert PresentSet(dir) == PresentSet(init);
      }
    }
  }

  /** Issuing a new position changes the count by the new entry alone. */
  lemma AppendCount(dir: Dir, e: Entry)
    ensures CountPresent(dir + [e]) == CountPresent(dir) + (if e.Present? then 1 else 0)
  {
    assert (dir + [e])[..|dir|] == dir;
  }

  /** Replacing one entry changes the count only by that entry's presence. */
  lemma {:induction false} SetCount(dir: Dir, p: nat, e: Entry)
    requires p < |dir|
    ensures CountPresent(dir[p := e])
         == CountPresent(dir) - (if dir[p].Present? then 1 else 0) + (if e.Present? then 1 else 0)
    decreases |dir|
  {
    var n := |dir| - 1;
    var d' := dir[p := e];
    if p == n {
      assert d'[..n] == dir[..n];
    } else {
      assert d'[..n] == dir[..n][p := e];
      SetCount(dir[..n], p, e);
    }
  }

  // ---------------------------------------------------------------------------
  // Ordered traversal

  predicate Ascending(s: seq<nat>) {
    forall i, j | 0 <= i < j < |s| :: s[i] < s[j]
  }

  /** The present positions in [lo, hi), collected from lo upwards. */
  function PresentBetween(dir: Dir, lo: nat, hi: nat): (r: seq<nat>)
    requires hi <= |dir|
    decreases hi - lo
  {
    if lo >= hi then []
    else if dir[lo].Present? then [lo] + PresentBetween(dir, lo + 1, hi)
    else PresentBetween(dir, lo + 1, hi)
  }

  /** PresentBetween lists exactly the present positions of the range, in ascending order. */
  lemma {:induction false} PresentBetweenSpec(dir: Dir, lo: nat, hi: nat)
    requires hi <= |dir|
    ensures var r := PresentBetween(dir, lo, hi);
            && Ascending(r)
            && (forall i | 0 <= i < |r| :: lo <= r[i] < hi && dir[r[i]].Present?)
            && (forall p | lo <= p < hi && dir[p].Present? :: p in r)
    decreases hi - lo
  {
    if lo < hi {
      PresentBetweenSpec(dir, lo + 1, hi);
      var rest := PresentBetween(dir, lo + 1, hi);
      if dir[lo].Present? {
        var r := [lo] + rest;
        assert forall i | 1 <= i < |r| :: r[i] == rest[i - 1];
      }
    }
  }

  /** A range splits off its top position. */
  lemma {:induction false} PresentBetweenSnoc(dir: Dir, lo: nat, hi: nat)
    requires lo < hi <= |dir|
    ensures PresentBetween(dir, lo, hi)
         == PresentBetween(dir, lo, hi - 1) + (if dir[hi - 1].Present? then [hi - 1] else [])
    decreases hi - lo
  {
    if lo < hi - 1 {
      PresentBetweenSnoc(dir, lo + 1, hi);
    }
  }

  /** The smallest present position at or above lo, if any. */
  function FirstPresentFrom(dir: Dir, lo: nat): (r: Option<nat>)
    ensures r.Some? ==> lo <= r.value < |dir| && dir[r.value].Present?
    ensures r.Some? ==> forall q | lo <= q < r.value :: !dir[q].Present?
    ensures r.None? ==> forall q | lo <= q < |dir| :: !dir[q].Present?
    decreases |dir| - lo
  {
    if lo >= |dir| then None
    else if dir[lo].Present? then Some(lo)
    else FirstPresentFrom(dir, lo + 1)
  }

  /** The largest present position below hi, if any. */
  function LastPresentBelow(dir: Dir, hi: nat): (r: Option<nat>)
    requires hi <= |dir|
    ensures r.Some? ==> r.value < hi && dir[r.value].Present?
    ensures r.Some? ==> forall q | r.value < q < hi :: !dir[q].Present?
    ensures r.None? ==> forall q | 0 <= q < hi :: !dir[q].Present?
    decreases hi
  {
    if hi == 0 then None
    else if dir[hi - 1].Present? then Some(hi - 1)
    else LastPresentBelow(dir, hi - 1)
  }

  /** The first position of the position-map bucket that holds pos. */
  function BucketStart(pos: nat, bucket: nat): (start: nat)
    requires bucket > 0
    ensures start <= pos < start + bucket
  {
    if pos < bucket then 0 else BucketStart(pos - bucket, bucket) + bucket
  }

  /**
   * ceilingPositions: the batch of present positions that starts at the
   * smallest present position at or above pos and runs, in ascending order,
   * to the end of that position's bucket.
   */
  function Ceiling(dir: Dir, pos: int, bucket: nat): (r: seq<nat>)
    requires bucket > 0
    ensures r != [] ==> pos <= r[0] && IsPresent(dir, r[0])
  {
    var lo := if pos < 0 then 0 else pos;
    match FirstPresentFrom(dir, lo)
    case None => []
    case Some(f) => PresentBetween(dir, f, BucketEnd(dir, f, bucket))
  }

  /** The ceiling batch is empty exactly when nothing is present from pos on, and otherwise starts at the least such position. */
  lemma CeilingHead(dir: Dir, pos: int, bucket: nat)
    requires bucket > 0
    ensures var r := Ceiling(dir, pos, bucket);
            && (r == [] <==> forall q | pos <= q :: !IsPresent(dir, q))
            && (r != [] ==> pos <= r[0] && IsPresent(dir, r[0])
                            && forall q | pos <= q < r[0] :: !IsPresent(dir, q))
  {
    var lo := if pos < 0 then 0 else pos;
    match FirstPresentFrom(dir, lo)
    case None =>
    case Some(f) =>
      assert IsPresent(dir, f);
  }

  /** Where a ceiling batch ends: the end of its bucket, or of the directory if that comes first. */
  function BucketEnd(dir: Dir, pos: nat, bucket: nat): (end: nat)
    requires bucket > 0
    ensures end <= |dir| && end <= BucketStart(pos, bucket) + bucket
    ensures pos < |dir| ==> pos < end
  {
    var e := BucketStart(pos, bucket) + bucket;
    if e < |dir| then e else |dir|
  }

  /**
   * A non-empty ceiling batch is the ascending scan of its head's bucket
   * from the head on (PresentBetweenSpec: every present position there,
   * nothing else, in order).
   */
  lemma CeilingSpec(dir: Dir, pos: int, bucket: nat)
    requires bucket > 0
    ensures var r := Ceiling(dir, pos, bucket);
            r != [] ==> r[0] < |dir| && r == PresentBetween(dir, r[0], BucketEnd(dir, r[0], bucket))
  {
    CeilingHead(dir, pos, bucket);
  }

  /** higherPositions: the ceiling batch strictly above pos. */
  function Higher(dir: Dir, pos: int, bucket: nat): (r: seq<nat>)
    requires bucket > 0
    ensures r != [] ==> pos < r[0] && IsPresent(dir, r[0])
  {
    Ceiling(dir, pos + 1, bucket)
  }

  /** The higher batch is empty exactly when nothing is present above pos, and otherwise starts at the least such position. */
  lemma HigherSpec(dir: Dir, pos: int, bucket: nat)
    requires bucket > 0
    ensures var r := Higher(dir, pos, bucket);
            && (r == [] <==> forall q | pos < q :: !IsPresent(dir, q))
            && (r != [] ==> pos < r[0] && IsPresent(dir, r[0])
                            && forall q | pos < q < r[0] :: !IsPresent(dir, q))
  {
    CeilingHead(dir, pos + 1, bucket);
  }

  /**
   * floorPositions: the batch of present positions that ends at the largest
   * present position at or below pos and starts, in ascending order, at the
   * beginning of that position's bucket.
   */
  function Floor(dir: Dir, pos: int, bucket: nat): (r: seq<nat>)
    requires bucket > 0
    ensures r != [] ==> r[|r| - 1] <= pos && IsPresent(dir, r[|r| - 1])
  {
    var hi := if pos < 0 then 0 else if pos + 1 < |dir| then pos + 1 else |dir|;
    match LastPresentBelow(dir, hi)
    case None => []
    case Some(l) =>
      var start := BucketStart(l, bucket);
      PresentBetweenSnoc(dir, start, l + 1);
      PresentBetween(dir, start, l + 1)
  }

  /** The floor batch is empty exactly when nothing is present up to pos, and otherwise ends at the greatest such position. */
  lemma FloorHead(dir: Dir, pos: int, bucket: nat)
    requires bucket > 0
    ensures var r := Floor(dir, pos, bucket);
            && (r == [] <==> forall q | q <= pos :: !IsPresent(dir, q))
            && (r != [] ==> r[|r| - 1] <= pos && IsPresent(dir, r[|r| - 1])
                            && forall q | r[|r| - 1] < q <= pos :: !IsPresent(dir, q))
  {
    var hi := if pos < 0 then 0 else if pos + 1 < |dir| then pos + 1 else |dir|;
    match LastPresentBelow(dir, hi)
    case None =>
    case Some(l) =>
      var start := BucketStart(l, bucket);
      PresentBetweenSnoc(dir, start, l + 1);
      assert IsPresent(dir, l);
  }

  /**
   * A non-empty floor batch is the ascending scan of its last element's
   * bucket up to and including that element.
   */
  lemma FloorSpec(dir: Dir, pos: int, bucket: nat)
    requires bucket > 0
    ensures var r := Floor(dir, pos, bucket);
            r != [] ==> r[|r| - 1] < |dir|
                        && r == PresentBetween(dir, BucketStart(r[|r| - 1], bucket), r[|r| - 1] + 1)
  {
    var hi := if pos < 0 then 0 else if pos + 1 < |dir| then pos + 1 else |dir|;
    match LastPresentBelow(dir, hi)
    case None =>
    case Some(l) =>
      PresentBetweenSnoc(dir, BucketStart(l, bucket), l + 1);
  }

  /** lowerPositions: the floor batch strictly below pos. */
  function Lower(dir: Dir, pos: int, bucket: nat): (r: seq<nat>)
    requires bucket > 0
    ensures r != [] ==> r[|r| - 1] < pos && IsPresent(dir, r[|r| - 1])
  {
    Floor(dir, pos - 1, bucket)
  }

  /** The lower batch is empty exactly when nothing is present below pos, and otherwise ends at the greatest such position. */
  lemma LowerSpec(dir: Dir, pos: int, bucket: nat)
    requires bucket > 0
    ensures var r := Lower(dir, pos, bucket);
            && (r == [] <==> forall q | q < pos :: !IsPresent(dir, q))
            && (r != [] ==> r[|r| - 1] < pos && IsPresent(dir, r[|r| - 1])
                            && forall q | r[|r| - 1] < q < pos :: !IsPresent(dir, q))
  {
    FloorHead(dir, pos - 1, bucket);
  }

  /** Every position of a ceiling batch holds a present record. */
  lemma CeilingPresent(dir: Dir, pos: int, bucket: nat)
    requires bucket > 0
    ensures var r := Ceiling(dir, pos, bucket);
            forall i | 0 <= i < |r| :: IsPresent(dir, r[i])
  {
    var r := Ceiling(dir, pos, bucket);
    CeilingSpec(dir, pos, bucket);
    if r != [] {
      PresentBetweenSpec(dir, r[0], BucketEnd(dir, r[0], bucket));
    }
  }

  /** Every position of a floor batch holds a present record. */
  lemma FloorPresent(dir: Dir, pos: int, bucket: nat)
    requires bucket > 0
    ensures var r := Floor(dir, pos, bucket);
            forall i | 0 <= i < |r| :: IsPresent(dir, r[i])
  {
    var r := Floor(dir, pos, bucket);
    FloorSpec(dir, pos, bucket);
    if r != [] {
      PresentBetweenSpec(dir, BucketStart(r[|r| - 1], bucket), r[|r| - 1] + 1);
    }
  }

  /** The cluster positions of a batch of physical positions, in batch order. */
  function Keys(ps: seq<PhysicalPosition>): (r: seq<nat>) {
    seq(|ps|, i requires 0 <= i < |ps| => ps[i].clusterPosition)
  }

  /**
   * The physical positions a batch query returns for a batch of present
   * positions: the same positions in the same order, each described as
   * getPhysicalPosition reports it (type, size and version of its record).
   */
  function Describe(dir: Dir, keys: seq<nat>): (r: seq<PhysicalPosition>)
    requires forall i | 0 <= i < |keys| :: IsPresent(dir, keys[i])
    ensures Keys(r) == keys
    ensures forall i | 0 <= i < |r| :: Some(r[i]) == PhysicalPositionOf(dir, r[i].clusterPosition)
  {
    seq(|keys|, i requires 0 <= i < |keys| => PhysicalPositionOf(dir, keys[i]).value)
  }

  /** ceilingPositions: the ceiling batch as physical positions. */
  function CeilingPositions(dir: Dir, pos: int, bucket: nat): (r: seq<PhysicalPosition>)
    requires bucket > 0
    ensures Keys(r) == Ceiling(dir, pos, bucket)
  {
    CeilingPresent(dir, pos, bucket);
    Describe(dir, Ceiling(dir, pos, bucket))
  }

  /** higherPositions: the higher batch as physical positions. */
  function HigherPositions(dir: Dir, pos: int, bucket: nat): (r: seq<PhysicalPosition>)
    requires bucket > 0
    ensures Keys(r) == Higher(dir, pos, bucket)
  {
    CeilingPositions(dir, pos + 1, bucket)
  }

  /** floorPositions: the floor batch as physical positions. */
  function FloorPositions(dir: Dir, pos: int, bucket: nat): (r: seq<PhysicalPosition>)
    requires bucket > 0
    ensures Keys(r) == Floor(dir, pos, bucket)
  {
    FloorPresent(dir, pos, bucket);
    Describe(dir, Floor(dir, pos, bucket))
  }

  /** lowerPositions: the lower batch as physical positions. */
  function LowerPositions(dir: Dir, pos: int, bucket: nat): (r: seq<PhysicalPosition>)
    requires bucket > 0
    ensures Keys(r) == Lower(dir, pos, bucket)
  {
    FloorPositions(dir, pos - 1, bucket)
  }

  /**
   * Every element of the four batch answers is what getPhysicalPosition
   * reports for its clusterPosition: the stored type, payload size and version.
   */
  lemma BatchesDescribed(dir: Dir, pos: int, bucket: nat)
    requires bucket > 0
    ensures forall p | p in CeilingPositions(dir, pos, bucket) :: Some(p) == PhysicalPositionOf(dir, p.clusterPosition)
    ensures forall p | p in HigherPositions(dir, pos, bucket) :: Some(p) == PhysicalPositionOf(dir, p.clusterPosition)
    ensures forall p | p in FloorPositions(dir, pos, bucket) :: Some(p) == PhysicalPositionOf(dir, p.clusterPosition)
    ensures forall p | p in LowerPositions(dir, pos, bucket) :: Some(p) == PhysicalPositionOf(dir, p.clusterPosition)
  {
    CeilingPresent(dir, pos, bucket);
    CeilingPresent(dir, pos + 1, bucket);
    FloorPresent(dir, pos, bucket);
    FloorPresent(dir, pos - 1, bucket);
  }

  /**
   * A batch's physical positions describe the records stored there: each
   * reads back a record of the reported type, whose payload has the
   * reported size and whose version is the reported one.
   */
  lemma DescribedRecords(dir: Dir, ps: seq<PhysicalPosition>)
    requires forall i | 0 <= i < |ps| :: Some(ps[i]) == PhysicalPositionOf(dir, ps[i].clusterPosition)
    ensures forall i | 0 <= i < |ps| ::
              var b := ReadRecord(dir, ps[i].clusterPosition);
              && b.Some?
              && ps[i].recordType == b.value.recordType
              && ps[i].recordSize == |b.value.buffer|
              && ps[i].recordVersion == b.value.version
  {
    forall i | 0 <= i < |ps| {
      PhysicalPositionMatchesRead(dir, ps[i].clusterPosition);
    }
  }

  /** getFirstPosition: the smallest present position. */
  function FirstPosition(dir: Dir): (r: Option<nat>)
    ensures r.None? <==> PresentSet(dir) == {}
    ensures r.Some? ==> r.value in PresentSet(dir)
                        && forall q | q in PresentSet(dir) :: r.value <= q
  {
    var r := FirstPresentFrom(dir, 0);
    if r.None? then
      assert forall q | q in PresentSet(dir) :: false;
      assert PresentSet(dir) == {};
      r
    else
      assert r.value in PresentSet(dir);
      r
  }

  /** getLastPosition: the largest present position. */
  function LastPosition(dir: Dir): (r: Option<nat>)
    ensures r.None? <==> PresentSet(dir) == {}
    ensures r.Some? ==> r.value in PresentSet(dir)
                        && forall q | q in PresentSet(dir) :: q <= r.value
  {
    var r := LastPresentBelow(dir, |dir|);
    if r.None? then
      assert forall q | q in PresentSet(dir) :: false;
      assert PresentSet(dir) == {};
      r
    else
      assert r.value in PresentSet(dir);
      r
  }
}
