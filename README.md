# Paginated cluster record store

OrientDB keeps the records of one cluster in a paginated file. Every record
has a `clusterPosition`, a non-negative number that a position directory
maps to the record's lifecycle state. A present record's payload is kept as
a chain of page-sized fragments, together with its `version` and
`recordType`. The cluster test suite `LocalPaginatedClusterAbstract` drives
the whole public contract of such a cluster:

- `createRecord`, optionally into a position reserved by `allocatePosition`;
- `readRecord` and `updateRecord`;
- `deleteRecord` and `hideRecord`;
- `recycleRecord` (resurrecting a deleted record);
- `getRecordStatus`, `getPhysicalPosition` and `getEntries`;
- the batched ordered traversal `ceilingPositions`, `higherPositions`,
  `floorPositions` and `lowerPositions`, plus `getFirstPosition` and
  `getLastPosition`.

This project models that cluster in Dafny.

- `Records` holds the value types: `ORawBuffer`, `OPhysicalPosition`, the
  record status, and Java's `byte` and `int` as the newtypes `int8` and
  `int32`.
- `Chunking` splits a payload into a chain of fragments of at most one
  page (`maxFragment` bytes each) and concatenates the chain back.
- `Directory` holds the position directory. It is a sequence of entries
  indexed by position, and its length is the next position to issue. Every
  read-only query is a function of the directory: `readRecord`,
  `getRecordStatus`, `getPhysicalPosition`, the four batch queries, and
  first and last position.
- `PaginatedCluster.Cluster` is the stateful cluster. It holds the
  directory and the `getEntries` counter, and each lifecycle operation is a
  method that updates them in place. Its invariant `Valid` says three
  things:
  - the counter equals the number of present entries;
  - every stored chain is well formed;
  - the page capacity and bucket size are positive.
- `Traversal` contains the forward and backward walks of the iteration
  tests as loops, each proved against a specification function (the
  ascending scan of present positions). Lemmas then state the scan's
  properties: it is ordered, it holds exactly the present positions, it is
  counted by `getEntries`, and it runs from the first position to the last.
- `ClusterScenarios` restates each test of the suite as a method on a fresh
  cluster. The random payloads, the random record sizes and the random
  choice of records to remove or update become parameters: a payload
  sequence and a boolean mask. Each scenario's `ensures` is the test's
  assertions, stated for all such inputs.

All source paths below are relative to the repository root.

## Model

| member | source | states |
|---|---|---|
| Chunking.Split | core/src/test/java/com/orientechnologies/orient/core/storage/cluster/LocalPaginatedClusterAbstract.java:115-120 | a payload occupies a single fragment exactly when it fits one page (the small records of at most MAX_RECORD_SIZE bytes) |
| Chunking.SplitWellFormed | core/src/test/java/com/orientechnologies/orient/core/storage/cluster/LocalPaginatedClusterAbstract.java:81-99 | the chain written for any payload is well formed: non-empty, every fragment fits a page, every fragment but the last is full |
| Chunking.ConcatSplit | core/src/test/java/com/orientechnologies/orient/core/storage/cluster/LocalPaginatedClusterAbstract.java:90-97 | concatenating the chain written for a payload returns exactly that payload, so a record larger than a page reads back byte for byte |
| Chunking.SplitConcat | core/src/test/java/com/orientechnologies/orient/core/storage/cluster/LocalPaginatedClusterAbstract.java:90-97 | every well-formed chain is the one written for its own contents (the inverse round trip) |
| Chunking.SplitPages | core/src/test/java/com/orientechnologies/orient/core/storage/cluster/LocalPaginatedClusterAbstract.java:81-99 | the fragments of a payload of n bytes always offer at least n bytes of pages; a non-empty payload occupies n divided by the page capacity, rounded up, fragments, with less than one page of slack (with 65,536-byte pages, the big record of two pages plus 100 bytes takes three); an empty payload is one empty fragment |
| Chunking.ConcatAppend | core/src/test/java/com/orientechnologies/orient/core/storage/cluster/LocalPaginatedClusterAbstract.java:93-97 | reading two chains one after the other reads their payloads one after the other, so a chain reads back fragment by fragment in order |
| Directory.ReadRecord | core/src/test/java/com/orientechnologies/orient/core/storage/cluster/LocalPaginatedClusterAbstract.java:72-77 | readRecord returns a record exactly when the position is present; the record is the concatenated chain with the stored version and type |
| Directory.StatusOf | core/src/test/java/com/orientechnologies/orient/core/storage/cluster/LocalPaginatedClusterAbstract.java:1179-1198 | getRecordStatus is PRESENT exactly when the record is present, and NOT_EXISTENT exactly when the position was never issued |
| Directory.PhysicalPositionOf | core/src/test/java/com/orientechnologies/orient/core/storage/cluster/LocalPaginatedClusterAbstract.java:1152-1166 | getPhysicalPosition answers exactly for present positions, with the position, stored type, payload size and version |
| Directory.PhysicalPositionMatchesRead | core/src/test/java/com/orientechnologies/orient/core/storage/cluster/LocalPaginatedClusterAbstract.java:1140-1145 | the physical position of a record agrees with the record read there: same type and version, size equal to the buffer's length |
| Directory.OthersUnchanged | core/src/test/java/com/orientechnologies/orient/core/storage/cluster/LocalPaginatedClusterAbstract.java:288-296 | changing one position's entry leaves what every other position reads, and its status, unchanged |
| Directory.AppendKeepsReads | core/src/test/java/com/orientechnologies/orient/core/storage/cluster/LocalPaginatedClusterAbstract.java:115-134 | issuing a new position leaves what every earlier position reads unchanged |
| Directory.CountIsPresentSetSize | core/src/test/java/com/orientechnologies/orient/core/storage/cluster/LocalPaginatedClusterAbstract.java:266-282 | the count of present entries is the size of the set of present positions |
| Directory.AppendCount | core/src/test/java/com/orientechnologies/orient/core/storage/cluster/LocalPaginatedClusterAbstract.java:641-652 | issuing a new position raises the count by one exactly when the new entry is present |
| Directory.SetCount | core/src/test/java/com/orientechnologies/orient/core/storage/cluster/LocalPaginatedClusterAbstract.java:273-276 | replacing one entry changes the count only by the presence of the old and the new entry |
| Directory.PresentBetweenSpec | core/src/test/java/com/orientechnologies/orient/core/storage/cluster/LocalPaginatedClusterAbstract.java:1037-1045 | a range scan is ascending and lists every present position of the range and nothing else |
| Directory.CeilingHead | core/src/test/java/com/orientechnologies/orient/core/storage/cluster/LocalPaginatedClusterAbstract.java:1030-1034 | ceilingPositions is empty exactly when nothing is present at or above the position; otherwise its head is the least present position there |
| Directory.CeilingSpec | core/src/test/java/com/orientechnologies/orient/core/storage/cluster/LocalPaginatedClusterAbstract.java:1033-1039 | a non-empty ceiling batch is the ascending scan of its head's bucket, from the head to the end of the bucket |
| Directory.HigherSpec | core/src/test/java/com/orientechnologies/orient/core/storage/cluster/LocalPaginatedClusterAbstract.java:1041-1042 | higherPositions is empty exactly when nothing is present above the position; otherwise its head is the least present position above it |
| Directory.FloorHead | core/src/test/java/com/orientechnologies/orient/core/storage/cluster/LocalPaginatedClusterAbstract.java:1085-1089 | floorPositions is empty exactly when nothing is present at or below the position; otherwise its last element is the greatest present position there |
| Directory.FloorSpec | core/src/test/java/com/orientechnologies/orient/core/storage/cluster/LocalPaginatedClusterAbstract.java:1088-1097 | a non-empty floor batch is the ascending scan of its last element's bucket, up to and including that element |
| Directory.LowerSpec | core/src/test/java/com/orientechnologies/orient/core/storage/cluster/LocalPaginatedClusterAbstract.java:1099-1100 | lowerPositions is empty exactly when nothing is present below the position; otherwise its last element is the greatest present position below it |
| Directory.Ceiling | core/src/test/java/com/orientechnologies/orient/core/storage/cluster/LocalPaginatedClusterAbstract.java:1033 | the head of a non-empty ceilingPositions batch is a present position at or above the requested one |
| Directory.Higher | core/src/test/java/com/orientechnologies/orient/core/storage/cluster/LocalPaginatedClusterAbstract.java:1042 | higherPositions is a ceiling batch from the next position: its head is present and strictly above the requested one |
| Directory.Floor | core/src/test/java/com/orientechnologies/orient/core/storage/cluster/LocalPaginatedClusterAbstract.java:1088 | the last element of a non-empty floorPositions batch is a present position at or below the requested one |
| Directory.Lower | core/src/test/java/com/orientechnologies/orient/core/storage/cluster/LocalPaginatedClusterAbstract.java:1100 | lowerPositions is a floor batch from the previous position: its last element is present and strictly below the requested one |
| Directory.CeilingPresent | core/src/test/java/com/orientechnologies/orient/core/storage/cluster/LocalPaginatedClusterAbstract.java:1033-1039 | every position a ceiling or higher batch lists is present, not only its head |
| Directory.FloorPresent | core/src/test/java/com/orientechnologies/orient/core/storage/cluster/LocalPaginatedClusterAbstract.java:1088-1097 | every position a floor or lower batch lists is present, not only its last element |
| Directory.Describe | core/src/test/java/com/orientechnologies/orient/core/storage/cluster/LocalPaginatedClusterAbstract.java:1033-1041 | a batch is returned as OPhysicalPosition values whose clusterPosition fields are the batch, in order, each as getPhysicalPosition reports it for that position |
| Directory.CeilingPositions | core/src/test/java/com/orientechnologies/orient/core/storage/cluster/LocalPaginatedClusterAbstract.java:1033 | ceilingPositions returns the physical positions of the ceiling batch, so the walk reads positions[0].clusterPosition as the ceiling head |
| Directory.HigherPositions | core/src/test/java/com/orientechnologies/orient/core/storage/cluster/LocalPaginatedClusterAbstract.java:1042 | higherPositions returns the physical positions of the higher batch |
| Directory.FloorPositions | core/src/test/java/com/orientechnologies/orient/core/storage/cluster/LocalPaginatedClusterAbstract.java:1088 | floorPositions returns the physical positions of the floor batch, so the walk reads positions[positions.length - 1].clusterPosition as its last element |
| Directory.LowerPositions | core/src/test/java/com/orientechnologies/orient/core/storage/cluster/LocalPaginatedClusterAbstract.java:1100 | lowerPositions returns the physical positions of the lower batch |
| Directory.BatchesDescribed | core/src/test/java/com/orientechnologies/orient/core/storage/cluster/LocalPaginatedClusterAbstract.java:1033-1100 | every element that ceilingPositions, higherPositions, floorPositions or lowerPositions returns is what getPhysicalPosition reports for its clusterPosition: the stored type, payload size and version |
| Directory.DescribedRecords | core/src/test/java/com/orientechnologies/orient/core/storage/cluster/LocalPaginatedClusterAbstract.java:1140-1145 | every physical position in a batch agrees with the record read at it: same type and version, size equal to the buffer length |
| Directory.FirstPosition | core/src/test/java/com/orientechnologies/orient/core/storage/cluster/LocalPaginatedClusterAbstract.java:1049 | getFirstPosition is the least present position, and absent exactly when no record is present |
| Directory.LastPosition | core/src/test/java/com/orientechnologies/orient/core/storage/cluster/LocalPaginatedClusterAbstract.java:1050 | getLastPosition is the greatest present position, and absent exactly when no record is present |
| PaginatedCluster.Cluster.constructor | core/src/test/java/com/orientechnologies/orient/core/storage/cluster/LocalPaginatedClusterAbstract.java:38-41 | a truncated cluster has no positions and no entries, and satisfies the invariant |
| PaginatedCluster.Cluster.Stored | core/src/test/java/com/orientechnologies/orient/core/storage/cluster/LocalPaginatedClusterAbstract.java:72-77 | the entry written for a payload is present and reads back exactly that payload, version and type |
| PaginatedCluster.Cluster.PresentIsStored | core/src/test/java/com/orientechnologies/orient/core/storage/cluster/LocalPaginatedClusterAbstract.java:72-77 | every present entry is exactly the entry createRecord would write for what reads back there: a stored chain is determined by its payload |
| PaginatedCluster.Cluster.GetEntries | core/src/test/java/com/orientechnologies/orient/core/storage/cluster/LocalPaginatedClusterAbstract.java:266-282 | getEntries is the number of present positions |
| PaginatedCluster.Cluster.CreateRecord | core/src/test/java/com/orientechnologies/orient/core/storage/cluster/LocalPaginatedClusterAbstract.java:44-60 | without a reserved position, the record takes the next fresh position and never a deleted one; with one, it fills that position only if it is ALLOCATED and fails otherwise; the entry count rises by one, and the record reads back with the position, type, size and version returned |
| PaginatedCluster.Cluster.AllocatePosition | core/src/test/java/com/orientechnologies/orient/core/storage/cluster/LocalPaginatedClusterAbstract.java:209-214 | reserves the next position in state ALLOCATED; it reads as no record and the entry count is unchanged |
| PaginatedCluster.Cluster.UpdateRecord | core/src/test/java/com/orientechnologies/orient/core/storage/cluster/LocalPaginatedClusterAbstract.java:713-788 | replaces payload, version and type whatever the new version is; only the updated position changes, and it reads back the new values |
| PaginatedCluster.Cluster.DeleteRecord | core/src/test/java/com/orientechnologies/orient/core/storage/cluster/LocalPaginatedClusterAbstract.java:270-285 | answers true exactly when the record was present; it then leaves a REMOVED tombstone and lowers the count by one, and otherwise changes nothing; afterwards the position reads as no record |
| PaginatedCluster.Cluster.HideRecord | core/src/test/java/com/orientechnologies/orient/core/storage/cluster/LocalPaginatedClusterAbstract.java:328-343 | as deleteRecord, leaving a HIDDEN tombstone whose status reads REMOVED |
| PaginatedCluster.Cluster.RecycleRecord | core/src/test/java/com/orientechnologies/orient/core/storage/cluster/LocalPaginatedClusterAbstract.java:1185-1211 | succeeds exactly on a REMOVED position, restoring the record there with the new payload, version and type and raising the count; otherwise it fails with the "cannot resurrect" error and changes nothing |
| Traversal.ScanLengthIsCount | core/src/test/java/com/orientechnologies/orient/core/storage/cluster/LocalPaginatedClusterAbstract.java:1047 | a scan of the directory visits as many positions as are present |
| Traversal.ScanEnds | core/src/test/java/com/orientechnologies/orient/core/storage/cluster/LocalPaginatedClusterAbstract.java:1049-1050 | the full scan starts at getFirstPosition and ends at getLastPosition |
| Traversal.ForwardStart | core/src/test/java/com/orientechnologies/orient/core/storage/cluster/LocalPaginatedClusterAbstract.java:1030-1034 | what remains to visit after ceilingPositions(0) is the whole ascending scan |
| Traversal.ForwardStep | core/src/test/java/com/orientechnologies/orient/core/storage/cluster/LocalPaginatedClusterAbstract.java:1039-1042 | the head of a batch is the next position visited, and the higher batch from it holds the rest, in order |
| Traversal.ForwardAdvance | core/src/test/java/com/orientechnologies/orient/core/storage/cluster/LocalPaginatedClusterAbstract.java:1039-1042 | one turn of the forward walk: positions[0].clusterPosition is visited next, and the higherPositions answer from it holds the rest, its head present and higher |
| Traversal.BackwardStart | core/src/test/java/com/orientechnologies/orient/core/storage/cluster/LocalPaginatedClusterAbstract.java:1085-1089 | what remains to visit after floorPositions(Long.MAX_VALUE) is the whole scan |
| Traversal.BehindLower | core/src/test/java/com/orientechnologies/orient/core/storage/cluster/LocalPaginatedClusterAbstract.java:1099-1100 | the lower batch of a position leaves behind it exactly the present positions below that position |
| Traversal.BackwardStep | core/src/test/java/com/orientechnologies/orient/core/storage/cluster/LocalPaginatedClusterAbstract.java:1097-1100 | the last element of a batch is the next position visited in descending order, and the lower batch from it holds the rest |
| Traversal.BackwardAdvance | core/src/test/java/com/orientechnologies/orient/core/storage/cluster/LocalPaginatedClusterAbstract.java:1097-1100 | one turn of the backward walk: the last element's clusterPosition is visited next, and the lowerPositions answer from it holds the rest, its last element present and lower |
| Traversal.ForwardIteration | core/src/test/java/com/orientechnologies/orient/core/storage/cluster/LocalPaginatedClusterAbstract.java:1030-1045 | the ceiling/higher walk visits exactly the ascending scan of present positions |
| Traversal.BackwardIteration | core/src/test/java/com/orientechnologies/orient/core/storage/cluster/LocalPaginatedClusterAbstract.java:1085-1103 | the floor/lower walk visits exactly the ascending scan in reverse |
| Traversal.AscendingScan | core/src/test/java/com/orientechnologies/orient/core/storage/cluster/LocalPaginatedClusterAbstract.java:1036-1050 | the ascending scan is strictly increasing, holds exactly the present positions, has getEntries elements, and runs from the first position to the last |
| Traversal.ReversedMirror | core/src/test/java/com/orientechnologies/orient/core/storage/cluster/LocalPaginatedClusterAbstract.java:1091 | the k-th element from the end of the reversed scan is the k-th element of the scan, so the descending walk meets positions in mirrored order |
| Traversal.ReversedAscending | core/src/test/java/com/orientechnologies/orient/core/storage/cluster/LocalPaginatedClusterAbstract.java:1091 | reversing an ascending sequence gives a strictly descending one with the same elements |
| Traversal.DescendingScan | core/src/test/java/com/orientechnologies/orient/core/storage/cluster/LocalPaginatedClusterAbstract.java:1091-1108 | the backward walk is strictly decreasing, holds exactly the present positions, has getEntries elements, and runs from the last position to the first |
| ClusterScenarios.DeleteRecordAndAddNewOnItsPlace | core/src/test/java/com/orientechnologies/orient/core/storage/cluster/LocalPaginatedClusterAbstract.java:44-60 | the first record lands at 0 and is deleted; the next lands at 1, not 0, and carries its own version 0 |
| ClusterScenarios.AddOneRecord | core/src/test/java/com/orientechnologies/orient/core/storage/cluster/LocalPaginatedClusterAbstract.java:63-99 | a record of any size lands at position 0 and reads back with its bytes, version 2 and type 1 |
| ClusterScenarios.CreateEach | core/src/test/java/com/orientechnologies/orient/core/storage/cluster/LocalPaginatedClusterAbstract.java:115-123 | a run of creates appends one stored entry per payload at consecutive fresh positions, and raises the count by the number of payloads |
| ClusterScenarios.AddManyRecords | core/src/test/java/com/orientechnologies/orient/core/storage/cluster/LocalPaginatedClusterAbstract.java:101-206 | every record of a batch lands at its own position and reads back with its bytes, version 2 and type 2 |
| ClusterScenarios.ReadFilled | core/src/test/java/com/orientechnologies/orient/core/storage/cluster/LocalPaginatedClusterAbstract.java:125-134 | reading each position of a freshly filled cluster returns the payload created there |
| ClusterScenarios.AllocateThenCreate | core/src/test/java/com/orientechnologies/orient/core/storage/cluster/LocalPaginatedClusterAbstract.java:209-239 | every reserved position reads as no record until createRecord fills it, then reads back the twenty zero bytes with version 1 and type 'd' |
| ClusterScenarios.RemoveIfSelected | core/src/test/java/com/orientechnologies/orient/core/storage/cluster/LocalPaginatedClusterAbstract.java:271-274 | a selected present record is deleted or hidden and answers true; anything else changes nothing and answers false |
| ClusterScenarios.RemoveEach | core/src/test/java/com/orientechnologies/orient/core/storage/cluster/LocalPaginatedClusterAbstract.java:265-282 | removing the selected records succeeds on each; the getEntries reading taken after the k-th removal is the number of records minus k, one reading per removal; the count ends at the number of records minus the number removed |
| ClusterScenarios.RetryEach | core/src/test/java/com/orientechnologies/orient/core/storage/cluster/LocalPaginatedClusterAbstract.java:283-286 | a second delete or hide of a removed record answers false and changes nothing |
| ClusterScenarios.ReadAfterRemoval | core/src/test/java/com/orientechnologies/orient/core/storage/cluster/LocalPaginatedClusterAbstract.java:283-296 | removed records read as no record; every other record reads back unchanged |
| ClusterScenarios.RemoveSelected | core/src/test/java/com/orientechnologies/orient/core/storage/cluster/LocalPaginatedClusterAbstract.java:242-596 | the removal tests (delete or hide; small, big or mixed records) observe getEntries equal to N, then each removal true, the k-th removal followed by getEntries equal to N minus k, then entries N minus removed, then second removals false, then reads that are null for removed records and unchanged otherwise |
| ClusterScenarios.RemoveSelectedAndAddAgain | core/src/test/java/com/orientechnologies/orient/core/storage/cluster/LocalPaginatedClusterAbstract.java:599-710 | getEntries is N before the removals; every selected removal answers true, and the k-th is followed by getEntries equal to N minus k; getEntries is N minus removed after them; records created afterwards take fresh positions past all earlier ones, and getEntries is then N minus removed plus the new records |
| ClusterScenarios.UpdateOneRecord | core/src/test/java/com/orientechnologies/orient/core/storage/cluster/LocalPaginatedClusterAbstract.java:713-817 | after an update with any version (higher, lower or -2), the record at position 0 reads back the new bytes, that version and type 2 |
| ClusterScenarios.UpdateEach | core/src/test/java/com/orientechnologies/orient/core/storage/cluster/LocalPaginatedClusterAbstract.java:848-859 | exactly the selected positions are rewritten with their update, version 3 and type 3 |
| ClusterScenarios.UpdateSelected | core/src/test/java/com/orientechnologies/orient/core/storage/cluster/LocalPaginatedClusterAbstract.java:820-996 | updated records read back their new bytes, version 3 and type 3; the others read back their original bytes, version 2 and type 2 |
| ClusterScenarios.GetPhysicalPositions | core/src/test/java/com/orientechnologies/orient/core/storage/cluster/LocalPaginatedClusterAbstract.java:1112-1167 | getPhysicalPosition reports the position, type and size that createRecord returned; after the deletions it reports nothing for deleted records and the same for the others |
| ClusterScenarios.SurvivorsArePresent | core/src/test/java/com/orientechnologies/orient/core/storage/cluster/LocalPaginatedClusterAbstract.java:1021-1028 | after the removals, the present positions are exactly the positions the mask kept |
| ClusterScenarios.ForwardScan | core/src/test/java/com/orientechnologies/orient/core/storage/cluster/LocalPaginatedClusterAbstract.java:999-1051 | every selected deletion answers true; the forward walk then visits exactly the survivors in ascending order; the visit count equals getEntries, and first and last visited equal getFirstPosition and getLastPosition |
| ClusterScenarios.BackwardScan | core/src/test/java/com/orientechnologies/orient/core/storage/cluster/LocalPaginatedClusterAbstract.java:1054-1109 | every selected deletion answers true; the backward walk then visits exactly the survivors in descending order; the visit count equals getEntries, and the walk runs from getLastPosition down to getFirstPosition |
| ClusterScenarios.GrowingUpdates | core/src/test/java/com/orientechnologies/orient/core/storage/cluster/LocalPaginatedClusterAbstract.java:1213-1221 | ten growing updates with type 4 leave the record holding the last, 90-byte payload |
| ClusterScenarios.ResurrectRound | core/src/test/java/com/orientechnologies/orient/core/storage/cluster/LocalPaginatedClusterAbstract.java:1182-1221 | each round observes, in order: recycle of the present record refused, status PRESENT, status REMOVED after the delete, a null read, a successful recycle, a read of the new record, and the last growing update |
| ClusterScenarios.ResurrectRecord | core/src/test/java/com/orientechnologies/orient/core/storage/cluster/LocalPaginatedClusterAbstract.java:1170-1223 | the freshly created record has status PRESENT, the record stays at position 0, and every round of delete and recycle observes the expected sequence, with the round's version |

## Left out

- The implementation classes (the cluster, its pages and the position
  map) are not part of this model. The cluster is modelled on the
  behaviour its test suite asserts.
- The distributed update task (`OUpdateRecordTask`) is left out. It opens
  databases, delegates conflicts to an external resolver and serializes
  itself, so it is replication plumbing and not part of the record store.
- The page byte layout, free-space management, defragmentation and the
  concrete `MAX_RECORD_SIZE` are not modelled. A page's capacity is the
  parameter `maxFragment`, and a record is its fragment chain.
- The test fixtures (`truncate` before each test, `delete` and `drop`
  afterwards) are not modelled. Each scenario starts from the empty
  cluster the constructor builds.
- JUnit and AssertJ, the `Random` seeds and the `System.out` logging are
  not modelled. The random sizes, payloads and choices become parameters.
- The `prefetch` flag of `readRecord` is not modelled. It has no effect on
  the data returned.
- Concurrency, locking and write-ahead-log durability are not modelled.
  Every operation is one atomic step.
- Directory.Floor: the suite reads the next position of a floor or lower
  batch from its last element (lines 1097-1099) and never looks at the
  others, so batches here are in ascending order, like the ceiling
  batches. The backward walk still visits positions in descending order.
- Directory.Ceiling: how many positions a batch holds is implementation
  detail; here a batch runs to the end of its head's bucket of
  `bucketSize` positions. Only the properties the walks rely on are
  proved.
- PaginatedCluster.Cluster.AllocatePosition: the physical position
  returned for a reservation carries size 0 and version 0. The suite only
  asserts that the position is non-negative.
- PaginatedCluster.Cluster.UpdateRecord requires the position to be
  PRESENT or ALLOCATED. The suite only updates records that are present
  (lines 724, 750, 777, 807, 854, 913, 973 and 1219), so it asserts no
  outcome for any other position.
- PaginatedCluster.Cluster.RecycleRecord refuses a HIDDEN position like
  any other non-REMOVED one. No test recycles a hidden record.
- Traversal.BackwardIteration requires at most 2^63 positions, the range
  of a Java `long` below `Long.MAX_VALUE`. Elsewhere positions are
  unbounded naturals, and 64-bit overflow of the position counter is not
  modelled.
- ClusterScenarios.GetPhysicalPositions requires fewer than 2^31 - 2
  records, so that the suite's incremented `recordVersion` does not wrap
  around.
- ClusterScenarios.ResurrectRecord requires at most 2^31 - 3 rounds
  (`rounds + 2 <= 0x7fff_ffff`) for the same reason: the last round
  writes version rounds + 2. The suite's fixed 1000 rounds and its
  record counts of 10000 are parameters.
