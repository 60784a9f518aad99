# A verified model of the spatial database

This project models the core of a spatial database server in Dafny and proves
what that core is for. Coordinates are reals, machine words are bounded
integers or bit vectors, and files are byte sequences.
`dafny verify dfyconfig.toml` checks everything.

What is modelled, and what the main results are:

* **Hilbert curve** (`Powers`, `Hilbert`). `xyToD` and `dToXY`, with the 32-bit
  wrap-around of their loops, are inverse bijections for every grid of 2^k
  cells on a side, k up to 31, and the curve is a path of steps of length one
  through the four quarters of the world.
* **Geohash** (`Bisection`, `GeohashCells`, `Geohash`, `GeohashBits`, `Flood`,
  `GeohashCover`). Strings and grid cells determine each other; every bit of a code
  is a binary digit of the longitude or the latitude, in turn; both encoders, the
  decoder and the neighbours are exact; and the flood fill of `hashesForBBox` finds every
  cell that meets the box, once, for every box, unless the safety limit stops it.
* **R-tree and quadtree** (`Geometry`, `RTreeModel`, `RTreeNodes`, `RTree`,
  `QuadTreeModel`, `QuadTreeBound`, `QuadTreeNodes`, `QuadTree`). The in-place
  insertions refine functions on tree values, which keep the balance, fill, tight
  boxes and contents of the trees over every run, so that a pruned search equals a
  scan. The bound on a quadtree's leaves is met at every depth.
* **LSM tree** (`LsmModel`, `Lsm`). Puts, deletes, gets and flushes refine a plain
  map. Compaction changes the answer for a key exactly when the key does not
  meet a stated condition: scans drop tombstones before the merge, so a
  deleted key can come back, and stop at five bytes 0xff, so a longer key that
  starts with these is lost.
* **Durability** (`Records`, `Streams`, `Wal`, `Crc32`, `Snapshot`, `Recovery`,
  `Disks`, `SnapshotWriting`, `Compactor`, `Durability`). Torn logs replay to a
  prefix, the table-driven CRC is the bitwise CRC-32 of section 8 of RFC 1952, and a
  compaction may crash after any byte it writes, while others append to the log,
  with what a restart recovers known exactly. Every run of appends, syncs,
  compactions and restarts is durable if and only if four precautions are taken,
  none of which the code takes.
* **RESP protocol** (`Decimal`, `Resp`). A value is decoded from its encoding
  exactly when it is within the limits, and no proper prefix decodes.
* **Shapefiles** (`ShapefileRings`, `ShapefileContent`, `ShapefileShape`,
  `ShapefileReader`, `Shapefile`, `ShapefileFile`, `ShapefileTypes`). The record reader is the
  inverse of the layout in the ESRI Shapefile Technical Description (July 1998), no
  read is out of range, and rings are grouped into polygons by orientation.
* **Polygons** (`Clip`, `ClipBoundary`, `Simplify`). Clipping stays in the box, is
  idempotent, and keeps every point of the boundary that is in the box, adding none
  but points of the box's sides; simplification stays within its tolerance, keeps no
  vertex without need, and ends for every polygon if and only if the tolerance is
  not negative.
* **Connection pool and broker** (`ConnPoolModel`, `ConnPool`, `PubSub`). Over every
  interleaving the pool's counter is right and within an exact bound, and which idle
  connection is handed out is known exactly; a
  published message reaches each subscriber it is for exactly once.

Points where the code does something other than its comments or names suggest,
and the model follows the code:

* `RTREE_MIN_ENTRIES` is 3 (cpp/spatial/rtree.h), but splitting nine items leaves
  four and five, so nodes below the root never hold fewer than four.
* `SnapshotReader::load` never compares the stored checksum.
* `LSMTree::compact` counts the tombstones it removes, but the count is always zero.
* `subdivide` of the quadtree does not recurse, so a leaf at depth d may hold up to
  16 + d entries, and does when as many entries lie at one place.
* `readEnds` of the shapefile reader notes a short slice and reads on; the length
  check before it keeps that from happening.
* A shapefile that ends inside a record reads, without an error, as the records
  before it.
* The pool may exceed `max_size` when several threads connect at once.
* `Compactor::compact` neither flushes the log before it dumps the store nor keeps
  other threads from appending until it truncates the log, and a log is appended to
  after a crash without cutting off an entry that was not wholly written. Names that
  the readers will not accept are written all the same. That an entry of the dump
  could not be written goes unnoticed, and the log is cut all the same.
* `WAL::flush` starts its count again even when the sync fails, and `WAL::truncate`
  leaves the count.

Assumptions: the handler that `WAL::replay` calls applies an entry the way the
operations are named (SET and DEL on a key of collection and id, FLUSH on
everything); `fnmatch`, `ping`, the distance of a point from a segment and the
meaning of a double's bits are parameters; `std::sort` and `std::map` keep keys in
byte order; a rename is atomic; what is written to the log reaches its stream; of the bytes
appended since the last sync a crash leaves some first part.

## Model

| member | source | states |
|---|---|---|
| `Hilbert.CellOfIndex` | cpp/spatial/hilbert.cpp:11-52 | every cell of the grid is on the curve at its own index |
| `Hilbert.IndexOfCell` | cpp/spatial/hilbert.cpp:11-52 | every index is the index of the cell at its place on the curve |
| `Hilbert.CurveIsPath` | cpp/spatial/hilbert.cpp:32-52 | consecutive cells are at distance one; the curve starts at (0,0) and ends at (n-1,0) |
| `Hilbert.ReflectLowBits` | cpp/spatial/hilbert.cpp:18-27 | the wrapping subtraction of the loop reflects the bits that still matter |
| `Hilbert.OnePass` | cpp/spatial/hilbert.cpp:15-28 | one pass of the loop peels one level of the curve |
| `Hilbert.XyToD` | cpp/spatial/hilbert.cpp:11-30 | the loop computes the index on the curve, for all 32-bit coordinates |
| `Hilbert.TraceFollowsCurve` | cpp/spatial/hilbert.cpp:36-51 | building a cell from the low base-4 digits up follows the curve |
| `Hilbert.DToXY` | cpp/spatial/hilbert.cpp:32-52 | the loop computes the cell at an index of the curve |
| `Hilbert.ReencodeDecoded` | cpp/spatial/hilbert.cpp:54-73 | decoding an index gives a place in the world that encodes to the index |
| `Hilbert.DecodeEncoded` | cpp/spatial/hilbert.cpp:54-73 | the place decoded from a code is at most a grid step away from the place encoded |
| `Hilbert.Quarters` | cpp/spatial/hilbert.cpp:54-62 | a quarter of the indices each for the places south-west, north-west, north-east and south-east, in that order |
| `Bisection.IndexLocated` | cpp/spatial/geohash.cpp:30-39 | repeated halving leads to the part that holds the value, or to the nearest end |
| `Bisection.MiddleMeets` | cpp/spatial/geohash.cpp:111-112 | if any part meets a range then the part of the range's middle does, even for a turned range |
| `Bisection.MeetsBetween` | cpp/spatial/geohash.cpp:106-132 | the parts that meet a range have no gap |
| `GeohashCells.AlphabetIsWhole` | cpp/spatial/geohash.cpp:10-17 | a character has a value exactly when it is in the alphabet |
| `GeohashCells.CharToIdx` | cpp/spatial/geohash.cpp:12-17 | the search finds the value of a letter, and an error for every other character |
| `GeohashCells.HashRoundTrip` | cpp/spatial/geohash.cpp:19-71 | the string of a cell names the cell |
| `GeohashCells.CellRoundTrip` | cpp/spatial/geohash.cpp:19-71 | the cell of a string has that string |
| `GeohashCells.GridSize` | cpp/spatial/geohash.cpp:52-71 | the cells are a full grid of 2^a columns and 2^b rows |
| `Geohash.Encode` | cpp/spatial/geohash.cpp:19-50 | the loop writes the letters of a place; a negative precision is an error |
| `Geohash.HashNamesCell` | cpp/spatial/geohash.cpp:19-50 | the letters of a place are the string of the cell that the place is in |
| `Geohash.EncodeGo` | internal/domain/spatial_entity.go:29-72 | the other encoder writes the same letters for precisions 1 to 12 and nothing otherwise |
| `Geohash.RefineBox` | cpp/spatial/geohash.cpp:59-69 | a letter halves the box five times by its bits |
| `Geohash.DecodeBBox` | cpp/spatial/geohash.cpp:52-73 | the box of a string, or an error for a character outside the alphabet |
| `Geohash.BoxIsCell` | cpp/spatial/geohash.cpp:52-73 | the box of a string is the grid cell that it names |
| `Geohash.EncodesIff` | cpp/spatial/geohash.cpp:19-73 | a place has a given code exactly when it is located in the code's cell on both axes |
| `Geohash.PlaceInItsBox` | cpp/spatial/geohash.cpp:19-73 | a place in the world lies in the box of its code |
| `Geohash.DecodedEncodesBack` | cpp/spatial/geohash.cpp:75-79 | the middle of a string's box encodes to the string |
| `Geohash.ShorterIsPrefix` | cpp/spatial/geohash.cpp:28-48 | a shorter code is a prefix of a longer one |
| `Geohash.PrefixCovers` | cpp/spatial/geohash.cpp:52-73 | the box of a string lies in the box of each of its prefixes |
| `Geohash.ParentCovers` | cpp/spatial/geohash.cpp:101-104 | the parent lacks the last letter and no more, and its box covers the box of the string |
| `Geohash.ParentOfCode` | cpp/spatial/geohash.cpp:101-104 | the parent of a place's code is the place's code with one letter less |
| `GeohashBits.Shares` | cpp/spatial/geohash.cpp:22-39 | of n bits the longitude has (n + 1) / 2 and the latitude n / 2 |
| `GeohashBits.BitMeans` | cpp/spatial/geohash.cpp:19-50 | bit j of letter k, for every place and precision, is a binary digit of how far east (even bits) or how far north (odd bits) the place lies |
| `GeohashBits.FirstLetter` | cpp/spatial/geohash.cpp:27-39 | for every place the highest bit of the first letter tells east from west and the next north from south |
| `GeohashBits.PartIsIndex` | cpp/spatial/geohash.cpp:30-39 | repeated halving leads to the whole part of the scaled coordinate, clamped to the grid |
| `GeohashBits.BoxSize` | cpp/spatial/geohash.cpp:52-73 | the box of n letters is 360 / 2^((5n + 1) / 2) degrees wide and 180 / 2^(5n / 2) high |
| `GeohashBits.BoxIsPlaces` | cpp/spatial/geohash.cpp:19-73 | a place of the world, its upper sides left out, has a code if and only if it lies in the code's box, upper sides left out |
| `GeohashCover.Neighbors` | cpp/spatial/geohash.cpp:81-99 | the eight codes around the middle of the box, north first and then clockwise |
| `GeohashCover.NeighborsAreSteps` | cpp/spatial/geohash.cpp:81-99 | the neighbour in each direction, at its place in the list, is the cell one step that way, clamped at the edge of the world |
| `GeohashCover.NeighborList` | cpp/spatial/geohash.cpp:81-99 | the list of the neighbours written out: north, north-east, east and on to north-west, each the cell one step that way |
| `GeohashCover.Reached` | cpp/spatial/geohash.cpp:106-132 | the cells that meet a box are connected: a set closed under touching neighbours with one has all |
| `GeohashCover.FloodIsComplete` | cpp/spatial/geohash.cpp:106-132 | a closed set that has the middle cell, if that touches, has every touching cell |
| `Flood.Accept` | cpp/spatial/geohash.cpp:122-127 | a turn that keeps a cell keeps the flood's invariant |
| `Flood.Enqueue` | cpp/spatial/geohash.cpp:123-127 | unseen neighbours are marked and queued once |
| `GeohashCover.Visit` | cpp/spatial/geohash.cpp:118-127 | a turn tests the cell and queues its unseen neighbours |
| `GeohashCover.Fill` | cpp/spatial/geohash.cpp:116-130 | the loop ends, finds no cell twice, and is closed unless the limit is passed |
| `GeohashCover.HashesForBBox` | cpp/spatial/geohash.cpp:106-132 | no duplicates, only touching cells, at most 5001, and all of them when at most 5000, for every box |
| `Geometry.BoxOfIsLeast` | cpp/spatial/rtree.h:23-44 | the bounding box holds the entries and is the least that does |
| `Geometry.NoMatchOutside` | cpp/include/geometry.h:32-40 | a box disjoint from one that holds the entries contains none of them |
| `Geometry.MeetIff` | cpp/include/geometry.h:37-40 | two boxes intersect if and only if they share a point |
| `Geometry.CoverIff` | cpp/include/geometry.h:32-35 | a box covers another if and only if it contains all its points |
| `Geometry.MatchingCount` | cpp/spatial/rtree.cpp:108-113 | filtering keeps each entry in the box as often as it occurs and no other |
| `Geometry.KeepFirstCorrect` | cpp/spatial/rtree.cpp:130-139 | deduplication keeps the first entry of every id |
| `RTreeModel.BestGrowsLeast` | cpp/spatial/rtree.cpp:52-58 | the chosen child needs the least enlargement, the first among equals |
| `RTreeModel.EnlargementIs` | cpp/spatial/rtree.cpp:93-102 | the enlargement is the strips between the box and the point and the corner between them |
| `RTreeModel.InsertKeepsShape` | cpp/spatial/rtree.cpp:37-91 | insertion keeps equal depth, 4 to 8 items below the root and tight boxes, splitting at nine |
| `RTreeModel.InsertAddsEntry` | cpp/spatial/rtree.cpp:37-91 | insertion adds exactly the new entry, however it splits |
| `RTreeModel.InsertRootShape` | cpp/spatial/rtree.cpp:14-35 | a split root becomes the child of a new root with two children |
| `RTreeModel.InsertRootAddsEntry` | cpp/spatial/rtree.cpp:14-35 | the tree holds the old entries and the new one |
| `RTreeModel.InsertHolds` | cpp/spatial/rtree.cpp:14-35 | a tree that holds the inserted entries still does after one more insertion |
| `RTreeModel.MbrOfIsBoxOf` | cpp/spatial/rtree.h:35-43 | the box joined from children is the least box of all entries below |
| `RTreeModel.SearchIsScan` | cpp/spatial/rtree.cpp:104-119 | the pruned search equals the filter of all entries in order |
| `RTreeModel.SearchAnswers` | cpp/spatial/rtree.cpp:121-140 | with distinct ids the deduplicated search has exactly the entries in the box, each once |
| `RTreeNodes.RTreeNode.UpdateMBR` | cpp/spatial/rtree.h:23-44 | the loop sets the least box of entries or children |
| `RTreeNodes.RTreeNode.Split` | cpp/spatial/rtree.cpp:74-91 | halves the items of a node in place, as the model does |
| `RTreeNodes.RTreeNode.ChooseChild` | cpp/spatial/rtree.cpp:52-58 | the loop finds the model's child |
| `RTreeNodes.RTreeNode.InsertEntry` | cpp/spatial/rtree.cpp:37-72 | the in-place insertion makes the nodes the model's tree, and changes no other node |
| `RTreeNodes.RTreeNode.Search` | cpp/spatial/rtree.cpp:104-119 | the recursion appends what the model's search finds |
| `RTreeIndex.InsertInto` | cpp/spatial/rtree.cpp:14-35 | a collection's root after an insertion is the model's |
| `RTreeIndex.Dedup` | cpp/spatial/rtree.cpp:130-139 | the loop keeps the first entry of every id |
| `RTreeIndex.RTree.Insert` | cpp/spatial/rtree.cpp:14-35 | the collection's log gains the entry, other collections stay, and all trees stay well formed |
| `RTreeIndex.RTree.SearchBBox` | cpp/spatial/rtree.cpp:121-140 | the answer for everything inserted since the last clear, for every box |
| `RTreeIndex.RTree.Clear` | cpp/spatial/rtree.cpp:187-190 | the collection is empty, the others stay |
| `RTreeIndex.RTree.Size` | cpp/spatial/rtree.cpp:182-185 | the number of insertions since the last clear |
| `QuadTreeModel.QuadrantHolds` | cpp/spatial/quadtree.h:43-60 | the chosen quadrant's box contains the point |
| `QuadTreeModel.SubdivideWellFormed` | cpp/spatial/quadtree.cpp:40-52 | a subdivision sorts the entries into quadrants that hold them, with 17 + d at most in one |
| `QuadTreeModel.GrowLeafCorrect` | cpp/spatial/quadtree.cpp:25-31 | a leaf takes the entry and subdivides above 16 entries below the depth limit |
| `QuadTreeModel.InsertCorrect` | cpp/spatial/quadtree.cpp:22-38 | insertion succeeds exactly in the box, adds exactly the entry, and keeps 16 + d entries at most in a leaf at depth d |
| `QuadTreeBound.ShaftSinks` | cpp/spatial/quadtree.cpp:22-52 | one more entry at the place of a full leaf sinks the whole leaf one level |
| `QuadTreeBound.BoundMet` | cpp/spatial/quadtree.cpp:22-52 | of 16 + d entries at one place a leaf at depth d holds all, for every depth the tree may have |
| `QuadTreeBound.LimitHeldIff` | cpp/spatial/quadtree.cpp:22-52 | no leaf that could be divided holds more than 16 entries, in every run, if and only if the depth limit is at most one |
| `QuadTreeModel.SearchIsScan` | cpp/spatial/quadtree.cpp:54-68 | the pruned search equals the filter of all entries in order |
| `QuadTreeNodes.QuadNode.Insert` | cpp/spatial/quadtree.cpp:22-38 | the in-place insertion makes the nodes the model's tree |
| `QuadTreeNodes.QuadNode.SubdivideNode` | cpp/spatial/quadtree.cpp:40-52 | the in-place subdivision is the model's |
| `QuadTreeNodes.QuadNode.Search` | cpp/spatial/quadtree.cpp:54-68 | the recursion finds what the model's search finds |
| `QuadTreeIndex.InsertHolds` | cpp/spatial/quadtree.cpp:10-20 | a tree that holds the accepted entries still does after one more insertion |
| `QuadTreeIndex.SearchFinds` | cpp/spatial/quadtree.cpp:70-78 | a search finds exactly the accepted entries in the box, as often as they were accepted |
| `QuadTreeIndex.QuadTree.Insert` | cpp/spatial/quadtree.cpp:10-20 | fails exactly outside the world box; otherwise the log gains the entry and other collections stay |
| `QuadTreeIndex.QuadTree.SearchBBox` | cpp/spatial/quadtree.cpp:70-78 | the answer for everything accepted since the last clear |
| `QuadTreeIndex.QuadTree.Size` | cpp/spatial/quadtree.cpp:105-108 | the number of accepted entries since the last clear |
| `QuadTreeIndex.QuadTree.Clear` | cpp/spatial/quadtree.cpp:110-113 | the collection is empty, the others stay |
| `LsmModel.LessTotal` | cpp/storage/lsm_tree.cpp:126-132 | byte order on keys is a strict total order |
| `LsmModel.FlushKeepsVisible` | cpp/storage/lsm_tree.cpp:193-202 | moving the memtable into a table changes no answer |
| `LsmModel.FlushKeepsOrder` | cpp/storage/lsm_tree.cpp:193-202 | newer tables hold only larger sequence numbers, also after a flush |
| `LsmModel.MergedIsNewestLive` | cpp/storage/lsm_tree.cpp:220-231 | the merge holds the newest live version of each key up to the scan bound |
| `LsmModel.InScanIff` | cpp/storage/lsm_tree.cpp:224 | the scan leaves out exactly the keys that go on after five bytes 0xff |
| `LsmModel.NewestAfterCompaction` | cpp/storage/lsm_tree.cpp:204-257 | after compaction a key has its newest live version, or nothing beyond the bound |
| `LsmModel.CompactionExact` | cpp/storage/lsm_tree.cpp:204-257 | compaction keeps the answer for a key if and only if the memtable has the key, or it is in the bound and its newest version is no tombstone over a live one, or it is beyond the bound and was not visible |
| `LsmModel.VisibleSurvives` | cpp/storage/lsm_tree.cpp:204-257 | a visible key survives unless it goes on after five bytes 0xff |
| `LsmModel.DeletedKeyReturns` | cpp/storage/lsm_tree.cpp:138-147 | an invisible key is visible after compaction if and only if the memtable is without it, it is in the bound, and the tables have a tombstone over a live version |
| `Lsm.DeletedKeyRun` | cpp/storage/lsm_tree.cpp:156-257 | put, delete, put of another key, compact: the deleted key is gone before and back after, for all keys and values that fill the memtable |
| `LsmModel.CompactionKeepsOrder` | cpp/storage/lsm_tree.cpp:233-252 | the compacted table is below the memtable and the counter |
| `Lsm.LowerBound` | cpp/storage/lsm_tree.cpp:128-129 | the binary search splits a sorted table at the key |
| `Lsm.TableGet` | cpp/storage/lsm_tree.cpp:126-132 | the lookup finds the version of a key in a table, which may be empty |
| `Lsm.TableScan` | cpp/storage/lsm_tree.cpp:138-147 | the scan finds the live versions up to the bound, in order |
| `Lsm.InKeyOrder` | cpp/storage/lsm_tree.cpp:37-43 | a memtable is listed in key order |
| `Lsm.MergeAll` | cpp/storage/lsm_tree.cpp:220-231 | the loops compute the merge, and the number of entries scanned |
| `Lsm.KeepLive` | cpp/storage/lsm_tree.cpp:233-240 | the loop keeps the live versions and counts the others |
| `Lsm.MergeTables` | cpp/storage/lsm_tree.cpp:214-241 | the compacted table lists the merge, and no tombstone is counted |
| `Lsm.WriteRefines` | cpp/storage/lsm_tree.cpp:156-167 | a write in the memtable is a write in the plain map |
| `Lsm.MemTableStore.Put` | cpp/storage/lsm_tree.cpp:17-22 | stores the version and adds to the size |
| `Lsm.MemTableStore.Del` | cpp/storage/lsm_tree.cpp:24-28 | stores a tombstone without adding to the size |
| `Lsm.MemTableStore.Clear` | cpp/storage/lsm_tree.cpp:45-49 | empties the table and the size |
| `Lsm.LSMTree.Put` | cpp/storage/lsm_tree.cpp:156-161 | the plain map gains the value, flush or no flush |
| `Lsm.LSMTree.Del` | cpp/storage/lsm_tree.cpp:163-167 | the plain map loses the key |
| `Lsm.LSMTree.Get` | cpp/storage/lsm_tree.cpp:169-187 | the lookup equals lookup in the plain map |
| `Lsm.LSMTree.FlushMemTable` | cpp/storage/lsm_tree.cpp:193-202 | the plain map stays |
| `Lsm.LSMTree.Compact` | cpp/storage/lsm_tree.cpp:204-257 | the answer for each key stays exactly when the key survives; what is there stays with its value, unless the key goes on after five bytes 0xff; fewer than two tables are skipped |
| `Lsm.AfterCompaction` | cpp/storage/lsm_tree.cpp:204-257 | the plain map of the compacted tree, and which keys differ |
| `Crc32.TableStep` | cpp/storage/snapshot.cpp:34-41 | one table lookup equals eight bitwise steps |
| `Crc32.LookupIsFeed` | cpp/storage/snapshot.cpp:23-41 | the same for any linear step function, from its linearity |
| `Crc32.FeedByteIsSteps` | cpp/storage/snapshot.cpp:34-41 | feeding a byte bit by bit is eight steps of the register with the byte mixed in |
| `Crc32.CrcConcat` | cpp/storage/snapshot.cpp:79-86 | the checksum of a concatenation is the checksum continued |
| `Crc32.ChangedByteDetected` | cpp/storage/snapshot.cpp:34-41 | data that differs in one byte differs in its checksum |
| `Crc32.CheckValue` | cpp/storage/snapshot.cpp:23-41 | the checksum of the digits 1 to 9 is 0xCBF43926 |
| `Crc32.Fill` | cpp/storage/snapshot.cpp:23-32 | the nested loops fill the table with eight steps of each index |
| `Crc32.CrcTable.InitCRC` | cpp/storage/snapshot.cpp:23-32 | the table is ready afterwards |
| `Crc32.CrcTable.UpdateCRC` | cpp/storage/snapshot.cpp:34-41 | the table-driven loop computes the bitwise checksum |
| `Records.ReadRecordBack` | cpp/storage/wal.cpp:27-88 | a written record reads back, whatever follows it |
| `Records.ReadRecordShort` | cpp/storage/wal.cpp:66-88 | a record cut short reads as nothing |
| `Records.ByteAt` | cpp/storage/wal.cpp:31-41 | byte number i of a number has weight 256^i |
| `Streams.TornStream` | cpp/storage/wal.cpp:90-100 | any prefix of a stream of records reads as the whole records in it |
| `Streams.StreamExact` | cpp/storage/wal.cpp:90-100 | a stream reads back exactly when every record is within the limits |
| `Wal.ReplayExact` | cpp/storage/wal.cpp:27-100 | replay gives back the log exactly when all names are at most 1024 bytes |
| `Wal.EntryLayout` | cpp/storage/wal.cpp:27-44 | an entry byte by byte: operation, collection and id each behind its length, then latitude, longitude and time |
| `Wal.TornLog` | cpp/storage/wal.cpp:27-100 | a log with a torn tail replays to a prefix that has every whole entry |
| `Wal.ReplayFile` | cpp/storage/wal.cpp:90-100 | the loop handles the entries of the file in order, up to the first bad one |
| `Wal.WAL.Append` | cpp/storage/wal.cpp:46-56 | the entry is appended, and everything is on disk when enough are pending and the sync succeeds; a failed sync is reported and the count stays |
| `Wal.WAL.Flush` | cpp/storage/wal.cpp:58-64 | everything appended is on disk if the sync succeeds; the count starts again either way |
| `Wal.WAL.Truncate` | cpp/storage/wal.cpp:102-107 | the log is empty, and the count stays |
| `Wal.WAL.CrashKeepsPrefix` | cpp/storage/wal.cpp:46-100 | a crash loses at most unsynced entries, and only from the end; after every sequence of calls these are fewer than `sync_every`, unless a sync has failed since one succeeded |
| `Snapshot.HeaderBack` | cpp/storage/snapshot.cpp:59-65 | the header's magic number and count read back |
| `Snapshot.HeaderLayout` | cpp/storage/snapshot.h:11-17 | the header byte by byte, with its magic number and version |
| `Snapshot.LoadsIff` | cpp/storage/snapshot.cpp:153-165 | a file is accepted if and only if a whole header is there and starts with the bytes of the magic number |
| `Snapshot.LoadExact` | cpp/storage/snapshot.cpp:133-177 | a snapshot loads as written exactly when all names are at most 1024 bytes |
| `Recovery.ApplyAllEffect` | cpp/storage/wal.cpp:90-100 | a replayed log leaves for each key what its last entry says |
| `Recovery.LastEntryDecides` | cpp/storage/wal.h:12-15 | operation 1 sets a key, 2 deletes it and 3 empties the store; the last entry that bears on a key decides |
| `Recovery.LastRecordDecides` | cpp/storage/snapshot.cpp:67-77 | a snapshot record, id before collection, leaves its place under its key unless a later one does |
| `Recovery.ReplayChangesNothing` | cpp/storage/compactor.cpp:32-49 | replaying a log changes nothing if and only if the state shows the last entry of each key |
| `Recovery.ReplayTwice` | cpp/storage/compactor.cpp:32-49 | replaying a log onto its own result changes nothing |
| `Recovery.RecoverSmall` | cpp/storage/wal.cpp:66-88 | whatever the files hold, a restart finds short names only |
| `Disks.Disk.AppendToTemp` | cpp/storage/snapshot.cpp:59-90 | a write goes through every shorter write; in another file nothing changes but what others append to the log |
| `Disks.Disk.Others` | cpp/storage/wal.cpp:27-44 | other threads' appends go through every shorter append, and touch no other file |
| `SnapshotWriting.SnapshotWriter.Begin` | cpp/storage/snapshot.cpp:50-65 | a blank header in the temporary file, or a failure that leaves the snapshot and the log: the file does not open, or has no room for the header |
| `SnapshotWriting.SnapshotWriter.WriteEntry` | cpp/storage/snapshot.cpp:67-90 | the entry's bytes, count and running checksum; an entry for which there is no room leaves some of its bytes and is neither counted nor summed |
| `SnapshotWriting.SnapshotWriter.Finalize` | cpp/storage/snapshot.cpp:92-100 | the header has the count and the checksum of the entries written whole, before all bytes written |
| `SnapshotWriting.CrcIsChunkwise` | cpp/storage/snapshot.cpp:79-86 | the CRC fits the writer's piecewise updates |
| `SnapshotWriting.WriteSnapshot` | cpp/storage/compactor.cpp:35-45 | when every entry fits, the image of the dump is in the temporary file, and otherwise a file that loads to fewer entries; at every byte the snapshot is the old one and the log has only grown by what others append |
| `SnapshotWriting.WriteChecked` | cpp/storage/snapshot.cpp:50-100 | the header of a snapshot that fits holds the CRC-32 of its entries |
| `Compactor.Compact` | cpp/storage/compactor.cpp:26-61 | while others append at any time, every state the disk passes through has the old snapshot or the new one and a log between the old one and all that others append, or the new snapshot alone; a failed `begin` or `commit` leaves the old snapshot; otherwise the log is cut and success reported whether or not the entries could be written |
| `Compactor.WrittenExact` | cpp/storage/compactor.cpp:41-45 | the snapshot loads to the dump, whose names fit, if and only if every entry could be written |
| `Compactor.StageFound` | cpp/storage/compactor.cpp:26-61 | in each of those states a restart finds the log so far on the old snapshot or on the dump, or the dump |
| `Compactor.CompactionCrashSafe` | cpp/storage/compactor.cpp:32-49 | without appends, when the dump is the state on disk, all of those are the old state |
| `Compactor.CrashAmidAppends` | cpp/storage/compactor.cpp:32-49 | with appended entries, each of those is the old state with some first part of them |
| `Compactor.CompactAmid` | cpp/storage/compactor.cpp:26-61 | when every entry can be written, appended entries are found in part until the truncation and not after it; the compacted store has them if and only if they change nothing |
| `Compactor.CrashBeforeTruncation` | cpp/storage/compactor.cpp:45-49 | a restart between rename and truncation gives the dump if and only if the dump shows what the log does |
| `Compactor.UnsyncedEntryGoesBack` | cpp/storage/compactor.cpp:45-49 | such a restart finds for each key what the log on disk says, and the dump's place only where the log says nothing, so an unsynced change of a logged key goes back |
| `Compactor.ReadBackExact` | cpp/storage/snapshot.cpp:133-177 | a dump reads back exactly when its names fit |
| `Durability.EventKeeps` | cpp/storage/compactor.cpp:26-61 | with the precautions, every append, partial write, sync, step of a compaction and restart keeps the log on the disk and in the buffer one stream that continues the snapshot |
| `Durability.LoggedIsDurable` | cpp/storage/wal.cpp:46-100 | such a stream, cut anywhere, recovers to a first part of what was appended that has every synced entry |
| `Durability.AppendLost` | cpp/storage/compactor.cpp:32-49 | with appends during a compaction, from every state between compactions any short-named entry that changes the store can be lost although it is synced |
| `Durability.ClearedComesBack` | cpp/storage/compactor.cpp:45-49 | without a flush before the dump, a restart can find a state that the store was never in |
| `Durability.NextSpoilt` | cpp/storage/wal.cpp:10-17 | without cutting off a torn entry, a synced entry appended after a restart can be unreadable |
| `Durability.LongNameLost` | cpp/storage/wal.cpp:27-88 | without a limit on names, a synced entry with a longer name is not found again |
| `Durability.DurableIff` | cpp/storage/compactor.cpp:26-61 | in every run a crash at any point recovers a first part of the entries with every synced one, if and only if the log is flushed before the dump, appends wait for the compaction, a restart cuts off a torn entry, and names are within the readers' limit |
| `Durability.StageReached` | cpp/storage/compactor.cpp:26-61 | each state that a compaction can take the disk through is, for a restart, that of a run of these events going on from the server's |
| `Durability.CompactIsRun` | cpp/storage/compactor.cpp:26-61 | so is every state of the disk during `compact`, whatever it comes to, when every entry can be written |
| `Decimal.StollOfPrint` | cpp/net/protocol.cpp:104-118 | a printed 64-bit number parses to itself |
| `Decimal.PrintShort` | cpp/net/protocol.cpp:8-32 | a printed 64-bit number is at most 20 characters |
| `Decimal.DigitsPush` | cpp/net/protocol.cpp:8-32 | numbers are written in base ten, the highest digit first |
| `Resp.DecodedIsGood` | cpp/net/protocol.cpp:94-123 | whatever is decoded is within the limits |
| `Resp.RoundTrip` | cpp/net/protocol.cpp:8-123 | a value within the limits decodes from its encoding, which is used up exactly |
| `Resp.RoundTripExact` | cpp/net/protocol.cpp:8-123 | a value decodes from its encoding if and only if it is within the limits |
| `Resp.KindByTag` | cpp/net/protocol.cpp:101-122 | whatever is decoded, the first character of the buffer tells its kind, and no other character starts a value |
| `Resp.PingOnTheWire` | cpp/net/protocol.cpp:34-41 | a command of one word, character by character |
| `Resp.LimitsExact` | cpp/net/protocol.h:11-13 | the limits in numbers: a value comes back from its encoding if and only if it keeps to them |
| `Resp.PrefixFails` | cpp/net/protocol.cpp:63-123 | no proper prefix of an encoding decodes |
| `Resp.EncodeCommand` | cpp/net/protocol.cpp:34-41 | strings are encoded as an array of bulk strings |
| `Resp.CommandReadsBack` | cpp/net/protocol.cpp:34-41 | a command within the limits is decoded as it was encoded |
| `Resp.FindCrlf` | cpp/net/protocol.cpp:64-65 | the first line break, if there is one |
| `Resp.RespDecoder.NextLine` | cpp/net/protocol.cpp:63-70 | the next line, or nothing and no movement |
| `Resp.RespDecoder.DecodeBulkString` | cpp/net/protocol.cpp:72-79 | the bulk string of a length |
| `Resp.RespDecoder.DecodeArray` | cpp/net/protocol.cpp:81-92 | the values of an array, in order |
| `Resp.RespDecoder.DecodeOne` | cpp/net/protocol.cpp:94-123 | one value, and the position exactly behind it |
| `ShapefileRings.ClosedRingArea` | internal/formats/shapefile/shp.go:288-294 | for a closed ring the sum is the shoelace sum, twice the signed area |
| `ShapefileRings.RingAreaIsSum` | internal/formats/shapefile/shp.go:288-294 | stepping through flat coordinates sums the edges of the ring's points |
| `ShapefileRings.DoubleArea` | internal/formats/shapefile/shp.go:288-294 | the loop computes the sum, with every index in range |
| `ShapefileRings.CheckRing` | internal/formats/shapefile/shp.go:268-273 | a ring passes exactly when it has four points or more and an area |
| `ShapefileRings.GroupedMore` | internal/formats/shapefile/shp.go:274-277 | a group closed at a clockwise ring keeps the grouping right |
| `ShapefileRings.MakeMultiPolygonEndss` | internal/formats/shapefile/shp.go:262-284 | fails exactly when a ring is short or flat; otherwise non-empty groups whose concatenation is the ends, each after the first started by a clockwise ring and without another |
| `ShapefileContent.FieldsBack` | internal/formats/shapefile/byteslicereader.go:57-113 | numbers read back from their bytes |
| `ShapefileContent.BytesBack` | internal/formats/shapefile/byteslicereader.go:57-113 | the bytes of the numbers read are the bytes that were there |
| `ShapefileContent.FlatBack` | internal/formats/shapefile/shp.go:174-191 | coordinates by point read back from coordinates by kind |
| `ShapefileContent.BodyBack` | internal/formats/shapefile/shp.go:174-191 | and the other way around |
| `ShapefileShape.ReadsBack` | internal/formats/shapefile/shp.go:86-218 | every shape within the limits is read back from its description |
| `ShapefileShape.ReadsWhole` | internal/formats/shapefile/shp.go:86-218 | what is read as a shape with a layout has the content, byte for byte, as its description |
| `ShapefileShape.DescriptionsDiffer` | internal/formats/shapefile/shp.go:86-218 | different shapes have different descriptions |
| `ShapefileReader.ByteSliceReader.ReadUint32` | internal/formats/shapefile/byteslicereader.go:102-113 | four bytes, or a lasting failure that leaves the rest |
| `ShapefileReader.ByteSliceReader.ReadFloat64Pair` | internal/formats/shapefile/byteslicereader.go:57-69 | two doubles, or a lasting failure |
| `ShapefileReader.ByteSliceReader.ReadFloat64s` | internal/formats/shapefile/byteslicereader.go:71-85 | n doubles, or a lasting failure |
| `ShapefileReader.ByteSliceReader.ReadEnds` | internal/formats/shapefile/byteslicereader.go:30-55 | the ends of the parts in flat coordinates; fails exactly when the first part is not at zero or one is beyond the points |
| `ShapefileReader.ByteSliceReader.ReadXYs` | internal/formats/shapefile/byteslicereader.go:115-129 | x and y of each point at its place, nothing else written |
| `ShapefileReader.ByteSliceReader.ReadOrdinates` | internal/formats/shapefile/byteslicereader.go:87-100 | one further coordinate of each point at its place, nothing else written |
| `Shapefile.WrittenIsFlat` | internal/formats/shapefile/shp.go:174-191 | the writes of all kinds together give the coordinates by point |
| `Shapefile.ReadCoords` | internal/formats/shapefile/shp.go:174-191 | after the length check the coordinate reads are in range and use up the content |
| `Shapefile.ReadPartsBody` | internal/formats/shapefile/shp.go:166-209 | lines or rings after the checks: the parts, the coordinates and the polygons |
| `Shapefile.ReadParts` | internal/formats/shapefile/shp.go:132-164 | the counts and the length check for lines and rings |
| `Shapefile.ReadPoints` | internal/formats/shapefile/shp.go:147-195 | multipoints, and types without a layout |
| `Shapefile.ReadContent` | internal/formats/shapefile/shp.go:86-218 | a record is read exactly when its content describes a shape, and is that shape |
| `ShapefileFile.ReadRecord` | internal/formats/shapefile/shp.go:67-84 | the header, its limits, and the content it frames |
| `ShapefileFile.ReadRecords` | internal/formats/shapefile/shp.go:46-59 | the loop reads the records in order, numbered from one |
| `ShapefileFile.HeaderRead` | internal/formats/shapefile/shp.go:72-73 | number and length of a record are read with the highest byte first, and the length counts 16-bit words |
| `ShapefileTypes.FormByType` | internal/formats/shapefile/shp.go:88-162 | what is read of a record by its type code, with the length that a record of the type must have |
| `ShapefileTypes.CoordinatesLie` | internal/formats/shapefile/shp.go:173-193 | the place in the record that each coordinate of each point is read from |
| `ShapefileTypes.OnlyPolygonsLookAtValues` | internal/formats/shapefile/shp.go:197-209 | the values of the coordinates bear on polygons only |
| `ShapefileTypes.RectangleTurns` | internal/formats/shapefile/shp.go:262-294 | a ring that goes up, right, down and left is clockwise, and its reverse is not |
| `ShapefileFile.RecordCut` | internal/formats/shapefile/shp.go:67-84 | a record cut short reads as the end of the file |
| `ShapefileFile.FileBack` | internal/formats/shapefile/shp.go:46-59 | shapes written one after the other read back |
| `ShapefileFile.TornFile` | internal/formats/shapefile/shp.go:46-59 | a file cut inside its last record reads as the records before it |
| `Clip.IntersectOnEdge` | cpp/spatial/polygon_ops.cpp:23-33 | the new vertex is on the edge of the box, between the two vertices |
| `Clip.IntersectKeeps` | cpp/spatial/polygon_ops.cpp:23-33 | it is on the right side of every edge that both vertices are |
| `Clip.PassInside` | cpp/spatial/polygon_ops.cpp:42-53 | a pass puts everything inside its edge and keeps the edges before |
| `Clip.ClippedInBox` | cpp/spatial/polygon_ops.cpp:37-58 | every vertex of the result is in the box, for every polygon and box |
| `Clip.UnchangedIff` | cpp/spatial/polygon_ops.cpp:9-59 | a polygon is unchanged if and only if all its vertices are in the box |
| `Clip.ClipIdempotent` | cpp/spatial/polygon_ops.cpp:9-59 | clipping twice is clipping once |
| `Clip.ClipKeeps` | cpp/spatial/polygon_ops.cpp:46-49 | no vertex in the box is lost |
| `Clip.ClipByEdge` | cpp/spatial/polygon_ops.cpp:42-53 | the inner loop computes one pass, without a division by zero |
| `Clip.ClipPolygonByBBox` | cpp/spatial/polygon_ops.cpp:9-59 | the four passes, with the result in the box |
| `ClipBoundary.PassCovers` | cpp/spatial/polygon_ops.cpp:42-53 | every point of the boundary inside the edge is on the boundary after the pass |
| `ClipBoundary.PassAdds` | cpp/spatial/polygon_ops.cpp:42-53 | every point of the boundary after the pass was on it before or is on the edge |
| `ClipBoundary.ClippedBoundary` | cpp/spatial/polygon_ops.cpp:9-59 | every point of the polygon's boundary in the box is on the result's boundary, and the result's boundary is in the box and has nothing else but points of the sides of the box |
| `Simplify.SplitShrinks` | cpp/spatial/polygon_ops.cpp:94-102 | the split makes both halves smaller if and only if a vertex between is off the segment |
| `Simplify.ToleranceEnds` | cpp/spatial/polygon_ops.cpp:91-110 | the recursion ends for every tolerance that is not negative |
| `Simplify.EndsIff` | cpp/spatial/polygon_ops.cpp:91-110 | for each input, the recursion comes to an end if and only if every split it makes is inside its run |
| `Simplify.EndsForAllIff` | cpp/spatial/polygon_ops.cpp:86-118 | it comes to an end for every polygon if and only if the tolerance is not negative |
| `Simplify.NegativeToleranceRepeats` | cpp/spatial/polygon_ops.cpp:94-106 | a negative tolerance splits every straight run at its start |
| `Simplify.KeptSimplifies` | cpp/spatial/polygon_ops.cpp:91-110 | every vertex dropped is within the tolerance of the segment joining the kept ones around it |
| `Simplify.FarthestIsFirst` | cpp/spatial/polygon_ops.cpp:94-101 | the split is at the first of the farthest vertices |
| `Simplify.DroppedIff` | cpp/spatial/polygon_ops.cpp:103-109 | of a run everything but the start is dropped if and only if there is nothing between, or the tolerance is not negative and everything between is within it |
| `Simplify.KeptNeeded` | cpp/spatial/polygon_ops.cpp:91-110 | each vertex kept between is farther than the tolerance from the segment of two kept vertices around it, and the first of the farthest there |
| `Simplify.ChainIncreases` | cpp/spatial/polygon_ops.cpp:104-108 | the kept vertices are in order |
| `Simplify.FindFarthest` | cpp/spatial/polygon_ops.cpp:94-101 | the loop finds the first of the farthest vertices |
| `Simplify.Rdp` | cpp/spatial/polygon_ops.cpp:91-110 | the recursion returns the vertices kept |
| `Simplify.SimplifyPolygon` | cpp/spatial/polygon_ops.cpp:86-118 | a subsequence with the first and the last vertex, within the tolerance of all, each other vertex kept for a reason; just those two if and only if every other is within the tolerance |
| `ConnPoolModel.StepKeeps` | cpp/net/conn_pool.cpp:86-151 | every locked section keeps the counter right and the bound |
| `ConnPoolModel.FreshConcat` | cpp/net/conn_pool.cpp:162-179 | eviction treats each idle connection by itself |
| `ConnPoolModel.FreshOne` | cpp/net/conn_pool.cpp:162-179 | a connection is kept if and only if its age, as a 64-bit word, is at most the limit |
| `ConnPoolModel.EveryRun` | cpp/net/conn_pool.cpp:86-179 | in every interleaving the counter is idle plus handed-out connections, at most max_size - 1 + T |
| `ConnPoolModel.ConnectAll` | cpp/net/conn_pool.cpp:110-125 | from an empty pool the bound is reached, for every number of threads |
| `ConnPoolModel.BoundMet` | cpp/net/conn_pool.cpp:86-125 | from every start of the pool the bound is reached |
| `ConnPoolModel.LimitHeldIff` | cpp/net/conn_pool.cpp:110-125 | from each start, the pool stays within max_size in every run if and only if no two threads connect at once or max_size is zero |
| `ConnPoolModel.HandBackIff` | cpp/net/conn_pool.cpp:128-151 | a hand-back leaves the counter right, and the pool in order, if and only if the connection was out |
| `ConnPoolModel.HandedBackTwice` | cpp/net/conn_pool.cpp:128-151 | so a second hand-back of a connection always puts the counter wrong |
| `ConnPool.KeepFresh` | cpp/net/conn_pool.cpp:162-179 | the loop keeps the connections within the idle limit in order, by unsigned subtraction, and counts the others off |
| `ConnPool.ConnectionPool.EvictIdleLocked` | cpp/net/conn_pool.cpp:162-179 | one eviction step |
| `ConnPool.ConnectionPool.PopIdle` | cpp/net/conn_pool.cpp:96-108 | the first idle connection is handed out if and only if it is healthy and answers, and is counted off otherwise |
| `ConnPool.ConnectionPool.TryIdle` | cpp/net/conn_pool.cpp:92-109 | one turn of the loop: eviction, and then the first connection left |
| `ConnPool.ConnectionPool.AcquireLocked` | cpp/net/conn_pool.cpp:86-118 | of the idle connections within the limit the first that is healthy and answers is handed out with its new time, those before it are counted off and those after it stay; if there is none the queue is empty and the thread waits if and only if the pool is full; the loop is a run of steps |
| `ConnPool.ConnectionPool.FinishCreate` | cpp/net/conn_pool.cpp:118-125 | one step for a connection made or not made |
| `ConnPool.ConnectionPool.ReleaseConn` | cpp/net/conn_pool.cpp:128-142 | the effect of a release, whatever is handed back, also on an idle entry for the same connection; the pool stays in order if and only if it was out; nothing for no connection |
| `ConnPool.ConnectionPool.InvalidateConn` | cpp/net/conn_pool.cpp:144-151 | the same for an invalidation |
| `PubSub.PubSubBroker.Subscribe` | cpp/net/pubsub/pubsub.cpp:16-25 | a new id with one channel; the indexes stay right |
| `PubSub.PubSubBroker.PSubscribe` | cpp/net/pubsub/pubsub.cpp:27-36 | a new id with one pattern; the indexes stay right |
| `PubSub.PubSubBroker.Unsubscribe` | cpp/net/pubsub/pubsub.cpp:38-59 | the channel or the subscriber goes, and nobody else changes |
| `PubSub.PubSubBroker.PUnsubscribe` | cpp/net/pubsub/pubsub.cpp:61-80 | the pattern or the subscriber goes, and nobody else changes |
| `PubSub.PubSubBroker.Publish` | cpp/net/pubsub/pubsub.cpp:82-112 | exactly the live subscribers with the channel or a matching pattern are called, each once |
| `PubSub.RemoveAll` | cpp/net/pubsub/pubsub.cpp:43-47 | the id leaves the index under the given names and nothing else does |

## Left out

- `RTree::remove` and `QuadTree::remove`: they only decrement a counter.
- `searchRadius`, distances, nearest neighbours, areas in square kilometres, trajectories: trigonometric or approximate.
- `bulkLoad` of the R-tree: the tree it builds is never installed.
- Rounding of doubles, infinities and NaN: coordinates are reals, or bit patterns that a parameter gives a value.
- Wrap-around of 64-bit sequence numbers, ids and sizes, except in the Hilbert loops, the CRC and the pool's counter.
- Failing writes to the log: a failed sync is modelled, an entry that does not reach the stream is not.
- `SSTable::write` and `SSTable::load`: tables of the running server live in memory.
- Reading the header of a shapefile, its index and its attribute table.
- Error messages: an error is modelled as one outcome.
- Sockets, threads' waiting times and the condition variable: a wait changes nothing in the pool.
- Replication, clustering, the HTTP and TCP servers, the Lua engine, map projections and drawing.
- Hilbert.XyToD: the grid size is a power of two of at most 2^31, as the class always makes it.
- Hilbert.DToXY: the same.
- Wal.WAL.Append: the entry reaches the stream; a stream that has failed stays failed, and the false result of that is not modelled.
- Wal.WAL.Truncate: the file is opened again; the result that tells of a failure is not modelled.
- Durability.DurableIff: entries of a dump can be written; WrittenExact says what becomes of a snapshot otherwise.
- Shapefile.ReadPartsBody: after an invalid part the source makes further reads that do nothing before it reports the error; the model reports it at once.
- ShapefileReader.ByteSliceReader.ReadEnds: required to have enough bytes, as its only caller checks; with fewer the source would fail at run time.
- Simplify.Rdp: stated for the inputs on which the recursion ends, which EndsIff and EndsForAllIff describe.
- Simplify.SimplifyPolygon: the same.
- ConnPool.ConnectionPool.AcquireLocked: started for a thread that is not yet connecting, among at most as many threads as configured; the clock stands still while the lock is held, where the source reads it again on each turn of the loop.
- PubSub.PubSubBroker.Publish: the calls of the handlers are the returned ids; what handlers do is not modelled.
