# A model of the building and address importer

The importer compares three Polish government registers (BDOT10k and EGIB buildings, PRG addresses)
with OpenStreetMap and serves the objects that OpenStreetMap lacks. This project models the parts of
it that are hard to get right and proves what they are meant to keep. `dafny verify dfyconfig.toml`
checks all of it.

## What is modelled

**The matcher as a materialised view** (`MatchRule`, `Tables`, `Recompute`, `DrainSpec`, `Drain`,
`DrainProtocol`, `DirtyCells`, `QueueCommands`, `BuildingGrid`, `AddressJoin`, `FullCompare`,
`Equivalence`).
Every register has a table of unmatched objects and a table of totals per zoom-14 cell. Edits queue
the cells they touch; the drain recomputes queued cells, oldest first, 64 to a transaction; a full
compare rebuilds the same tables by another algorithm.

- `Drain.Connection` holds the tables as fields; a transaction is a snapshot to roll back to. Its
  methods are proved against `DrainSpec.OneAtATime`, the plain fold of one cell after the other, with
  any set of failing cells and a stop at any poll of the shutdown flag.
- `DrainProtocol` is the same drain as a state machine under snapshot isolation: edits commit between
  a group's begin and its commit. Its invariant is that no stale cell is ever without a queue row.
  `DirtyCells` looks at the premise of that, that an edit queues every cell it affects.
- `FullCompare` compares the two ways of filling the tables, and `Equivalence` puts the sweep, the drain
  and the full compares into one contract, from any state the protocol can be in.

What the match rule asks of geometry (intersection, coverage, distance on the sphere) and the
projection are function parameters; the projection is assumed to be strictly monotone and no more.
Which rows of OpenStreetMap are read for a cell is modelled, since the equivalence turns on it.
Names are taken as already normalised and resolved through the street table. OpenStreetMap rows,
retired buildings and user reports are one set of evidence.

**Ring geometry of the map page** (`Segments`, `Rings`, `RingOverlap`), over exact reals where the page uses
doubles.

**The reader of a PBF file's header** (`Varint`, `PbfHeader`, `CivilDate`): base-128 integers, two
protobuf walkers, and the conversion of epoch seconds to a date. Bitwise or, the 64-bit shift, the
casts and Rust's truncating division are written out.

**Loading a register** (`Dataset`, `LoadPipeline`): what makes two records the same and what makes one
changed, the ranking of duplicates, the order of the filters, and the accounting. A table is a map
from row ids to records, so that it has no order. md5 is a parameter, assumed free of collisions.

**Downloads** (`TempPaths`, `DownloadProtocol`, `Download`): any number of attempts and processes over
one file system, with failures and crashes anywhere. `Download.Downloader` runs one process's attempts;
every step it takes is an event of the protocol, and between any two of them, from the check for an
existing file to the rename and from one attempt to the next, others act.

**The collapse of the street-name table** (`StreetMigration`, `StreetRetarget`). The curated tables are
parameters, with the one fact that the recorded ones satisfy and the proof needs: an exception names a
settlement. Of PRG's two lists it is assumed, as they are exported, that no name is blank and that a
settlement's names are among all names. Lower-casing and punctuation folding are parameters too.

## Where the code does less than its documentation says

- `src/compare/mod.rs:54-57` reads a batch that drains nothing as "nothing is left, or everything left
  is failing". Failing cells can also fill the batch and hide healthy ones behind them:
  `QueueCommands.StuckExactlyWhen` says exactly when, and
  `QueueCommands.AFailingOldestCellHidesAHealthyOne` is a queue of two.
- `src/update/dirty_cells.rs:54` calls the reach of an edit exact. The read it stands for is closed on
  all sides and the range of cells is half-open, so a row that touches a cell's read area only from the
  east or the south does not queue it: `DirtyCells.ReachExactly`, `DirtyCells.AnEditCanGoUnrequested`.
  Rows spanning more than 1024 cells queue nothing, as documented there; the exact condition has both.
- `src/compare/mod.rs:181-191` promises that a full compare and a reconcile with a drain give the same
  rows. For buildings that holds exactly when no verdict depends on which enclosing cell limits the
  read of OpenStreetMap: `FullCompare.BuildingsAgreeExactlyWhen`. That is whether the buildings that cover
  a row meet both its grid square and its cell or neither, `FullCompare.VerdictsAgreeExactlyWhen`; one
  building beside the cell is enough to part them, `FullCompare.ABuildingBesideTheCellSplitsThePaths`.
  (`src/compare/buildings.rs:59-63` says as much of the grid step.) Reconcile also leaves alone what a
  cell serves when it holds no live row and is not queued, `FullCompare.ReconcileAndDrain`; in the states
  that the protocol can be in there is no such cell, `Equivalence.SafeServesNothingElsewhere`.
- `src/osm/pbf_header.rs:113-135` overflows, and with the release profile's overflow checks panics, on
  the last part-day of the 64-bit range: `CivilDate.FromEpochIsExact`.
- `src/osm/pbf_header.rs:87-89` reads the replication fields. Of a message cut short it gives those before
  the cut, but a timestamp or sequence number whose value the cut falls in reads as zero and hides an
  earlier one: `PbfHeader.CutMessage` covers a cut at every byte.
- `src/download.rs:403-407` says a failed write leaves nothing. Once it has created the file, it always
  leaves it: `Download.Downloader.WriteResponseToFile`. The caller removes it, and a file that was created
  stays exactly when that removal, or the rename of a complete response, fails:
  `Download.Downloader.DoDownload`.
- `src/dataset.rs:871-877` says that rows without a key would be collapsed into one if they got as far
  as the removal of duplicates. The join leaves them alone: `LoadPipeline.Loader.DeduplicateByKey`.
- `scripts/migrate_legacy_street_mappings.py:176-189` re-keys rows onto the spelling PRG uses now. A
  settlement's row may land on a name that a global row served in that settlement, and shadows it without
  a conflict: `StreetRetarget.AReKeyedRowShadows`. `StreetRetarget.MeaningIsKept` says exactly when a name
  is still served as its target.

## Model

| member | source | states |
|---|---|---|
| TileMath.InsideTileBox | src/tile_math.rs:9-16 | a point is in a cell's closed envelope exactly when its fractional coordinates are in the cell's closed square, so up to four cells admit it |
| TileMath.OwnerBoxContains | src/tile_math.rs:101-114 | the envelope of the cell a point maps to contains the point |
| TileMath.CellOwns | src/tile_math.rs:27-34 | a column is its half-open share of the longitudes and a row of the map's height, so a point is of one cell, and the map has 16384 of each |
| MatchRule.AddressBands | src/compare/rule.rs:455-477 | an equal house number is enough up to 50 m, with agreeing streets, or places where neither has a street, up to 150 m, and nothing beyond |
| MatchRule.ReadForCell | src/compare/rule.rs:47-63 | for a cell are read the buildings that meet its box, the addresses in the box widened by 0.003 degrees, and all reports |
| Recompute.RecomputeIsLocal | src/compare/incremental.rs:166-197 | recomputing a cell makes its two slices what current data says and changes no other slice |
| Recompute.TotalCounts | src/compare/totals.rs:12-33 | a cell's total is the number of the source's rows whose point is the cell's, of BDOT10k those standing |
| Recompute.RowsAreTheUnsettled | src/compare/incremental.rs:166-197 | a cell's rows are those of its total that nothing read for the cell settles, tagged with source and cell |
| Recompute.RowsWithinTotal | src/compare/totals.rs:12-33 | a cell's unmatched rows never outnumber the total counted beside them |
| Recompute.GroupTotalsAgree | src/compare/totals.rs:93-114 | the grouped count over a whole table gives each cell the row, or the absence of one, that counting the cell gives |
| Recompute.RebuildAllIsRecomputeEverywhere | src/compare/totals.rs:93-201 | rebuilding a source's totals equals recomputing every one of its cells and touches no other source |
| DrainSpec.GroupIsOneAtATime | src/compare/drain.rs:170-192 | a group without a failure does what its cells do one at a time, the tile queue as a set |
| DrainSpec.OneAtATimeRebuilds | src/compare/drain.rs:250-264 | a drain rebuilds exactly its healthy cells, takes exactly their requests under the cutoff off the queue, and leaves all else |
| Drain.Connection.Rollback | src/compare/drain.rs:204-220 | every table is back to what the transaction began on |
| Drain.Connection.RecomputeCellInTxn | src/compare/incremental.rs:171-197 | the cell's slices become those of a recompute; a failing cell reports it |
| Drain.Connection.DrainOneCell | src/compare/drain.rs:250-264 | recompute and delete of the requests under the cutoff, no younger ones |
| Drain.Connection.EnqueueTilesForCells | src/compare/drain.rs:266-290 | the tiles queued before stay, and behind them stands each of the cells exactly once, whatever sources share it |
| DrainSpec.DistinctKeepsSet | src/compare/drain.rs:279-288 | the enqueue names the same cells as the list it is given, none twice |
| Drain.Connection.DrainAlone | src/compare/drain.rs:295-348 | a cell in a transaction of its own is drained with its tile, or, when it fails, nothing has changed |
| Drain.Connection.ReplayOneAtATime | src/compare/drain.rs:295-348 | the cells up to a stop are drained one at a time, failing ones leave no trace, and both counts are exact |
| Drain.Connection.DrainUntilStopped | src/compare/drain.rs:181-193 | the cells done before a failure or a stop are a prefix of the group, none of them failing, and drained |
| Drain.Connection.RollBackAndReplay | src/compare/drain.rs:204-232 | a group that failed ends as if its cells had been drained one at a time from the start |
| Drain.Connection.DrainGroup | src/compare/drain.rs:173-235 | one transaction, or its rollback and replay, or an early commit on a stop: always the drain of a prefix one at a time, the whole group unless stopped |
| Drain.Connection.DrainInGroups | src/compare/drain.rs:130-139 | the same for a whole list and any group size, which therefore does not matter |
| Drain.Connection.SelectOldest | src/compare/drain.rs:104-128 | distinct eligible cells, no younger request before an older one, and as many as there are up to the limit |
| Drain.Connection.DrainBatch | src/compare/drain.rs:63-145 | purge, selection and drain under one cutoff refine draining the selected cells one at a time, with exact counts; off the queue go the due rows of unknown sources and the due requests of the cells drained, and no others |
| DrainProtocol.CommitKeepsInv | src/compare/drain.rs:57-62 | a commit keeps every stale cell queued, though edits committed since its snapshot |
| DrainProtocol.RunKeepsInv | src/compare/drain.rs:57-145 | over every interleaving of edits, group transactions, rollbacks, crashes, purges and agreeing full compares, a cell that serves something else than current data says has a queue row |
| DrainProtocol.FullBuildingsAreFresh | src/compare/buildings.rs:120-215 | a full compare whose verdicts agree makes every cell of its source fresh and touches no other source |
| DrainProtocol.FullAddressesAreFresh | src/compare/addresses.rs:98-109 | the same for addresses |
| DrainProtocol.RunKeepsRatios | src/compare/totals.rs:12-33 | in every committed state of every run a cell has at most one total, never zero and never below its unmatched rows |
| DrainProtocol.RunsFromASweepAreSafe | src/compare/reconcile.rs:6-7 | every run that starts on empty serving tables and a swept queue keeps both |
| DrainProtocol.ChangeDirtiesItsTile | src/compare/drain.rs:266-272 | what a cell serves changes only in a commit that queues the cell's tile |
| DrainProtocol.OneAtATimeIsARun | src/compare/drain.rs:292-348 | draining one at a time is a run of the protocol, with an abort for each failing cell |
| DrainProtocol.BatchKeepsSafe | src/compare/drain.rs:63-145 | what the batch promises is enough: it leaves no stale cell without a queue row |
| DirtyCells.ReachExactly | src/update/dirty_cells.rs:136-199 | the cells a row queues are those whose read area it meets, but for areas it touches only from the east or the south, and none when it spans over 1024 |
| DirtyCells.ReachSizeCounts | src/update/dirty_cells.rs:136-199 | the product that the guard looks at is the number of cells of the rectangle |
| DirtyCells.OsmEditRequestsItsCells | src/update/dirty_cells.rs:95-210 | an edit of rows that are not too wide and touch no read area only from the east or the south queues every cell it moves |
| DirtyCells.AnEditCanGoUnrequested | src/update/dirty_cells.rs:51-75 | otherwise a building can settle a row of a cell that adding the building does not queue |
| DirtyCells.RefreshRequestsItsCells | src/update/changeset.rs:126-157 | queueing the old and new cells of changed rows queues every cell a refresh moves |
| QueueCommands.BatchShrinksEligible | src/compare/drain.rs:104-145 | the eligible cells fall by exactly the cells drained |
| QueueCommands.StuckExactlyWhen | src/compare/mod.rs:54-61 | a batch may drain nothing exactly when nothing healthy is eligible or failing cells with nothing healthy ahead of them fill it |
| QueueCommands.AFailingOldestCellHidesAHealthyOne | src/compare/mod.rs:54-61 | a queue of two whose batch of one is stuck |
| QueueCommands.RunQueueDrain | src/compare/mod.rs:88-125 | the loop ends, having drained something in every batch but the last; its counts are those of the cells drained, the cells that failed and the rows purged in all batches, and take at least as many rows off the queue; it leaves exactly the drained cells rebuilt, and at its end a stop was seen, nothing healthy is eligible, or blocking failures fill a batch |
| QueueCommands.EnqueueSource | src/compare/reconcile.rs:37-47 | one new row for each cell that holds an object of the source, none for any other, and their number |
| QueueCommands.EnqueueAll | src/compare/reconcile.rs:8-50 | the same for the three sources together, with the exact total, unless stopped |
| BuildingGrid.ExtentCovers | src/compare/buildings.rs:339-347 | the extent of a source contains the point of each of its rows |
| BuildingGrid.ScanWritesEachRowOnce | src/compare/buildings.rs:140-207 | the nested loops write each unmatched row once and no other: the scan is one pass over the rows |
| BuildingGrid.GridReaches | src/compare/buildings.rs:319-375 | the grid built from the table reaches every row of it |
| BuildingGrid.VisitsAreCapped | src/compare/buildings.rs:325-373 | the loops visit as many squares as the capped count says, never over 144 |
| BuildingGrid.GridExactly | src/compare/buildings.rs:319-375 | the grid is whole squares of two degrees around the least box of the source's rows, none when they are more than 144, and a fixed box around Poland when there are no rows |
| BuildingGrid.CompareBuildings | src/compare/buildings.rs:107-215 | the full rebuild when no square it visits breaks; it fails only when one does, gives up exactly when more than 144 squares are needed, and then, or on a stop, every table is as before |
| BuildingGrid.RebuildTotals | src/compare/totals.rs:90-114 | each cell of the source has the total that counting its rows gives, or none, and the other sources keep theirs |
| AddressJoin.JoinFindsNeighbours | src/compare/addresses.rs:155-203 | the join meets a pair exactly when it matches and its grid keys are equal or adjacent |
| AddressJoin.EachPairOnce | src/compare/addresses.rs:155-183 | under one offset only |
| AddressJoin.KeyOwns | src/compare/addresses.rs:20-24 | a grid key stands for a half-open strip of 0.005 degrees |
| AddressJoin.JoinMatchesAllPairs | src/compare/addresses.rs:48-63 | when matches are at most a key width apart, the join matches the ids that comparing all pairs matches |
| AddressJoin.DistantPairIsMissed | src/compare/addresses.rs:20-24 | a match whose keys are further apart is lost |
| AddressJoin.WrittenMeansUnsettled | src/compare/addresses.rs:204-210 | with unique ids a row is written exactly when no evidence settles it |
| AddressJoin.BufferIsWideEnough | src/compare/rule.rs:47-63 | the widened read of a cell holds all that can settle its rows |
| AddressJoin.CompareAddresses | src/compare/addresses.rs:94-109 | the full rebuild of addresses, or every table as before |
| FullCompare.BuildingsAgreeExactlyWhen | src/compare/mod.rs:181-191 | full and incremental totals are equal; the unmatched rows are equal exactly when no verdict depends on the cell that limits the read |
| FullCompare.VerdictsAgreeExactlyWhen | src/compare/buildings.rs:59-63 | the verdicts on a row agree exactly when it is reported, or buildings that cover it meet both its grid square and its cell, or neither |
| FullCompare.OneCoverAgreesExactlyWhen | src/compare/buildings.rs:59-63 | with one covering building, exactly when that building meets both or neither |
| FullCompare.CoversThatMeetBothAgree | src/compare/buildings.rs:59-63 | buildings that meet both never part the verdicts |
| FullCompare.ABuildingBesideTheCellSplitsThePaths | src/compare/mod.rs:181-191 | one row and one building, on which the full compare and the drain write different rows |
| FullCompare.AddressesAgree | src/compare/mod.rs:181-191 | for addresses with points, unique ids and matches within the buffer the two agree on everything |
| FullCompare.DeadCellsAreEmpty | src/compare/reconcile.rs:37-45 | a cell the sweep does not reach has nothing to serve |
| FullCompare.DrainedOutWhen | src/compare/reconcile.rs:6-7 | a swept and drained source is right everywhere if no other cell served anything, and is not if one did |
| FullCompare.ReconcileAndDrain | src/compare/mod.rs:62-125 | after a sweep and a drain without failures, live and queued cells hold what a recompute writes and all others what they held |
| Equivalence.SafeServesNothingElsewhere | src/compare/reconcile.rs:6-7 | where no stale cell is without a queue row, a cell neither live nor queued serves nothing |
| Equivalence.DrainedOutAgrees | src/compare/mod.rs:181-191 | tables that hold in every cell what a recompute writes agree with the full compare of each source |
| Equivalence.ReconcileReachesFullCompare | src/compare/mod.rs:181-191 | from any state of the protocol a sweep and a drain without failure or stop leave every source as its full compare would: totals always, addresses within the buffer, buildings exactly when no verdict depends on the cell |
| Segments.IntersectExactlyWhenTheyShareAPoint | web/app.js:3723-3755 | the orientation tests decide whether the closed segments share a point, touching, collinear and degenerate ones included |
| Rings.ComputePointInRing | web/app.js:3710-3719 | the loop computes the parity of the ring's crossings |
| Rings.RotationInvariant | web/app.js:3705-3719 | the vertex a ring starts at does not matter |
| Rings.ReversalInvariant | web/app.js:3705-3719 | nor does its direction |
| Rings.ClosingInvariant | web/app.js:3705-3709 | nor whether the first vertex is repeated |
| Rings.RectangleMembership | web/app.js:3705-3719 | of a rectangle's ring exactly the half-open interior is inside |
| Rings.ComputeEnvelopeOf | web/app.js:3306-3318 | the loop computes the envelope |
| Rings.EnvelopeIsTight | web/app.js:3306-3318 | the envelope holds all positions and lies in every envelope that does |
| Rings.EnvelopeSides | web/app.js:3306-3318 | each side is a coordinate of a position that none goes beyond |
| Rings.PointInRingIsInEnvelope | web/app.js:3785-3798 | a point in a ring is in the ring's envelope |
| Rings.ComputeRingsOverlap | web/app.js:3761-3770 | true exactly when a vertex of one is inside the other or two edges meet |
| Rings.OverlapIsSymmetric | web/app.js:3757-3770 | the order of the rings does not matter |
| Rings.OverlapNeedsEnvelopes | web/app.js:3772-3774 | rings that overlap have envelopes that overlap |
| Rings.EnvelopesOverlapExactly | web/app.js:3772-3774 | the reject lets through exactly the rings whose envelopes share a point |
| RingOverlap.ParityIsConstant | web/app.js:3705-3719 | both ends of a segment that misses a ring are inside it, or neither |
| RingOverlap.OverlapExactlyWhenTheyShareAPoint | web/app.js:3757-3770 | the three tests hold exactly when some point lies inside or on both rings |
| Rings.GeometryOverlapsRing | web/app.js:3789-3798 | with the early reject, the answer is the one without it: for a point or points, one of them in the ring; for a polygon its first ring, for several the outer ring of one; for anything else no |
| Varint.OrOfDisjoint | src/osm/pbf_header.rs:13-13 | or adds where the bits do not meet |
| Varint.ReadVarint | src/osm/pbf_header.rs:7-22 | the sum of the seven-bit groups modulo 2^64, or nothing when ten bytes or the data run out, and the cursor in all cases |
| Varint.ReadUndoesEncode | src/osm/pbf_header.rs:7-22 | reading an encoded 64-bit number gives it back and consumes exactly its bytes, whatever surrounds them |
| Varint.TopBitsAreLost | src/osm/pbf_header.rs:13-20 | of a tenth byte only the lowest bit counts |
| Varint.ReadAdvances | src/osm/pbf_header.rs:94-97 | inside the data a read passes at least one byte, which ends the walks |
| Varint.ReadFailsExactlyWhen | src/osm/pbf_header.rs:7-22 | a read fails exactly when ten bytes or the rest of the data all go on, and then stands behind them |
| PbfHeader.SkipField | src/osm/pbf_header.rs:24-42 | from the body of any well-formed field a skip leads to its end, it never goes back, and an unused wire type fails on the spot |
| PbfHeader.FieldReads | src/osm/pbf_header.rs:24-42 | at an encoded field the tag is read, and its value or the skip ends where the field does |
| PbfHeader.ParseHeaderBlockReplication | src/osm/pbf_header.rs:90-111 | the walk ends on any bytes and finds what its specification finds |
| PbfHeader.ReplicationUndoesEncode | src/osm/pbf_header.rs:87-111 | of any list of well-formed fields it gives the last varint field 33 as the sequence number and the last 32 as the timestamp |
| PbfHeader.CutMessage | src/osm/pbf_header.rs:90-111 | a message cut at any byte of its last field gives the fields before the cut, except that a timestamp or sequence number cut in its value reads as zero |
| PbfHeader.CutTimestampIsZero | src/osm/pbf_header.rs:98-101 | in particular one cut inside a timestamp reads as the epoch, whatever came before |
| PbfHeader.UnusedWireTypeIsIgnored | src/osm/pbf_header.rs:90-111 | a tag of a wire type the format does not use changes nothing in the header block, wherever it stands |
| PbfHeader.ParseBlobHeader | src/osm/pbf_header.rs:44-63 | the walk ends on any bytes, in a header, nothing or a panic |
| PbfHeader.BlobHeaderUndoesEncode | src/osm/pbf_header.rs:44-63 | well-formed fields never panic and give the last type, field 1, and the last size, field 3, or nothing when one is missing |
| PbfHeader.CutBlobHeader | src/osm/pbf_header.rs:44-63 | a blob header cut at any byte of its last field gives nothing when a tag, a length or a number is cut, panics when the type is, and the fields before when bytes to be skipped are |
| PbfHeader.UnusedWireTypeEndsABlobHeader | src/osm/pbf_header.rs:44-63 | in a blob header it ends the walk with nothing |
| PbfHeader.InfoUndoesEncode | src/osm/pbf_header.rs:162-168 | from the encoded fields to the report: the sequence number and a valid date that counts back to the encoded second |
| CivilDate.CivilFromDaysIsExact | src/osm/pbf_header.rs:119-128 | the date is one of the calendar and counts back, year by year and month by month, to its day |
| CivilDate.FromEpochIsExact | src/osm/pbf_header.rs:115-135 | the conversion overflows exactly below the first midnight of the range, and otherwise is valid and counts back to its input |
| CivilDate.FromEpochIncreases | src/osm/pbf_header.rs:115-135 | a later second has a later date and time |
| Dataset.SignatureTracksChange | src/dataset.rs:187-246 | the signature changes exactly when the record counts as changed, for values without the two control characters |
| Dataset.UnplainValuesCollide | src/dataset.rs:219-222 | with them it does not |
| Dataset.RankingIsTransitive | src/dataset.rs:1003-1003 | the ranking of duplicates is transitive |
| Dataset.TextLessExactlyWhen | src/dataset.rs:1003-1003 | the order of signatures is decided where they first differ |
| Dataset.TiesAreUnchanged | src/dataset.rs:910-915 | records that tie differ in nothing the source compares |
| LoadPipeline.Loader.FilterInvalidGeometry | src/dataset.rs:608-643 | the rows that stay, unchanged, are exactly those with a valid geometry or none; the count is of the others, the ids are of at most 20 of them |
| LoadPipeline.Loader.FilterOversizedGeometry | src/dataset.rs:690-736 | the same for extents below a whole cell, or unknown |
| LoadPipeline.Loader.FilterUndersizedGeometry | src/dataset.rs:815-853 | the same for footprints that are not empty and of a square metre or more, or of unknown size |
| LoadPipeline.Loader.DeduplicateByKey | src/dataset.rs:984-1035 | one best-ranked row is left of each key, and no row of the key was newer; rows without a key stay, and the count is of the rest |
| LoadPipeline.Loader.LoadInto | src/import/bdot10k.rs:49-140 | a loaded row is a sound row of the file, of its key the newest; every input row is accounted for once, each count is of its own reason; on an error at any statement the shared setting is back on and the table is as the statement before left it |
| LoadPipeline.KeyedOrNot | src/dataset.rs:466-492 | the two key conditions split the input |
| LoadPipeline.KeySurvivesExactlyWhen | src/import/bdot10k.rs:114-134 | a key survives exactly when some row with it passes all three filters |
| LoadPipeline.DeduplicatingFirstLosesKeys | src/dataset.rs:974-978 | with the removal of duplicates first it would not |
| LoadPipeline.LoadIsDeterministic | src/dataset.rs:892-918 | two orders of the same input give the same keys, and no record of one counts as changed against the other |
| TempPaths.TempPathsAreDistinct | src/download.rs:289-305 | no two attempts share a temporary path |
| TempPaths.PartExactlyWhen | src/download.rs:289-305 | the names kept for temporary files are those that end in ".part" |
| DownloadProtocol.OthersLeaveIt | src/download.rs:351-367 | no step of another attempt touches an attempt or its file |
| DownloadProtocol.OnlyRenamesTouchDestinations | src/download.rs:374-381 | nothing but an attempt's own rename changes a destination |
| DownloadProtocol.CrashStrikesAnywhere | src/download.rs:351-367 | a crash can strike at any point and leaves every file as it is |
| DownloadProtocol.DownloadsAreSafe | src/download.rs:351-382 | after any run a destination is absent as before, as before, or one whole response, and live attempts have different paths |
| DownloadProtocol.NothingIsLeft | src/download.rs:374-381 | without a crash, a failed rename or a failed removal no temporary file outlives its attempt |
| Download.Downloader.WriteResponseToFile | src/download.rs:398-438 | it succeeds exactly when all of the response is written and flushed, and then the file holds it; the file is there in any case |
| Download.Downloader.DoDownload | src/download.rs:307-396 | among others acting at every point it renames exactly when it succeeds, and then the destination is the response; else it has not touched it; a file it created stays exactly when the rename or the removal fails |
| Download.Downloader.DownloadWithRetry | src/download.rs:231-283 | the first success of three, or a stop seen between two attempts, or the last failure, whatever others do before, within and between the attempts |
| Download.Downloader.DownloadFileAs | src/download.rs:200-229 | an existing destination is taken untouched; what is returned is whole |
| StreetMigration.ReadRows | scripts/migrate_legacy_street_mappings.py:262-272 | every row with both names is read, under its lower-cased name and with its target corrected where a correction is listed, and nothing else; the raw targets are collected |
| StreetMigration.GroupByKey | scripts/migrate_legacy_street_mappings.py:285-288 | each key's rows that are not dropped, in order |
| StreetMigration.RowsOfKeepsOrder | scripts/migrate_legacy_street_mappings.py:285-288 | the rows of a key are all of those in the file, in its order |
| StreetMigration.MostCommon | scripts/migrate_legacy_street_mappings.py:306-307 | the spelling that occurs most often, the earliest among equals |
| StreetMigration.KeepSettlements | scripts/migrate_legacy_street_mappings.py:319-332 | one row per settlement from exactly the rows that stay, or an exit exactly when two of one settlement clash |
| StreetMigration.CollapseKey | scripts/migrate_legacy_street_mappings.py:301-332 | every row of the key resolves to its target |
| StreetMigration.Collapse | scripts/migrate_legacy_street_mappings.py:274-332 | it exits exactly where a decision is missing or stale or rows clash; otherwise every kept row resolves, settlement first, to what was decided: its own target where its key has one only, else the curated global, else the listed correction or its own target |
| StreetMigration.ExitsMean | scripts/migrate_legacy_street_mappings.py:279-327 | what each exit is for: a name with two targets and no decision, a decision for a name with one, two rows of a settlement that stay with different targets |
| StreetRetarget.RekeyAll | scripts/migrate_legacy_street_mappings.py:200-238 | each row takes the closest published name, or goes |
| StreetRetarget.Dedup | scripts/migrate_legacy_street_mappings.py:240-258 | one row per settlement and name, or an exit exactly when two contradict |
| StreetRetarget.Migrate | scripts/migrate_legacy_street_mappings.py:261-359 | each exit has its cause, the first three exactly then; without one every row of the file that no decision drops resolves in the collapsed list to what was decided for its corrected target, every reference and correction is used, and what is written is that list re-keyed |
| StreetRetarget.WrittenNames | scripts/migrate_legacy_street_mappings.py:176-258 | in what is written no settlement has a name twice in any casing, and every name is published |
| StreetRetarget.MeaningIsKept | scripts/migrate_legacy_street_mappings.py:176-258 | a name that PRG publishes in the settlement is served, settlement first, as the target of its kept row exactly when the row that serves it stays in charge: no row of the settlement with another target was re-keyed onto the name |
| StreetRetarget.AReKeyedRowShadows | scripts/migrate_legacy_street_mappings.py:209-258 | a source that the migration accepts and on which such a row takes over |
| StreetRetarget.FindsWhatLands | scripts/migrate_legacy_street_mappings.py:240-258 | a search in what is written finds the one thing that the rows landing on the name say |
| StreetRetarget.ServedByARow | scripts/migrate_legacy_street_mappings.py:301-332 | every kept row is served by a row of the collapsed list that has its target |

## Left out

- DuckDB itself: plans, indexes, memory, SQL text. The model is of what the statements compute.
- Drain.Connection.DrainGroup: a BEGIN or COMMIT that fails ends the batch with an error, and an invalidated database is not replayed; in the protocol both are an abort.
- Drain.Connection.ReplayOneAtATime: a BEGIN that fails ends the replay early and a COMMIT that fails counts as a failed cell; the model has them only as failing cells.
- QueueCommands.EnqueueSource: a row with a geometry but no representative point would queue a row without a cell; the model queues cells only.
- QueueCommands.EnqueueAll: an INSERT that fails ends the sweep with an error, and leaves the sources before it queued as a stop does.
- BuildingGrid.CompareBuildings: extents that are not finite, since reals are; the check for them fails like an extent that is too wide.
- Recompute.GroupTotalsAgree: the count is cast to 32 bits in the database.
- The bodies of the match rule's geometric tests, normalisation of names and house numbers, and the resolution of street names: parameters or already applied. A mapping edit is an edit like any other.
- The floating-point and trigonometric forms of the projection, and doubles in the ring geometry.
- The server, its caches and the tile rendering behind the tile queue.
- PbfHeader: reading the file, its length prefix, zlib and the choice between raw and compressed blobs; the block type is bytes, not text.
- CivilDate.FromEpochIsExact: the text the fields are formatted as.
- Dataset.SignatureTracksChange: the cheaper hash the refresh diff joins on, and the casts of columns to text, which are taken to be injective.
- LoadPipeline.Loader.LoadInto: a failure to switch the shared setting itself.
- The PRG loader's missing coordinates, and what `import`, `update` and the job log do around a load.
- Download.Downloader.DoDownload: HTTP, timeouts, progress bars and the delay between attempts; a destination is taken to have a text name that does not end in the temporary suffix. The counter is unbounded.
- StreetMigration.ReadRows: the CSV files and the stripping of blanks.
- StreetRetarget.Migrate: the printed statistics and the order in which rows are written.
- The curated tables of the street migration; they are parameters.
