/** The drain as a protocol: every interleaving of one connection's drain transactions with edits
    that other connections commit.

    Transactions run under snapshot isolation. A drain transaction reads the committed state it
    began on plus its own writes; at commit, the rows it deleted and inserted are applied to
    whatever is committed by then. Rolling back, failing to commit and crashing all look alike from
    outside: the transaction is gone. */
module DrainProtocol {
  import opened Basics
  import opened TileMath
  import opened MatchRule
  import opened Tables
  import opened Recompute
  import opened DrainSpec
  import opened QueueCommands
  import opened BuildingGrid
  import opened AddressJoin
  import opened FullCompare

  datatype Txn = Txn(snap: Db, work: Db, done: seq<Key>, cutoff: int)

  datatype World = World(db: Db, txn: Option<Txn>)

  datatype Event =
    | Edit(live: seq<Row>, evidence: set<Evidence>, requests: set<QueueRow>, nextRid: nat)
    | PurgeUnknown(cutoff: int)
    | Begin(cutoff: int)
    | DrainCell(key: Key)
    | Commit
    | Abort
    | CompareBuildings(source: string, grid: Bounds)
    | CompareAddresses

  /** What a recompute of the cell would write is not the same for the two states of the data. */
  ghost predicate Moved(g: Geometry, a: Db, b: Db, key: Key) {
    || multiset(CellRows(g, a.live, a.evidence, key)) != multiset(CellRows(g, b.live, b.evidence, key))
    || CellTotal(g, a.live, key) != CellTotal(g, b.live, key)
  }

  ghost predicate SoundData(live: seq<Row>) {
    Mapped(live) && forall row :: row in live ==> WellPlaced(row)
  }

  /** An edit changes the data and, in its own transaction, requests every cell of a known source
      whose recompute the change affects. */
  ghost predicate RequestsItsCells(g: Geometry, db: Db, e: Event)
    requires e.Edit?
  {
    && SoundData(e.live)
    && db.nextRid <= e.nextRid
    && (forall r :: r in e.requests ==> db.nextRid <= r.rid < e.nextRid)
    && var after := db.(live := e.live, evidence := e.evidence);
       forall key: Key :: key.source in ALL_SOURCES && Moved(g, db, after, key) ==> Queued(e.requests, key)
  }

  /** A full compare runs offline: no drain transaction is open. */
  ghost predicate Enabled(g: Geometry, w: World, e: Event) {
    match e
    case Edit(_, _, _, _) => RequestsItsCells(g, w.db, e)
    case PurgeUnknown(_) => w.txn.None?
    case Begin(_) => w.txn.None?
    case DrainCell(key) => w.txn.Some? && key.source in ALL_SOURCES
    case Commit => w.txn.Some?
    case Abort => w.txn.Some?
    case CompareBuildings(source, grid) =>
      w.txn.None? && source in {BDOT10K, EGIB} && SourceGridExtent(w.db.live, source) == Some(grid)
    case CompareAddresses => w.txn.None?
  }

  /** Apply a transaction's writes to the state committed by now. */
  function Merged(db: Db, t: Txn): Db {
    db.(unmatched := t.work.unmatched, totals := t.work.totals,
        queue := db.queue - (t.snap.queue - t.work.queue),
        tiles := db.tiles + Distinct(TileCells(t.done)))
  }

  function Step(g: Geometry, w: World, e: Event): World {
    match e
    case Edit(live, evidence, requests, nextRid) =>
      w.(db := w.db.(live := live, evidence := evidence, queue := w.db.queue + requests, nextRid := nextRid))
    case PurgeUnknown(cutoff) => w.(db := Purge(w.db, cutoff))
    case Begin(cutoff) => w.(txn := Some(Txn(w.db, w.db, [], cutoff)))
    case DrainCell(key) =>
      if w.txn.None? then w
      else var t := w.txn.value; w.(txn := Some(t.(work := DrainOne(g, t.work, key, t.cutoff), done := t.done + [key])))
    case Commit => if w.txn.None? then w else World(Merged(w.db, w.txn.value), None)
    case Abort => w.(txn := None)
    case CompareBuildings(source, grid) => w.(db := FullBuildings(g, w.db, source, grid))
    case CompareAddresses => w.(db := FullAddresses(g, w.db))
  }

  function Run(g: Geometry, w: World, events: seq<Event>): World
    decreases events
  {
    if events == [] then w else Run(g, Step(g, w, events[0]), events[1..])
  }

  ghost predicate Possible(g: Geometry, w: World, events: seq<Event>)
    decreases events
  {
    events != [] ==> Enabled(g, w, events[0]) && Possible(g, Step(g, w, events[0]), events[1..])
  }

  // ---- the dirty queue never loses a stale cell ----

  /** Every cell whose serving slices differ from what a recompute of the current data would write
      has a queue row. */
  ghost predicate Safe(g: Geometry, db: Db) {
    forall key: Key :: key.source in ALL_SOURCES ==> Fresh(g, db, key) || Queued(db.queue, key)
  }

  ghost predicate TxnInv(g: Geometry, db: Db, t: Txn) {
    && db.unmatched == t.snap.unmatched && db.totals == t.snap.totals
    && t.snap.queue <= db.queue
    && Rebuilt(g, t.snap, t.work, Elements(t.done))
    && (forall r :: r in t.snap.queue && r !in t.work.queue ==> r.key in t.done)
    && (forall key: Key :: key.source in ALL_SOURCES && Moved(g, t.snap, db, key)
                       ==> Queued(db.queue - t.snap.queue, key))
  }

  ghost predicate Inv(g: Geometry, w: World) {
    && SoundData(w.db.live)
    && RidsBelow(w.db.queue, w.db.nextRid)
    && Safe(g, w.db)
    && (w.txn.Some? ==> TxnInv(g, w.db, w.txn.value))
  }

  lemma FreshUnlessMoved(g: Geometry, a: Db, b: Db, key: Key)
    requires Fresh(g, a, key) && !Moved(g, a, b, key)
    requires Slice(a.unmatched, key) == Slice(b.unmatched, key) && Slice(a.totals, key) == Slice(b.totals, key)
    ensures Fresh(g, b, key)
  {
  }

  lemma EditKeepsInv(g: Geometry, w: World, e: Event)
    requires Inv(g, w) && e.Edit? && Enabled(g, w, e)
    ensures Inv(g, Step(g, w, e))
  {
    hide CellRows, CellTotal, Slice, Rebuilt, SoundData;
    var after := Step(g, w, e).db;
    forall key: Key | key.source in ALL_SOURCES
      ensures Fresh(g, after, key) || Queued(after.queue, key)
    {
      if Moved(g, w.db, after, key) {
        assert Queued(e.requests, key);
      } else if Fresh(g, w.db, key) {
        FreshUnlessMoved(g, w.db, after, key);
      }
    }
    if w.txn.Some? {
      var t := w.txn.value;
      forall key: Key | key.source in ALL_SOURCES && Moved(g, t.snap, after, key)
        ensures Queued(after.queue - t.snap.queue, key)
      {
        if Moved(g, t.snap, w.db, key) {
          var r :| r in w.db.queue - t.snap.queue && r.key == key;
          assert r in after.queue - t.snap.queue;
        } else {
          assert Moved(g, w.db, after, key);
          var r :| r in e.requests && r.key == key;
          assert r in after.queue - t.snap.queue;
        }
      }
    }
  }

  lemma DrainKeepsInv(g: Geometry, w: World, key: Key)
    requires Inv(g, w) && Enabled(g, w, DrainCell(key))
    ensures Inv(g, Step(g, w, DrainCell(key)))
  {
    hide Rebuilt, Moved, Safe, SoundData, RecomputeCell;
    var t := w.txn.value;
    DrainOneRebuilds(g, t.snap, t.work, Elements(t.done), key, t.cutoff, DrainOne(g, t.work, key, t.cutoff).tiles);
    assert Elements(t.done + [key]) == Elements(t.done) + {key};
  }

  /** The heart of the protocol. A cell drained by the transaction is fresh unless an edit moved it
      since the snapshot, and that edit's request is not among the rows the transaction saw, so it
      survives the delete. Any other cell keeps both its slices and its requests. */
  lemma CommitKeepsInv(g: Geometry, w: World)
    requires Inv(g, w) && w.txn.Some?
    ensures Inv(g, Step(g, w, Commit))
  {
    hide CellRows, CellTotal, Slice, SoundData;
    var t := w.txn.value;
    var after := Merged(w.db, t);
    forall key: Key | key.source in ALL_SOURCES
      ensures Fresh(g, after, key) || Queued(after.queue, key)
    {
      if Moved(g, t.snap, w.db, key) {
        var r :| r in w.db.queue - t.snap.queue && r.key == key;
        assert r in after.queue;
      } else if key in t.done {
        assert Slice(after.unmatched, key) == CellRows(g, t.snap.live, t.snap.evidence, key);
      } else if Fresh(g, w.db, key) {
        FreshUnlessMoved(g, w.db, after, key);
      } else {
        var r :| r in w.db.queue && r.key == key;
        assert r in after.queue;
      }
    }
  }

  lemma PurgeKeepsInv(g: Geometry, w: World, cutoff: int)
    requires Inv(g, w) && w.txn.None?
    ensures Inv(g, Step(g, w, PurgeUnknown(cutoff)))
  {
    hide CellRows, CellTotal, Slice, SoundData;
    var after := Purge(w.db, cutoff);
    forall key: Key | key.source in ALL_SOURCES
      ensures Fresh(g, after, key) || Queued(after.queue, key)
    {
      if Fresh(g, w.db, key) {
        FreshUnlessMoved(g, w.db, after, key);
      } else {
        var r :| r in w.db.queue && r.key == key;
        assert r in after.queue;
      }
    }
  }

  lemma BeginKeepsInv(g: Geometry, w: World, cutoff: int)
    requires Inv(g, w) && w.txn.None?
    ensures Inv(g, Step(g, w, Begin(cutoff)))
  {
    hide Safe, SoundData;
    RebuiltNothing(g, w.db);
    assert Elements([]) == {};
  }

  /** A full compare may be part of a run when it decides every row as the incremental path would:
      see FullCompare.BuildingsAgreeExactlyWhen and FullCompare.AddressesAgree. */
  ghost predicate DecidesAlike(g: Geometry, db: Db, e: Event) {
    match e
    case CompareBuildings(source, grid) =>
      Monotone(g.proj) && forall row :: row in db.live ==> VerdictsAgree(g, db.evidence, row, source, grid)
    case CompareAddresses =>
      && Monotone(g.proj) && UniqueIds(db.live, PRG)
      && (forall row :: row in db.live && row.source == PRG ==> row.point.Some?)
      && NearMeansClose(g, db.live, db.evidence, 0.003)
    case _ => true
  }

  ghost predicate AllDecideAlike(g: Geometry, w: World, events: seq<Event>)
    decreases events
  {
    events != [] ==> DecidesAlike(g, w.db, events[0]) && AllDecideAlike(g, Step(g, w, events[0]), events[1..])
  }

  lemma StepKeepsInv(g: Geometry, w: World, e: Event)
    requires Inv(g, w) && Enabled(g, w, e) && DecidesAlike(g, w.db, e)
    ensures Inv(g, Step(g, w, e))
  {
    hide Inv, DecidesAlike;
    match e
    case Edit(_, _, _, _) => EditKeepsInv(g, w, e);
    case PurgeUnknown(cutoff) => PurgeKeepsInv(g, w, cutoff);
    case Begin(cutoff) => BeginKeepsInv(g, w, cutoff);
    case DrainCell(key) => DrainKeepsInv(g, w, key);
    case Commit => CommitKeepsInv(g, w);
    case Abort => AbortKeepsInv(g, w);
    case CompareBuildings(source, grid) => BuildingsKeepInv(g, w, source, grid);
    case CompareAddresses => AddressesKeepInv(g, w);
  }

  lemma AbortKeepsInv(g: Geometry, w: World)
    requires Inv(g, w)
    ensures Inv(g, Step(g, w, Abort))
  {
    hide Safe, SoundData;
  }

  /** Over every run: edits committing at any point, groups begun, committed in full or after a
      stop, rolled back, replayed or lost in a crash, purges and full compares. */
  lemma {:induction false} RunKeepsInv(g: Geometry, w: World, events: seq<Event>)
    requires Inv(g, w) && Possible(g, w, events) && AllDecideAlike(g, w, events)
    ensures Inv(g, Run(g, w, events)) && Safe(g, Run(g, w, events).db)
    decreases events
  {
    hide Step, Enabled, DecidesAlike, Safe, TxnInv, SoundData;
    if events != [] {
      StepKeepsInv(g, w, events[0]);
      RunKeepsInv(g, Step(g, w, events[0]), events[1..]);
    }
  }

  // ---- full compares inside a run ----

  lemma FullBuildingsAreFresh(g: Geometry, db: Db, source: string, grid: Bounds, key: Key)
    requires SoundData(db.live) && Monotone(g.proj) && source in {BDOT10K, EGIB}
    requires SourceGridExtent(db.live, source) == Some(grid)
    requires forall row :: row in db.live ==> VerdictsAgree(g, db.evidence, row, source, grid)
    ensures key.source == source ==> Fresh(g, FullBuildings(g, db, source, grid), key)
    ensures key.source != source ==>
      var full := FullBuildings(g, db, source, grid);
      Slice(full.unmatched, key) == Slice(db.unmatched, key) && Slice(full.totals, key) == Slice(db.totals, key)
  {
    hide Unmatched, UnmatchedOnGrid, VerdictsAgree, SourceGridExtent, WellPlaced, Scan, RebuildAll, CellOf, Mapped;
    var full := FullBuildings(g, db, source, grid);
    var cleared := db.(unmatched := OtherSources(db.unmatched, source) + Scan(g, db.live, db.evidence, source, grid));
    assert full == RebuildAll(g, cleared, source);
    RebuildAllIsRecomputeEverywhere(g, cleared, source, key);
    RecomputeIsLocal(g, cleared, key, key);
    RebuildKeepsRows(g, cleared, source);
    if key.source == source {
      forall e: Entry<Row>
        ensures multiset(Slice(full.unmatched, key))[e] == multiset(CellRows(g, db.live, db.evidence, key))[e]
      {
        SliceMultiplicity(full.unmatched, key, e);
        CellRowsCount(g, db.live, db.evidence, key, e);
        if At(e, key) {
          FullBuildingsCount(g, db, source, grid, e);
          if e == Tagged(g, e.value) && e.value in db.live {
            OneVerdict(g, db.live, db.evidence, e.value, source, grid);
          }
        } else {
          UnmatchedIsTagged(g, db.evidence, e.value, key);
        }
      }
      assert multiset(Slice(full.unmatched, key)) == multiset(CellRows(g, db.live, db.evidence, key));
    } else {
      SliceAppend(OtherSources(db.unmatched, source), Scan(g, db.live, db.evidence, source, grid), key);
      SliceOfOtherSources(db.unmatched, source, key);
      ScanIsOfSource(g, db.live, db.evidence, source, grid);
      SliceOfForeign(Scan(g, db.live, db.evidence, source, grid), key);
    }
  }

  lemma RebuildKeepsRows(g: Geometry, db: Db, source: string)
    ensures RebuildAll(g, db, source) == db.(totals := RebuildAll(g, db, source).totals)
  {
  }

  lemma UnmatchedIsTagged(g: Geometry, evidence: set<Evidence>, row: Row, key: Key)
    ensures Unmatched(g, evidence, row, key) ==> At(Tagged(g, row), key)
  {
  }

  lemma ScanIsOfSource(g: Geometry, live: seq<Row>, evidence: set<Evidence>, source: string, grid: Bounds)
    ensures forall e :: e in Scan(g, live, evidence, source, grid) ==> e.source == source
  {
    hide Scan, RowByRow;
    forall e | e in Scan(g, live, evidence, source, grid)
      ensures e.source == source
    {
      ScanWritesEachRowOnce(g, live, evidence, source, grid);
      assert multiset(Scan(g, live, evidence, source, grid))[e] > 0;
      RowByRowCount(g, live, evidence, source, grid, e);
    }
  }

  lemma BuildingsKeepInv(g: Geometry, w: World, source: string, grid: Bounds)
    requires Inv(g, w) && Enabled(g, w, CompareBuildings(source, grid))
    requires DecidesAlike(g, w.db, CompareBuildings(source, grid))
    ensures Inv(g, Step(g, w, CompareBuildings(source, grid)))
  {
    hide CellRows, CellTotal, Slice, SoundData, VerdictsAgree, SourceGridExtent;
    var after := FullBuildings(g, w.db, source, grid);
    forall key: Key | key.source in ALL_SOURCES
      ensures Fresh(g, after, key) || Queued(after.queue, key)
    {
      FullBuildingsAreFresh(g, w.db, source, grid, key);
      if key.source != source && Fresh(g, w.db, key) {
        FreshUnlessMoved(g, w.db, after, key);
      }
    }
  }

  lemma FullAddressRows(g: Geometry, db: Db, key: Key)
    requires SoundData(db.live) && DecidesAlike(g, db, CompareAddresses) && key.source == PRG
    ensures multiset(Slice(FullAddresses(g, db).unmatched, key)) == multiset(CellRows(g, db.live, db.evidence, key))
  {
    hide FullAddresses, CellRows, DecidesAlike, SoundData;
    forall e: Entry<Row>
      ensures multiset(Slice(FullAddresses(g, db).unmatched, key))[e]
              == multiset(CellRows(g, db.live, db.evidence, key))[e]
    {
      SliceMultiplicity(FullAddresses(g, db).unmatched, key, e);
      CellRowsCount(g, db.live, db.evidence, key, e);
      if At(e, key) {
        FullAddressesCount(g, db, e);
        if e == Tagged(g, e.value) && e.value in db.live {
          AddressVerdict(g, db, e.value, key);
        }
      } else {
        UnmatchedIsTagged(g, db.evidence, e.value, key);
      }
    }
  }

  lemma AddressVerdict(g: Geometry, db: Db, row: Row, key: Key)
    requires SoundData(db.live) && DecidesAlike(g, db, CompareAddresses) && key.source == PRG
    requires row in db.live && At(Tagged(g, row), key)
    ensures Unmatched(g, db.evidence, row, key)
            <==> row.source == PRG && row.id !in MatchedIds(g, db.live, db.evidence) && !Reported(db.evidence, row)
  {
    hide Settled, MatchedIds, Reported, CellOf, ReadArea, TileBox;
    OwnerBoxContains(g.proj, row.point.value);
    assert NearMeansClose(g, db.live, db.evidence, 0.005);
    WrittenMeansUnsettled(g, db.live, db.evidence, row);
    BufferIsWideEnough(g, db.live, db.evidence, row, key);
  }

  lemma FullAddressesAreFresh(g: Geometry, db: Db, key: Key)
    requires SoundData(db.live) && DecidesAlike(g, db, CompareAddresses)
    ensures key.source == PRG ==> Fresh(g, FullAddresses(g, db), key)
    ensures key.source != PRG ==>
      var full := FullAddresses(g, db);
      Slice(full.unmatched, key) == Slice(db.unmatched, key) && Slice(full.totals, key) == Slice(db.totals, key)
  {
    assert Monotone(g.proj) && Mapped(db.live);
    hide MatchedIds, RebuildAll, SoundData, DecidesAlike, FullRows;
    var rows := FullRows(g, db.live, db.evidence, MatchedIds(g, db.live, db.evidence));
    var full := FullAddresses(g, db);
    var cleared := db.(unmatched := OtherSources(db.unmatched, PRG) + rows);
    assert full == RebuildAll(g, cleared, PRG);
    RebuildAllIsRecomputeEverywhere(g, cleared, PRG, key);
    RecomputeIsLocal(g, cleared, key, key);
    RebuildKeepsRows(g, cleared, PRG);
    if key.source == PRG {
      FullAddressRows(g, db, key);
    } else {
      SliceAppend(OtherSources(db.unmatched, PRG), rows, key);
      SliceOfOtherSources(db.unmatched, PRG, key);
      FullRowsAreOfPrg(g, db.live, db.evidence, MatchedIds(g, db.live, db.evidence));
      SliceOfForeign(rows, key);
    }
  }

  lemma FullRowsAreOfPrg(g: Geometry, live: seq<Row>, evidence: set<Evidence>, matched: set<int>)
    ensures forall e :: e in FullRows(g, live, evidence, matched) ==> e.source == PRG
  {
  }

  lemma AddressesKeepInv(g: Geometry, w: World)
    requires Inv(g, w) && Enabled(g, w, CompareAddresses) && DecidesAlike(g, w.db, CompareAddresses)
    ensures Inv(g, Step(g, w, CompareAddresses))
  {
    hide CellRows, CellTotal, Slice, SoundData, DecidesAlike;
    var after := FullAddresses(g, w.db);
    forall key: Key | key.source in ALL_SOURCES
      ensures Fresh(g, after, key) || Queued(after.queue, key)
    {
      FullAddressesAreFresh(g, w.db, key);
      if key.source != PRG && Fresh(g, w.db, key) {
        FreshUnlessMoved(g, w.db, after, key);
      }
    }
  }

  // ---- the completeness ratio ----

  function Denominator(totals: seq<Entry<nat>>, key: Key): nat {
    var rows := Slice(totals, key);
    if rows == [] then 0 else rows[0].value
  }

  /** A cell has at most one denominator, never zero, and never less than the number of unmatched
      rows tagged with the cell. */
  ghost predicate RatioAtMostOne(db: Db, key: Key) {
    && |Slice(db.totals, key)| <= 1
    && (forall e :: e in Slice(db.totals, key) ==> e.value > 0)
    && |Slice(db.unmatched, key)| <= Denominator(db.totals, key)
  }

  ghost predicate Ratios(db: Db) {
    forall key: Key :: RatioAtMostOne(db, key)
  }

  ghost predicate RatioInv(w: World) {
    && SoundData(w.db.live) && Ratios(w.db)
    && (w.txn.Some? ==> Ratios(w.txn.value.work))
  }

  lemma RecomputeKeepsRatios(g: Geometry, db: Db, key: Key, cutoff: int)
    requires Ratios(db)
    ensures Ratios(DrainOne(g, db, key, cutoff))
  {
    forall other: Key
      ensures RatioAtMostOne(DrainOne(g, db, key, cutoff), other)
    {
      RecomputeIsLocal(g, db, key, other);
      RowsWithinTotal(g, db.live, db.evidence, key);
      assert RatioAtMostOne(db, other);
    }
  }

  lemma {:induction false} GridRowsWithinTotal(g: Geometry, live: seq<Row>, evidence: set<Evidence>, source: string,
                                               grid: Bounds, key: Key)
    requires Monotone(g.proj) && Mapped(live) && key.source == source
    ensures |Slice(RowByRow(g, live, evidence, source, grid), key)| <= CellTotal(g, live, key)
  {
    hide Settled, OwnSquare, Reached, TileBox, CellOf, Inside;
    if live != [] {
      assert forall row :: row in live[1..] ==> row in live;
      GridRowsWithinTotal(g, live[1..], evidence, source, grid, key);
      if UnmatchedOnGrid(g, evidence, live[0], source, grid) {
        OwnerBoxContains(g.proj, live[0].point.value);
        SliceAppend([Tagged(g, live[0])], RowByRow(g, live[1..], evidence, source, grid), key);
        assert Slice([Tagged(g, live[0])], key) == if At(Tagged(g, live[0]), key) then [Tagged(g, live[0])] else [];
      } else {
        assert RowByRow(g, live, evidence, source, grid) == RowByRow(g, live[1..], evidence, source, grid);
      }
    }
  }

  lemma {:induction false} AddressRowsWithinTotal(g: Geometry, live: seq<Row>, evidence: set<Evidence>,
                                                  matched: set<int>, key: Key)
    requires Monotone(g.proj) && Mapped(live) && key.source == PRG
    ensures |Slice(FullRows(g, live, evidence, matched), key)| <= CellTotal(g, live, key)
  {
    hide Reported, TileBox, CellOf, Inside;
    if live != [] {
      assert forall row :: row in live[1..] ==> row in live;
      AddressRowsWithinTotal(g, live[1..], evidence, matched, key);
      if live[0].point.Some? {
        OwnerBoxContains(g.proj, live[0].point.value);
      }
      var written := live[0].source == PRG && live[0].id !in matched && !Reported(evidence, live[0]);
      var head := if written then [Tagged(g, live[0])] else [];
      SliceAppend(head, FullRows(g, live[1..], evidence, matched), key);
      assert head != [] ==> Slice(head, key) == if At(Tagged(g, live[0]), key) then [Tagged(g, live[0])] else [];
    }
  }

  lemma SameBagSameSliceSize(a: seq<Entry<Row>>, b: seq<Entry<Row>>, key: Key)
    requires multiset(a) == multiset(b)
    ensures |Slice(a, key)| == |Slice(b, key)|
  {
    forall e: Entry<Row>
      ensures multiset(Slice(a, key))[e] == multiset(Slice(b, key))[e]
    {
      SliceMultiplicity(a, key, e);
      SliceMultiplicity(b, key, e);
    }
    assert multiset(Slice(a, key)) == multiset(Slice(b, key));
    BagSize(Slice(a, key));
    BagSize(Slice(b, key));
  }

  lemma {:induction false} BagSize<V>(s: seq<V>)
    ensures |multiset(s)| == |s|
  {
    if s != [] {
      assert s == [s[0]] + s[1..];
      BagSize(s[1..]);
    }
  }

  /** Replacing a source's rows by ones that stay within the cell totals, and its denominators by
      those totals, keeps every ratio. */
  lemma RebuildKeepsRatios(g: Geometry, db: Db, source: string, rows: seq<Entry<Row>>)
    requires Ratios(db) && Monotone(g.proj) && Mapped(db.live)
    requires forall e :: e in rows ==> e.source == source
    requires forall key: Key :: key.source == source ==> |Slice(rows, key)| <= CellTotal(g, db.live, key)
    ensures Ratios(RebuildAll(g, db.(unmatched := OtherSources(db.unmatched, source) + rows), source))
  {
    hide Mapped, CellTotal;
    var cleared := db.(unmatched := OtherSources(db.unmatched, source) + rows);
    var full := RebuildAll(g, cleared, source);
    forall key: Key
      ensures RatioAtMostOne(full, key)
    {
      assert RatioAtMostOne(db, key);
      RebuildAllIsRecomputeEverywhere(g, cleared, source, key);
      RecomputeIsLocal(g, cleared, key, key);
      SliceAppend(OtherSources(db.unmatched, source), rows, key);
      SliceOfOtherSources(db.unmatched, source, key);
      if key.source != source {
        SliceOfForeign(rows, key);
      }
    }
  }

  lemma FullBuildingsKeepRatios(g: Geometry, db: Db, source: string, grid: Bounds)
    requires Ratios(db) && Monotone(g.proj) && Mapped(db.live)
    ensures Ratios(FullBuildings(g, db, source, grid))
  {
    hide Scan, Ratios, Mapped, CellTotal;
    var rows := Scan(g, db.live, db.evidence, source, grid);
    ScanIsOfSource(g, db.live, db.evidence, source, grid);
    ScanWritesEachRowOnce(g, db.live, db.evidence, source, grid);
    forall key: Key | key.source == source
      ensures |Slice(rows, key)| <= CellTotal(g, db.live, key)
    {
      GridRowsWithinTotal(g, db.live, db.evidence, source, grid, key);
      SameBagSameSliceSize(rows, RowByRow(g, db.live, db.evidence, source, grid), key);
    }
    RebuildKeepsRatios(g, db, source, rows);
  }

  lemma FullAddressesKeepRatios(g: Geometry, db: Db)
    requires Ratios(db) && Monotone(g.proj) && Mapped(db.live)
    ensures Ratios(FullAddresses(g, db))
  {
    hide FullRows, Ratios, Mapped, CellTotal, MatchedIds;
    var matched := MatchedIds(g, db.live, db.evidence);
    var rows := FullRows(g, db.live, db.evidence, matched);
    FullRowsAreOfPrg(g, db.live, db.evidence, matched);
    forall key: Key | key.source == PRG
      ensures |Slice(rows, key)| <= CellTotal(g, db.live, key)
    {
      AddressRowsWithinTotal(g, db.live, db.evidence, matched, key);
    }
    RebuildKeepsRatios(g, db, PRG, rows);
  }

  lemma StepKeepsRatios(g: Geometry, w: World, e: Event)
    requires Monotone(g.proj) && RatioInv(w) && Enabled(g, w, e)
    ensures RatioInv(Step(g, w, e))
  {
    hide Ratios;
    var after := Step(g, w, e);
    match e
    case DrainCell(key) => RecomputeKeepsRatios(g, w.txn.value.work, key, w.txn.value.cutoff);
    case CompareBuildings(source, grid) => FullBuildingsKeepRatios(g, w.db, source, grid);
    case CompareAddresses => FullAddressesKeepRatios(g, w.db);
    case Commit => RatiosReadTables(w.txn.value.work, after.db);
    case _ => RatiosReadTables(w.db, after.db);
  }

  lemma RatiosReadTables(a: Db, b: Db)
    requires Ratios(a) && a.unmatched == b.unmatched && a.totals == b.totals
    ensures Ratios(b)
  {
    forall key: Key
      ensures RatioAtMostOne(b, key)
    {
      assert RatioAtMostOne(a, key);
    }
  }

  /** Over every run, full compares with any rule included, no committed state shows a ratio above
      one, a zero denominator or two denominators for a cell. */
  lemma {:induction false} RunKeepsRatios(g: Geometry, w: World, events: seq<Event>)
    requires Monotone(g.proj) && RatioInv(w) && Possible(g, w, events)
    ensures Ratios(Run(g, w, events).db)
    decreases events
  {
    hide Step, Enabled, Ratios, SoundData;
    if events != [] {
      StepKeepsRatios(g, w, events[0]);
      RunKeepsRatios(g, Step(g, w, events[0]), events[1..]);
    }
  }

  // ---- where a run starts ----

  /** The serving tables are empty and every cell with a live object is queued: a first import, swept. */
  ghost predicate JustSwept(g: Geometry, db: Db) {
    && SoundData(db.live) && RidsBelow(db.queue, db.nextRid)
    && db.unmatched == [] && db.totals == []
    && forall key :: key in AllLiveKeys(g, db.live) ==> Queued(db.queue, key)
  }

  /** The invariants hold there, so they hold over every run from there. */
  lemma RunsFromASweepAreSafe(g: Geometry, db: Db, events: seq<Event>)
    requires JustSwept(g, db) && Possible(g, World(db, None), events)
    ensures AllDecideAlike(g, World(db, None), events) ==> Safe(g, Run(g, World(db, None), events).db)
    ensures Monotone(g.proj) ==> Ratios(Run(g, World(db, None), events).db)
  {
    hide Run, Possible, AllDecideAlike, CellRows, CellTotal, AllLiveKeys, LiveKeys, WellPlaced;
    var w := World(db, None);
    forall key: Key | key.source in ALL_SOURCES
      ensures Fresh(g, db, key) || Queued(db.queue, key)
      ensures RatioAtMostOne(db, key)
    {
      if key !in AllLiveKeys(g, db.live) {
        KeyHasOneSource(g, db.live, key);
        DeadCellsAreEmpty(g, db.live, db.evidence, key);
      }
    }
    assert Inv(g, w);
    if AllDecideAlike(g, w, events) { RunKeepsInv(g, w, events); }
    if Monotone(g.proj) { RunKeepsRatios(g, w, events); }
  }

  // ---- tiles ----

  /** Outside the offline compares, what a cell serves changes only in a commit, and that commit
      queues the cell's tile. */
  lemma ChangeDirtiesItsTile(g: Geometry, w: World, e: Event, key: Key)
    requires Inv(g, w) && Enabled(g, w, e) && !e.CompareBuildings? && !e.CompareAddresses?
    requires var after := Step(g, w, e).db;
             Slice(after.unmatched, key) != Slice(w.db.unmatched, key)
             || Slice(after.totals, key) != Slice(w.db.totals, key)
    ensures e.Commit? && key.cell in Step(g, w, e).db.tiles
  {
    hide Slice, CellRows, CellTotal, Safe, SoundData;
    assert e.Commit?;
    var t := w.txn.value;
    assert key in t.done;
    TileOfDone(t.done, key);
    DistinctKeepsSet(TileCells(t.done));
  }

  lemma {:induction false} TileOfDone(done: seq<Key>, key: Key)
    requires key in done
    ensures key.cell in TileCells(done)
  {
    var before, last := done[..|done| - 1], done[|done| - 1];
    assert done == before + [last];
    if key != last {
      TileOfDone(before, key);
    }
  }

  // ---- the drain is a run of the protocol ----

  /** A replay: one transaction per cell, aborted when the cell fails. */
  function ReplayEvents(cells: seq<Key>, cutoff: int, fails: Key -> bool): seq<Event> {
    if cells == [] then []
    else
      ReplayEvents(cells[..|cells| - 1], cutoff, fails)
      + if fails(cells[|cells| - 1]) then [Begin(cutoff), Abort]
           else [Begin(cutoff), DrainCell(cells[|cells| - 1]), Commit]
  }

  lemma {:induction false} RunAppend(g: Geometry, w: World, a: seq<Event>, b: seq<Event>)
    ensures Run(g, w, a + b) == Run(g, Run(g, w, a), b)
    ensures Possible(g, w, a + b) <==> Possible(g, w, a) && Possible(g, Run(g, w, a), b)
    decreases a
  {
    if a == [] {
      assert a + b == b;
    } else {
      assert (a + b)[1..] == a[1..] + b;
      RunAppend(g, Step(g, w, a[0]), a[1..], b);
    }
  }

  lemma OneCellIsARun(g: Geometry, db: Db, key: Key, cutoff: int)
    requires key.source in ALL_SOURCES
    ensures var events := [Begin(cutoff), DrainCell(key), Commit];
            && Possible(g, World(db, None), events)
            && Run(g, World(db, None), events)
               == World(DrainOne(g, db, key, cutoff).(tiles := db.tiles + [key.cell]), None)
  {
    hide RecomputeCell;
    var w0 := World(db, None);
    var w1, w2 := Step(g, w0, Begin(cutoff)), Step(g, Step(g, w0, Begin(cutoff)), DrainCell(key));
    var w3 := Step(g, w2, Commit);
    assert w2.txn.value.work == DrainOne(g, db, key, cutoff);
    RecomputeTouchesSlices(g, db, key);
    assert Distinct(TileCells([key])) == [key.cell];
    assert db.queue - (db.queue - Unserved(db.queue, key, cutoff)) == Unserved(db.queue, key, cutoff);
    assert Run(g, w3, []) == w3;
    var events := [Begin(cutoff), DrainCell(key), Commit];
    assert events[1..] == [DrainCell(key), Commit] && events[1..][1..] == [Commit] && events[1..][1..][1..] == [];
    assert Run(g, w2, [Commit]) == w3 && Possible(g, w2, [Commit]);
    assert Run(g, w1, [DrainCell(key), Commit]) == w3 && Possible(g, w1, [DrainCell(key), Commit]);
  }

  lemma RecomputeTouchesSlices(g: Geometry, db: Db, key: Key)
    ensures var after := RecomputeCell(g, db, key);
            after == db.(unmatched := after.unmatched, totals := after.totals)
  {
  }

  lemma FailedCellIsARun(g: Geometry, db: Db, cutoff: int)
    ensures Possible(g, World(db, None), [Begin(cutoff), Abort])
    ensures Run(g, World(db, None), [Begin(cutoff), Abort]) == World(db, None)
  {
    var w0 := World(db, None);
    var w1 := Step(g, w0, Begin(cutoff));
    assert [Begin(cutoff), Abort][1..] == [Abort] && [Abort][1..] == [];
    assert Run(g, w1, [Abort]) == Run(g, Step(g, w1, Abort), []) == w0;
    assert Possible(g, w1, [Abort]);
  }

  lemma {:induction false} OneAtATimeIsARun(g: Geometry, db: Db, cells: seq<Key>, cutoff: int, fails: Key -> bool)
    requires forall k :: k in cells ==> k.source in ALL_SOURCES
    ensures var events := ReplayEvents(cells, cutoff, fails);
            && Possible(g, World(db, None), events)
            && Run(g, World(db, None), events) == World(OneAtATime(g, db, cells, cutoff, fails), None)
  {
    hide DrainOne, Step, Enabled, Run, Possible;
    if cells == [] {
      EmptyRun(g, World(db, None));
    } else {
      var first, last := cells[..|cells| - 1], cells[|cells| - 1];
      assert cells == first + [last];
      OneAtATimeIsARun(g, db, first, cutoff, fails);
      var mid := OneAtATime(g, db, first, cutoff, fails);
      var tail := if fails(last) then [Begin(cutoff), Abort] else [Begin(cutoff), DrainCell(last), Commit];
      RunAppend(g, World(db, None), ReplayEvents(first, cutoff, fails), tail);
      if fails(last) {
        FailedCellIsARun(g, mid, cutoff);
      } else {
        OneCellIsARun(g, mid, last, cutoff);
      }
    }
  }

  lemma EmptyRun(g: Geometry, w: World)
    ensures Run(g, w, []) == w && Possible(g, w, [])
  {
  }

  lemma {:induction false} NoCompareDecidesAlike(g: Geometry, w: World, events: seq<Event>)
    requires forall e :: e in events ==> !e.CompareBuildings? && !e.CompareAddresses?
    ensures AllDecideAlike(g, w, events)
    decreases events
  {
    hide Step;
    if events != [] {
      NoCompareDecidesAlike(g, Step(g, w, events[0]), events[1..]);
    }
  }

  lemma {:induction false} ReplayHasNoCompare(cells: seq<Key>, cutoff: int, fails: Key -> bool)
    ensures forall e :: e in ReplayEvents(cells, cutoff, fails) ==> !e.CompareBuildings? && !e.CompareAddresses?
  {
    if cells != [] {
      ReplayHasNoCompare(cells[..|cells| - 1], cutoff, fails);
    }
  }

  /** What `Drain.Connection.DrainBatch` promises is enough: a batch, with whatever failures and
      wherever it stopped, leaves no stale cell unqueued. */
  lemma BatchKeepsSafe(g: Geometry, before: Db, after: Db, cutoff: int, limit: nat, selected: seq<Key>, n: nat,
                       fails: Key -> bool)
    requires SoundData(before.live) && RidsBelow(before.queue, before.nextRid) && Safe(g, before)
    requires OldestFirst(Purge(before, cutoff).queue, cutoff, limit, selected) && n <= |selected|
    requires SameButTiles(after, OneAtATime(g, Purge(before, cutoff), selected[..n], cutoff, fails))
    ensures Safe(g, after)
  {
    hide Run, Possible, OneAtATime, NoYounger, Fresh, SoundData;
    var cells := selected[..n];
    forall k | k in cells
      ensures k.source in ALL_SOURCES
    {
      var i :| 0 <= i < n && selected[i] == k;
      assert selected[i] in Eligible(Purge(before, cutoff).queue, cutoff);
    }
    var w := World(before, None);
    var purged := Step(g, w, PurgeUnknown(cutoff));
    PurgeKeepsInv(g, w, cutoff);
    OneAtATimeIsARun(g, Purge(before, cutoff), cells, cutoff, fails);
    ReplayHasNoCompare(cells, cutoff, fails);
    NoCompareDecidesAlike(g, purged, ReplayEvents(cells, cutoff, fails));
    RunKeepsInv(g, purged, ReplayEvents(cells, cutoff, fails));
    SafeIgnoresTiles(g, OneAtATime(g, Purge(before, cutoff), cells, cutoff, fails), after);
  }

  lemma SafeIgnoresTiles(g: Geometry, a: Db, b: Db)
    requires Safe(g, a) && SameButTiles(b, a)
    ensures Safe(g, b)
  {
    forall key: Key | key.source in ALL_SOURCES
      ensures Fresh(g, b, key) || Queued(b.queue, key)
    {
      assert Fresh(g, a, key) || Queued(a.queue, key);
    }
  }
}
