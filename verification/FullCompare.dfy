/** The full compare and the incremental path agree: what the tests in src/compare/mod.rs call
    full/incremental equivalence, with the exact conditions. */
module FullCompare {
  import opened Basics
  import opened TileMath
  import opened MatchRule
  import opened Tables
  import opened Recompute
  import opened DrainSpec
  import opened Drain
  import opened QueueCommands
  import opened BuildingGrid
  import opened AddressJoin

  // ---- how often each path writes an entry ----

  lemma {:induction false} CellRowsCount(g: Geometry, live: seq<Row>, evidence: set<Evidence>, key: Key, e: Entry<Row>)
    ensures multiset(CellRows(g, live, evidence, key))[e]
            == if e == Tagged(g, e.value) && Unmatched(g, evidence, e.value, key) then multiset(live)[e.value] else 0
  {
    hide Unmatched;
    if live != [] {
      assert live == [live[0]] + live[1..];
      CellRowsCount(g, live[1..], evidence, key, e);
    }
  }

  lemma {:induction false} RowByRowCount(g: Geometry, live: seq<Row>, evidence: set<Evidence>, source: string,
                                         grid: Bounds, e: Entry<Row>)
    ensures multiset(RowByRow(g, live, evidence, source, grid))[e]
            == if e == Tagged(g, e.value) && UnmatchedOnGrid(g, evidence, e.value, source, grid)
               then multiset(live)[e.value] else 0
  {
    hide UnmatchedOnGrid;
    if live != [] {
      assert live == [live[0]] + live[1..];
      RowByRowCount(g, live[1..], evidence, source, grid, e);
    }
  }

  lemma {:induction false} FullRowsCount(g: Geometry, live: seq<Row>, evidence: set<Evidence>, matched: set<int>,
                                         e: Entry<Row>)
    ensures multiset(FullRows(g, live, evidence, matched))[e]
            == if e == Tagged(g, e.value) && e.value.source == PRG && e.value.id !in matched
                  && !Reported(evidence, e.value)
               then multiset(live)[e.value] else 0
  {
    hide Reported;
    if live != [] {
      assert live == [live[0]] + live[1..];
      FullRowsCount(g, live[1..], evidence, matched, e);
    }
  }

  /** How often an entry of one source stands in the table after that source was compared in full. */
  lemma FullBuildingsCount(g: Geometry, db: Db, source: string, grid: Bounds, e: Entry<Row>)
    requires e.source == source
    ensures multiset(FullBuildings(g, db, source, grid).unmatched)[e]
            == if e == Tagged(g, e.value) && UnmatchedOnGrid(g, db.evidence, e.value, source, grid)
               then multiset(db.live)[e.value] else 0
  {
    hide UnmatchedOnGrid, Scan, RowByRow;
    OtherSourcesMultiplicity(db.unmatched, source, e);
    ScanWritesEachRowOnce(g, db.live, db.evidence, source, grid);
    RowByRowCount(g, db.live, db.evidence, source, grid, e);
  }

  lemma FullAddressesCount(g: Geometry, db: Db, e: Entry<Row>)
    requires e.source == PRG
    ensures multiset(FullAddresses(g, db).unmatched)[e]
            == if e == Tagged(g, e.value) && e.value.source == PRG && e.value.id !in MatchedIds(g, db.live, db.evidence)
                  && !Reported(db.evidence, e.value)
               then multiset(db.live)[e.value] else 0
  {
    hide Reported, MatchedIds;
    OtherSourcesMultiplicity(db.unmatched, PRG, e);
    FullRowsCount(g, db.live, db.evidence, MatchedIds(g, db.live, db.evidence), e);
  }

  // ---- the incremental side ----

  /** Every cell of the source holds exactly what a recompute of the current data writes, and no
      entry of the source is without a cell. */
  ghost predicate DrainedOut(g: Geometry, db: Db, source: string) {
    && (forall c: Cell :: Slice(db.unmatched, Key(source, c)) == CellRows(g, db.live, db.evidence, Key(source, c))
                          && Slice(db.totals, Key(source, c))
                             == TotalRows(Key(source, c), CellTotal(g, db.live, Key(source, c))))
    && (forall e :: e in db.unmatched && e.source == source ==> e.cell.Some?)
  }

  lemma DrainedOutCount(g: Geometry, db: Db, source: string, e: Entry<Row>)
    requires DrainedOut(g, db, source) && e.source == source
    ensures multiset(db.unmatched)[e]
            == if e.cell.Some? && e == Tagged(g, e.value)
                  && Unmatched(g, db.evidence, e.value, Key(source, e.cell.value))
               then multiset(db.live)[e.value] else 0
  {
    hide Unmatched;
    if e.cell.Some? {
      var key := Key(source, e.cell.value);
      SliceMultiplicity(db.unmatched, key, e);
      CellRowsCount(g, db.live, db.evidence, key, e);
    }
  }

  /** Both tables hold the same entries of one source, each as often. */
  ghost predicate SameRows(a: seq<Entry<Row>>, b: seq<Entry<Row>>, source: string) {
    forall e: Entry<Row> :: e.source == source ==> multiset(a)[e] == multiset(b)[e]
  }

  ghost predicate SameTotals(a: seq<Entry<nat>>, b: seq<Entry<nat>>, source: string) {
    forall c: Cell :: Slice(a, Key(source, c)) == Slice(b, Key(source, c))
  }

  /** The verdict on a comparable building is the same whether its grid square or its own cell
      limits the OSM read. */
  predicate VerdictsAgree(g: Geometry, evidence: set<Evidence>, row: Row, source: string, grid: Bounds) {
    row.source == source && row.point.Some? && Comparable(row) ==>
      (Settled(g, evidence, row, Some(OwnSquare(grid, row.point.value)))
       <==> Settled(g, evidence, row, Some(ReadArea(g, Key(source, CellOf(g.proj, row.point.value))))))
  }

  predicate IsBuilding(e: Evidence) {
    e.OsmBuilding? || e.FormerBuilding?
  }

  /** Some building of OSM covers enough of the row and meets the area the read is limited to. */
  predicate CoveredWithin(g: Geometry, evidence: set<Evidence>, row: Row, area: Bounds) {
    exists e :: e in evidence && IsBuilding(e) && g.covers(e, row) && g.intersects(e, area)
  }

  /** In terms of the geometry: unless a user reported the row, the verdicts agree exactly when buildings
      that cover the row meet both its grid square and its cell, or neither. */
  lemma VerdictsAgreeExactlyWhen(g: Geometry, evidence: set<Evidence>, row: Row, source: string, grid: Bounds)
    requires row.source == source != PRG && row.point.Some? && Comparable(row)
    ensures var cell := TileBox(g.proj, CellOf(g.proj, row.point.value));
            VerdictsAgree(g, evidence, row, source, grid)
            <==> || Reported(evidence, row)
                 || (CoveredWithin(g, evidence, row, OwnSquare(grid, row.point.value))
                     <==> CoveredWithin(g, evidence, row, cell))
  {
    hide OwnSquare, TileBox, CellOf;
    SettledMeansCovered(g, evidence, row, OwnSquare(grid, row.point.value));
    SettledMeansCovered(g, evidence, row, TileBox(g.proj, CellOf(g.proj, row.point.value)));
  }

  lemma SettledMeansCovered(g: Geometry, evidence: set<Evidence>, row: Row, area: Bounds)
    requires row.source != PRG
    ensures Settled(g, evidence, row, Some(area)) <==> Reported(evidence, row) || CoveredWithin(g, evidence, row, area)
  {
    if Settled(g, evidence, row, Some(area)) {
      var e :| e in evidence && ReadIn(g, e, Some(area)) && Settles(g, e, row);
      assert e.Report? || IsBuilding(e);
    }
    if e :| e in evidence && e.Report? && e.source == row.source && e.id == row.id {
      assert ReadIn(g, e, Some(area)) && Settles(g, e, row);
    }
    if e :| e in evidence && IsBuilding(e) && g.covers(e, row) && g.intersects(e, area) {
      assert ReadIn(g, e, Some(area)) && Settles(g, e, row);
    }
  }

  /** With one covering building that is whether it meets both or neither; so buildings that always meet
      both make the two paths agree. */
  lemma OneCoverAgreesExactlyWhen(g: Geometry, evidence: set<Evidence>, row: Row, source: string, grid: Bounds,
                                  e: Evidence)
    requires row.source == source != PRG && row.point.Some? && Comparable(row) && !Reported(evidence, row)
    requires e in evidence && IsBuilding(e) && g.covers(e, row)
    requires forall o :: o in evidence && IsBuilding(o) && g.covers(o, row) ==> o == e
    ensures VerdictsAgree(g, evidence, row, source, grid)
            <==> (g.intersects(e, OwnSquare(grid, row.point.value))
                  <==> g.intersects(e, TileBox(g.proj, CellOf(g.proj, row.point.value))))
  {
    hide OwnSquare, TileBox, CellOf, VerdictsAgree, Reported;
    VerdictsAgreeExactlyWhen(g, evidence, row, source, grid);
  }

  lemma CoversThatMeetBothAgree(g: Geometry, evidence: set<Evidence>, row: Row, source: string, grid: Bounds)
    requires row.source == source != PRG && row.point.Some? && Comparable(row)
    requires forall e :: e in evidence && IsBuilding(e) && g.covers(e, row)
               ==> g.intersects(e, OwnSquare(grid, row.point.value))
                   && g.intersects(e, TileBox(g.proj, CellOf(g.proj, row.point.value)))
    ensures VerdictsAgree(g, evidence, row, source, grid)
  {
    hide OwnSquare, TileBox, CellOf, VerdictsAgree, Reported;
    VerdictsAgreeExactlyWhen(g, evidence, row, source, grid);
  }

  lemma OneVerdict(g: Geometry, live: seq<Row>, evidence: set<Evidence>, row: Row, source: string, grid: Bounds)
    requires Monotone(g.proj) && Mapped(live) && row in live && row.source == source
             && row.point.Some? && WellPlaced(row)
    requires SourceGridExtent(live, source) == Some(grid)
    ensures (UnmatchedOnGrid(g, evidence, row, source, grid)
             <==> Unmatched(g, evidence, row, Key(source, CellOf(g.proj, row.point.value))))
            <==> VerdictsAgree(g, evidence, row, source, grid)
  {
    hide Settled, SourceGridExtent, WellPlaced, OwnSquare, ReadArea, CellOf, TileBox, Reached;
    GridReaches(live, source, row, grid);
    OwnerBoxContains(g.proj, row.point.value);
  }

  /** Buildings: the denominators always agree, and the unmatched rows agree exactly when no
      verdict depends on which enclosing cell limits the OSM read. */
  lemma BuildingsAgreeExactlyWhen(g: Geometry, db: Db, drained: Db, source: string, grid: Bounds)
    requires source != PRG && Monotone(g.proj) && Mapped(db.live)
    requires forall row :: row in db.live ==> WellPlaced(row)
    requires SourceGridExtent(db.live, source) == Some(grid)
    requires drained.live == db.live && drained.evidence == db.evidence && DrainedOut(g, drained, source)
    ensures SameTotals(FullBuildings(g, db, source, grid).totals, drained.totals, source)
    ensures SameRows(FullBuildings(g, db, source, grid).unmatched, drained.unmatched, source)
            <==> forall row :: row in db.live ==> VerdictsAgree(g, db.evidence, row, source, grid)
  {
    hide FullBuildings, UnmatchedOnGrid, Unmatched, VerdictsAgree, Mapped, SourceGridExtent, WellPlaced, CellOf;
    var full := FullBuildings(g, db, source, grid);
    FullTotals(g, db, source, grid, drained);
    forall row | row in db.live
      ensures VerdictsAgree(g, db.evidence, row, source, grid)
              <==> multiset(full.unmatched)[Tagged(g, row)] == multiset(drained.unmatched)[Tagged(g, row)]
                   || row.source != source
    {
      CountsMeanVerdict(g, db, drained, row, source, grid);
    }
    if forall row :: row in db.live ==> VerdictsAgree(g, db.evidence, row, source, grid) {
      forall e: Entry<Row> | e.source == source
        ensures multiset(full.unmatched)[e] == multiset(drained.unmatched)[e]
      {
        FullBuildingsCount(g, db, source, grid, e);
        DrainedOutCount(g, drained, source, e);
        if e == Tagged(g, e.value) && e.value in db.live {
          assert VerdictsAgree(g, db.evidence, e.value, source, grid);
        }
      }
    } else {
      var row :| row in db.live && !VerdictsAgree(g, db.evidence, row, source, grid);
      var e := Tagged(g, row);
      assert e.source == source ==> multiset(full.unmatched)[e] != multiset(drained.unmatched)[e];
      CountsMeanVerdict(g, db, drained, row, source, grid);
    }
  }

  /** One live row, served as unmatched, and one piece of evidence. */
  function OneRowServed(g: Geometry, row: Row, e: Evidence): Db {
    Db([row], {e}, [Tagged(g, row)], [Entry(row.source, Tagged(g, row).cell, 1)], {}, [], 0)
  }

  /** An input on which the two paths differ: one building that covers the one row and meets the row's
      grid square but not its cell. The full compare takes the row for matched, the drain does not. */
  lemma ABuildingBesideTheCellSplitsThePaths(g: Geometry, row: Row, e: Evidence, source: string, grid: Bounds)
    requires source in {BDOT10K, EGIB} && row.source == source && Comparable(row) && WellPlaced(row)
    requires row.point.Some? && Monotone(g.proj) && ProperLatitude(row.point.value.lat)
    requires SourceGridExtent([row], source) == Some(grid)
    requires e.OsmBuilding? && g.covers(e, row) && g.intersects(e, OwnSquare(grid, row.point.value))
    requires !g.intersects(e, TileBox(g.proj, CellOf(g.proj, row.point.value)))
    ensures DrainedOut(g, OneRowServed(g, row, e), source)
    ensures !SameRows(FullBuildings(g, OneRowServed(g, row, e), source, grid).unmatched,
                      OneRowServed(g, row, e).unmatched, source)
  {
    var drained := OneRowServed(g, row, e);
    OneRowDrained(g, row, e, source);
    assert !Reported({e}, row);
    assert drained.live == [row] && drained.evidence == {e};
    hide OneRowServed, SameRows;
    hide OwnSquare, TileBox, CellOf, VerdictsAgree, FullBuildings, DrainedOut, SourceGridExtent;
    OneCoverAgreesExactlyWhen(g, {e}, row, source, grid, e);
    assert row in drained.live && !VerdictsAgree(g, drained.evidence, row, source, grid);
    BuildingsAgreeExactlyWhen(g, drained, drained, source, grid);
    assert !(forall r :: r in drained.live ==> VerdictsAgree(g, drained.evidence, r, source, grid));
    assert !SameRows(FullBuildings(g, drained, source, grid).unmatched, drained.unmatched, source);
  }

  lemma OneRowDrained(g: Geometry, row: Row, e: Evidence, source: string)
    requires source != PRG && row.source == source && Comparable(row) && row.point.Some?
    requires Monotone(g.proj) && ProperLatitude(row.point.value.lat)
    requires e.OsmBuilding? && !g.intersects(e, TileBox(g.proj, CellOf(g.proj, row.point.value)))
    ensures DrainedOut(g, OneRowServed(g, row, e), source)
  {
    var db := OneRowServed(g, row, e);
    forall c: Cell
      ensures Slice(db.unmatched, Key(source, c)) == CellRows(g, db.live, db.evidence, Key(source, c))
      ensures Slice(db.totals, Key(source, c)) == TotalRows(Key(source, c), CellTotal(g, db.live, Key(source, c)))
    {
      var key := Key(source, c);
      UnmatchedInItsCell(g, row, e, key);
      hide Unmatched, InCell, Tagged;
      SliceOfOne(Tagged(g, row), key);
      SliceOfOne(Entry(row.source, Tagged(g, row).cell, 1), key);
      RecomputeOfOne(g, row, {e}, key);
    }
  }

  lemma UnmatchedInItsCell(g: Geometry, row: Row, e: Evidence, key: Key)
    requires key.source == row.source != PRG && Comparable(row) && row.point.Some?
    requires Monotone(g.proj) && ProperLatitude(row.point.value.lat)
    requires e.OsmBuilding? && !g.intersects(e, TileBox(g.proj, CellOf(g.proj, row.point.value)))
    ensures InCell(g, row, key) <==> At(Tagged(g, row), key)
    ensures Unmatched(g, {e}, row, key) <==> At(Tagged(g, row), key)
    ensures Tagged(g, row).source == row.source && Tagged(g, row).cell == Some(CellOf(g.proj, row.point.value))
  {
    OwnerBoxContains(g.proj, row.point.value);
    hide TileBox, CellOf, Inside;
  }

  lemma SliceOfOne<V>(e: Entry<V>, key: Key)
    ensures Slice([e], key) == if At(e, key) then [e] else []
  {
    assert [e][1..] == [];
  }

  lemma RecomputeOfOne(g: Geometry, row: Row, evidence: set<Evidence>, key: Key)
    ensures CellRows(g, [row], evidence, key) == if Unmatched(g, evidence, row, key) then [Tagged(g, row)] else []
    ensures CellTotal(g, [row], key) == if InCell(g, row, key) && Comparable(row) then 1 else 0
  {
    hide Unmatched, InCell, Tagged;
    assert [row][1..] == [];
    assert CellTotal(g, [], key) == 0;
  }

  lemma CountsMeanVerdict(g: Geometry, db: Db, drained: Db, row: Row, source: string, grid: Bounds)
    requires source != PRG && Monotone(g.proj) && Mapped(db.live) && row in db.live && WellPlaced(row)
    requires SourceGridExtent(db.live, source) == Some(grid)
    requires drained.live == db.live && drained.evidence == db.evidence && DrainedOut(g, drained, source)
    ensures row.source != source ==> VerdictsAgree(g, db.evidence, row, source, grid)
    ensures row.source == source ==>
      (VerdictsAgree(g, db.evidence, row, source, grid)
       <==> multiset(FullBuildings(g, db, source, grid).unmatched)[Tagged(g, row)]
            == multiset(drained.unmatched)[Tagged(g, row)])
  {
    hide FullBuildings, Settled, Mapped, SourceGridExtent, WellPlaced, CellOf, Comparable,
         OwnSquare, ReadArea, TileBox, DrainedOut;
    if row.source == source {
      FullBuildingsCount(g, db, source, grid, Tagged(g, row));
      DrainedOutCount(g, drained, source, Tagged(g, row));
      if row.point.Some? {
        OneVerdict(g, db.live, db.evidence, row, source, grid);
      }
    }
  }

  lemma FullTotals(g: Geometry, db: Db, source: string, grid: Bounds, drained: Db)
    requires Monotone(g.proj) && Mapped(db.live)
    requires drained.live == db.live && DrainedOut(g, drained, source)
    ensures SameTotals(FullBuildings(g, db, source, grid).totals, drained.totals, source)
  {
    hide Mapped;
    var rows := OtherSources(db.unmatched, source) + Scan(g, db.live, db.evidence, source, grid);
    RebuiltTotals(g, db.(unmatched := rows), source, drained);
  }

  lemma RebuiltTotals(g: Geometry, db: Db, source: string, drained: Db)
    requires Monotone(g.proj) && Mapped(db.live)
    requires drained.live == db.live && DrainedOut(g, drained, source)
    ensures SameTotals(RebuildAll(g, db, source).totals, drained.totals, source)
  {
    forall c: Cell
      ensures Slice(RebuildAll(g, db, source).totals, Key(source, c)) == Slice(drained.totals, Key(source, c))
    {
      RebuildAllIsRecomputeEverywhere(g, db, source, Key(source, c));
      RecomputeIsLocal(g, db, Key(source, c), Key(source, c));
    }
  }

  /** Addresses: with points on every row, unique ids and matches no further apart than the read
      buffer, the two paths agree on everything. */
  lemma AddressesAgree(g: Geometry, db: Db, drained: Db)
    requires Monotone(g.proj) && Mapped(db.live) && UniqueIds(db.live, PRG)
    requires forall row :: row in db.live && row.source == PRG ==> row.point.Some?
    requires NearMeansClose(g, db.live, db.evidence, 0.003)
    requires drained.live == db.live && drained.evidence == db.evidence && DrainedOut(g, drained, PRG)
    ensures SameTotals(FullAddresses(g, db).totals, drained.totals, PRG)
    ensures SameRows(FullAddresses(g, db).unmatched, drained.unmatched, PRG)
  {
    hide MatchedIds, Reported, CellOf, TileBox, Settled, ReadArea;
    assert NearMeansClose(g, db.live, db.evidence, 0.005);
    RebuiltTotals(g, db.(unmatched := OtherSources(db.unmatched, PRG)
      + FullRows(g, db.live, db.evidence, MatchedIds(g, db.live, db.evidence))), PRG, drained);
    forall e: Entry<Row> | e.source == PRG
      ensures multiset(FullAddresses(g, db).unmatched)[e] == multiset(drained.unmatched)[e]
    {
      FullAddressesCount(g, db, e);
      DrainedOutCount(g, drained, PRG, e);
      if e == Tagged(g, e.value) && e.value in db.live {
        var key := Key(PRG, CellOf(g.proj, e.value.point.value));
        OwnerBoxContains(g.proj, e.value.point.value);
        assert InCell(g, e.value, key);
        WrittenMeansUnsettled(g, db.live, db.evidence, e.value);
        BufferIsWideEnough(g, db.live, db.evidence, e.value, key);
      }
    }
  }

  // ---- reconcile, then drain ----

  /** A cell the sweep does not reach holds no live row, so a recompute of it would write nothing. */
  lemma {:induction false} DeadCellsAreEmpty(g: Geometry, live: seq<Row>, evidence: set<Evidence>, key: Key)
    requires key !in LiveKeys(g, live, key.source)
    requires forall row :: row in live ==> WellPlaced(row)
    ensures CellRows(g, live, evidence, key) == [] && CellTotal(g, live, key) == 0
  {
    if live != [] {
      assert forall row :: row in live[1..] ==> row in live;
      var row := live[0];
      assert WellPlaced(row);
      assert !InCell(g, row, key);
      DeadCellsAreEmpty(g, live[1..], evidence, key);
    }
  }

  /** The queued cells hold what a recompute writes, all others what they held; and those others hold no
      live row. */
  ghost predicate Refreshed(g: Geometry, start: Db, done: Db, queued: set<Key>) {
    forall k: Key :: k.source in ALL_SOURCES ==>
      if k in queued then
        && Slice(done.unmatched, k) == CellRows(g, start.live, start.evidence, k)
        && Slice(done.totals, k) == TotalRows(k, CellTotal(g, start.live, k))
      else
        && Slice(done.unmatched, k) == Slice(start.unmatched, k) && Slice(done.totals, k) == Slice(start.totals, k)
        && CellRows(g, start.live, start.evidence, k) == [] && CellTotal(g, start.live, k) == 0
  }

  ghost predicate LiveOrQueued(g: Geometry, db: Db, keys: set<Key>) {
    forall k: Key ::
      (k in keys <==> k.source in ALL_SOURCES && (k in AllLiveKeys(g, db.live) || Queued(db.queue, k)))
  }

  /** `queue reconcile` followed by `queue drain`, with nothing failing and no row dated in the
      future: unless it is interrupted, every cell that was live or already queued ends fresh and
      every other cell keeps what it had. So the whole source is drained out exactly when no cell
      without live or queued objects was serving anything. */
  method ReconcileAndDrain(conn: Connection, batchSize: nat) returns (finished: bool, ghost queued: set<Key>)
    requires conn.Steady() && conn.saved.None? && batchSize > 0
    requires RidsBelow(conn.queue, conn.nextRid)
    requires forall k: Key :: !conn.fails(k)
    requires forall r :: r in conn.queue ==> r.at <= conn.clock(conn.ticks)
    requires forall row :: row in conn.live ==> WellPlaced(row)
    modifies conn
    ensures conn.saved.None? && conn.live == old(conn.live) && conn.evidence == old(conn.evidence)
    ensures LiveOrQueued(conn.g, old(conn.State()), queued)
    ensures finished ==> Refreshed(conn.g, old(conn.State()), conn.State(), queued)
    ensures finished ==> forall source :: source in ALL_SOURCES ==>
      (DrainedOut(conn.g, conn.State(), source) <== NothingStale(old(conn.State()), source, queued))
    ensures !finished ==> conn.Stopped()
  {
    hide CellRows, CellTotal, Slice, LiveKeys, DrainedOut, NothingStale,
         HealthyEligible, Blocking, AllLiveKeys, Refreshed, RunSoFar, Totals, AllDrain, DrainedBy, AsksOncePerCell;
    ghost var start := conn.State();
    queued := set k | k in AllLiveKeys(conn.g, conn.live) + (set r | r in conn.queue :: r.key)
                  && k.source in ALL_SOURCES;
    LiveKeysAreKnown(conn.g, conn.live);
    var sweep := EnqueueAll(conn);
    if sweep.SweepStopped? {
      return false, queued;
    }
    ghost var swept := conn.State();
    var run;
    ghost var touched, cutoff, batches;
    run, touched, cutoff, batches := RunQueueDrain(conn, batchSize);
    RunRebuilds(conn.g, swept, conn.State(), batches, touched, Totals(batches, conn.fails), batchSize, conn.fails);
    if run.Interrupted? {
      return false, queued;
    }
    Drained(conn.g, start, swept, conn.State(), touched, cutoff, queued, conn.fails, batchSize, conn.Stopped());
    if !conn.Stopped() {
      forall source | source in ALL_SOURCES
        ensures DrainedOut(conn.g, conn.State(), source) <== NothingStale(start, source, queued)
      {
        DrainedOutWhen(conn.g, start, conn.State(), queued, source);
      }
    }
    ghost var early := conn.Stopped();
    ghost var last := conn.polls - 1;
    var stop := conn.IsCancelled();
    assert early ==> conn.cancelled(last) && last <= conn.polls - 1;
    return !stop, queued;
  }

  /** Outside the queued cells the source serves nothing, and it serves nothing without a cell. */
  ghost predicate NothingStale(db: Db, source: string, queued: set<Key>) {
    && (forall c: Cell :: Key(source, c) !in queued ==>
          Slice(db.unmatched, Key(source, c)) == [] && Slice(db.totals, Key(source, c)) == [])
    && (forall e :: e in db.unmatched && e.source == source ==> e.cell.Some?)
  }

  lemma DrainedOutWhen(g: Geometry, start: Db, done: Db, queued: set<Key>, source: string)
    requires source in ALL_SOURCES && done.live == start.live && done.evidence == start.evidence
    requires Refreshed(g, start, done, queued)
    requires forall e :: e in done.unmatched && e.cell.None? ==> e in start.unmatched
    ensures NothingStale(start, source, queued) ==> DrainedOut(g, done, source)
    ensures DrainedOut(g, done, source) ==>
      forall c: Cell :: Key(source, c) !in queued ==>
        Slice(start.unmatched, Key(source, c)) == [] && Slice(start.totals, Key(source, c)) == []
  {
    hide CellRows, CellTotal, Slice;
    if DrainedOut(g, done, source) {
      forall c: Cell | Key(source, c) !in queued
        ensures Slice(start.unmatched, Key(source, c)) == [] && Slice(start.totals, Key(source, c)) == []
      {
        assert Slice(done.unmatched, Key(source, c)) == CellRows(g, done.live, done.evidence, Key(source, c));
      }
    }
  }

  /** The end of the drain: no request from before it is left, so every queued cell was rebuilt. */
  lemma Drained(g: Geometry, start: Db, swept: Db, done: Db, touched: set<Key>, cutoff: int, queued: set<Key>,
                fails: Key -> bool, batchSize: nat, stopped: bool)
    requires batchSize > 0 && (forall k: Key :: !fails(k))
    requires forall row :: row in start.live ==> WellPlaced(row)
    requires Enqueued(start, swept, AllLiveKeys(g, start.live))
    requires LiveOrQueued(g, start, queued)
    requires Rebuilt(g, swept, done, touched)
    requires forall k :: k in touched ==> k.source in ALL_SOURCES && Queued(swept.queue, k)
    requires forall r :: r in swept.queue ==> r.at <= cutoff
    requires stopped || HealthyEligible(done.queue, cutoff, fails) == {}
             || |Blocking(done.queue, cutoff, fails)| >= batchSize
    ensures done.live == start.live && done.evidence == start.evidence
    ensures !stopped ==> Refreshed(g, start, done, queued)
    ensures forall e :: e in done.unmatched && e.cell.None? ==> e in start.unmatched
  {
    hide CellRows, CellTotal, Slice, LiveKeys, TotalRows;
    if !stopped {
      assert Blocking(done.queue, cutoff, fails) == {};
      assert Eligible(done.queue, cutoff) == HealthyEligible(done.queue, cutoff, fails) == {};
      DueMeansEligible(done.queue, cutoff);
      forall k: Key | k.source in ALL_SOURCES
        ensures k in queued <==> k in touched
        ensures k !in queued ==> CellRows(g, start.live, start.evidence, k) == [] && CellTotal(g, start.live, k) == 0
      {
        if k in touched {
          var r :| r in swept.queue && r.key == k;
          assert r in start.queue || r in swept.queue - start.queue;
        }
        if k in queued {
          if k in AllLiveKeys(g, start.live) {
            var r :| r in swept.queue - start.queue && r.key == k;
          }
          var r :| r in swept.queue && r.key == k;
          assert r !in done.queue;
        } else {
          KeyHasOneSource(g, start.live, k);
          DeadCellsAreEmpty(g, start.live, start.evidence, k);
        }
      }
    }
  }

  lemma DueMeansEligible(queue: set<QueueRow>, cutoff: int)
    ensures forall r :: r in queue && r.at <= cutoff && r.key.source in ALL_SOURCES ==> r.key in Eligible(queue, cutoff)
  {
  }

  lemma KeyHasOneSource(g: Geometry, live: seq<Row>, k: Key)
    requires k.source in ALL_SOURCES && k !in AllLiveKeys(g, live)
    ensures k !in LiveKeys(g, live, k.source)
  {
  }

  lemma LiveKeysAreKnown(g: Geometry, live: seq<Row>)
    ensures forall k :: k in AllLiveKeys(g, live) ==> k.source in ALL_SOURCES
  {
  }
}
