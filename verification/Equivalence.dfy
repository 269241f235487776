/** The equivalence that the tests of src/compare/mod.rs state, in one contract: a reconcile and a drain
    leave what the full compares write. */
module Equivalence {
  import opened Basics
  import opened TileMath
  import opened MatchRule
  import opened Tables
  import opened Recompute
  import opened Drain
  import opened QueueCommands
  import opened BuildingGrid
  import opened AddressJoin
  import opened FullCompare
  import opened DrainProtocol

  ghost predicate CellsKnown(t: seq<Entry<Row>>, source: string) {
    forall e :: e in t && e.source == source ==> e.cell.Some?
  }

  /** What the protocol keeps is enough for a reconcile to miss nothing: where no stale cell is without a
      queue row, a cell that is neither live nor queued serves nothing. */
  lemma SafeServesNothingElsewhere(g: Geometry, db: Db, source: string, queued: set<Key>)
    requires Safe(g, db) && source in ALL_SOURCES && LiveOrQueued(g, db, queued)
    requires (forall row :: row in db.live ==> WellPlaced(row)) && CellsKnown(db.unmatched, source)
    ensures NothingStale(db, source, queued)
  {
    hide CellRows, CellTotal, Slice, LiveKeys, AllLiveKeys, WellPlaced;
    forall c: Cell | Key(source, c) !in queued
      ensures Slice(db.unmatched, Key(source, c)) == [] && Slice(db.totals, Key(source, c)) == []
    {
      var key := Key(source, c);
      assert Fresh(g, db, key);
      KeyHasOneSource(g, db.live, key);
      DeadCellsAreEmpty(g, db.live, db.evidence, key);
      BagSize(Slice(db.unmatched, key));
    }
  }

  /** The full compare of a building source and the tables `db` say the same of the source, its rows
      exactly when no verdict depends on the cell that limits the read. */
  ghost predicate AgreesOnBuildings(g: Geometry, start: Db, db: Db, source: string) {
    forall grid :: SourceGridExtent(start.live, source) == Some(grid) ==>
      && SameTotals(FullBuildings(g, start, source, grid).totals, db.totals, source)
      && (SameRows(FullBuildings(g, start, source, grid).unmatched, db.unmatched, source)
          <==> forall row :: row in start.live ==> VerdictsAgree(g, start.evidence, row, source, grid))
  }

  /** The address compare and the tables `db` say the same, given points, unique ids and matches within
      the read buffer. */
  ghost predicate AgreesOnAddresses(g: Geometry, start: Db, db: Db) {
    && UniqueIds(start.live, PRG)
    && (forall row :: row in start.live && row.source == PRG ==> row.point.Some?)
    && NearMeansClose(g, start.live, start.evidence, 0.003)
    ==>
    && SameTotals(FullAddresses(g, start).totals, db.totals, PRG)
    && SameRows(FullAddresses(g, start).unmatched, db.unmatched, PRG)
  }

  lemma DrainedOutAgrees(g: Geometry, start: Db, done: Db, source: string)
    requires Monotone(g.proj) && SoundData(start.live)
    requires done.live == start.live && done.evidence == start.evidence && DrainedOut(g, done, source)
    ensures source in {BDOT10K, EGIB} ==> AgreesOnBuildings(g, start, done, source)
    ensures source == PRG ==> AgreesOnAddresses(g, start, done)
  {
    hide DrainedOut, SameTotals, SameRows, FullBuildings, FullAddresses, VerdictsAgree, SourceGridExtent;
    hide NearMeansClose, UniqueIds, Mapped, WellPlaced;
    if source in {BDOT10K, EGIB} {
      forall grid | SourceGridExtent(start.live, source) == Some(grid)
        ensures SameTotals(FullBuildings(g, start, source, grid).totals, done.totals, source)
        ensures SameRows(FullBuildings(g, start, source, grid).unmatched, done.unmatched, source)
                <==> forall row :: row in start.live ==> VerdictsAgree(g, start.evidence, row, source, grid)
      {
        BuildingsAgreeExactlyWhen(g, start, done, source, grid);
      }
    } else if source == PRG && UniqueIds(start.live, PRG)
              && (forall row :: row in start.live && row.source == PRG ==> row.point.Some?)
              && NearMeansClose(g, start.live, start.evidence, 0.003) {
      AddressesAgree(g, start, done);
    }
  }

  /** From any state that the protocol can be in, a reconcile and a drain that meet no failure and no
      stop leave every source as its full compare would. */
  method ReconcileReachesFullCompare(conn: Connection, batchSize: nat) returns (finished: bool)
    requires conn.Steady() && conn.saved.None? && batchSize > 0
    requires RidsBelow(conn.queue, conn.nextRid)
    requires forall k: Key :: !conn.fails(k)
    requires forall r :: r in conn.queue ==> r.at <= conn.clock(conn.ticks)
    requires Monotone(conn.g.proj) && SoundData(conn.live) && Safe(conn.g, conn.State())
    modifies conn
    ensures finished && CellsKnown(old(conn.unmatched), BDOT10K)
            ==> AgreesOnBuildings(conn.g, old(conn.State()), conn.State(), BDOT10K)
    ensures finished && CellsKnown(old(conn.unmatched), EGIB)
            ==> AgreesOnBuildings(conn.g, old(conn.State()), conn.State(), EGIB)
    ensures finished && CellsKnown(old(conn.unmatched), PRG)
            ==> AgreesOnAddresses(conn.g, old(conn.State()), conn.State())
    ensures !finished ==> conn.Stopped()
  {
    hide Safe, Refreshed, NothingStale, DrainedOut, LiveOrQueued, AgreesOnBuildings, AgreesOnAddresses;
    hide Mapped, WellPlaced, CellsKnown;
    ghost var start := conn.State();
    ghost var queued;
    finished, queued := ReconcileAndDrain(conn, batchSize);
    if finished {
      forall source | source in ALL_SOURCES && CellsKnown(start.unmatched, source)
        ensures source in {BDOT10K, EGIB} ==> AgreesOnBuildings(conn.g, start, conn.State(), source)
        ensures source == PRG ==> AgreesOnAddresses(conn.g, start, conn.State())
      {
        SafeServesNothingElsewhere(conn.g, start, source, queued);
        DrainedOutAgrees(conn.g, start, conn.State(), source);
      }
    }
  }
}
