/** Which cells an OSM edit requests (src/update/dirty_cells.rs), against what the match rule reads
    of OSM. This is the premise that DrainProtocol puts on edits. */
module DirtyCells {
  import opened Basics
  import opened TileMath
  import opened MatchRule
  import opened Tables
  import opened Recompute
  import opened FullCompare
  import opened DrainProtocol

  const MAX_ENQUEUE_CELLS_PER_ROW: int := 1024

  /** The envelope of an OSM geometry, as the producer reads it off the stored row. */
  ghost predicate HasEnvelope(g: Geometry, e: Evidence, box: Bounds) {
    match e
    case OsmAddress(_, at, _, _, _) => box == Bounds(at.lon, at.lat, at.lon, at.lat)
    case Report(_, _) => false
    case _ => forall area :: g.intersects(e, area) ==> Meet(box, area)
  }

  predicate Meet(a: Bounds, b: Bounds) {
    a.minLon <= b.maxLon && b.minLon <= a.maxLon && a.minLat <= b.maxLat && b.minLat <= a.maxLat
  }

  function LayerBuffer(e: Evidence): real {
    if e.OsmAddress? then OSM_MATCH_BUFFER_DEG else 0.0
  }

  function LayerSources(e: Evidence): set<string> {
    if e.OsmAddress? then {PRG} else {BDOT10K, EGIB}
  }

  /** The rectangle of cells a stored row spans, before the guard on its size. */
  predicate InReach(g: Geometry, box: Bounds, buf: real, c: Cell) {
    && XFrac(box.minLon - buf).Floor <= c.x <= XFrac(box.maxLon + buf).Floor
    && YFrac(g.proj, box.maxLat + buf).Floor <= c.y <= YFrac(g.proj, box.minLat - buf).Floor
  }

  function ReachSize(g: Geometry, box: Bounds, buf: real): int {
    (XFrac(box.maxLon + buf).Floor - XFrac(box.minLon - buf).Floor + 1)
    * (YFrac(g.proj, box.minLat - buf).Floor - YFrac(g.proj, box.maxLat + buf).Floor + 1)
  }

  /** The cells of the rectangle. */
  function Reached(g: Geometry, box: Bounds, buf: real): (cells: set<Cell>)
    ensures forall c :: c in cells <==> InReach(g, box, buf, c)
  {
    Rectangle(XFrac(box.minLon - buf).Floor, XFrac(box.maxLon + buf).Floor,
              YFrac(g.proj, box.maxLat + buf).Floor, YFrac(g.proj, box.minLat - buf).Floor)
  }

  function Rectangle(west: int, east: int, north: int, south: int): (cells: set<Cell>)
    ensures forall c :: c in cells <==> west <= c.x <= east && north <= c.y <= south
  {
    var cells := set x, y | west <= x <= east && north <= y <= south :: Cell(x, y);
    assert forall c: Cell :: c == Cell(c.x, c.y);
    cells
  }

  lemma {:induction false} ColumnSize(x: int, north: int, south: int)
    requires north <= south + 1
    ensures |Rectangle(x, x, north, south)| == south + 1 - north
    decreases south + 1 - north
  {
    if north <= south {
      ColumnSize(x, north, south - 1);
      assert Rectangle(x, x, north, south) == Rectangle(x, x, north, south - 1) + {Cell(x, south)};
    } else {
      assert Rectangle(x, x, north, south) == {};
    }
  }

  lemma {:induction false} RectangleSize(west: int, east: int, north: int, south: int)
    requires west <= east + 1 && north <= south + 1
    ensures |Rectangle(west, east, north, south)| == (east + 1 - west) * (south + 1 - north)
    decreases east + 1 - west
  {
    if west <= east {
      RectangleSize(west, east - 1, north, south);
      ColumnSize(east, north, south);
      var (before, column) := (Rectangle(west, east - 1, north, south), Rectangle(east, east, north, south));
      assert Rectangle(west, east, north, south) == before + column && before !! column;
      var (n, h) := (east - west, south + 1 - north);
      assert (n + 1) * h == n * h + h;
    } else {
      assert Rectangle(west, east, north, south) == {};
    }
  }

  lemma FloorsInOrder(a: real, b: real)
    requires a <= b
    ensures a.Floor <= b.Floor
  {
  }

  /** The guard's product is the number of cells of the rectangle. */
  lemma ReachSizeCounts(g: Geometry, box: Bounds, buf: real)
    requires Monotone(g.proj) && ProperBox(box, buf)
    ensures ReachSize(g, box, buf) == |Reached(g, box, buf)|
  {
    hide Rectangle, InReach;
    var (west, east) := (XFrac(box.minLon - buf).Floor, XFrac(box.maxLon + buf).Floor);
    var (north, south) := (YFrac(g.proj, box.maxLat + buf).Floor, YFrac(g.proj, box.minLat - buf).Floor);
    FloorsInOrder(XFrac(box.minLon - buf), XFrac(box.maxLon + buf));
    SouthIsLower(g.proj, box.minLat - buf, box.maxLat + buf);
    FloorsInOrder(YFrac(g.proj, box.maxLat + buf), YFrac(g.proj, box.minLat - buf));
    RectangleSize(west, east, north, south);
  }

  lemma SouthIsLower(proj: Projection, south: real, north: real)
    requires Monotone(proj) && ProperLatitude(south) && ProperLatitude(north) && south <= north
    ensures YFrac(proj, north) <= YFrac(proj, south)
  {
    var (u, v) := (proj.latToY(south), proj.latToY(north));
    assert u < v ==> proj.yToLat(v) < proj.yToLat(u);
  }

  predicate Noted(g: Geometry, box: Bounds, buf: real, c: Cell) {
    InReach(g, box, buf, c) && ReachSize(g, box, buf) <= MAX_ENQUEUE_CELLS_PER_ROW
  }

  ghost predicate ProperBox(box: Bounds, buf: real) {
    && box.minLon <= box.maxLon && box.minLat <= box.maxLat && buf >= 0.0
    && ProperLatitude(box.minLat - buf) && ProperLatitude(box.maxLat + buf)
  }

  /** The box touches the read area, and only along the area's eastern or southern side. */
  predicate TouchesFarEdge(box: Bounds, area: Bounds) {
    Meet(box, area) && (box.minLon == area.maxLon || box.maxLat == area.minLat)
  }

  /** The requested rectangle is not quite the reach of the read: the read area is closed on all
      sides, the rectangle leaves out a cell whose read area the row only touches from the east or
      from the south. And a row that spans too many cells requests none. */
  lemma ReachExactly(g: Geometry, box: Bounds, buf: real, c: Cell)
    requires Monotone(g.proj) && ProperBox(box, buf)
    ensures var area := Widen(TileBox(g.proj, c), buf);
            && (InReach(g, box, buf, c) <==> Meet(box, area) && !TouchesFarEdge(box, area))
            && (Noted(g, box, buf, c) <==>
                  Meet(box, area) && !TouchesFarEdge(box, area) && |Reached(g, box, buf)| <= 1024)
  {
    ReachSizeCounts(g, box, buf);
    hide Reached, ReachSize;
    hide XFrac, YFrac, TileLon, TileLat, Monotone, ProperLatitude;
    LonAgainstLine(box.minLon - buf, c.x + 1);
    LonAgainstLine(box.maxLon + buf, c.x);
    LatAgainstLine(g.proj, box.maxLat + buf, c.y + 1);
    LatAgainstLine(g.proj, box.minLat - buf, c.y);
  }

  /** The evidence that came or went. */
  function Changed(a: set<Evidence>, b: set<Evidence>): set<Evidence> {
    (a - b) + (b - a)
  }

  lemma {:induction false} MovedByWhom(g: Geometry, live: seq<Row>, a: set<Evidence>, b: set<Evidence>, key: Key)
    returns (e: Evidence)
    requires CellRows(g, live, a, key) != CellRows(g, live, b, key)
    ensures e in Changed(a, b) && ReadIn(g, e, Some(ReadArea(g, key)))
    ensures exists row :: row in live && row.source == key.source && Settles(g, e, row)
  {
    hide ReadArea, InCell, Settles, ReadIn;
    if CellRows(g, live[1..], a, key) != CellRows(g, live[1..], b, key) {
      e := MovedByWhom(g, live[1..], a, b, key);
      var row :| row in live[1..] && row.source == key.source && Settles(g, e, row);
      assert row in live;
    } else {
      var row := live[0];
      assert row in live && row.source == key.source by { SameSource(g, row, key); }
      if Settled(g, a, row, Some(ReadArea(g, key))) {
        e :| e in a && ReadIn(g, e, Some(ReadArea(g, key))) && Settles(g, e, row);
      } else {
        e :| e in b && ReadIn(g, e, Some(ReadArea(g, key))) && Settles(g, e, row);
      }
    }
  }

  lemma SameSource(g: Geometry, row: Row, key: Key)
    ensures InCell(g, row, key) ==> row.source == key.source
  {
  }

  /** The requests of an OSM edit: every noted cell of every row that came or went, for each source
      of its layer. */
  ghost predicate RequestsNoted(g: Geometry, changed: set<Evidence>, box: Evidence -> Bounds, requests: set<QueueRow>) {
    forall e, c, source :: e in changed && source in LayerSources(e) && Noted(g, box(e), LayerBuffer(e), c) ==>
      Queued(requests, Key(source, c))
  }

  /** An OSM edit requests every cell it moves, provided no changed row is too wide to be noted and
      none touches a read area only along its eastern or southern side. */
  lemma OsmEditRequestsItsCells(g: Geometry, db: Db, evidence: set<Evidence>, box: Evidence -> Bounds,
                                requests: set<QueueRow>, nextRid: nat)
    requires Monotone(g.proj) && SoundData(db.live) && db.nextRid <= nextRid
    requires forall r :: r in requests ==> db.nextRid <= r.rid < nextRid
    requires forall e :: e in Changed(db.evidence, evidence) ==>
      && HasEnvelope(g, e, box(e)) && ProperBox(box(e), LayerBuffer(e))
      && ReachSize(g, box(e), LayerBuffer(e)) <= MAX_ENQUEUE_CELLS_PER_ROW
    requires forall e, c :: e in Changed(db.evidence, evidence) ==>
      !TouchesFarEdge(box(e), Widen(TileBox(g.proj, c), LayerBuffer(e)))
    requires RequestsNoted(g, Changed(db.evidence, evidence), box, requests)
    ensures RequestsItsCells(g, db, Edit(db.live, evidence, requests, nextRid))
  {
    hide SoundData, TileBox, ReachSize, InReach, CellTotal, ProperBox, TouchesFarEdge, Monotone;
    forall key: Key | key.source in ALL_SOURCES && Moved(g, db, db.(live := db.live, evidence := evidence), key)
      ensures Queued(requests, key)
    {
      var e := MovedByWhom(g, db.live, db.evidence, evidence, key);
      var row :| row in db.live && row.source == key.source && Settles(g, e, row);
      assert HasEnvelope(g, e, box(e));
      assert key.source in LayerSources(e);
      ReadMeansMeet(g, e, box(e), key);
      ReachExactly(g, box(e), LayerBuffer(e), key.cell);
      assert Noted(g, box(e), LayerBuffer(e), key.cell);
      assert key == Key(key.source, key.cell);
    }
  }

  lemma ReadMeansMeet(g: Geometry, e: Evidence, box: Bounds, key: Key)
    requires HasEnvelope(g, e, box) && key.source in LayerSources(e) && ReadIn(g, e, Some(ReadArea(g, key)))
    ensures Meet(box, Widen(TileBox(g.proj, key.cell), LayerBuffer(e)))
  {
    hide TileBox;
  }

  /** The proviso is needed: a building that reaches a cell only along the cell's eastern side can
      settle a row of the cell, and adding it requests nothing for the cell. */
  lemma AnEditCanGoUnrequested(g: Geometry, row: Row, e: Evidence, box: Bounds, key: Key)
    requires Monotone(g.proj) && ProperBox(box, 0.0) && e.OsmBuilding? && HasEnvelope(g, e, box)
    requires InCell(g, row, key) && Comparable(row) && key.source == EGIB
    requires g.covers(e, row) && g.intersects(e, TileBox(g.proj, key.cell))
    requires box.minLon == TileLon(key.cell.x + 1)
    ensures var db := Db([row], {}, [Tagged(g, row)], [Entry(EGIB, Some(key.cell), 1)], {}, [], 0);
            Fresh(g, db, key) && Moved(g, db, db.(evidence := {e}), key) && !Noted(g, box, LayerBuffer(e), key.cell)
  {
    var db := Db([row], {}, [Tagged(g, row)], [Entry(EGIB, Some(key.cell), 1)], {}, [], 0);
    ReachExactly(g, box, 0.0, key.cell);
    assert !Settled(g, {}, row, Some(ReadArea(g, key)));
    assert CellRows(g, [row], {}, key) == [Tagged(g, row)] + CellRows(g, [], {}, key) == [Tagged(g, row)];
    assert Settled(g, {e}, row, Some(ReadArea(g, key))) by {
      assert e in {e} && ReadIn(g, e, Some(ReadArea(g, key))) && Settles(g, e, row);
    }
    assert CellRows(g, [row], {e}, key) == [] + CellRows(g, [], {e}, key) == [];
    assert CellTotal(g, [row], key) == 1 + CellTotal(g, [], key) == 1;
    assert Slice(db.unmatched, key) == [Tagged(g, row)] + Slice([], key) == [Tagged(g, row)];
    assert Slice(db.totals, key) == db.totals + Slice([], key) == db.totals;
    assert |multiset([Tagged(g, row)])| == 1;
  }

  // ---- the refresh of a government dataset ----

  lemma {:induction false} TotalIsUnfiltered(g: Geometry, live: seq<Row>, key: Key)
    ensures CellTotal(g, live, key) == |CellRows(g, live, {}, key)|
  {
    if live != [] {
      TotalIsUnfiltered(g, live[1..], key);
      assert !Settled(g, {}, live[0], Some(ReadArea(g, key)));
    }
  }

  lemma SameCountsSameRows(g: Geometry, a: seq<Row>, b: seq<Row>, evidence: set<Evidence>, key: Key)
    requires forall row :: InCell(g, row, key) ==> multiset(a)[row] == multiset(b)[row]
    ensures multiset(CellRows(g, a, evidence, key)) == multiset(CellRows(g, b, evidence, key))
  {
    hide CellRows, InCell, Settled;
    forall e: Entry<Row>
      ensures multiset(CellRows(g, a, evidence, key))[e] == multiset(CellRows(g, b, evidence, key))[e]
    {
      CellRowsCount(g, a, evidence, key, e);
      CellRowsCount(g, b, evidence, key, e);
    }
  }

  /** A refresh that requests the cell of every row that came, went or changed - for a moved object
      both the cell it left and the one it entered - requests every cell it moves. */
  lemma RefreshRequestsItsCells(g: Geometry, db: Db, live: seq<Row>, requests: set<QueueRow>, nextRid: nat)
    requires SoundData(live) && db.nextRid <= nextRid
    requires forall r :: r in requests ==> db.nextRid <= r.rid < nextRid
    requires forall row: Row :: multiset(db.live)[row] != multiset(live)[row] && row.point.Some? ==>
      Queued(requests, Key(row.source, CellOf(g.proj, row.point.value)))
    ensures RequestsItsCells(g, db, Edit(live, db.evidence, requests, nextRid))
  {
    hide SoundData, CellRows, CellTotal, Queued;
    forall key: Key | key.source in ALL_SOURCES && Moved(g, db, db.(live := live, evidence := db.evidence), key)
      ensures Queued(requests, key)
    {
      if forall row :: InCell(g, row, key) ==> multiset(db.live)[row] == multiset(live)[row] {
        SameCountsSameRows(g, db.live, live, db.evidence, key);
        SameCountsSameRows(g, db.live, live, {}, key);
        TotalIsUnfiltered(g, db.live, key);
        TotalIsUnfiltered(g, live, key);
        BagSize(CellRows(g, db.live, {}, key));
        BagSize(CellRows(g, live, {}, key));
        assert false;
      }
      var row :| InCell(g, row, key) && multiset(db.live)[row] != multiset(live)[row];
      assert key == Key(row.source, CellOf(g.proj, row.point.value));
    }
  }
}
