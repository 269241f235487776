/** The full address compare (src/compare/addresses.rs): a hash join on grid keys standing in for
    the comparison of every government address with every OSM address. */
module AddressJoin {
  import opened Basics
  import opened TileMath
  import opened MatchRule
  import opened Tables
  import opened Recompute
  import opened Drain
  import BuildingGrid

  const GRID_KEY_DEG: real := 0.005

  function GridKey(v: real): int {
    (v / GRID_KEY_DEG).Floor
  }

  /** A key stands for a strip of 0.005 degrees. */
  lemma KeyOwns(v: real, k: int)
    ensures GridKey(v) == k <==> k as real * 0.005 <= v < (k + 1) as real * 0.005
  {
    assert v / GRID_KEY_DEG * GRID_KEY_DEG == v;
  }

  const OFFSETS: set<int> := {-1, 0, 1}

  /** One row of the join: the position of the government address, the offset it was expanded by,
      and the OSM address it met. */
  datatype JoinRow = JoinRow(address: nat, dx: int, dy: int, osm: Evidence)

  predicate JoinsAt(g: Geometry, row: Row, dx: int, dy: int, o: Evidence) {
    && row.source == PRG && row.point.Some? && o.OsmAddress?
    && SqlEqual(o.number, row.number)
    && GridKey(row.point.value.lon) + dx == GridKey(o.at.lon)
    && GridKey(row.point.value.lat) + dy == GridKey(o.at.lat)
    && NearEnough(g, o, row)
  }

  function JoinRows(g: Geometry, live: seq<Row>, evidence: set<Evidence>): set<JoinRow> {
    set i, dx, dy, o | 0 <= i < |live| && dx in OFFSETS && dy in OFFSETS && o in evidence
                        && JoinsAt(g, live[i], dx, dy, o)
      :: JoinRow(i, dx, dy, o)
  }

  function MatchedIds(g: Geometry, live: seq<Row>, evidence: set<Evidence>): set<int> {
    set j | j in JoinRows(g, live, evidence) && j.address < |live| :: live[j.address].id
  }

  /** The ids that some OSM address settles, by comparing all pairs. */
  function SettledIds(g: Geometry, live: seq<Row>, evidence: set<Evidence>): set<int> {
    set i, o | 0 <= i < |live| && o in evidence && o.OsmAddress? && Settles(g, o, live[i]) :: live[i].id
  }

  predicate Reported(evidence: set<Evidence>, row: Row) {
    exists e :: e in evidence && e.Report? && e.source == row.source && e.id == row.id
  }

  /** What the insert writes: the government rows, in table order, whose id the join did not match
      and no report vetoes. A row without a point is never matched and carries a NULL cell. */
  function FullRows(g: Geometry, live: seq<Row>, evidence: set<Evidence>, matched: set<int>): seq<Entry<Row>> {
    if live == [] then []
    else (if live[0].source == PRG && live[0].id !in matched && !Reported(evidence, live[0])
            then [Tagged(g, live[0])] else [])
         + FullRows(g, live[1..], evidence, matched)
  }

  function FullAddresses(g: Geometry, db: Db): Db {
    RebuildAll(g, db.(unmatched := OtherSources(db.unmatched, PRG)
      + FullRows(g, db.live, db.evidence, MatchedIds(g, db.live, db.evidence))), PRG)
  }

  function Gap(a: real, b: real): real {
    if a <= b then b - a else a - b
  }

  /** No government address and OSM address within the widest match distance are further apart than
      `deg` along either axis. */
  ghost predicate NearMeansClose(g: Geometry, live: seq<Row>, evidence: set<Evidence>, deg: real) {
    forall row, o ::
      (row in live && row.point.Some? && o in evidence && o.OsmAddress?
       && g.distance(o.at, row.point.value) <= 150.0) ==>
        Gap(o.at.lon, row.point.value.lon) <= deg && Gap(o.at.lat, row.point.value.lat) <= deg
  }

  /** Coordinates at most one key width apart have equal or neighbouring keys. */
  lemma CloseMeansNeighbours(a: real, b: real)
    requires Gap(a, b) <= 0.005
    ensures -1 <= GridKey(b) - GridKey(a) <= 1
  {
    var u, v := a / GRID_KEY_DEG, b / GRID_KEY_DEG;
    assert v - u == (b - a) / GRID_KEY_DEG;
    assert -1.0 <= v - u <= 1.0;
  }

  /** The keys of the pair are equal or adjacent along both axes. */
  predicate Neighbours(o: Evidence, p: Point)
    requires o.OsmAddress?
  {
    && -1 <= GridKey(o.at.lon) - GridKey(p.lon) <= 1
    && -1 <= GridKey(o.at.lat) - GridKey(p.lat) <= 1
  }

  /** The join meets a pair exactly when the pair matches and its grid keys are equal or adjacent;
      and it meets it under one offset only. */
  lemma JoinFindsNeighbours(g: Geometry, live: seq<Row>, evidence: set<Evidence>, i: nat, o: Evidence)
    requires i < |live| && o in evidence && o.OsmAddress?
    ensures (exists dx, dy :: JoinRow(i, dx, dy, o) in JoinRows(g, live, evidence))
            <==> Settles(g, o, live[i]) && Neighbours(o, live[i].point.value)
  {
    hide NearEnough, GridKey;
    if Settles(g, o, live[i]) {
      SettlesNeedsPoint(g, o, live[i]);
      var dx := GridKey(o.at.lon) - GridKey(live[i].point.value.lon);
      var dy := GridKey(o.at.lat) - GridKey(live[i].point.value.lat);
      if dx in OFFSETS && dy in OFFSETS {
        assert JoinsAt(g, live[i], dx, dy, o);
        assert JoinRow(i, dx, dy, o) in JoinRows(g, live, evidence);
      }
    }
  }

  lemma SettlesNeedsPoint(g: Geometry, o: Evidence, row: Row)
    requires o.OsmAddress? && Settles(g, o, row)
    ensures row.point.Some?
  {
  }

  lemma EachPairOnce(g: Geometry, live: seq<Row>, evidence: set<Evidence>, a: JoinRow, b: JoinRow)
    requires a in JoinRows(g, live, evidence) && b in JoinRows(g, live, evidence)
    requires a.address == b.address && a.osm == b.osm
    ensures a == b
  {
    hide GridKey, NearEnough;
  }

  /** When matching pairs lie within one key width of each other, the grid-key join matches exactly
      the ids that the comparison of all pairs matches. */
  lemma JoinMatchesAllPairs(g: Geometry, live: seq<Row>, evidence: set<Evidence>)
    requires NearMeansClose(g, live, evidence, 0.005)
    ensures MatchedIds(g, live, evidence) == SettledIds(g, live, evidence)
  {
    hide GridKey, SqlEqual;
    forall id | id in SettledIds(g, live, evidence)
      ensures id in MatchedIds(g, live, evidence)
    {
      var i, o :| 0 <= i < |live| && o in evidence && o.OsmAddress? && Settles(g, o, live[i]) && live[i].id == id;
      var p := live[i].point.value;
      assert g.distance(o.at, p) <= 150.0;
      assert live[i] in live;
      CloseMeansNeighbours(o.at.lon, p.lon);
      CloseMeansNeighbours(o.at.lat, p.lat);
      JoinFindsNeighbours(g, live, evidence, i, o);
      var dx, dy :| JoinRow(i, dx, dy, o) in JoinRows(g, live, evidence);
      var j := JoinRow(i, dx, dy, o);
      assert j in JoinRows(g, live, evidence) && j.address < |live| && live[j.address].id == id;
    }
    forall id | id in MatchedIds(g, live, evidence)
      ensures id in SettledIds(g, live, evidence)
    {
      var j :| j in JoinRows(g, live, evidence) && j.address < |live| && live[j.address].id == id;
      assert JoinRow(j.address, j.dx, j.dy, j.osm) in JoinRows(g, live, evidence);
      JoinFindsNeighbours(g, live, evidence, j.address, j.osm);
    }
  }

  /** The other way round: the join never finds a match whose keys are further apart, so an id that
      matches by such a pair alone is reported unmatched. */
  lemma DistantPairIsMissed(g: Geometry, live: seq<Row>, evidence: set<Evidence>, i: nat, o: Evidence)
    requires i < |live| && o in evidence && o.OsmAddress? && Settles(g, o, live[i])
    requires !Neighbours(o, live[i].point.value)
    requires forall k, e ::
      (0 <= k < |live| && e in evidence && e.OsmAddress? && Settles(g, e, live[k]) && live[k].id == live[i].id) ==>
        k == i && e == o
    ensures live[i].id in SettledIds(g, live, evidence) && live[i].id !in MatchedIds(g, live, evidence)
  {
    hide GridKey, NearEnough;
    if live[i].id in MatchedIds(g, live, evidence) {
      var j :| j in JoinRows(g, live, evidence) && j.address < |live| && live[j.address].id == live[i].id;
      assert JoinRow(j.address, j.dx, j.dy, j.osm) in JoinRows(g, live, evidence);
      JoinFindsNeighbours(g, live, evidence, j.address, j.osm);
    }
  }

  // ---- the rule a full address compare applies to each row ----

  ghost predicate UniqueIds(live: seq<Row>, source: string) {
    forall i, j :: 0 <= i < j < |live| && live[i].source == source && live[j].source == source
        ==> live[i].id != live[j].id
  }

  /** With unique ids, a row's id is matched exactly when an OSM address settles the row itself, so
      the insert writes it exactly when no evidence at all settles it. */
  lemma WrittenMeansUnsettled(g: Geometry, live: seq<Row>, evidence: set<Evidence>, row: Row)
    requires NearMeansClose(g, live, evidence, 0.005) && UniqueIds(live, PRG)
    requires row in live && row.source == PRG
    ensures row.id !in MatchedIds(g, live, evidence) && !Reported(evidence, row) <==> !Settled(g, evidence, row, None)
  {
    hide NearEnough, SqlEqual;
    JoinMatchesAllPairs(g, live, evidence);
    var k :| 0 <= k < |live| && live[k] == row;
    if row.id in SettledIds(g, live, evidence) {
      var i, o :| 0 <= i < |live| && o in evidence && o.OsmAddress? && Settles(g, o, live[i]) && live[i].id == row.id;
      assert live[i].source == PRG;
      assert i == k;
      assert Settled(g, evidence, row, None);
    }
    if Reported(evidence, row) {
      var e :| e in evidence && e.Report? && e.source == row.source && e.id == row.id;
      assert Settled(g, evidence, row, None);
    }
    if Settled(g, evidence, row, None) {
      var e :| e in evidence && ReadIn(g, e, None) && Settles(g, e, row);
      if e.OsmAddress? {
        assert Settles(g, e, live[k]);
        assert row.id in SettledIds(g, live, evidence);
      } else {
        assert Reported(evidence, row);
      }
    }
  }

  /** Read wide, write narrow: the widened read of a cell holds every OSM address that can settle a
      row of the cell, so limiting the read changes no verdict. */
  lemma BufferIsWideEnough(g: Geometry, live: seq<Row>, evidence: set<Evidence>, row: Row, key: Key)
    requires NearMeansClose(g, live, evidence, 0.003)
    requires row in live && key.source == PRG && InCell(g, row, key)
    ensures Settled(g, evidence, row, Some(ReadArea(g, key))) <==> Settled(g, evidence, row, None)
  {
    hide SqlEqual, CellOf;
    if Settled(g, evidence, row, None) {
      var e :| e in evidence && ReadIn(g, e, None) && Settles(g, e, row);
      if e.OsmAddress? {
        assert g.distance(e.at, row.point.value) <= 150.0;
      }
      assert ReadIn(g, e, Some(ReadArea(g, key)));
    }
  }

  // ---- the compare ----

  /** Clear, insert and recount in one transaction; when a statement fails (`breaks`), everything is
      as it was. */
  method CompareAddresses(conn: Connection, breaks: bool) returns (ok: bool)
    requires conn.saved.None?
    modifies conn
    ensures conn.saved.None? && ok == !breaks
    ensures conn.State() == if ok then FullAddresses(conn.g, old(conn.State())) else old(conn.State())
  {
    conn.Begin();
    conn.unmatched := OtherSources(conn.unmatched, PRG);
    if breaks {
      conn.Rollback();
      return false;
    }
    var matched := MatchedIds(conn.g, conn.live, conn.evidence);
    conn.unmatched := conn.unmatched + FullRows(conn.g, conn.live, conn.evidence, matched);
    BuildingGrid.RebuildTotals(conn, PRG);
    conn.Commit();
    ok := true;
  }
}
