/** Which government object is unmatched against OSM (src/compare/rule.rs). */
module MatchRule {
  import opened Basics
  import opened TileMath

  /** A row of a live source table. `extent` is the envelope of its geometry and `point` its
      representative point: the stored centroid of a building, the point of an address. The name
      columns are already normalized, with the empty string read as NULL. */
  datatype Row = Row(
    source: string,
    id: int,
    point: Option<Point>,
    extent: Option<Bounds>,
    standing: bool,
    number: Option<string>,
    street: Option<string>,
    place: Option<string>)

  /** Whatever can settle a government row: the two OSM building tables, the OSM addresses, and
      the active user reports. */
  datatype Evidence =
    | OsmBuilding(ref: int)
    | FormerBuilding(ref: int)
    | OsmAddress(ref: int, at: Point, number: Option<string>, street: Option<string>, city: Option<string>)
    | Report(source: string, id: int)

  /** What the model leaves abstract: the map projection, intersection of a geometry with a box,
      coverage of a footprint by at least the required fraction, and distance on the sphere. */
  datatype Geometry = Geometry(
    proj: Projection,
    intersects: (Evidence, Bounds) -> bool,
    covers: (Evidence, Row) -> bool,
    distance: (Point, Point) -> real)

  const MATCH_DISTANCE_METERS: real := 50.0
  const NAME_MATCH_DISTANCE_METERS: real := 150.0
  const OSM_MATCH_BUFFER_DEG: real := 0.003

  const BDOT10K := "bdot10k"
  const EGIB := "egib"
  const PRG := "prg"
  const ALL_SOURCES: set<string> := {BDOT10K, EGIB, PRG}

  /** One cell of one source: what the dirty queue names and what a recompute rebuilds. */
  datatype Key = Key(source: string, cell: Cell)

  /** SQL equality: never true of NULL. */
  predicate SqlEqual<T(==)>(a: Option<T>, b: Option<T>) {
    a.Some? && b.Some? && a.value == b.value
  }

  predicate NamesAgree(o: Evidence, row: Row)
    requires o.OsmAddress?
  {
    SqlEqual(row.street, o.street) || (row.street.None? && o.street.None? && SqlEqual(row.place, o.city))
  }

  /** The distance half of the address rule; the house numbers are compared separately because the
      full compare joins on them. */
  predicate NearEnough(g: Geometry, o: Evidence, row: Row)
    requires o.OsmAddress?
  {
    row.point.Some? &&
    (g.distance(o.at, row.point.value) <= MATCH_DISTANCE_METERS ||
     (g.distance(o.at, row.point.value) <= NAME_MATCH_DISTANCE_METERS && NamesAgree(o, row)))
  }

  predicate Settles(g: Geometry, e: Evidence, row: Row) {
    match e
    case OsmBuilding(_) => row.source != PRG && g.covers(e, row)
    case FormerBuilding(_) => row.source != PRG && g.covers(e, row)
    case OsmAddress(_, _, number, _, _) => row.source == PRG && SqlEqual(number, row.number) && NearEnough(g, e, row)
    case Report(source, id) => row.source == source && row.id == id
  }

  /** Is `e` read at all when the OSM read is limited to `area`? A report carries no geometry, and
      no area means an unlimited read. */
  predicate ReadIn(g: Geometry, e: Evidence, area: Option<Bounds>) {
    match e
    case Report(_, _) => true
    case OsmAddress(_, at, _, _, _) => area.Some? ==> Inside(at, area.value)
    case _ => area.Some? ==> g.intersects(e, area.value)
  }

  predicate Settled(g: Geometry, evidence: set<Evidence>, row: Row, area: Option<Bounds>) {
    exists e :: e in evidence && ReadIn(g, e, area) && Settles(g, e, row)
  }

  /** Only BDOT10k carries a state column; a row that is not standing is not compared at all. */
  predicate Comparable(row: Row) {
    row.source == BDOT10K ==> row.standing
  }

  /** Buildings read OSM from the cell itself, addresses from a widened box. */
  function ReadArea(g: Geometry, key: Key): Bounds {
    var box := TileBox(g.proj, key.cell);
    if key.source == PRG then Widen(box, OSM_MATCH_BUFFER_DEG) else box
  }

  // ---- the rule, case by case ----

  /** The three bands of the address rule. Up to 50 m an equal house number is enough; up to 150 m the streets
      have to agree too, or the places of two addresses without a street; beyond, or without a point, nothing
      matches. */
  lemma AddressBands(g: Geometry, o: Evidence, row: Row)
    requires o.OsmAddress? && row.source == "prg"
    ensures row.point.None? ==> !Settles(g, o, row)
    ensures row.point.Some? ==>
      var d := g.distance(o.at, row.point.value);
      && (d <= 50.0 ==> (Settles(g, o, row) <==> row.number.Some? && o.number == row.number))
      && (50.0 < d <= 150.0 ==>
            (Settles(g, o, row) <==>
               && row.number.Some? && o.number == row.number && o.street == row.street
               && (row.street.None? ==> row.place.Some? && o.city == row.place)))
      && (d > 150.0 ==> !Settles(g, o, row))
  {
  }

  /** Who settles what: OSM addresses and addresses, buildings and buildings, a report its own object. */
  lemma WhoSettles(g: Geometry, e: Evidence, row: Row)
    ensures e.OsmAddress? && row.source != "prg" ==> !Settles(g, e, row)
    ensures e.OsmBuilding? || e.FormerBuilding? ==> (Settles(g, e, row) <==> row.source != "prg" && g.covers(e, row))
    ensures e.Report? ==> (Settles(g, e, row) <==> e.source == row.source && e.id == row.id)
  {
  }

  /** What is read for a cell: reports always, buildings that meet the cell's box, addresses inside the box
      widened by 0.003 degrees. */
  lemma ReadForCell(g: Geometry, e: Evidence, cell: Cell, source: string)
    ensures var box := TileBox(g.proj, cell);
            var read := ReadIn(g, e, Some(ReadArea(g, Key(source, cell))));
            && (e.Report? ==> read)
            && ((e.OsmBuilding? || e.FormerBuilding?) && source != "prg" ==> read == g.intersects(e, box))
            && (e.OsmAddress? && source == "prg" ==>
                  (read <==> && box.minLon - 0.003 <= e.at.lon <= box.maxLon + 0.003
                             && box.minLat - 0.003 <= e.at.lat <= box.maxLat + 0.003))
    ensures ReadIn(g, e, None)
  {
  }

  /** Which rows count at all: of BDOT10k those standing, of the other sources all. */
  lemma WhatCounts(row: Row)
    ensures row.source == "bdot10k" && !row.standing ==> !Comparable(row)
    ensures row.source in {"egib", "prg"} || row.standing ==> Comparable(row)
  {
  }
}
