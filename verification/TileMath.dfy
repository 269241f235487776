/** Change cells: the zoom-14 tile that owns a point, and the closed envelope of a tile.

    The trigonometry of the Web-Mercator formulas is kept abstract. A `Projection` is any pair of
    functions of which the first inverts the second on proper latitudes and the second falls
    strictly, which is all that ownership of a point by a cell rests on. */
module TileMath {
  datatype Point = Point(lon: real, lat: real)

  datatype Cell = Cell(x: int, y: int)

  /** An axis-aligned box, closed on all four sides. */
  datatype Bounds = Bounds(minLon: real, minLat: real, maxLon: real, maxLat: real)

  predicate Inside(p: Point, b: Bounds) {
    b.minLon <= p.lon <= b.maxLon && b.minLat <= p.lat <= b.maxLat
  }

  function Widen(b: Bounds, deg: real): Bounds {
    Bounds(b.minLon - deg, b.minLat - deg, b.maxLon + deg, b.maxLat + deg)
  }

  /** `latToY` maps a latitude to the fraction of the map's height counted from the north. */
  datatype Projection = Projection(latToY: real -> real, yToLat: real -> real)

  predicate ProperLatitude(lat: real) {
    -90.0 < lat < 90.0
  }

  ghost predicate Monotone(proj: Projection) {
    && (forall u: real, v: real :: u < v ==> proj.yToLat(v) < proj.yToLat(u))
    && (forall lat: real :: ProperLatitude(lat) ==> proj.yToLat(proj.latToY(lat)) == lat)
  }

  /** The number of tiles along each side at the change-cell zoom, 2^14. */
  const TILES: real := 16384.0

  function XFrac(lon: real): real {
    (lon + 180.0) / 360.0 * TILES
  }

  function YFrac(proj: Projection, lat: real): real {
    proj.latToY(lat) * TILES
  }

  function CellOf(proj: Projection, p: Point): Cell {
    Cell(XFrac(p.lon).Floor, YFrac(proj, p.lat).Floor)
  }

  function TileLon(x: int): real {
    x as real / TILES * 360.0 - 180.0
  }

  function TileLat(proj: Projection, y: int): real {
    proj.yToLat(y as real / TILES)
  }

  /** Cell rows are numbered southwards, so row `y + 1` is the southern edge. */
  function TileBox(proj: Projection, c: Cell): Bounds {
    Bounds(TileLon(c.x), TileLat(proj, c.y + 1), TileLon(c.x + 1), TileLat(proj, c.y))
  }

  /** Column lines: a longitude is on or past column line `x` exactly when its fraction is. */
  lemma LonAgainstLine(lon: real, x: int)
    ensures TileLon(x) <= lon <==> x as real <= XFrac(lon)
    ensures TileLon(x) < lon <==> (x as real) < XFrac(lon)
  {
    assert XFrac(lon) - x as real == (lon - TileLon(x)) / 360.0 * TILES;
  }

  /** Row lines run the other way: a latitude is on or north of row line `y` exactly when its
      fraction is at most `y`. */
  lemma LatAgainstLine(proj: Projection, lat: real, y: int)
    requires Monotone(proj) && ProperLatitude(lat)
    ensures TileLat(proj, y) <= lat <==> YFrac(proj, lat) <= y as real
    ensures TileLat(proj, y) < lat <==> YFrac(proj, lat) < y as real
  {
    var u, v := proj.latToY(lat), y as real / TILES;
    assert proj.yToLat(u) == lat;
    assert YFrac(proj, lat) - y as real == (u - v) * TILES;
    if u < v {
      assert proj.yToLat(v) < proj.yToLat(u);
    } else if v < u {
      assert proj.yToLat(u) < proj.yToLat(v);
    }
  }

  /** A point lies in the closed envelope of a cell exactly when its fractional coordinates lie in
      the cell's closed square. So the envelope test alone admits up to four cells for a point. */
  lemma InsideTileBox(proj: Projection, p: Point, c: Cell)
    requires Monotone(proj) && ProperLatitude(p.lat)
    ensures Inside(p, TileBox(proj, c)) <==>
            c.x as real <= XFrac(p.lon) <= (c.x + 1) as real && c.y as real <= YFrac(proj, p.lat) <= (c.y + 1) as real
  {
    LonAgainstLine(p.lon, c.x);
    LonAgainstLine(p.lon, c.x + 1);
    LatAgainstLine(proj, p.lat, c.y);
    LatAgainstLine(proj, p.lat, c.y + 1);
  }

  /** The tile a point maps to is one whose envelope contains the point. */
  lemma OwnerBoxContains(proj: Projection, p: Point)
    requires Monotone(proj) && ProperLatitude(p.lat)
    ensures Inside(p, TileBox(proj, CellOf(proj, p)))
  {
    InsideTileBox(proj, p, CellOf(proj, p));
  }

  /** Which points are a cell's: a column is the half-open strip of its share of the longitudes, a row that of
      its share of the map's height; so a point is of one cell, and the map has 16384 of each. */
  lemma CellOwns(proj: Projection, p: Point, c: Cell)
    ensures CellOf(proj, p).x == c.x
            <==> c.x as real * 360.0 / 16384.0 - 180.0 <= p.lon < (c.x + 1) as real * 360.0 / 16384.0 - 180.0
    ensures CellOf(proj, p).y == c.y
            <==> c.y as real / 16384.0 <= proj.latToY(p.lat) < (c.y + 1) as real / 16384.0
    ensures -180.0 <= p.lon < 180.0 <==> 0 <= CellOf(proj, p).x < 16384
    ensures 0.0 <= proj.latToY(p.lat) < 1.0 <==> 0 <= CellOf(proj, p).y < 16384
  {
    assert XFrac(p.lon) == (p.lon + 180.0) * 16384.0 / 360.0;
  }
}
