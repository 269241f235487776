/** The full building compare (src/compare/buildings.rs): a scan of a degree grid that covers the
    source table, inside one transaction. */
module BuildingGrid {
  import opened Basics
  import opened TileMath
  import opened MatchRule
  import opened Tables
  import opened Recompute
  import opened Drain

  const GRID_STEP: real := 2.0
  const MAX_GRID_MULTIPLE: real := 8.0
  const FALLBACK: Bounds := Bounds(14.0, 49.0, 25.0, 55.0)

  function Ceil(v: real): int {
    -(-v).Floor
  }

  function MaxGridCells(): real {
    MAX_GRID_MULTIPLE * Ceil((FALLBACK.maxLon - FALLBACK.minLon) / GRID_STEP) as real
                      * Ceil((FALLBACK.maxLat - FALLBACK.minLat) / GRID_STEP) as real
  }

  // ---- the extent ----

  function Union(a: Bounds, b: Bounds): Bounds {
    Bounds(Min(a.minLon, b.minLon), Min(a.minLat, b.minLat), Max(a.maxLon, b.maxLon), Max(a.maxLat, b.maxLat))
  }

  /** ST_Extent_Agg over one source; None when no row has a geometry. */
  function ExtentOf(live: seq<Row>, source: string): Option<Bounds> {
    if live == [] then None
    else
      var others := ExtentOf(live[1..], source);
      if live[0].source != source || live[0].extent.None? then others
      else if others.None? then live[0].extent
      else Some(Union(live[0].extent.value, others.value))
  }

  function SnapDown(v: real): real {
    (v / GRID_STEP).Floor as real * GRID_STEP
  }

  function Snapped(b: Bounds): Bounds {
    Bounds(SnapDown(b.minLon), SnapDown(b.minLat), SnapDown(b.maxLon) + GRID_STEP, SnapDown(b.maxLat) + GRID_STEP)
  }

  function CellCount(b: Bounds): real {
    (b.maxLon - b.minLon) / GRID_STEP * ((b.maxLat - b.minLat) / GRID_STEP)
  }

  /** None: the extent is over the cap, which means a coordinate no grid should be built around. */
  function SourceGridExtent(live: seq<Row>, source: string): Option<Bounds> {
    match ExtentOf(live, source)
    case None => Some(FALLBACK)
    case Some(b) => if CellCount(Snapped(b)) > MaxGridCells() then None else Some(Snapped(b))
  }

  /** A row with a geometry has its representative point inside the geometry's envelope; a row
      without one has no point. */
  predicate WellPlaced(row: Row) {
    if row.extent.Some? then row.point.Some? && Inside(row.point.value, row.extent.value) else row.point.None?
  }

  lemma {:induction false} ExtentCovers(live: seq<Row>, source: string, row: Row)
    requires row in live && row.source == source && row.extent.Some? && WellPlaced(row)
    ensures ExtentOf(live, source).Some? && Inside(row.point.value, ExtentOf(live, source).value)
  {
    if row != live[0] {
      ExtentCovers(live[1..], source, row);
    } else if ExtentOf(live[1..], source).None? {
    }
  }

  /** The outward-snapped extent leaves no representative point on or past its open upper edges. */
  lemma SnappedExtentCovers(live: seq<Row>, source: string, row: Row)
    requires row in live && row.source == source && row.extent.Some? && WellPlaced(row)
    ensures var grid := SourceGridExtent(live, source);
            grid.Some? ==> grid.value.minLon <= row.point.value.lon < grid.value.maxLon
                           && grid.value.minLat <= row.point.value.lat < grid.value.maxLat
  {
    ExtentCovers(live, source, row);
  }

  // ---- the extent, from the rows ----

  predicate OfSource(live: seq<Row>, source: string, row: Row) {
    row in live && row.source == source && row.extent.Some?
  }

  /** The least box around the envelopes of the source's rows: it holds them, and each side is a side of one. */
  predicate IsExtent(live: seq<Row>, source: string, b: Bounds) {
    && (forall row :: row in live && OfSource(live, source, row) ==>
          var e := row.extent.value;
          b.minLon <= e.minLon && b.minLat <= e.minLat && e.maxLon <= b.maxLon && e.maxLat <= b.maxLat)
    && (exists row :: row in live && OfSource(live, source, row) && row.extent.value.minLon == b.minLon)
    && (exists row :: row in live && OfSource(live, source, row) && row.extent.value.minLat == b.minLat)
    && (exists row :: row in live && OfSource(live, source, row) && row.extent.value.maxLon == b.maxLon)
    && (exists row :: row in live && OfSource(live, source, row) && row.extent.value.maxLat == b.maxLat)
  }

  lemma {:induction false} ExtentHolds(live: seq<Row>, source: string, row: Row)
    requires OfSource(live, source, row)
    ensures var b := ExtentOf(live, source);
            && b.Some?
            && b.value.minLon <= row.extent.value.minLon && b.value.minLat <= row.extent.value.minLat
            && row.extent.value.maxLon <= b.value.maxLon && row.extent.value.maxLat <= b.value.maxLat
  {
    if row != live[0] {
      ExtentHolds(live[1..], source, row);
    } else if ExtentOf(live[1..], source).None? {
    }
  }

  lemma {:induction false} ExtentIsAttained(live: seq<Row>, source: string)
    returns (west: Row, south: Row, east: Row, north: Row)
    requires ExtentOf(live, source).Some?
    ensures OfSource(live, source, west) && west.extent.value.minLon == ExtentOf(live, source).value.minLon
    ensures OfSource(live, source, south) && south.extent.value.minLat == ExtentOf(live, source).value.minLat
    ensures OfSource(live, source, east) && east.extent.value.maxLon == ExtentOf(live, source).value.maxLon
    ensures OfSource(live, source, north) && north.extent.value.maxLat == ExtentOf(live, source).value.maxLat
  {
    west, south, east, north := live[0], live[0], live[0], live[0];
    if ExtentOf(live[1..], source).Some? {
      var w, s, e, n := ExtentIsAttained(live[1..], source);
      if live[0].source != source || live[0].extent.None? {
        west, south, east, north := w, s, e, n;
      } else {
        var b := live[0].extent.value;
        west := if b.minLon <= w.extent.value.minLon then live[0] else w;
        south := if b.minLat <= s.extent.value.minLat then live[0] else s;
        east := if b.maxLon <= e.extent.value.maxLon then e else live[0];
        north := if b.maxLat <= n.extent.value.maxLat then n else live[0];
      }
    }
  }

  /** A source has one least box, the one computed. */
  lemma ExtentIsTheOne(live: seq<Row>, source: string, b: Bounds)
    ensures IsExtent(live, source, b) <==> ExtentOf(live, source) == Some(b)
  {
    hide ExtentOf;
    forall row | row in live && OfSource(live, source, row)
      ensures ExtentOf(live, source).Some?
      ensures var e := ExtentOf(live, source).value;
              && e.minLon <= row.extent.value.minLon && e.minLat <= row.extent.value.minLat
              && row.extent.value.maxLon <= e.maxLon && row.extent.value.maxLat <= e.maxLat
    {
      ExtentHolds(live, source, row);
    }
    if ExtentOf(live, source).Some? {
      var west, south, east, north := ExtentIsAttained(live, source);
      assert west in live && south in live && east in live && north in live;
    }
  }

  function Columns(b: Bounds): int {
    (b.maxLon / 2.0).Floor - (b.minLon / 2.0).Floor + 1
  }

  function Lines(b: Bounds): int {
    (b.maxLat / 2.0).Floor - (b.minLat / 2.0).Floor + 1
  }

  lemma SidesOfSnapped(b: Bounds)
    ensures (Snapped(b).maxLon - Snapped(b).minLon) / GRID_STEP == Columns(b) as real
    ensures (Snapped(b).maxLat - Snapped(b).minLat) / GRID_STEP == Lines(b) as real
  {
  }

  lemma SquaresOfSnapped(b: Bounds)
    ensures CellCount(Snapped(b)) == (Columns(b) * Lines(b)) as real && MaxGridCells() == 144.0
  {
    SidesOfSnapped(b);
    CapIs144();
    hide Snapped, Columns, Lines, MaxGridCells;
    RealProduct(Columns(b), Lines(b));
  }

  lemma CapIs144()
    ensures MaxGridCells() == 144.0
  {
    assert Ceil((FALLBACK.maxLon - FALLBACK.minLon) / GRID_STEP) == 6;
    assert Ceil((FALLBACK.maxLat - FALLBACK.minLat) / GRID_STEP) == 3;
  }

  lemma RealProduct(a: int, b: int)
    ensures (a * b) as real == a as real * b as real
  {
  }

  /** The grid of a source: whole squares of two degrees around the least box of its rows, and none when they
      would be more than 144; a box around Poland for a source without geometries. */
  lemma GridExactly(live: seq<Row>, source: string)
    ensures (forall row :: row in live && row.source == source ==> row.extent.None?)
            ==> SourceGridExtent(live, source) == Some(Bounds(14.0, 49.0, 25.0, 55.0))
    ensures forall b :: IsExtent(live, source, b) ==>
              SourceGridExtent(live, source)
              == if Columns(b) * Lines(b) > 144 then None
                 else Some(Bounds((b.minLon / 2.0).Floor as real * 2.0,
                                  (b.minLat / 2.0).Floor as real * 2.0,
                                  (b.maxLon / 2.0).Floor as real * 2.0 + 2.0,
                                  (b.maxLat / 2.0).Floor as real * 2.0 + 2.0))
  {
    hide ExtentOf, IsExtent, Columns, Lines, CellCount, MaxGridCells;
    if ExtentOf(live, source).Some? {
      var west, south, east, north := ExtentIsAttained(live, source);
      assert west in live && west.source == source && west.extent.Some?;
    }
    forall b | IsExtent(live, source, b)
      ensures ExtentOf(live, source) == Some(b)
      ensures CellCount(Snapped(b)) == (Columns(b) * Lines(b)) as real && MaxGridCells() == 144.0
    {
      ExtentIsTheOne(live, source, b);
      SquaresOfSnapped(b);
    }
  }

  /** The least box of the source's rows spans more than 144 squares. */
  ghost predicate NeedsTooMany(live: seq<Row>, source: string) {
    exists b :: IsExtent(live, source, b) && Columns(b) * Lines(b) > 144
  }

  lemma TooWideMeans(live: seq<Row>, source: string)
    ensures SourceGridExtent(live, source).None? <==> NeedsTooMany(live, source)
  {
    hide IsExtent, Columns, Lines;
    GridExactly(live, source);
    if ExtentOf(live, source).Some? {
      ExtentIsTheOne(live, source, ExtentOf(live, source).value);
    }
  }

  // ---- the scan, as a value ----

  function Square(x: real, y: real): Bounds {
    Bounds(x, y, x + GRID_STEP, y + GRID_STEP)
  }

  /** The rows one visit writes: unmatched against the OSM read of the closed square, restricted to
      the half-open square so that a point on a grid line belongs to one visit. */
  predicate WrittenAt(g: Geometry, evidence: set<Evidence>, row: Row, source: string, x: real, y: real) {
    && row.source == source
    && row.point.Some?
    && Inside(row.point.value, Square(x, y))
    && Comparable(row)
    && !Settled(g, evidence, row, Some(Square(x, y)))
    && x <= row.point.value.lon < x + GRID_STEP
    && y <= row.point.value.lat < y + GRID_STEP
  }

  function Visit(g: Geometry, live: seq<Row>, evidence: set<Evidence>, source: string, x: real,
                 y: real): seq<Entry<Row>>
  {
    if live == [] then []
    else (if WrittenAt(g, evidence, live[0], source, x, y) then [Tagged(g, live[0])] else [])
         + Visit(g, live[1..], evidence, source, x, y)
  }

  function ScanRow(g: Geometry, live: seq<Row>, evidence: set<Evidence>, source: string, x: real, maxX: real,
                   y: real): seq<Entry<Row>>
    decreases maxX - x
  {
    if x >= maxX then []
    else Visit(g, live, evidence, source, x, y) + ScanRow(g, live, evidence, source, x + GRID_STEP, maxX, y)
  }

  function ScanGrid(g: Geometry, live: seq<Row>, evidence: set<Evidence>, source: string, minX: real, maxX: real,
                    y: real, maxY: real): seq<Entry<Row>>
    decreases maxY - y
  {
    if y >= maxY then []
    else ScanRow(g, live, evidence, source, minX, maxX, y)
         + ScanGrid(g, live, evidence, source, minX, maxX, y + GRID_STEP, maxY)
  }

  function Scan(g: Geometry, live: seq<Row>, evidence: set<Evidence>, source: string, grid: Bounds): seq<Entry<Row>> {
    ScanGrid(g, live, evidence, source, grid.minLon, grid.maxLon, grid.minLat, grid.maxLat)
  }

  // ---- the scan, row by row ----

  /** The grid line at or below `v` on the grid that starts at `from`. */
  function LineBelow(from: real, v: real): real {
    from + ((v - from) / GRID_STEP).Floor as real * GRID_STEP
  }

  predicate Reached(from: real, to: real, v: real) {
    from <= v && LineBelow(from, v) < to
  }

  function OwnSquare(grid: Bounds, p: Point): Bounds {
    Square(LineBelow(grid.minLon, p.lon), LineBelow(grid.minLat, p.lat))
  }

  predicate UnmatchedOnGrid(g: Geometry, evidence: set<Evidence>, row: Row, source: string, grid: Bounds) {
    && row.source == source
    && row.point.Some?
    && Reached(grid.minLon, grid.maxLon, row.point.value.lon)
    && Reached(grid.minLat, grid.maxLat, row.point.value.lat)
    && Comparable(row)
    && !Settled(g, evidence, row, Some(OwnSquare(grid, row.point.value)))
  }

  /** One pass over the rows, each judged once against its own square. */
  function RowByRow(g: Geometry, live: seq<Row>, evidence: set<Evidence>, source: string,
                    grid: Bounds): seq<Entry<Row>>
  {
    if live == [] then []
    else (if UnmatchedOnGrid(g, evidence, live[0], source, grid) then [Tagged(g, live[0])] else [])
         + RowByRow(g, live[1..], evidence, source, grid)
  }

  lemma LineBelowBrackets(from: real, v: real)
    ensures LineBelow(from, v) <= v < LineBelow(from, v) + GRID_STEP
    ensures from <= v ==> from <= LineBelow(from, v)
    ensures LineBelow(from + GRID_STEP, v) == LineBelow(from, v)
    ensures from <= v < from + GRID_STEP ==> LineBelow(from, v) == from
  {
    var q := (v - from) / GRID_STEP;
    assert (v - (from + GRID_STEP)) / GRID_STEP == q - 1.0;
    assert (q - 1.0).Floor == q.Floor - 1;
    assert v - from == q * GRID_STEP;
  }

  function Once<T>(b: bool, e: T): multiset<T> {
    if b then multiset{e} else multiset{}
  }

  /** Some visit of the grid row that starts at `x` writes the row. */
  predicate WrittenInRow(g: Geometry, evidence: set<Evidence>, row: Row, source: string, x: real, maxX: real, y: real) {
    && row.point.Some?
    && Reached(x, maxX, row.point.value.lon)
    && WrittenAt(g, evidence, row, source, LineBelow(x, row.point.value.lon), y)
  }

  predicate WrittenInGrid(g: Geometry, evidence: set<Evidence>, row: Row, source: string, minX: real, maxX: real,
                          y: real, maxY: real)
  {
    && row.point.Some?
    && Reached(y, maxY, row.point.value.lat)
    && WrittenInRow(g, evidence, row, source, minX, maxX, LineBelow(y, row.point.value.lat))
  }

  /** The first visit of a grid row and the rest of it never both write a row. */
  lemma RowStep(g: Geometry, evidence: set<Evidence>, row: Row, source: string, x: real, maxX: real, y: real)
    ensures x >= maxX ==> !WrittenInRow(g, evidence, row, source, x, maxX, y)
    ensures var here := WrittenAt(g, evidence, row, source, x, y);
            var later := WrittenInRow(g, evidence, row, source, x + GRID_STEP, maxX, y);
            x < maxX ==> !(here && later) && (WrittenInRow(g, evidence, row, source, x, maxX, y) <==> here || later)
  {
    hide Settled, Comparable, LineBelow, Inside;
    if row.point.Some? {
      LineBelowBrackets(x, row.point.value.lon);
      LineBelowBrackets(x + GRID_STEP, row.point.value.lon);
    }
  }

  lemma GridStep(g: Geometry, evidence: set<Evidence>, row: Row, source: string, minX: real, maxX: real, y: real,
                 maxY: real)
    ensures y >= maxY ==> !WrittenInGrid(g, evidence, row, source, minX, maxX, y, maxY)
    ensures var here := WrittenInRow(g, evidence, row, source, minX, maxX, y);
            var later := WrittenInGrid(g, evidence, row, source, minX, maxX, y + GRID_STEP, maxY);
            var all := WrittenInGrid(g, evidence, row, source, minX, maxX, y, maxY);
            y < maxY ==> !(here && later) && (all <==> here || later)
  {
    hide Settled, Comparable, LineBelow, Inside;
    if row.point.Some? {
      LineBelowBrackets(y, row.point.value.lat);
      LineBelowBrackets(y + GRID_STEP, row.point.value.lat);
    }
  }

  /** Adding a row in front adds its entry to the scan of a grid row at most once. */
  lemma {:induction false} ScanRowSplits(g: Geometry, live: seq<Row>, evidence: set<Evidence>, source: string,
                                         x: real, maxX: real, y: real)
    requires live != []
    ensures multiset(ScanRow(g, live, evidence, source, x, maxX, y))
            == Once(WrittenInRow(g, evidence, live[0], source, x, maxX, y), Tagged(g, live[0]))
               + multiset(ScanRow(g, live[1..], evidence, source, x, maxX, y))
    decreases maxX - x
  {
    hide WrittenInRow, WrittenAt, Tagged;
    RowStep(g, evidence, live[0], source, x, maxX, y);
    if x < maxX {
      ScanRowSplits(g, live, evidence, source, x + GRID_STEP, maxX, y);
    }
  }

  lemma {:induction false} ScanGridSplits(g: Geometry, live: seq<Row>, evidence: set<Evidence>, source: string,
                                          minX: real, maxX: real, y: real, maxY: real)
    requires live != []
    ensures multiset(ScanGrid(g, live, evidence, source, minX, maxX, y, maxY))
            == Once(WrittenInGrid(g, evidence, live[0], source, minX, maxX, y, maxY), Tagged(g, live[0]))
               + multiset(ScanGrid(g, live[1..], evidence, source, minX, maxX, y, maxY))
    decreases maxY - y
  {
    hide WrittenInGrid, WrittenInRow, Tagged, ScanRow;
    GridStep(g, evidence, live[0], source, minX, maxX, y, maxY);
    if y < maxY {
      ScanRowSplits(g, live, evidence, source, minX, maxX, y);
      ScanGridSplits(g, live, evidence, source, minX, maxX, y + GRID_STEP, maxY);
    }
  }

  /** Written somewhere on the grid is exactly unmatched against the row's own square. */
  lemma WrittenMeansUnmatched(g: Geometry, evidence: set<Evidence>, row: Row, source: string, grid: Bounds)
    ensures WrittenInGrid(g, evidence, row, source, grid.minLon, grid.maxLon, grid.minLat, grid.maxLat)
            <==> UnmatchedOnGrid(g, evidence, row, source, grid)
  {
    hide Settled, Comparable, LineBelow;
    if row.point.Some? {
      LineBelowBrackets(grid.minLon, row.point.value.lon);
      LineBelowBrackets(grid.minLat, row.point.value.lat);
    }
  }

  lemma {:induction false} EmptyScan(g: Geometry, evidence: set<Evidence>, source: string, minX: real, maxX: real,
                                     x: real, y: real, maxY: real)
    ensures ScanRow(g, [], evidence, source, x, maxX, y) == []
    decreases maxX - x
  {
    if x < maxX {
      EmptyScan(g, evidence, source, minX, maxX, x + GRID_STEP, y, maxY);
    }
  }

  lemma {:induction false} EmptyGrid(g: Geometry, evidence: set<Evidence>, source: string, minX: real, maxX: real,
                                     y: real, maxY: real)
    ensures ScanGrid(g, [], evidence, source, minX, maxX, y, maxY) == []
    decreases maxY - y
  {
    if y < maxY {
      EmptyScan(g, evidence, source, minX, maxX, minX, y, maxY);
      EmptyGrid(g, evidence, source, minX, maxX, y + GRID_STEP, maxY);
    }
  }

  /** The grid writes each unmatched row exactly once: the half-open squares of the nested loops
      partition the extent, so the scan is one pass over the rows. */
  lemma {:induction false} ScanWritesEachRowOnce(g: Geometry, live: seq<Row>, evidence: set<Evidence>,
                                                 source: string, grid: Bounds)
    ensures multiset(Scan(g, live, evidence, source, grid)) == multiset(RowByRow(g, live, evidence, source, grid))
  {
    hide WrittenInGrid, UnmatchedOnGrid, Tagged, ScanGrid;
    if live == [] {
      EmptyGrid(g, evidence, source, grid.minLon, grid.maxLon, grid.minLat, grid.maxLat);
    } else {
      ScanGridSplits(g, live, evidence, source, grid.minLon, grid.maxLon, grid.minLat, grid.maxLat);
      ScanWritesEachRowOnce(g, live[1..], evidence, source, grid);
      WrittenMeansUnmatched(g, evidence, live[0], source, grid);
    }
  }

  /** Every well-placed row of the source is reached by the grid built from the table. */
  lemma GridReaches(live: seq<Row>, source: string, row: Row, grid: Bounds)
    requires row in live && row.source == source && row.point.Some? && WellPlaced(row)
    requires SourceGridExtent(live, source) == Some(grid)
    ensures Reached(grid.minLon, grid.maxLon, row.point.value.lon)
    ensures Reached(grid.minLat, grid.maxLat, row.point.value.lat)
  {
    SnappedExtentCovers(live, source, row);
    LineBelowBrackets(grid.minLon, row.point.value.lon);
    LineBelowBrackets(grid.minLat, row.point.value.lat);
  }

  // ---- the compare ----

  datatype CompareResult = Compared | TooWide | Cancelled | Failed

  function FullBuildings(g: Geometry, db: Db, source: string, grid: Bounds): Db {
    RebuildAll(g, db.(unmatched := OtherSources(db.unmatched, source)
                      + Scan(g, db.live, db.evidence, source, grid)), source)
  }

  /** How many of `from`, `from + GRID_STEP`, ... lie below `to`. */
  function Steps(from: real, to: real): nat
    decreases to - from
  {
    if from >= to then 0 else 1 + Steps(from + GRID_STEP, to)
  }

  lemma {:induction false} StepsBetweenLines(from: real, to: real, n: nat)
    requires to == from + n as real * GRID_STEP
    ensures Steps(from, to) == n
    decreases n
  {
    if n > 0 {
      StepsBetweenLines(from + GRID_STEP, to, n - 1);
    }
  }

  lemma ExtentIsOrdered(live: seq<Row>, source: string)
    requires forall row :: row in live && row.source == source && row.extent.Some? ==>
               row.extent.value.minLon <= row.extent.value.maxLon && row.extent.value.minLat <= row.extent.value.maxLat
    ensures var b := ExtentOf(live, source);
            b.Some? ==> b.value.minLon <= b.value.maxLon && b.value.minLat <= b.value.maxLat
  {
  }

  lemma SnappedSteps(lo: real, hi: real)
    requires lo <= hi
    ensures Steps(SnapDown(lo), SnapDown(hi) + GRID_STEP) as real
            == (SnapDown(hi) + GRID_STEP - SnapDown(lo)) / GRID_STEP
  {
    var i, j := (lo / GRID_STEP).Floor, (hi / GRID_STEP).Floor;
    assert lo / GRID_STEP <= hi / GRID_STEP;
    StepsBetweenLines(SnapDown(lo), SnapDown(hi) + GRID_STEP, j + 1 - i);
  }

  lemma ProductOfCounts(a: nat, b: nat)
    ensures (a * b) as real == a as real * b as real
  {
  }

  lemma FallbackSteps()
    ensures Steps(FALLBACK.minLon, FALLBACK.maxLon) == 6 && Steps(FALLBACK.minLat, FALLBACK.maxLat) == 3
  {
    assert Steps(20.0, 25.0) == 1 + Steps(22.0, 25.0) == 2 + Steps(24.0, 25.0) == 3;
    assert Steps(14.0, 25.0) == 1 + Steps(16.0, 25.0) == 2 + Steps(18.0, 25.0) == 3 + Steps(20.0, 25.0);
    assert Steps(49.0, 55.0) == 1 + Steps(51.0, 55.0) == 2 + Steps(53.0, 55.0) == 3;
  }

  /** The loops visit as many squares as the capped cell count says, so never more than the cap. */
  lemma VisitsAreCapped(live: seq<Row>, source: string, grid: Bounds)
    requires forall row :: row in live && row.source == source && row.extent.Some? ==>
               row.extent.value.minLon <= row.extent.value.maxLon && row.extent.value.minLat <= row.extent.value.maxLat
    requires SourceGridExtent(live, source) == Some(grid)
    ensures var visits := Steps(grid.minLat, grid.maxLat) * Steps(grid.minLon, grid.maxLon);
            && visits as real <= MaxGridCells() == 144.0
            && (ExtentOf(live, source).Some? ==> visits as real == CellCount(grid))
  {
    hide Steps, SnapDown;
    ProductOfCounts(Steps(grid.minLat, grid.maxLat), Steps(grid.minLon, grid.maxLon));
    if ExtentOf(live, source).Some? {
      ExtentIsOrdered(live, source);
      var b := ExtentOf(live, source).value;
      SnappedSteps(b.minLon, b.maxLon);
      SnappedSteps(b.minLat, b.maxLat);
    } else {
      FallbackSteps();
    }
  }

  /** The `i`-th line of a grid that starts at `from`. */
  function LineOf(from: real, i: nat): real {
    from + i as real * 2.0
  }

  /** Column `i` of line `k` of the grid is visited. */
  predicate IsVisited(grid: Bounds, i: nat, k: nat) {
    LineOf(grid.minLon, i) < grid.maxLon && LineOf(grid.minLat, k) < grid.maxLat
  }

  predicate Breaks(breaks: (real, real) -> bool, grid: Bounds, i: nat, k: nat) {
    breaks(LineOf(grid.minLon, i), LineOf(grid.minLat, k))
  }

  /** No square that is visited breaks. */
  ghost predicate NoneBreaks(breaks: (real, real) -> bool, grid: Bounds) {
    forall i: nat, k: nat :: IsVisited(grid, i, k) ==> !Breaks(breaks, grid, i, k)
  }

  /** No square visited before column `i` of line `k` broke. */
  ghost predicate SoundUpTo(breaks: (real, real) -> bool, grid: Bounds, i: nat, k: nat) {
    forall j: nat, l: nat :: IsVisited(grid, j, l) && (l < k || (l == k && j < i)) ==> !Breaks(breaks, grid, j, l)
  }

  /** Where the loops stand: about to visit column `i` of line `k`, at (x, y). No square visited before it broke
      and no poll so far, one for each of them, read a stop. */
  ghost predicate Standing(breaks: (real, real) -> bool, cancelled: nat -> bool, grid: Bounds, i: nat, k: nat, x: real,
                           y: real, from: nat, polls: nat, visits: nat)
  {
    && x == LineOf(grid.minLon, i) && y == LineOf(grid.minLat, k) && SoundUpTo(breaks, grid, i, k)
    && polls == from + visits && NoneSeen(cancelled, from, polls)
  }

  lemma StandsAtStart(breaks: (real, real) -> bool, cancelled: nat -> bool, grid: Bounds, from: nat)
    ensures Standing(breaks, cancelled, grid, 0, 0, grid.minLon, grid.minLat, from, from, 0)
  {
  }

  lemma SquareBreaks(breaks: (real, real) -> bool, cancelled: nat -> bool, grid: Bounds, i: nat, k: nat, x: real,
                     y: real, from: nat, polls: nat, visits: nat)
    requires Standing(breaks, cancelled, grid, i, k, x, y, from, polls, visits)
    requires x < grid.maxLon && y < grid.maxLat && breaks(x, y)
    ensures !NoneBreaks(breaks, grid)
  {
    assert IsVisited(grid, i, k) && Breaks(breaks, grid, i, k);
  }

  lemma NextSquare(breaks: (real, real) -> bool, cancelled: nat -> bool, grid: Bounds, i: nat, k: nat, x: real,
                   y: real, from: nat, polls: nat, visits: nat)
    requires Standing(breaks, cancelled, grid, i, k, x, y, from, polls, visits)
    requires !breaks(x, y) && !cancelled(polls)
    ensures Standing(breaks, cancelled, grid, i + 1, k, x + GRID_STEP, y, from, polls + 1, visits + 1)
  {
  }

  lemma NextLine(breaks: (real, real) -> bool, cancelled: nat -> bool, grid: Bounds, i: nat, k: nat, x: real,
                 y: real, from: nat, polls: nat, visits: nat)
    requires Standing(breaks, cancelled, grid, i, k, x, y, from, polls, visits) && x >= grid.maxLon
    ensures Standing(breaks, cancelled, grid, 0, k + 1, grid.minLon, y + GRID_STEP, from, polls, visits)
  {
    hide Breaks;
  }

  lemma AfterLastLine(breaks: (real, real) -> bool, cancelled: nat -> bool, grid: Bounds, k: nat, x: real, y: real,
                      from: nat, polls: nat, visits: nat)
    requires Standing(breaks, cancelled, grid, 0, k, x, y, from, polls, visits) && y >= grid.maxLat
    ensures NoneBreaks(breaks, grid)
    ensures polls == from + visits && NoneSeen(cancelled, from, polls)
  {
    hide Breaks;
  }

  method ReadExtent(conn: Connection, source: string) returns (extent: Option<Bounds>)
    ensures extent == SourceGridExtent(conn.live, source)
    ensures extent.None? <==> NeedsTooMany(conn.live, source)
  {
    hide NeedsTooMany;
    TooWideMeans(conn.live, source);
    extent := SourceGridExtent(conn.live, source);
  }

  /** The squares of one line, from the west: up to the end, a stop or a square that breaks. */
  method CompareLine(conn: Connection, source: string, breaks: (real, real) -> bool, grid: Bounds, y: real,
                     ghost k: nat, ghost from: nat, ghost before: nat, ghost all: seq<Entry<Row>>)
    returns (result: CompareResult, ghost visits: nat)
    requires y < grid.maxLat
    requires BeforeLine(conn.g, conn.live, conn.evidence, source, grid, y, conn.unmatched, before, all)
    requires Standing(breaks, conn.cancelled, grid, 0, k, grid.minLon, y, from, conn.polls, before)
    modifies conn`unmatched, conn`polls
    ensures result in {Compared, Cancelled, Failed}
    ensures result == Compared ==>
      && BeforeLine(conn.g, conn.live, conn.evidence, source, grid, y + GRID_STEP, conn.unmatched, visits, all)
      && Standing(breaks, conn.cancelled, grid, 0, k + 1, grid.minLon, y + GRID_STEP, from, conn.polls, visits)
    ensures result == Cancelled ==> conn.Stopped()
    ensures result == Failed ==> !NoneBreaks(breaks, grid)
  {
    hide Visit, BeforeLine, OnLine, Standing, NoneBreaks;
    visits := before;
    EnterLine(conn.g, conn.live, conn.evidence, source, grid, y, conn.unmatched, visits, all);
    var x := grid.minLon;
    ghost var i: nat := 0;
    while x < grid.maxLon
      invariant OnLine(conn.g, conn.live, conn.evidence, source, grid, x, y, conn.unmatched, visits, all)
      invariant Standing(breaks, conn.cancelled, grid, i, k, x, y, from, conn.polls, visits)
      decreases grid.maxLon - x
    {
      var stop := conn.IsCancelled();
      if stop {
        return Cancelled, visits;
      }
      ghost var polls := conn.polls - 1;
      if breaks(x, y) {
        SquareBreaks(breaks, conn.cancelled, grid, i, k, x, y, from, polls, visits);
        return Failed, visits;
      }
      VisitSquare(conn.g, conn.live, conn.evidence, source, grid, x, y, conn.unmatched, visits, all);
      NextSquare(breaks, conn.cancelled, grid, i, k, x, y, from, polls, visits);
      conn.unmatched := conn.unmatched + Visit(conn.g, conn.live, conn.evidence, source, x, y);
      visits := visits + 1;
      x := x + GRID_STEP;
      i := i + 1;
    }
    LeaveLine(conn.g, conn.live, conn.evidence, source, grid, x, y, conn.unmatched, visits, all);
    NextLine(breaks, conn.cancelled, grid, i, k, x, y, from, conn.polls, visits);
    return Compared, visits;
  }

  /** Clear and repopulate in one transaction. It fails exactly on an extent that needs over 144 squares or
      an error in a square it visits (`breaks`), and a stop or a failure leaves every table as it was. */
  method CompareBuildings(conn: Connection, source: string, breaks: (real, real) -> bool)
    returns (result: CompareResult, ghost visits: nat)
    requires conn.saved.None?
    modifies conn
    ensures conn.saved.None? && conn.ticks == old(conn.ticks)
    ensures result != Compared ==> conn.State() == old(conn.State())
    ensures result == TooWide <==> SourceGridExtent(old(conn.live), source).None?
    ensures result == Cancelled ==> conn.Stopped()
    ensures result == Compared ==>
      var grid := SourceGridExtent(old(conn.live), source).value;
      && conn.State() == FullBuildings(conn.g, old(conn.State()), source, grid)
      && visits == Steps(grid.minLat, grid.maxLat) * Steps(grid.minLon, grid.maxLon)
      && NoneBreaks(breaks, grid)
      && conn.polls == old(conn.polls) + visits
      && NoneSeen(conn.cancelled, old(conn.polls), conn.polls)
    ensures result == Failed ==> !NoneBreaks(breaks, SourceGridExtent(old(conn.live), source).value)
    ensures result == TooWide <==> NeedsTooMany(old(conn.live), source)
  {
    hide NeedsTooMany, NoneSeen, Standing, NoneBreaks, Squares, Recounted, Mapped, Monotone;
    hide Scan, ScanGrid, ScanRow, Visit, Steps, RebuildAll, SourceGridExtent, OtherSources, BeforeLine, OnLine;
    visits := 0;
    conn.Begin();
    conn.unmatched := OtherSources(conn.unmatched, source);
    var extent := ReadExtent(conn, source);
    if extent.None? {
      conn.Rollback();
      return TooWide, visits;
    }
    var grid := extent.value;
    ghost var all := conn.unmatched + Scan(conn.g, conn.live, conn.evidence, source, grid);
    ghost var begun := conn.saved;
    BeforeTheScan(conn.g, conn.live, conn.evidence, source, grid, conn.unmatched);
    var y := grid.minLat;
    ghost var k: nat := 0;
    StandsAtStart(breaks, conn.cancelled, grid, conn.polls);
    while y < grid.maxLat
      invariant conn.saved == begun && conn.ticks == old(conn.ticks)
      invariant conn.State() == old(conn.State()).(unmatched := conn.unmatched)
      invariant BeforeLine(conn.g, conn.live, conn.evidence, source, grid, y, conn.unmatched, visits, all)
      invariant Standing(breaks, conn.cancelled, grid, 0, k, grid.minLon, y, old(conn.polls), conn.polls, visits)
      decreases grid.maxLat - y
    {
      var line;
      line, visits := CompareLine(conn, source, breaks, grid, y, k, old(conn.polls), visits, all);
      if line != Compared {
        conn.Rollback();
        return line, visits;
      }
      k := k + 1;
      y := y + GRID_STEP;
    }
    AfterTheScan(conn.g, conn.live, conn.evidence, source, grid, y, conn.unmatched, visits, all);
    AfterLastLine(breaks, conn.cancelled, grid, k, grid.minLon, y, old(conn.polls), conn.polls, visits);
    RebuildTotals(conn, source);
    conn.Commit();
    result := Compared;
  }

  /** Each cell of the source has the total that counting its rows gives, and none where it has no
      rows; the other sources' totals are as before. */
  ghost predicate Recounted(g: Geometry, live: seq<Row>, source: string, before: seq<Entry<nat>>,
                            after: seq<Entry<nat>>)
  {
    && (forall c: Cell :: Slice(after, Key(source, c)) == TotalRows(Key(source, c), CellTotal(g, live, Key(source, c))))
    && (forall key: Key :: key.source != source ==> Slice(after, key) == Slice(before, key))
  }

  lemma RebuildRecounts(g: Geometry, db: Db, source: string)
    requires Monotone(g.proj) && Mapped(db.live)
    ensures Recounted(g, db.live, source, db.totals, RebuildAll(g, db, source).totals)
  {
    hide RebuildAll, CellTotal, RecomputeCell;
    forall key: Key
      ensures Slice(RebuildAll(g, db, source).totals, key)
           == if key.source == source then TotalRows(key, CellTotal(g, db.live, key)) else Slice(db.totals, key)
    {
      RebuildAllIsRecomputeEverywhere(g, db, source, key);
      RecomputeIsLocal(g, db, key, key);
    }
  }

  method RebuildTotals(conn: Connection, source: string)
    modifies conn`totals
    ensures conn.State() == RebuildAll(conn.g, old(conn.State()), source)
    ensures Monotone(conn.g.proj) && Mapped(conn.live)
            ==> Recounted(conn.g, conn.live, source, old(conn.totals), conn.totals)
  {
    if Monotone(conn.g.proj) && Mapped(conn.live) {
      RebuildRecounts(conn.g, conn.State(), source);
    }
    conn.totals := OtherSources(conn.totals, source);
    conn.totals := conn.totals + GroupTotals(conn.g, conn.live, source);
  }

  // ---- how far the scan is ----

  function Squares(grid: Bounds): nat {
    Steps(grid.minLat, grid.maxLat) * Steps(grid.minLon, grid.maxLon)
  }

  /** What is written, and what the lines from `y` on will write, is all there is to write. */
  ghost predicate BeforeLine(g: Geometry, live: seq<Row>, evidence: set<Evidence>, source: string, grid: Bounds,
                             y: real, written: seq<Entry<Row>>, visits: nat, all: seq<Entry<Row>>)
  {
    && written + ScanGrid(g, live, evidence, source, grid.minLon, grid.maxLon, y, grid.maxLat) == all
    && visits + Steps(y, grid.maxLat) * Steps(grid.minLon, grid.maxLon) == Squares(grid)
  }

  /** The same inside a line: the squares from `x` on, and the lines that follow. */
  ghost predicate OnLine(g: Geometry, live: seq<Row>, evidence: set<Evidence>, source: string, grid: Bounds, x: real,
                         y: real, written: seq<Entry<Row>>, visits: nat, all: seq<Entry<Row>>)
  {
    && written + (ScanRow(g, live, evidence, source, x, grid.maxLon, y)
                  + ScanGrid(g, live, evidence, source, grid.minLon, grid.maxLon, y + GRID_STEP, grid.maxLat)) == all
    && visits + Steps(x, grid.maxLon) + Steps(y + GRID_STEP, grid.maxLat) * Steps(grid.minLon, grid.maxLon)
       == Squares(grid)
  }

  lemma BeforeTheScan(g: Geometry, live: seq<Row>, evidence: set<Evidence>, source: string, grid: Bounds,
                      cleared: seq<Entry<Row>>)
    ensures BeforeLine(g, live, evidence, source, grid, grid.minLat, cleared, 0,
                       cleared + Scan(g, live, evidence, source, grid))
  {
    hide ScanGrid, Steps;
  }

  lemma EnterLine(g: Geometry, live: seq<Row>, evidence: set<Evidence>, source: string, grid: Bounds, y: real,
                  written: seq<Entry<Row>>, visits: nat, all: seq<Entry<Row>>)
    requires BeforeLine(g, live, evidence, source, grid, y, written, visits, all) && y < grid.maxLat
    ensures OnLine(g, live, evidence, source, grid, grid.minLon, y, written, visits, all)
  {
    hide ScanRow;
    var (n, c) := (Steps(y + GRID_STEP, grid.maxLat), Steps(grid.minLon, grid.maxLon));
    assert Steps(y, grid.maxLat) == 1 + n;
    assert (1 + n) * c == c + n * c;
  }

  lemma VisitSquare(g: Geometry, live: seq<Row>, evidence: set<Evidence>, source: string, grid: Bounds, x: real,
                    y: real, written: seq<Entry<Row>>, visits: nat, all: seq<Entry<Row>>)
    requires OnLine(g, live, evidence, source, grid, x, y, written, visits, all) && x < grid.maxLon
    ensures OnLine(g, live, evidence, source, grid, x + GRID_STEP, y,
                   written + Visit(g, live, evidence, source, x, y), visits + 1, all)
  {
    var rest := ScanGrid(g, live, evidence, source, grid.minLon, grid.maxLon, y + GRID_STEP, grid.maxLat);
    hide ScanGrid;
    RowUnfolds(g, live, evidence, source, x, grid.maxLon, y, written, rest);
    hide ScanRow, Visit;
  }

  lemma LeaveLine(g: Geometry, live: seq<Row>, evidence: set<Evidence>, source: string, grid: Bounds, x: real, y: real,
                  written: seq<Entry<Row>>, visits: nat, all: seq<Entry<Row>>)
    requires OnLine(g, live, evidence, source, grid, x, y, written, visits, all) && x >= grid.maxLon
    ensures BeforeLine(g, live, evidence, source, grid, y + GRID_STEP, written, visits, all)
  {
    hide ScanGrid;
    var rest := ScanGrid(g, live, evidence, source, grid.minLon, grid.maxLon, y + GRID_STEP, grid.maxLat);
    assert ScanRow(g, live, evidence, source, x, grid.maxLon, y) + rest == rest;
  }

  lemma AfterTheScan(g: Geometry, live: seq<Row>, evidence: set<Evidence>, source: string, grid: Bounds, y: real,
                     written: seq<Entry<Row>>, visits: nat, all: seq<Entry<Row>>)
    requires BeforeLine(g, live, evidence, source, grid, y, written, visits, all) && y >= grid.maxLat
    ensures written == all && visits == Steps(grid.minLat, grid.maxLat) * Steps(grid.minLon, grid.maxLon)
  {
    assert Steps(y, grid.maxLat) == 0;
  }

  lemma RowUnfolds(g: Geometry, live: seq<Row>, evidence: set<Evidence>, source: string, x: real, maxX: real, y: real,
                   before: seq<Entry<Row>>, rest: seq<Entry<Row>>)
    requires x < maxX
    ensures before + (ScanRow(g, live, evidence, source, x, maxX, y) + rest)
            == before + Visit(g, live, evidence, source, x, y)
               + (ScanRow(g, live, evidence, source, x + GRID_STEP, maxX, y) + rest)
    ensures Steps(x, maxX) == 1 + Steps(x + GRID_STEP, maxX)
  {
    hide Visit;
    var here, later := Visit(g, live, evidence, source, x, y),
                       ScanRow(g, live, evidence, source, x + GRID_STEP, maxX, y);
    assert ScanRow(g, live, evidence, source, x, maxX, y) == here + later;
    hide ScanRow;
    assert before + ((here + later) + rest) == before + here + (later + rest);
  }
}
