/** What draining the dirty queue means, one cell at a time (src/compare/drain.rs). */
module DrainSpec {
  import opened Basics
  import opened TileMath
  import opened MatchRule
  import opened Tables
  import opened Recompute

  /** Recompute one cell and delete the queue rows that asked for it under the cutoff. */
  function DrainOne(g: Geometry, db: Db, key: Key, cutoff: int): Db {
    RecomputeCell(g, db, key).(queue := Unserved(db.queue, key, cutoff))
  }

  function Unserved(queue: set<QueueRow>, key: Key, cutoff: int): set<QueueRow> {
    set r | r in queue && !(r.key == key && r.at <= cutoff)
  }

  /** The reference: each cell in a transaction of its own, with its tile enqueue. A failing cell
      leaves no trace. */
  function OneAtATime(g: Geometry, db: Db, cells: seq<Key>, cutoff: int, fails: Key -> bool): Db {
    if cells == [] then db
    else
      var last := cells[|cells| - 1];
      var before := OneAtATime(g, db, cells[..|cells| - 1], cutoff, fails);
      if fails(last) then before
      else DrainOne(g, before, last, cutoff).(tiles := before.tiles + [last.cell])
  }

  function Healthy(cells: seq<Key>, fails: Key -> bool): nat {
    if cells == [] then 0
    else Healthy(cells[..|cells| - 1], fails) + if fails(cells[|cells| - 1]) then 0 else 1
  }

  /** The recompute half of a group: every cell, no tile enqueue yet. */
  function DrainCells(g: Geometry, db: Db, cells: seq<Key>, cutoff: int): Db {
    if cells == [] then db
    else DrainOne(g, DrainCells(g, db, cells[..|cells| - 1], cutoff), cells[|cells| - 1], cutoff)
  }

  function TileCells(cells: seq<Key>): seq<Cell> {
    if cells == [] then [] else TileCells(cells[..|cells| - 1]) + [cells[|cells| - 1].cell]
  }

  /** SELECT DISTINCT over the drained cells: two sources may share a cell. */
  function Distinct(cells: seq<Cell>): seq<Cell> {
    if cells == [] then []
    else
      var before := Distinct(cells[..|cells| - 1]);
      var last := cells[|cells| - 1];
      if last in before then before else before + [last]
  }

  /** Equal databases, except that the tile queue may list its cells in another order or more than
      once. */
  ghost predicate SameButTiles(a: Db, b: Db) {
    && a.(tiles := b.tiles) == b
    && forall c :: c in a.tiles <==> c in b.tiles
  }

  lemma DrainCellsStep(g: Geometry, db: Db, cells: seq<Key>, key: Key, cutoff: int)
    ensures DrainCells(g, db, [], cutoff) == db
    ensures DrainCells(g, db, cells + [key], cutoff) == DrainOne(g, DrainCells(g, db, cells, cutoff), key, cutoff)
  {
    assert (cells + [key])[..|cells|] == cells;
  }

  lemma OneAtATimeStep(g: Geometry, db: Db, cells: seq<Key>, key: Key, cutoff: int, fails: Key -> bool)
    ensures OneAtATime(g, db, [], cutoff, fails) == db && Healthy([], fails) == 0
    ensures OneAtATime(g, db, cells + [key], cutoff, fails)
            == var before := OneAtATime(g, db, cells, cutoff, fails);
               if fails(key) then before
               else DrainOne(g, before, key, cutoff).(tiles := before.tiles + [key.cell])
    ensures Healthy(cells + [key], fails) == Healthy(cells, fails) + if fails(key) then 0 else 1
  {
    assert (cells + [key])[..|cells|] == cells;
  }

  lemma {:induction false} DistinctKeepsSet(cells: seq<Cell>)
    ensures forall c :: c in Distinct(cells) <==> c in cells
    ensures forall i, j :: 0 <= i < j < |Distinct(cells)| ==> Distinct(cells)[i] != Distinct(cells)[j]
  {
    if cells != [] {
      assert cells == cells[..|cells| - 1] + [cells[|cells| - 1]];
      DistinctKeepsSet(cells[..|cells| - 1]);
    }
  }

  lemma {:induction false} OneAtATimeAppend(g: Geometry, db: Db, a: seq<Key>, b: seq<Key>, cutoff: int,
                                            fails: Key -> bool)
    ensures OneAtATime(g, db, a + b, cutoff, fails)
            == OneAtATime(g, OneAtATime(g, db, a, cutoff, fails), b, cutoff, fails)
    ensures Healthy(a + b, fails) == Healthy(a, fails) + Healthy(b, fails)
  {
    if b == [] {
      assert a + b == a;
    } else {
      assert (a + b)[..|a + b| - 1] == a + b[..|b| - 1];
      OneAtATimeAppend(g, db, a, b[..|b| - 1], cutoff, fails);
    }
  }

  /** The drain never reads the tile queue. */
  lemma {:induction false} OneAtATimeIgnoresTiles(g: Geometry, a: Db, b: Db, cells: seq<Key>, cutoff: int,
                                                  fails: Key -> bool)
    requires SameButTiles(a, b)
    ensures SameButTiles(OneAtATime(g, a, cells, cutoff, fails), OneAtATime(g, b, cells, cutoff, fails))
  {
    if cells != [] {
      OneAtATimeIgnoresTiles(g, a, b, cells[..|cells| - 1], cutoff, fails);
    }
  }

  lemma NextChunk(g: Geometry, start: Db, mid: Db, after: Db, a: seq<Key>, b: seq<Key>, cutoff: int, fails: Key -> bool)
    requires SameButTiles(mid, OneAtATime(g, start, a, cutoff, fails))
    requires SameButTiles(after, OneAtATime(g, mid, b, cutoff, fails))
    ensures SameButTiles(after, OneAtATime(g, start, a + b, cutoff, fails))
    ensures Healthy(a + b, fails) == Healthy(a, fails) + Healthy(b, fails)
  {
    OneAtATimeAppend(g, start, a, b, cutoff, fails);
    OneAtATimeIgnoresTiles(g, mid, OneAtATime(g, start, a, cutoff, fails), b, cutoff, fails);
  }

  lemma DrainOneIgnoresTiles(g: Geometry, db: Db, tiles: seq<Cell>, key: Key, cutoff: int)
    ensures DrainOne(g, db.(tiles := tiles), key, cutoff) == DrainOne(g, db, key, cutoff).(tiles := tiles)
    ensures DrainOne(g, db, key, cutoff).tiles == db.tiles
  {
  }

  lemma {:induction false} DrainCellsIsOneAtATime(g: Geometry, db: Db, cells: seq<Key>, cutoff: int, fails: Key -> bool)
    requires forall k :: k in cells ==> !fails(k)
    ensures OneAtATime(g, db, cells, cutoff, fails)
            == DrainCells(g, db, cells, cutoff).(tiles := db.tiles + TileCells(cells))
    ensures DrainCells(g, db, cells, cutoff).tiles == db.tiles
    ensures Healthy(cells, fails) == |cells|
  {
    hide DrainOne;
    if cells != [] {
      var before, last := cells[..|cells| - 1], cells[|cells| - 1];
      assert cells == before + [last];
      DrainCellsIsOneAtATime(g, db, before, cutoff, fails);
      OneAtATimeStep(g, db, before, last, cutoff, fails);
      DrainOneIgnoresTiles(g, DrainCells(g, db, before, cutoff), db.tiles + TileCells(before), last, cutoff);
      assert db.tiles + TileCells(cells) == db.tiles + TileCells(before) + [last.cell];
    }
  }

  /** A group that meets no failure does what draining its cells one at a time does. */
  lemma GroupIsOneAtATime(g: Geometry, db: Db, cells: seq<Key>, cutoff: int, fails: Key -> bool)
    requires forall k :: k in cells ==> !fails(k)
    ensures var whole := DrainCells(g, db, cells, cutoff);
            SameButTiles(whole.(tiles := whole.tiles + Distinct(TileCells(cells))),
                         OneAtATime(g, db, cells, cutoff, fails))
    ensures Healthy(cells, fails) == |cells|
  {
    hide OneAtATime, DrainCells, Healthy;
    DistinctKeepsSet(TileCells(cells));
    DrainCellsIsOneAtATime(g, db, cells, cutoff, fails);
  }

  // ---- what a drain leaves behind ----

  /** `after` differs from `before` only in that exactly the cells of `touched` were rebuilt from
      the (unchanged) data and some of their queue rows, or rows of unknown sources, are gone. */
  ghost predicate Rebuilt(g: Geometry, before: Db, after: Db, touched: set<Key>) {
    && after.live == before.live && after.evidence == before.evidence && after.nextRid == before.nextRid
    && (forall k: Key :: Slice(after.unmatched, k)
          == if k in touched then CellRows(g, before.live, before.evidence, k) else Slice(before.unmatched, k))
    && (forall k: Key :: Slice(after.totals, k)
          == if k in touched then TotalRows(k, CellTotal(g, before.live, k)) else Slice(before.totals, k))
    && (forall e :: e in after.unmatched && e.cell.None? ==> e in before.unmatched)
    && after.queue <= before.queue
    && (forall r :: r in before.queue && r !in after.queue ==> r.key in touched || r.key.source !in ALL_SOURCES)
  }

  function Elements(cells: seq<Key>): (s: set<Key>)
    ensures forall k :: k in s <==> k in cells
  {
    set k | k in cells
  }

  function HealthyCells(cells: seq<Key>, fails: Key -> bool): set<Key> {
    set k | k in cells && !fails(k)
  }

  lemma RebuiltNothing(g: Geometry, db: Db)
    ensures Rebuilt(g, db, db, {})
  {
  }

  lemma DrainOneRebuilds(g: Geometry, before: Db, mid: Db, touched: set<Key>, key: Key, cutoff: int, tiles: seq<Cell>)
    requires Rebuilt(g, before, mid, touched)
    ensures Rebuilt(g, before, DrainOne(g, mid, key, cutoff).(tiles := tiles), touched + {key})
    ensures DrainOne(g, mid, key, cutoff).queue == Unserved(mid.queue, key, cutoff)
  {
    var after := DrainOne(g, mid, key, cutoff).(tiles := tiles);
    forall k: Key
      ensures Slice(after.unmatched, k)
          == if k in touched + {key} then CellRows(g, before.live, before.evidence, k) else Slice(before.unmatched, k)
      ensures Slice(after.totals, k)
          == if k in touched + {key} then TotalRows(k, CellTotal(g, before.live, k)) else Slice(before.totals, k)
    {
      RecomputeIsLocal(g, mid, key, k);
    }
    forall e | e in after.unmatched && e.cell.None?
      ensures e in before.unmatched
    {
      CellRowsAreTagged(g, mid.live, mid.evidence, key);
      RestIsPart(mid.unmatched, key, e);
    }
  }

  lemma {:induction false} OneAtATimeRebuilds(g: Geometry, db: Db, cells: seq<Key>, cutoff: int, fails: Key -> bool)
    ensures var after := OneAtATime(g, db, cells, cutoff, fails);
            && Rebuilt(g, db, after, HealthyCells(cells, fails))
            && after.queue == set r | r in db.queue && !(r.key in HealthyCells(cells, fails) && r.at <= cutoff)
  {
    hide DrainOne, Rebuilt;
    if cells == [] {
      RebuiltNothing(g, db);
      assert HealthyCells(cells, fails) == {};
    } else {
      var first, last := cells[..|cells| - 1], cells[|cells| - 1];
      assert cells == first + [last];
      OneAtATimeRebuilds(g, db, first, cutoff, fails);
      var before := OneAtATime(g, db, first, cutoff, fails);
      if fails(last) {
        assert HealthyCells(cells, fails) == HealthyCells(first, fails);
      } else {
        DrainOneRebuilds(g, db, before, HealthyCells(first, fails), last, cutoff, before.tiles + [last.cell]);
        assert HealthyCells(cells, fails) == HealthyCells(first, fails) + {last};
      }
    }
  }

  lemma RebuiltTwice(g: Geometry, a: Db, b: Db, c: Db, first: set<Key>, second: set<Key>)
    requires Rebuilt(g, a, b, first) && Rebuilt(g, b, c, second)
    ensures Rebuilt(g, a, c, first + second)
  {
  }

  // ---- which cells a batch takes ----

  function Eligible(queue: set<QueueRow>, cutoff: int): set<Key> {
    set r | r in queue && r.at <= cutoff && r.key.source in ALL_SOURCES :: r.key
  }

  /** The oldest request for `a` is no younger than the oldest request for `b`. */
  predicate NoYounger(queue: set<QueueRow>, a: Key, b: Key, cutoff: int) {
    forall rb :: rb in queue && rb.key == b && rb.at <= cutoff ==>
      exists ra :: ra in queue && ra.key == a && ra.at <= rb.at
  }

  /** Distinct eligible cells, oldest first, none passed over for a younger one. */
  ghost predicate OldestSoFar(queue: set<QueueRow>, cutoff: int, cells: seq<Key>) {
    && (forall i, j :: 0 <= i < j < |cells| ==> cells[i] != cells[j])
    && (forall i :: 0 <= i < |cells| ==> cells[i] in Eligible(queue, cutoff))
    && (forall i, j :: 0 <= i < j < |cells| ==> NoYounger(queue, cells[i], cells[j], cutoff))
    && (forall i, k :: 0 <= i < |cells| && k in Eligible(queue, cutoff) && k !in cells ==>
          NoYounger(queue, cells[i], k, cutoff))
  }

  /** GROUP BY key ORDER BY MIN(enqueued_at) LIMIT: as many cells as there are up to the limit. Ties
      may fall either way. */
  ghost predicate OldestFirst(queue: set<QueueRow>, cutoff: int, limit: nat, cells: seq<Key>) {
    && OldestSoFar(queue, cutoff, cells)
    && |cells| <= limit
    && (|cells| < limit ==> forall k :: k in Eligible(queue, cutoff) ==> k in cells)
  }

  /** A due request of a source the matcher knows. */
  predicate IsDue(r: QueueRow, cutoff: int) {
    r.at <= cutoff && r.key.source in {"bdot10k", "egib", "prg"}
  }

  /** The same of the requests themselves: the cells are distinct and have due requests; each has one no younger
      than any due request of a cell not taken before it; and when there is room left, no due request is
      passed over. */
  ghost predicate TakesOldest(queue: set<QueueRow>, cutoff: int, limit: nat, cells: seq<Key>) {
    && |cells| <= limit
    && (forall i, j :: 0 <= i < j < |cells| ==> cells[i] != cells[j])
    && (forall k :: k in cells ==> exists r :: r in queue && r.key == k && IsDue(r, cutoff))
    && (forall i, r :: 0 <= i < |cells| && r in queue && IsDue(r, cutoff) && r.key !in cells[..i] ==>
          exists q :: q in queue && q.key == cells[i] && q.at <= r.at)
    && (|cells| < limit ==> forall r :: r in queue && IsDue(r, cutoff) ==> r.key in cells)
  }

  lemma OldestFirstMeans(queue: set<QueueRow>, cutoff: int, limit: nat, cells: seq<Key>)
    requires OldestFirst(queue, cutoff, limit, cells)
    ensures TakesOldest(queue, cutoff, limit, cells)
  {
    hide NoYounger, Eligible, IsDue;
    forall i, r | 0 <= i < |cells| && r in queue && IsDue(r, cutoff) && r.key !in cells[..i]
      ensures exists q :: q in queue && q.key == cells[i] && q.at <= r.at
    {
      NoneOlderIsLeft(queue, cutoff, limit, cells, i, r);
    }
    forall k | k in cells
      ensures exists r :: r in queue && r.key == k && IsDue(r, cutoff)
    {
      var i :| 0 <= i < |cells| && cells[i] == k;
      DueMeansEligibleKey(queue, cutoff, cells[i]);
    }
    forall r | r in queue && IsDue(r, cutoff)
      ensures r.key in Eligible(queue, cutoff)
    {
      DueMeansEligibleKey(queue, cutoff, r.key);
    }
  }

  lemma DueMeansEligibleKey(queue: set<QueueRow>, cutoff: int, k: Key)
    ensures k in Eligible(queue, cutoff) <==> exists r :: r in queue && r.key == k && IsDue(r, cutoff)
  {
  }

  lemma NoneOlderIsLeft(queue: set<QueueRow>, cutoff: int, limit: nat, cells: seq<Key>, i: nat, r: QueueRow)
    requires OldestFirst(queue, cutoff, limit, cells) && i < |cells|
    requires r in queue && IsDue(r, cutoff) && r.key !in cells[..i]
    ensures exists q :: q in queue && q.key == cells[i] && q.at <= r.at
  {
    hide NoYounger, Eligible;
    DueMeansEligibleKey(queue, cutoff, r.key);
    if r.key in cells {
      var j :| 0 <= j < |cells| && cells[j] == r.key;
      assert j < i ==> cells[..i][j] == r.key;
    }
    if r.key == cells[i] {
      assert r in queue && r.key == cells[i] && r.at <= r.at;
    } else {
      OlderRow(queue, cells[i], r, cutoff);
    }
  }

  lemma OlderRow(queue: set<QueueRow>, a: Key, r: QueueRow, cutoff: int)
    requires NoYounger(queue, a, r.key, cutoff) && r in queue && r.at <= cutoff
    ensures exists q :: q in queue && q.key == a && q.at <= r.at
  {
  }

  /** The due rows that name no known source. */
  function UnknownDue(queue: set<QueueRow>, cutoff: int): set<QueueRow> {
    set r | r in queue && r.at <= cutoff && r.key.source !in ALL_SOURCES
  }

  function Purge(db: Db, cutoff: int): Db {
    db.(queue := set r | r in db.queue && !(r.at <= cutoff && r.key.source !in ALL_SOURCES))
  }

  /** Off the queue go the due rows of unknown sources and the due requests of the cells that were drained, and
      no others. */
  ghost predicate BatchLeaves(before: set<QueueRow>, after: set<QueueRow>, cutoff: int, cells: seq<Key>,
                              fails: Key -> bool)
  {
    after == set r | r in before && (r.at <= cutoff ==> r.key.source in {"bdot10k", "egib", "prg"}
                                                        && (r.key in cells ==> fails(r.key)))
  }

  lemma RowsLeft(g: Geometry, db: Db, cutoff: int, cells: seq<Key>, fails: Key -> bool)
    ensures BatchLeaves(db.queue, OneAtATime(g, Purge(db, cutoff), cells, cutoff, fails).queue, cutoff, cells, fails)
  {
    hide OneAtATime, Rebuilt;
    OneAtATimeRebuilds(g, Purge(db, cutoff), cells, cutoff, fails);
  }

  /** What a purge removes was not due in the first place. */
  lemma PurgeKeepsDue(db: Db, cutoff: int, limit: nat, cells: seq<Key>)
    requires TakesOldest(Purge(db, cutoff).queue, cutoff, limit, cells)
    ensures TakesOldest(db.queue, cutoff, limit, cells)
  {
    var queue := Purge(db, cutoff).queue;
    assert forall r :: r in db.queue && IsDue(r, cutoff) ==> r in queue;
  }

  lemma OldestRow(rows: set<QueueRow>) returns (oldest: QueueRow)
    requires rows != {}
    ensures oldest in rows && forall r :: r in rows ==> oldest.at <= r.at
  {
    var some :| some in rows;
    if rows == {some} {
      oldest := some;
    } else {
      var other := OldestRow(rows - {some});
      oldest := if some.at <= other.at then some else other;
      assert rows == (rows - {some}) + {some};
    }
  }

  lemma TakeNext(queue: set<QueueRow>, cutoff: int, cells: seq<Key>, key: Key)
    requires OldestSoFar(queue, cutoff, cells)
    requires key in Eligible(queue, cutoff) && key !in cells
    requires forall other :: other in Eligible(queue, cutoff) && other !in cells ==>
      NoYounger(queue, key, other, cutoff)
    ensures OldestSoFar(queue, cutoff, cells + [key])
  {
    hide NoYounger, Eligible;
    var more := cells + [key];
    forall i, j | 0 <= i < j < |more|
      ensures NoYounger(queue, more[i], more[j], cutoff)
    {
      if j < |cells| {
        assert NoYounger(queue, cells[i], cells[j], cutoff);
      } else {
        assert NoYounger(queue, cells[i], key, cutoff);
      }
    }
    forall i, k | 0 <= i < |more| && k in Eligible(queue, cutoff) && k !in more
      ensures NoYounger(queue, more[i], k, cutoff)
    {
      assert k !in cells;
      if i < |cells| {
        assert NoYounger(queue, cells[i], k, cutoff);
      }
    }
  }

  lemma OldestEligible(queue: set<QueueRow>, cutoff: int, among: set<Key>)
    requires among != {} && among <= Eligible(queue, cutoff)
    ensures exists k :: k in among && forall other :: other in among ==> NoYounger(queue, k, other, cutoff)
  {
    var rows := set r | r in queue && r.at <= cutoff && r.key in among;
    var some :| some in among;
    var row :| row in queue && row.at <= cutoff && row.key == some;
    assert row in rows;
    var oldest := OldestRow(rows);
    forall other | other in among
      ensures NoYounger(queue, oldest.key, other, cutoff)
    {
      forall rb | rb in queue && rb.key == other && rb.at <= cutoff
        ensures exists ra :: ra in queue && ra.key == oldest.key && ra.at <= rb.at
      {
        assert rb in rows;
      }
    }
  }
}
