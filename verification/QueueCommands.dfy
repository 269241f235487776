/** The `queue` commands: the reconcile sweep (src/compare/reconcile.rs) and the loop that drains
    until nothing more can be drained (src/compare/mod.rs), with what its end means. */
module QueueCommands {
  import opened Basics
  import opened TileMath
  import opened MatchRule
  import opened Tables
  import opened Recompute
  import opened DrainSpec
  import opened Drain

  // ---- progress of one batch ----

  lemma {:induction false} HealthyCount(cells: seq<Key>, fails: Key -> bool)
    requires forall i, j :: 0 <= i < j < |cells| ==> cells[i] != cells[j]
    ensures |HealthyCells(cells, fails)| == Healthy(cells, fails)
  {
    if cells != [] {
      var before, last := cells[..|cells| - 1], cells[|cells| - 1];
      assert cells == before + [last];
      HealthyCount(before, fails);
      assert forall i :: 0 <= i < |before| ==> cells[i] != cells[|cells| - 1];
      if fails(last) {
        assert HealthyCells(cells, fails) == HealthyCells(before, fails);
      } else {
        assert HealthyCells(cells, fails) == HealthyCells(before, fails) + {last};
      }
    }
  }

  /** The number of eligible cells falls by exactly the number of cells drained. */
  lemma BatchShrinksEligible(g: Geometry, db: Db, cutoff: int, limit: nat, cells: seq<Key>, n: nat, fails: Key -> bool)
    requires OldestFirst(Purge(db, cutoff).queue, cutoff, limit, cells) && n <= |cells|
    ensures var after := OneAtATime(g, Purge(db, cutoff), cells[..n], cutoff, fails);
            && Eligible(after.queue, cutoff) == Eligible(db.queue, cutoff) - HealthyCells(cells[..n], fails)
            && |Eligible(after.queue, cutoff)| == |Eligible(db.queue, cutoff)| - Healthy(cells[..n], fails)
            && HealthyCells(cells[..n], fails) <= Eligible(db.queue, cutoff)
            && after.queue <= db.queue
            && (Healthy(cells[..n], fails) > 0 ==> |after.queue| < |db.queue|)
  {
    hide OneAtATime, Healthy, OldestFirst, Eligible, HealthyCells, Rebuilt;
    var purged := Purge(db, cutoff);
    var healthy := HealthyCells(cells[..n], fails);
    OneAtATimeRebuilds(g, purged, cells[..n], cutoff, fails);
    DistinctPrefix(purged.queue, cutoff, limit, cells, n);
    HealthyCount(cells[..n], fails);
    HealthyAreEligible(purged.queue, cutoff, limit, cells, n, fails);
    RequestsServed(db, cutoff, healthy);
    SizeWithout(Eligible(db.queue, cutoff), healthy);
  }

  lemma SizeWithout<T>(a: set<T>, b: set<T>)
    requires b <= a
    ensures |a - b| == |a| - |b|
  {
    assert a == (a - b) + b;
  }

  lemma HealthyAreEligible(queue: set<QueueRow>, cutoff: int, limit: nat, cells: seq<Key>, n: nat, fails: Key -> bool)
    requires OldestFirst(queue, cutoff, limit, cells) && n <= |cells|
    ensures HealthyCells(cells[..n], fails) <= Eligible(queue, cutoff)
  {
    hide Healthy, NoYounger, Eligible;
    forall k | k in HealthyCells(cells[..n], fails)
      ensures k in Eligible(queue, cutoff)
    {
      var i :| 0 <= i < n && cells[..n][i] == k;
      assert cells[i] in Eligible(queue, cutoff);
    }
  }

  /** Serving the requests for some eligible cells takes exactly those cells off the list. */
  lemma RequestsServed(db: Db, cutoff: int, healthy: set<Key>)
    requires healthy <= Eligible(Purge(db, cutoff).queue, cutoff)
    ensures var after := set r | r in Purge(db, cutoff).queue && !(r.key in healthy && r.at <= cutoff);
            && Eligible(after, cutoff) == Eligible(db.queue, cutoff) - healthy
            && healthy <= Eligible(db.queue, cutoff)
            && (healthy != {} ==> |after| < |db.queue|)
  {
    var after := set r | r in Purge(db, cutoff).queue && !(r.key in healthy && r.at <= cutoff);
    forall k | k in Eligible(db.queue, cutoff) - healthy
      ensures k in Eligible(after, cutoff)
    {
      var r :| r in db.queue && r.at <= cutoff && r.key == k;
      assert r in after;
    }
    if healthy != {} {
      var k :| k in healthy;
      var r :| r in db.queue && r.at <= cutoff && r.key == k;
      assert r !in after;
      assert after < db.queue;
      SubsetIsSmaller(after, db.queue);
    }
  }

  lemma SubsetIsSmaller<T>(a: set<T>, b: set<T>)
    requires a < b
    ensures |a| < |b|
  {
    assert b == a + (b - a);
  }

  // ---- what it means that a batch drained nothing ----

  function HealthyEligible(queue: set<QueueRow>, cutoff: int, fails: Key -> bool): set<Key> {
    set k | k in Eligible(queue, cutoff) && !fails(k)
  }

  /** Failing cells that nothing healthy is ahead of in the queue. */
  function Blocking(queue: set<QueueRow>, cutoff: int, fails: Key -> bool): set<Key> {
    set k | k in Eligible(queue, cutoff) && fails(k)
            && forall h :: h in HealthyEligible(queue, cutoff, fails) ==> NoYounger(queue, k, h, cutoff)
  }

  /** The batch may consist of failing cells only. */
  ghost predicate MayStick(queue: set<QueueRow>, cutoff: int, limit: nat, fails: Key -> bool) {
    exists cells :: OldestFirst(queue, cutoff, limit, cells) && forall k :: k in cells ==> fails(k)
  }

  lemma NoYoungerTransitive(queue: set<QueueRow>, a: Key, b: Key, c: Key, cutoff: int)
    requires NoYounger(queue, a, b, cutoff) && NoYounger(queue, b, c, cutoff)
    ensures NoYounger(queue, a, c, cutoff)
  {
    forall rc | rc in queue && rc.key == c && rc.at <= cutoff
      ensures exists ra :: ra in queue && ra.key == a && ra.at <= rc.at
    {
      var rb :| rb in queue && rb.key == b && rb.at <= rc.at;
    }
  }

  lemma {:induction false} DistinctSize(cells: seq<Key>)
    requires forall i, j :: 0 <= i < j < |cells| ==> cells[i] != cells[j]
    ensures |Elements(cells)| == |cells|
  {
    if cells != [] {
      var before, last := cells[..|cells| - 1], cells[|cells| - 1];
      assert cells == before + [last];
      DistinctSize(before);
      assert Elements(cells) == Elements(before) + {last};
    }
  }

  /** A batch of failing cells that leaves a healthy one behind is full, and each of its cells
      blocks. */
  lemma StuckBatchIsFull(queue: set<QueueRow>, cutoff: int, limit: nat, fails: Key -> bool, cells: seq<Key>)
    requires OldestFirst(queue, cutoff, limit, cells) && forall k :: k in cells ==> fails(k)
    requires HealthyEligible(queue, cutoff, fails) != {}
    ensures |Blocking(queue, cutoff, fails)| >= limit
  {
    hide NoYounger;
    var h :| h in HealthyEligible(queue, cutoff, fails);
    assert |cells| == limit;
    DistinctSize(cells);
    forall k | k in Elements(cells)
      ensures k in Blocking(queue, cutoff, fails)
    {
      var i :| 0 <= i < |cells| && cells[i] == k;
      forall other | other in HealthyEligible(queue, cutoff, fails)
        ensures NoYounger(queue, k, other, cutoff)
      {
        assert other !in cells;
      }
    }
    SubsetSize(Elements(cells), Blocking(queue, cutoff, fails));
  }

  lemma SubsetSize<T>(a: set<T>, b: set<T>)
    requires a <= b
    ensures |a| <= |b|
  {
    assert b == a + (b - a);
  }

  /** With enough blocking cells, a batch of failing cells can be taken up to any size. */
  lemma {:induction false} TakeBlocking(queue: set<QueueRow>, cutoff: int, fails: Key -> bool, size: nat)
    returns (cells: seq<Key>)
    requires size <= |Blocking(queue, cutoff, fails)|
    ensures |cells| == size && OldestSoFar(queue, cutoff, cells)
    ensures forall k :: k in cells ==> k in Blocking(queue, cutoff, fails)
  {
    hide NoYounger;
    cells := [];
    if size > 0 {
      cells := TakeBlocking(queue, cutoff, fails, size - 1);
      DistinctSize(cells);
      var failing := set k | k in Eligible(queue, cutoff) && fails(k) && k !in cells;
      if Blocking(queue, cutoff, fails) <= Elements(cells) {
        SubsetSize(Blocking(queue, cutoff, fails), Elements(cells));
        assert false;
      }
      var b :| b in Blocking(queue, cutoff, fails) && b !in Elements(cells);
      assert b in failing;
      OldestEligible(queue, cutoff, failing);
      var key :| key in failing && forall other :: other in failing ==> NoYounger(queue, key, other, cutoff);
      forall h | h in HealthyEligible(queue, cutoff, fails)
        ensures NoYounger(queue, key, h, cutoff)
      {
        NoYoungerTransitive(queue, key, b, h, cutoff);
      }
      TakeNext(queue, cutoff, cells, key);
      cells := cells + [key];
    }
  }

  lemma {:induction false} TakeAll(queue: set<QueueRow>, cutoff: int, limit: nat) returns (cells: seq<Key>)
    ensures OldestFirst(queue, cutoff, limit, cells)
  {
    hide NoYounger;
    cells := [];
    if limit > 0 {
      cells := TakeAll(queue, cutoff, limit - 1);
      var left := set k | k in Eligible(queue, cutoff) && k !in cells;
      if left != {} && |cells| == limit - 1 {
        OldestEligible(queue, cutoff, left);
        var key :| key in left && forall other :: other in left ==> NoYounger(queue, key, other, cutoff);
        TakeNext(queue, cutoff, cells, key);
        cells := cells + [key];
      } else if left == {} {
        assert forall k :: k in Eligible(queue, cutoff) ==> k in cells by {
          assert forall k :: k in Eligible(queue, cutoff) && k !in cells ==> k in left;
        }
      }
    }
  }

  /** Exactly when a batch may drain nothing: nothing healthy is eligible, or failing cells that
      nothing healthy is ahead of fill it. So fewer failing cells than the batch size are enough to
      rule out the second, and zero drained cells do not by themselves mean that only failing cells
      are left. */
  lemma StuckExactlyWhen(queue: set<QueueRow>, cutoff: int, limit: nat, fails: Key -> bool)
    ensures MayStick(queue, cutoff, limit, fails)
            <==> HealthyEligible(queue, cutoff, fails) == {} || |Blocking(queue, cutoff, fails)| >= limit
  {
    hide NoYounger;
    if MayStick(queue, cutoff, limit, fails) && HealthyEligible(queue, cutoff, fails) != {} {
      var cells :| OldestFirst(queue, cutoff, limit, cells) && forall k :: k in cells ==> fails(k);
      StuckBatchIsFull(queue, cutoff, limit, fails, cells);
    }
    if HealthyEligible(queue, cutoff, fails) == {} {
      var cells := TakeAll(queue, cutoff, limit);
      forall k | k in cells
        ensures fails(k)
      {
        var i :| 0 <= i < |cells| && cells[i] == k;
        assert cells[i] in Eligible(queue, cutoff);
        assert !fails(k) ==> k in HealthyEligible(queue, cutoff, fails);
      }
    } else if |Blocking(queue, cutoff, fails)| >= limit {
      var cells := TakeBlocking(queue, cutoff, fails, limit);
      assert OldestFirst(queue, cutoff, limit, cells);
    }
  }

  /** A concrete queue whose single-cell batch is stuck although a healthy cell waits. */
  lemma AFailingOldestCellHidesAHealthyOne(fails: Key -> bool, bad: Key, good: Key)
    requires bad.source == EGIB && good.source == BDOT10K && fails(bad) && !fails(good)
    ensures var queue := {QueueRow(0, bad, 1), QueueRow(1, good, 2)};
            MayStick(queue, 2, 1, fails) && HealthyEligible(queue, 2, fails) == {good} && !MayStick(queue, 2, 2, fails)
  {
    var queue := {QueueRow(0, bad, 1), QueueRow(1, good, 2)};
    assert QueueRow(0, bad, 1) in queue && QueueRow(1, good, 2) in queue;
    assert Eligible(queue, 2) == {bad, good};
    assert HealthyEligible(queue, 2, fails) == {good};
    assert NoYounger(queue, bad, good, 2);
    assert Blocking(queue, 2, fails) == {bad};
    StuckExactlyWhen(queue, 2, 1, fails);
    StuckExactlyWhen(queue, 2, 2, fails);
  }

  // ---- the commands ----

  /** A batch of the loop: the tables it began on, its cutoff, the cells it selected and those it came to. */
  datatype Batch = Batch(before: Db, cutoff: int, selected: seq<Key>, cells: seq<Key>)

  /** What `Drain.Connection.DrainBatch` promises of a batch that ends in `after`. */
  ghost predicate IsBatch(g: Geometry, b: Batch, after: Db, limit: nat, fails: Key -> bool) {
    && OldestFirst(Purge(b.before, b.cutoff).queue, b.cutoff, limit, b.selected)
    && b.cells <= b.selected
    && SameButTiles(after, OneAtATime(g, Purge(b.before, b.cutoff), b.cells, b.cutoff, fails))
  }

  /** Each batch goes on from where the one before it ended, and drained something; `end` is where the last
      one got to. */
  ghost predicate Batches(g: Geometry, start: Db, batches: seq<Batch>, end: Db, limit: nat, fails: Key -> bool)
    decreases |batches|
  {
    if batches == [] then start == end
    else
      var last := batches[|batches| - 1];
      && Batches(g, start, batches[..|batches| - 1], last.before, limit, fails)
      && IsBatch(g, last, end, limit, fails)
  }

  function DrainedBy(b: Batch, fails: Key -> bool): set<Key> {
    set k | k in b.cells && !fails(k)
  }

  function FailedIn(b: Batch, fails: Key -> bool): set<Key> {
    set k | k in b.cells && fails(k)
  }

  function PurgedBy(b: Batch): set<QueueRow> {
    set r | r in b.before.queue && r.at <= b.cutoff && r.key.source !in {"bdot10k", "egib", "prg"}
  }

  /** All batches together: the cells drained, the cells that failed and the rows of unknown sources. */
  function Totals(batches: seq<Batch>, fails: Key -> bool): DrainStats
    decreases |batches|
  {
    if batches == [] then DrainStats(0, 0, 0)
    else
      var (before, last) := (Totals(batches[..|batches| - 1], fails), batches[|batches| - 1]);
      DrainStats(before.cells + |DrainedBy(last, fails)|, before.failed + |FailedIn(last, fails)|,
                 before.purged + |PurgedBy(last)|)
  }

  predicate AllDrain(batches: seq<Batch>, fails: Key -> bool) {
    forall i :: 0 <= i < |batches| ==> DrainedBy(batches[i], fails) != {}
  }

  /** What the batches of a run come to: `so` counts the cells drained, the cells that failed and the rows purged
      in all of them. Exactly the cells of `touched` are rebuilt, each of which had a request; each drained cell
      and each purged row takes at least a row off the queue; the rows of unknown sources that left are those
      purged; and no cell fails unless one can. */
  ghost predicate RunSoFar(g: Geometry, start: Db, now: Db, batches: seq<Batch>, touched: set<Key>, so: DrainStats,
                           limit: nat, fails: Key -> bool) {
    && Batches(g, start, batches, now, limit, fails) && Totals(batches, fails) == so
    && Rebuilt(g, start, now, touched) && now.queue <= start.queue
    && WereDue(start.queue, touched, fails)
    && so.cells >= |touched| && so.cells + so.purged + |now.queue| <= |start.queue|
    && so.purged == |Gone(start.queue, now.queue)|
    && (NoneFails(fails) ==> so.failed == 0)
  }

  /** Drain batch after batch until one drains nothing. Every round that goes on takes a row off the
      queue, so the loop ends. It leaves exactly the cells of `touched` rebuilt; and when it says it
      finished, then its counts are those of all its batches, of which only the last drained nothing, and a
      stop was seen, or nothing healthy is left under the last cutoff, or blocking failures fill a whole
      batch. */
  method RunQueueDrain(conn: Connection, batchSize: nat)
    returns (run: QueueRun, ghost touched: set<Key>, ghost cutoff: int, ghost batches: seq<Batch>)
    requires conn.Steady() && conn.saved.None?
    modifies conn
    ensures conn.saved.None? && conn.ticks >= old(conn.ticks) && conn.polls >= old(conn.polls)
    ensures RunSoFar(conn.g, old(conn.State()), conn.State(), batches, touched, Totals(batches, conn.fails), batchSize,
                     conn.fails)
    ensures run.Interrupted? ==> conn.Stopped() && AllDrain(batches, conn.fails)
    ensures conn.cancelled(old(conn.polls)) ==> run.Interrupted? && batches == []
    ensures run.Finished? ==>
      && DrainStats(run.drained, run.failed, run.purged) == Totals(batches, conn.fails)
      && batches != [] && AllDrain(batches[..|batches| - 1], conn.fails)
      && DrainedBy(batches[|batches| - 1], conn.fails) == {}
    ensures run.Finished? ==> conn.ticks > old(conn.ticks) && cutoff == conn.clock(conn.ticks - 1)
    ensures run.Finished? ==>
      || conn.Stopped()
      || HealthyEligible(conn.queue, cutoff, conn.fails) == {}
      || |Blocking(conn.queue, cutoff, conn.fails)| >= batchSize
  {
    hide RunSoFar, Batches, Totals, AllDrain, Rebuilt, OneAtATime, Healthy, OldestFirst, Eligible, Purge;
    hide Blocking, HealthyEligible, SameButTiles, DrainedBy, PurgedBy, Queued, WereDue, NoneFails, Gone, TakesOldest;
    hide BatchLeaves, UnknownDue, Connection.Steady;
    ghost var start := conn.State();
    var drained: nat, failed: nat, purged: nat := 0, 0, 0;
    touched, cutoff, batches := {}, 0, [];
    NoBatchYet(conn.g, start, batchSize, conn.fails);
    while true
      invariant conn.saved.None? && conn.ticks >= old(conn.ticks) && conn.polls >= old(conn.polls)
      invariant RunSoFar(conn.g, start, conn.State(), batches, touched, DrainStats(drained, failed, purged), batchSize,
                         conn.fails)
      invariant AllDrain(batches, conn.fails)
      invariant if batches == [] then conn.polls == old(conn.polls) else !conn.cancelled(old(conn.polls))
      decreases |conn.queue|
    {
      var stop := conn.IsCancelled();
      if stop {
        SoFarIsTotals(conn.g, start, conn.State(), batches, touched, DrainStats(drained, failed, purged), batchSize,
                      conn.fails);
        return Interrupted, touched, cutoff, batches;
      }
      var stats;
      ghost var b;
      stats, b := RunBatch(conn, batchSize, start, batches, touched, DrainStats(drained, failed, purged));
      cutoff := b.cutoff;
      touched := touched + DrainedBy(b, conn.fails);
      assert (batches + [b])[..|batches|] == batches;
      batches := batches + [b];
      drained := drained + stats.cells;
      failed := failed + stats.failed;
      purged := purged + stats.purged;
      if stats.cells == 0 {
        SoFarIsTotals(conn.g, start, conn.State(), batches, touched, DrainStats(drained, failed, purged), batchSize,
                      conn.fails);
        return Finished(drained, failed, purged), touched, cutoff, batches;
      }
    }
  }

  /** One round of the loop: a batch, which adds to what the run has come to. */
  method RunBatch(conn: Connection, batchSize: nat, ghost start: Db, ghost batches: seq<Batch>, ghost touched: set<Key>,
                  ghost so: DrainStats)
    returns (stats: DrainStats, ghost b: Batch)
    requires conn.Steady() && conn.saved.None?
    requires RunSoFar(conn.g, start, conn.State(), batches, touched, so, batchSize, conn.fails)
    requires AllDrain(batches, conn.fails)
    modifies conn
    ensures conn.saved.None? && conn.ticks == old(conn.ticks) + 1 && conn.polls >= old(conn.polls)
    ensures b.cutoff == conn.clock(old(conn.ticks)) && b.before == old(conn.State())
    ensures RunSoFar(conn.g, start, conn.State(), batches + [b], touched + DrainedBy(b, conn.fails),
                     DrainStats(so.cells + stats.cells, so.failed + stats.failed, so.purged + stats.purged), batchSize,
                     conn.fails)
    ensures stats.cells > 0 ==> |conn.queue| < |old(conn.queue)| && AllDrain(batches + [b], conn.fails)
    ensures stats.cells == 0 ==>
      && DrainedBy(b, conn.fails) == {}
      && (|| conn.Stopped()
          || HealthyEligible(conn.queue, b.cutoff, conn.fails) == {}
          || |Blocking(conn.queue, b.cutoff, conn.fails)| >= batchSize)
  {
    hide RunSoFar, Batches, Totals, AllDrain, Rebuilt, OneAtATime, Healthy, OldestFirst, Eligible, Purge;
    hide Blocking, HealthyEligible, SameButTiles, DrainedBy, PurgedBy, Queued, WereDue, NoneFails, Gone, TakesOldest;
    hide BatchLeaves, UnknownDue, Connection.Steady;
    ghost var before := conn.State();
    ghost var cutoff, selected, n;
    stats, cutoff, selected, n := conn.DrainBatch(batchSize);
    b := Batch(before, cutoff, selected, selected[..n]);
    PurgedMeans(b);
    OneMoreBatch(conn.g, start, b, conn.State(), batches, touched, so, stats, batchSize, conn.fails);
    if stats.cells == 0 && n == |selected| {
      NothingDrained(conn.g, before, conn.State(), cutoff, batchSize, selected, conn.fails);
    }
  }

  ghost predicate WereDue(queue: set<QueueRow>, touched: set<Key>, fails: Key -> bool) {
    forall k :: k in touched ==> !fails(k) && k.source in ALL_SOURCES && Queued(queue, k)
  }

  ghost predicate NoneFails(fails: Key -> bool) {
    forall k: Key :: !fails(k)
  }

  lemma NoBatchYet(g: Geometry, start: Db, limit: nat, fails: Key -> bool)
    ensures RunSoFar(g, start, start, [], {}, DrainStats(0, 0, 0), limit, fails) && AllDrain([], fails)
  {
    hide Rebuilt;
    RebuiltNothing(g, start);
  }

  lemma RunRebuilds(g: Geometry, start: Db, now: Db, batches: seq<Batch>, touched: set<Key>, so: DrainStats,
                    limit: nat, fails: Key -> bool)
    requires RunSoFar(g, start, now, batches, touched, so, limit, fails)
    ensures Rebuilt(g, start, now, touched)
    ensures forall k :: k in touched ==> k.source in ALL_SOURCES && Queued(start.queue, k)
  {
    hide Rebuilt, Batches, Totals, Queued, NoneFails, Gone;
  }

  lemma SoFarIsTotals(g: Geometry, start: Db, now: Db, batches: seq<Batch>, touched: set<Key>, so: DrainStats,
                      limit: nat, fails: Key -> bool)
    requires RunSoFar(g, start, now, batches, touched, so, limit, fails)
    ensures Totals(batches, fails) == so
  {
    hide Rebuilt, Batches, Totals, Queued, WereDue, NoneFails, Gone;
  }

  lemma OneMoreBatch(g: Geometry, start: Db, b: Batch, after: Db, batches: seq<Batch>, touched: set<Key>,
                     so: DrainStats, stats: DrainStats, limit: nat, fails: Key -> bool)
    requires RunSoFar(g, start, b.before, batches, touched, so, limit, fails)
    requires OldestFirst(Purge(b.before, b.cutoff).queue, b.cutoff, limit, b.selected) && b.cells <= b.selected
    requires SameButTiles(after, OneAtATime(g, Purge(b.before, b.cutoff), b.cells, b.cutoff, fails))
    requires stats.cells == Healthy(b.cells, fails) && stats.cells + stats.failed == |b.cells|
    requires stats.purged == |PurgedBy(b)|
    ensures RunSoFar(g, start, after, batches + [b], touched + DrainedBy(b, fails),
                     DrainStats(so.cells + stats.cells, so.failed + stats.failed, so.purged + stats.purged), limit,
                     fails)
    ensures stats.cells == |DrainedBy(b, fails)|
    ensures stats.cells > 0 ==> |after.queue| < |b.before.queue|
    ensures stats.cells > 0 && AllDrain(batches, fails) ==> AllDrain(batches + [b], fails)
  {
    hide OneAtATime, Healthy, OldestFirst, Rebuilt, Purge, SameButTiles, DrainedBy, FailedIn, PurgedBy, Gone, Queued;
    hide Batches, Totals, AllDrain, IsBatch, WereDue, NoneFails;
    MoreBatches(g, start, b, after, batches, limit, fails);
    BatchTouches(g, b, after, limit, fails);
    BatchCounts(g, b, after, limit, fails);
    BatchGone(g, start.queue, b, after, limit, fails);
    RebuiltTwice(g, start, b.before, after, touched, DrainedBy(b, fails));
    DueTwice(start.queue, b.before.queue, touched, DrainedBy(b, fails), fails);
  }

  lemma BatchTouches(g: Geometry, b: Batch, after: Db, limit: nat, fails: Key -> bool)
    requires IsBatch(g, b, after, limit, fails)
    ensures Rebuilt(g, b.before, after, DrainedBy(b, fails)) && WereDue(b.before.queue, DrainedBy(b, fails), fails)
    ensures after.queue <= b.before.queue
    ensures Healthy(b.cells, fails) > 0 ==> |after.queue| < |b.before.queue|
  {
    hide OneAtATime, Healthy, OldestFirst, Rebuilt, SameButTiles, DrainedBy, Queued;
    assert b.selected[..|b.cells|] == b.cells;
    BatchEffect(g, b.before, after, b.cutoff, limit, b.selected, |b.cells|, fails);
    HealthyAreDrained(b, fails);
  }

  lemma DueTwice(start: set<QueueRow>, queue: set<QueueRow>, touched: set<Key>, more: set<Key>, fails: Key -> bool)
    requires queue <= start && WereDue(start, touched, fails) && WereDue(queue, more, fails)
    ensures WereDue(start, touched + more, fails)
  {
    hide Queued;
    QueuedGrows(queue, start);
  }

  lemma MoreBatches(g: Geometry, start: Db, b: Batch, after: Db, batches: seq<Batch>, limit: nat, fails: Key -> bool)
    requires Batches(g, start, batches, b.before, limit, fails)
    requires OldestFirst(Purge(b.before, b.cutoff).queue, b.cutoff, limit, b.selected) && b.cells <= b.selected
    requires SameButTiles(after, OneAtATime(g, Purge(b.before, b.cutoff), b.cells, b.cutoff, fails))
    ensures IsBatch(g, b, after, limit, fails) && Batches(g, start, batches + [b], after, limit, fails)
    ensures var (before, so) := (Totals(batches, fails), Totals(batches + [b], fails));
            && so.cells == before.cells + |DrainedBy(b, fails)| && so.failed == before.failed + |FailedIn(b, fails)|
            && so.purged == before.purged + |PurgedBy(b)|
    ensures |DrainedBy(b, fails)| > 0 && AllDrain(batches, fails) ==> AllDrain(batches + [b], fails)
  {
    hide OneAtATime, OldestFirst, SameButTiles, DrainedBy, FailedIn, PurgedBy;
    assert (batches + [b])[..|batches|] == batches;
  }

  lemma HealthyAreDrained(b: Batch, fails: Key -> bool)
    ensures HealthyCells(b.cells, fails) == DrainedBy(b, fails)
  {
  }

  lemma QueuedGrows(a: set<QueueRow>, b: set<QueueRow>)
    requires a <= b
    ensures forall k :: Queued(a, k) ==> Queued(b, k)
  {
  }

  /** The rows of unknown sources that have left the queue. */
  function Gone(start: set<QueueRow>, queue: set<QueueRow>): set<QueueRow> {
    set r | r in start && r !in queue && r.key.source !in ALL_SOURCES
  }

  /** A batch takes exactly its purged rows of unknown sources off the queue. */
  lemma BatchGone(g: Geometry, start: set<QueueRow>, b: Batch, after: Db, limit: nat, fails: Key -> bool)
    requires IsBatch(g, b, after, limit, fails) && b.before.queue <= start
    ensures |Gone(start, after.queue)| == |Gone(start, b.before.queue)| + |PurgedBy(b)|
  {
    hide OneAtATime, OldestFirst, Rebuilt;
    BatchQueue(g, b, after, limit, fails);
    assert Gone(start, after.queue) == Gone(start, b.before.queue) + PurgedBy(b);
  }

  /** The queue after a batch: neither a due request of a cell it drained nor a due one of an unknown source
      is left, and every other row is. */
  lemma BatchQueue(g: Geometry, b: Batch, after: Db, limit: nat, fails: Key -> bool)
    requires IsBatch(g, b, after, limit, fails)
    ensures after.queue == b.before.queue - PurgedBy(b) - ServedBy(b, fails)
    ensures forall k :: k in DrainedBy(b, fails) ==> k.source in ALL_SOURCES
                                                     && exists r :: r in ServedBy(b, fails) && r.key == k
  {
    hide OneAtATime, OldestFirst, Rebuilt, Eligible;
    var purged := Purge(b.before, b.cutoff);
    OneAtATimeRebuilds(g, purged, b.cells, b.cutoff, fails);
    assert b.selected[..|b.cells|] == b.cells;
    HealthyAreEligible(purged.queue, b.cutoff, limit, b.selected, |b.cells|, fails);
    assert HealthyCells(b.cells, fails) == DrainedBy(b, fails);
    forall k | k in DrainedBy(b, fails)
      ensures k.source in ALL_SOURCES && exists r :: r in ServedBy(b, fails) && r.key == k
    {
      var r := EligibleHasARow(purged.queue, b.cutoff, k);
      assert r in ServedBy(b, fails);
    }
  }

  lemma EligibleHasARow(queue: set<QueueRow>, cutoff: int, k: Key) returns (r: QueueRow)
    requires k in Eligible(queue, cutoff)
    ensures r in queue && r.key == k && r.at <= cutoff && k.source in ALL_SOURCES
  {
    r :| r in queue && r.at <= cutoff && r.key == k;
  }

  /** The due requests of the cells a batch drained. */
  function ServedBy(b: Batch, fails: Key -> bool): set<QueueRow> {
    set r | r in b.before.queue && r.key in DrainedBy(b, fails) && r.at <= b.cutoff
  }

  /** The counts of one batch, and what they take off the queue: every drained cell at least one row of
      its own. */
  lemma BatchCounts(g: Geometry, b: Batch, after: Db, limit: nat, fails: Key -> bool)
    requires IsBatch(g, b, after, limit, fails)
    ensures |DrainedBy(b, fails)| == Healthy(b.cells, fails)
    ensures |DrainedBy(b, fails)| + |FailedIn(b, fails)| == |b.cells|
    ensures |DrainedBy(b, fails)| + |PurgedBy(b)| + |after.queue| <= |b.before.queue|
    ensures NoneFails(fails) ==> FailedIn(b, fails) == {}
  {
    NoFailure(b, fails);
    hide *;
    BatchCells(g, b, after, limit, fails);
    BatchQueue(g, b, after, limit, fails);
    BatchRows(b, after.queue, fails);
  }

  lemma NoFailure(b: Batch, fails: Key -> bool)
    ensures NoneFails(fails) ==> FailedIn(b, fails) == {}
  {
  }

  lemma PurgedMeans(b: Batch)
    ensures PurgedBy(b) == UnknownDue(b.before.queue, b.cutoff)
  {
  }

  lemma BatchCells(g: Geometry, b: Batch, after: Db, limit: nat, fails: Key -> bool)
    requires IsBatch(g, b, after, limit, fails)
    ensures |DrainedBy(b, fails)| == Healthy(b.cells, fails)
    ensures |DrainedBy(b, fails)| + |FailedIn(b, fails)| == |b.cells|
  {
    hide OneAtATime, OldestFirst, SameButTiles, Healthy;
    assert b.selected[..|b.cells|] == b.cells;
    DistinctPrefix(Purge(b.before, b.cutoff).queue, b.cutoff, limit, b.selected, |b.cells|);
    HealthyCount(b.cells, fails);
    assert HealthyCells(b.cells, fails) == DrainedBy(b, fails);
    DistinctSize(b.cells);
    assert Elements(b.cells) == DrainedBy(b, fails) + FailedIn(b, fails);
  }

  lemma BatchRows(b: Batch, queue: set<QueueRow>, fails: Key -> bool)
    requires queue == b.before.queue - PurgedBy(b) - ServedBy(b, fails)
    requires forall k :: k in DrainedBy(b, fails) ==> k.source in ALL_SOURCES
                                                      && exists r :: r in ServedBy(b, fails) && r.key == k
    ensures |DrainedBy(b, fails)| + |PurgedBy(b)| + |queue| <= |b.before.queue|
  {
    PartsOfTheQueue(b, fails);
    hide DrainedBy, ServedBy, PurgedBy;
    KeysHaveRows(ServedBy(b, fails), DrainedBy(b, fails));
    SizeWithout(b.before.queue, PurgedBy(b));
    SizeWithout(b.before.queue - PurgedBy(b), ServedBy(b, fails));
  }

  lemma PartsOfTheQueue(b: Batch, fails: Key -> bool)
    requires forall k :: k in DrainedBy(b, fails) ==> k.source in ALL_SOURCES
    ensures PurgedBy(b) <= b.before.queue && ServedBy(b, fails) <= b.before.queue - PurgedBy(b)
  {
    hide DrainedBy;
  }

  lemma {:induction false} KeysHaveRows(rows: set<QueueRow>, keys: set<Key>)
    requires forall k :: k in keys ==> exists r :: r in rows && r.key == k
    ensures |keys| <= |rows|
    decreases keys
  {
    if keys != {} {
      var k :| k in keys;
      var r :| r in rows && r.key == k;
      forall other | other in keys - {k}
        ensures exists s :: s in rows - {r} && s.key == other
      {
        var s :| s in rows && s.key == other;
        assert s in rows - {r};
      }
      KeysHaveRows(rows - {r}, keys - {k});
    }
  }

  /** What one batch does, in the terms of the loop. */
  lemma BatchEffect(g: Geometry, before: Db, after: Db, cutoff: int, limit: nat, cells: seq<Key>, n: nat,
                    fails: Key -> bool)
    requires OldestFirst(Purge(before, cutoff).queue, cutoff, limit, cells) && n <= |cells|
    requires SameButTiles(after, OneAtATime(g, Purge(before, cutoff), cells[..n], cutoff, fails))
    ensures Rebuilt(g, before, after, HealthyCells(cells[..n], fails))
    ensures forall k :: k in HealthyCells(cells[..n], fails) ==>
      !fails(k) && k.source in ALL_SOURCES && Queued(before.queue, k)
    ensures after.queue <= before.queue
    ensures |HealthyCells(cells[..n], fails)| == Healthy(cells[..n], fails)
    ensures Healthy(cells[..n], fails) > 0 ==> |after.queue| < |before.queue|
  {
    hide OneAtATime, Healthy, HealthyCells, OldestFirst, Rebuilt;
    OneAtATimeRebuilds(g, Purge(before, cutoff), cells[..n], cutoff, fails);
    RebuiltAfterPurge(g, before, cutoff, OneAtATime(g, Purge(before, cutoff), cells[..n], cutoff, fails), after,
                      HealthyCells(cells[..n], fails));
    BatchShrinksEligible(g, before, cutoff, limit, cells, n, fails);
    DistinctPrefix(Purge(before, cutoff).queue, cutoff, limit, cells, n);
    HealthyCount(cells[..n], fails);
    HealthyDoNotFail(cells[..n], fails);
  }

  lemma DistinctPrefix(queue: set<QueueRow>, cutoff: int, limit: nat, cells: seq<Key>, n: nat)
    requires OldestFirst(queue, cutoff, limit, cells) && n <= |cells|
    ensures forall i, j :: 0 <= i < j < n ==> cells[..n][i] != cells[..n][j]
  {
  }

  lemma HealthyDoNotFail(cells: seq<Key>, fails: Key -> bool)
    ensures forall k :: k in HealthyCells(cells, fails) ==> !fails(k)
  {
  }

  lemma RebuiltAfterPurge(g: Geometry, before: Db, cutoff: int, drained: Db, after: Db, touched: set<Key>)
    requires Rebuilt(g, Purge(before, cutoff), drained, touched) && SameButTiles(after, drained)
    ensures Rebuilt(g, before, after, touched)
  {
  }

  lemma NothingDrained(g: Geometry, before: Db, after: Db, cutoff: int, limit: nat, cells: seq<Key>, fails: Key -> bool)
    requires OldestFirst(Purge(before, cutoff).queue, cutoff, limit, cells)
    requires SameButTiles(after, OneAtATime(g, Purge(before, cutoff), cells[..|cells|], cutoff, fails))
    requires Healthy(cells[..|cells|], fails) == 0
    ensures HealthyEligible(after.queue, cutoff, fails) == {} || |Blocking(after.queue, cutoff, fails)| >= limit
  {
    hide NoYounger, OneAtATime;
    assert cells[..|cells|] == cells;
    HealthyCount(cells, fails);
    OneAtATimeRebuilds(g, Purge(before, cutoff), cells, cutoff, fails);
    assert HealthyCells(cells, fails) == {};
    assert after.queue == Purge(before, cutoff).queue;
    assert forall k :: k in cells && !fails(k) ==> k in HealthyCells(cells, fails);
    StuckExactlyWhen(after.queue, cutoff, limit, fails);
    assert MayStick(after.queue, cutoff, limit, fails);
  }

  // ---- the reconcile sweep ----

  datatype Sweep = SweepStopped | Swept(total: nat)

  /** The cells of one source that hold a row with a geometry. */
  function LiveKeys(g: Geometry, live: seq<Row>, source: string): set<Key> {
    set row | row in live && row.source == source && row.extent.Some? && row.point.Some?
      :: Key(source, CellOf(g.proj, row.point.value))
  }

  function AllLiveKeys(g: Geometry, live: seq<Row>): set<Key> {
    LiveKeys(g, live, BDOT10K) + LiveKeys(g, live, EGIB) + LiveKeys(g, live, PRG)
  }

  /** `after` is `before` with exactly one new queue row for each of `keys`. */
  ghost predicate Enqueued(before: Db, after: Db, keys: set<Key>) {
    && after.(queue := before.queue, nextRid := before.nextRid) == before
    && before.queue <= after.queue && before.nextRid <= after.nextRid
    && RidsBelow(after.queue, after.nextRid)
    && (forall r :: r in after.queue - before.queue ==> r.key in keys && before.nextRid <= r.rid)
    && (forall k :: k in keys ==> exists r :: r in after.queue - before.queue && r.key == k)
    && |after.queue| == |before.queue| + |keys|
  }

  /** Some row with a geometry lies in the cell of the key. */
  predicate HasObject(g: Geometry, live: seq<Row>, key: Key) {
    exists row :: row in live && row.source == key.source && row.extent.Some? && row.point.Some?
                  && CellOf(g.proj, row.point.value) == key.cell
  }

  /** The rows ask for each cell of the sources that holds an object, once, and for no other. */
  ghost predicate AsksOncePerCell(g: Geometry, live: seq<Row>, sources: set<string>, rows: set<QueueRow>) {
    && (forall r :: r in rows ==> r.key.source in sources && HasObject(g, live, r.key))
    && (forall key: Key :: key.source in sources && HasObject(g, live, key) ==> Queued(rows, key))
    && (forall r, s :: r in rows && s in rows && r.key == s.key ==> r == s)
  }

  lemma LiveKeysHaveObjects(g: Geometry, live: seq<Row>, source: string, key: Key)
    ensures key in LiveKeys(g, live, source) <==> key.source == source && HasObject(g, live, key)
  {
    if key.source == source && HasObject(g, live, key) {
      var row :| row in live && row.source == key.source && row.extent.Some? && row.point.Some?
                 && CellOf(g.proj, row.point.value) == key.cell;
      assert key == Key(source, CellOf(g.proj, row.point.value));
    }
  }

  lemma EnqueuedOnce(before: Db, after: Db, keys: set<Key>)
    requires Enqueued(before, after, keys)
    ensures var rows := after.queue - before.queue;
            forall r, s :: r in rows && s in rows && r.key == s.key ==> r == s
  {
    var rows := after.queue - before.queue;
    assert after.queue == before.queue + rows;
    forall r, s | r in rows && s in rows && r.key == s.key && r != s
      ensures false
    {
      forall k | k in keys
        ensures exists q :: q in rows - {r} && q.key == k
      {
        var q :| q in rows && q.key == k;
        assert s in rows - {r} && (q == r || q in rows - {r});
      }
      KeysHaveRows(rows - {r}, keys);
    }
  }

  lemma EnqueuedAsks(g: Geometry, before: Db, after: Db, sources: set<string>, keys: set<Key>)
    requires Enqueued(before, after, keys)
    requires forall key :: key in keys <==> key.source in sources && HasObject(g, before.live, key)
    ensures AsksOncePerCell(g, before.live, sources, after.queue - before.queue)
  {
    hide HasObject;
    EnqueuedOnce(before, after, keys);
  }

  /** No row that was added has a later date. */
  ghost predicate DatedUpTo(before: set<QueueRow>, after: set<QueueRow>, t: int) {
    forall r :: r in after - before ==> r.at <= t
  }

  /** INSERT ... SELECT DISTINCT for one source. */
  method EnqueueSource(conn: Connection, source: string) returns (n: nat)
    requires RidsBelow(conn.queue, conn.nextRid)
    modifies conn`queue, conn`nextRid, conn`ticks
    ensures Enqueued(old(conn.State()), conn.State(), LiveKeys(conn.g, conn.live, source))
    ensures AsksOncePerCell(conn.g, conn.live, {source}, conn.queue - old(conn.queue))
    ensures n == |LiveKeys(conn.g, conn.live, source)|
    ensures conn.ticks == old(conn.ticks) + 1
    ensures DatedUpTo(old(conn.queue), conn.queue, conn.clock(old(conn.ticks)))
    ensures forall r :: r in conn.queue - old(conn.queue) ==> r.at == conn.clock(old(conn.ticks))
  {
    var now := conn.Now();
    var keys := LiveKeys(conn.g, conn.live, source);
    var rows := NewRows(keys, conn.nextRid, now);
    ghost var before := conn.State();
    conn.queue := conn.queue + rows;
    conn.nextRid := conn.nextRid + |keys|;
    n := |keys|;
    EnqueuedRows(before, conn.State(), keys, rows);
    assert conn.queue - before.queue <= rows;
    forall key ensures key in keys <==> key.source == source && HasObject(conn.g, conn.live, key) {
      LiveKeysHaveObjects(conn.g, conn.live, source, key);
    }
    EnqueuedAsks(conn.g, before, conn.State(), {source}, keys);
  }

  /** One row per key, numbered upwards from `rid`. */
  ghost predicate RowsFor(rows: set<QueueRow>, keys: set<Key>, rid: nat, at: int) {
    && |rows| == |keys|
    && (forall r :: r in rows ==> r.key in keys && rid <= r.rid < rid + |keys| && r.at == at)
    && (forall k :: k in keys ==> exists r :: r in rows && r.key == k)
  }

  method NewRows(keys: set<Key>, rid: nat, at: int) returns (rows: set<QueueRow>)
    ensures RowsFor(rows, keys, rid, at)
  {
    rows := {};
    var left, done := keys, {};
    while left != {}
      invariant left !! done && left + done == keys && |done| + |left| == |keys|
      invariant RowsFor(rows, done, rid, at)
      decreases left
    {
      var key :| key in left;
      var row := QueueRow(rid + |done|, key, at);
      assert row !in rows;
      RowsForOneMore(rows, done, rid, at, row);
      rows := rows + {row};
      left, done := left - {key}, done + {key};
    }
    assert done == keys;
  }

  lemma RowsForOneMore(rows: set<QueueRow>, done: set<Key>, rid: nat, at: int, row: QueueRow)
    requires RowsFor(rows, done, rid, at) && row.key !in done && row.rid == rid + |done| && row.at == at
    ensures RowsFor(rows + {row}, done + {row.key}, rid, at)
  {
    forall k | k in done + {row.key}
      ensures exists r :: r in rows + {row} && r.key == k
    {
      if k in done {
        var r :| r in rows && r.key == k;
        assert r in rows + {row};
      } else {
        assert row in rows + {row};
      }
    }
  }

  lemma EnqueuedRows(before: Db, after: Db, keys: set<Key>, rows: set<QueueRow>)
    requires RidsBelow(before.queue, before.nextRid)
    requires exists at :: RowsFor(rows, keys, before.nextRid, at)
    requires after == before.(queue := before.queue + rows, nextRid := before.nextRid + |keys|)
    ensures Enqueued(before, after, keys)
  {
    assert before.queue !! rows;
    assert after.queue - before.queue == rows;
  }

  lemma EnqueuedTwice(a: Db, b: Db, c: Db, first: set<Key>, second: set<Key>)
    requires Enqueued(a, b, first) && Enqueued(b, c, second) && first !! second
    ensures Enqueued(a, c, first + second)
  {
    forall k | k in first + second
      ensures exists r :: r in c.queue - a.queue && r.key == k
    {
      if k in first {
        var r :| r in b.queue - a.queue && r.key == k;
        assert r in c.queue - a.queue;
      } else {
        var r :| r in c.queue - b.queue && r.key == k;
        assert r in c.queue - a.queue;
      }
    }
  }

  const SWEEP_ORDER: seq<string> := [BDOT10K, EGIB, PRG]

  function LiveKeysOf(g: Geometry, live: seq<Row>, sources: seq<string>): set<Key> {
    if sources == [] then {}
    else LiveKeysOf(g, live, sources[..|sources| - 1]) + LiveKeys(g, live, sources[|sources| - 1])
  }

  /** What the sweep has come to after `sources`: one row for each of their live cells, dated up to `t`. */
  ghost predicate SweptSoFar(g: Geometry, start: Db, now: Db, sources: seq<string>, total: nat, t: int) {
    && Enqueued(start, now, LiveKeysOf(g, start.live, sources))
    && total == |LiveKeysOf(g, start.live, sources)|
    && DatedUpTo(start.queue, now.queue, t)
  }

  lemma NothingSwept(g: Geometry, start: Db, t: int)
    requires RidsBelow(start.queue, start.nextRid)
    ensures SweptSoFar(g, start, start, SWEEP_ORDER[..0], 0, t)
  {
  }

  lemma OneMoreSource(g: Geometry, start: Db, mid: Db, now: Db, i: nat, total: nat, s: int, t: int)
    requires i < 3 && SweptSoFar(g, start, mid, SWEEP_ORDER[..i], total, s) && s <= t
    requires Enqueued(mid, now, LiveKeys(g, start.live, SWEEP_ORDER[i])) && DatedUpTo(mid.queue, now.queue, s)
    ensures SweptSoFar(g, start, now, SWEEP_ORDER[..i + 1], total + |LiveKeys(g, start.live, SWEEP_ORDER[i])|, t)
  {
    hide Enqueued, LiveKeys;
    assert SWEEP_ORDER[..i + 1][..i] == SWEEP_ORDER[..i];
    SourcesApart(g, start.live, SWEEP_ORDER[..i], SWEEP_ORDER[i]);
    var (before, more) := (LiveKeysOf(g, start.live, SWEEP_ORDER[..i]), LiveKeys(g, start.live, SWEEP_ORDER[i]));
    EnqueuedTwice(start, mid, now, before, more);
  }

  lemma {:induction false} SourcesApart(g: Geometry, live: seq<Row>, sources: seq<string>, source: string)
    requires source !in sources
    ensures LiveKeysOf(g, live, sources) !! LiveKeys(g, live, source)
  {
    if sources != [] {
      SourcesApart(g, live, sources[..|sources| - 1], source);
    }
  }

  /** Queue every cell that holds a live object, source by source, and report how many rows this
      sweep added. A stop between sources leaves the finished ones queued. */
  method EnqueueAll(conn: Connection) returns (sweep: Sweep)
    requires conn.Steady() && RidsBelow(conn.queue, conn.nextRid)
    modifies conn`queue, conn`nextRid, conn`ticks, conn`polls
    ensures conn.ticks >= old(conn.ticks) && conn.polls >= old(conn.polls)
    ensures DatedUpTo(old(conn.queue), conn.queue, conn.clock(conn.ticks))
    ensures sweep.SweepStopped? ==> conn.Stopped()
    ensures sweep.Swept? ==>
      conn.polls == old(conn.polls) + 3 && NoneSeen(conn.cancelled, old(conn.polls), conn.polls)
    ensures sweep.Swept? ==>
      && sweep.total == |AllLiveKeys(conn.g, conn.live)|
      && Enqueued(old(conn.State()), conn.State(), AllLiveKeys(conn.g, conn.live))
      && AsksOncePerCell(conn.g, conn.live, {"bdot10k", "egib", "prg"}, conn.queue - old(conn.queue))
      && |old(conn.queue)| + sweep.total == |conn.queue|
  {
    hide Enqueued, LiveKeys, LiveKeysOf, AllLiveKeys, AsksOncePerCell, DatedUpTo, SweptSoFar, RidsBelow;
    ghost var start := conn.State();
    var total := 0;
    NothingSwept(conn.g, start, conn.clock(conn.ticks));
    for i := 0 to |SWEEP_ORDER|
      invariant conn.ticks >= old(conn.ticks) && conn.polls == old(conn.polls) + i
      invariant NoneSeen(conn.cancelled, old(conn.polls), conn.polls)
      invariant SweptSoFar(conn.g, start, conn.State(), SWEEP_ORDER[..i], total, conn.clock(conn.ticks))
    {
      SweptMeans(conn.g, start, conn.State(), SWEEP_ORDER[..i], total, conn.clock(conn.ticks));
      var stop := conn.IsCancelled();
      if stop { return SweepStopped; }
      ghost var mid := conn.State();
      var n := EnqueueSource(conn, SWEEP_ORDER[i]);
      OneMoreSource(conn.g, start, mid, conn.State(), i, total, conn.clock(conn.ticks - 1), conn.clock(conn.ticks));
      total := total + n;
    }
    assert SWEEP_ORDER[..|SWEEP_ORDER|] == SWEEP_ORDER;
    SweptMeans(conn.g, start, conn.State(), SWEEP_ORDER, total, conn.clock(conn.ticks));
    AllOfThem(conn.g, conn.live);
    AllAsk(conn.g, start, conn.State());
    sweep := Swept(total);
  }

  lemma SweptMeans(g: Geometry, start: Db, now: Db, sources: seq<string>, total: nat, t: int)
    requires SweptSoFar(g, start, now, sources, total, t)
    ensures Enqueued(start, now, LiveKeysOf(g, start.live, sources)) && total == |LiveKeysOf(g, start.live, sources)|
    ensures DatedUpTo(start.queue, now.queue, t) && RidsBelow(now.queue, now.nextRid) && start.live == now.live
  {
  }

  lemma AllOfThem(g: Geometry, live: seq<Row>)
    ensures LiveKeysOf(g, live, SWEEP_ORDER) == AllLiveKeys(g, live)
  {
    hide LiveKeys;
    assert SWEEP_ORDER[..2] == [BDOT10K, EGIB] && [BDOT10K, EGIB][..1] == [BDOT10K] && [BDOT10K][..0] == [];
    assert LiveKeysOf(g, live, [BDOT10K]) == LiveKeys(g, live, BDOT10K);
    assert LiveKeysOf(g, live, [BDOT10K, EGIB]) == LiveKeys(g, live, BDOT10K) + LiveKeys(g, live, EGIB);
  }

  lemma AllAsk(g: Geometry, before: Db, after: Db)
    requires Enqueued(before, after, AllLiveKeys(g, before.live))
    ensures AsksOncePerCell(g, before.live, {"bdot10k", "egib", "prg"}, after.queue - before.queue)
    ensures |before.queue| + |AllLiveKeys(g, before.live)| == |after.queue|
  {
    hide LiveKeys, HasObject;
    forall key: Key
      ensures key in AllLiveKeys(g, before.live)
              <==> key.source in {"bdot10k", "egib", "prg"} && HasObject(g, before.live, key)
    {
      LiveKeysHaveObjects(g, before.live, "bdot10k", key);
      LiveKeysHaveObjects(g, before.live, "egib", key);
      LiveKeysHaveObjects(g, before.live, "prg", key);
    }
    EnqueuedAsks(g, before, after, {"bdot10k", "egib", "prg"}, AllLiveKeys(g, before.live));
  }
}
