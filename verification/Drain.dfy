/** The drain itself (src/compare/drain.rs, the queue commands of src/compare/mod.rs and
    src/compare/reconcile.rs), as methods of the connection they all share. */
module Drain {
  import opened Basics
  import opened TileMath
  import opened MatchRule
  import opened Tables
  import opened Recompute
  import opened DrainSpec

  const CELLS_PER_COMMIT: nat := 64

  datatype DrainStats = DrainStats(cells: nat, failed: nat, purged: nat)

  datatype GroupOutcome = GroupOutcome(drained: nat, failed: nat, cancelled: bool)

  datatype QueueRun = Interrupted | Finished(drained: nat, failed: nat, purged: nat)

  /** No poll from the `from`-th up to the `to`-th reads a stop. */
  ghost predicate NoneSeen(cancelled: nat -> bool, from: nat, to: nat) {
    forall n: nat :: from <= n < to ==> !cancelled(n)
  }

  lemma OneMorePoll(cancelled: nat -> bool, from: nat, to: nat)
    ensures NoneSeen(cancelled, from, from)
    ensures NoneSeen(cancelled, from, to) && !cancelled(to) ==> NoneSeen(cancelled, from, to + 1)
  {
  }

  /** One connection and the tables behind it. `fails` says which cells cannot be recomputed,
      `cancelled` what the n-th poll of the shutdown flag reads and `clock` what the n-th reading
      of now() gives. `saved` is the state an open transaction rolls back to. */
  class Connection {
    const g: Geometry
    const fails: Key -> bool
    const cancelled: nat -> bool
    const clock: nat -> int
    var polls: nat
    var ticks: nat
    var live: seq<Row>
    var evidence: set<Evidence>
    var unmatched: seq<Entry<Row>>
    var totals: seq<Entry<nat>>
    var queue: set<QueueRow>
    var tiles: seq<Cell>
    var nextRid: nat
    var saved: Option<Db>

    constructor (g: Geometry, fails: Key -> bool, cancelled: nat -> bool, clock: nat -> int, db: Db)
      ensures State() == db && saved.None? && polls == 0 && ticks == 0
      ensures this.g == g && this.fails == fails && this.cancelled == cancelled && this.clock == clock
    {
      this.g, this.fails, this.cancelled, this.clock := g, fails, cancelled, clock;
      polls, ticks := 0, 0;
      live, evidence, unmatched, totals := db.live, db.evidence, db.unmatched, db.totals;
      queue, tiles, nextRid := db.queue, db.tiles, db.nextRid;
      saved := None;
    }

    ghost function State(): Db
      reads this
    {
      Db(live, evidence, unmatched, totals, queue, tiles, nextRid)
    }

    /** A requested shutdown is never taken back, and the clock does not run backwards. */
    ghost predicate Steady() {
      && (forall i: nat, j: nat :: i <= j && cancelled(i) ==> cancelled(j))
      && (forall i: nat, j: nat :: i <= j ==> clock(i) <= clock(j))
    }

    /** The shutdown flag has been seen set. */
    ghost predicate Stopped()
      reads this
    {
      polls > 0 && cancelled(polls - 1)
    }

    method IsCancelled() returns (b: bool)
      modifies this`polls
      ensures polls == old(polls) + 1
      ensures b == cancelled(old(polls)) && (b <==> Stopped())
    {
      b := cancelled(polls);
      polls := polls + 1;
    }

    method Now() returns (t: int)
      modifies this`ticks
      ensures ticks == old(ticks) + 1 && t == clock(old(ticks))
    {
      t := clock(ticks);
      ticks := ticks + 1;
    }

    method Begin()
      requires saved.None?
      modifies this`saved
      ensures saved == Some(State())
    {
      saved := Some(Db(live, evidence, unmatched, totals, queue, tiles, nextRid));
    }

    method Commit()
      requires saved.Some?
      modifies this`saved
      ensures saved.None?
    {
      saved := None;
    }

    method Rollback()
      requires saved.Some?
      modifies this
      ensures saved.None? && State() == old(saved.value)
      ensures polls == old(polls) && ticks == old(ticks)
    {
      var db := saved.value;
      live, evidence, unmatched, totals := db.live, db.evidence, db.unmatched, db.totals;
      queue, tiles, nextRid := db.queue, db.tiles, db.nextRid;
      saved := None;
    }

    /** Clear the cell's slices and refill them. A failure strikes between the two and leaves the
        cell cleared, which is why the caller has to roll back. */
    method RecomputeCellInTxn(key: Key) returns (ok: bool)
      modifies this`unmatched, this`totals
      ensures ok <==> !fails(key)
      ensures ok ==> State() == RecomputeCell(g, old(State()), key)
    {
      unmatched := Rest(unmatched, key);
      if fails(key) {
        return false;
      }
      unmatched := unmatched + CellRows(g, live, evidence, key);
      totals := Rest(totals, key);
      totals := totals + TotalRows(key, CellTotal(g, live, key));
      return true;
    }

    method DrainOneCell(key: Key, cutoff: int) returns (ok: bool)
      modifies this`unmatched, this`totals, this`queue
      ensures ok <==> !fails(key)
      ensures ok ==> State() == DrainOne(g, old(State()), key, cutoff)
    {
      ok := RecomputeCellInTxn(key);
      if ok {
        queue := set r | r in queue && !(r.key == key && r.at <= cutoff);
      }
    }

    /** The tiles queued before stay, and behind them stands each of the cells once. */
    method EnqueueTilesForCells(cells: seq<Cell>)
      modifies this`tiles
      ensures tiles == old(tiles) + Distinct(cells)
      ensures old(tiles) <= tiles
      ensures forall c :: c in tiles[|old(tiles)|..] <==> c in cells
      ensures forall i, j :: |old(tiles)| <= i < j < |tiles| ==> tiles[i] != tiles[j]
    {
      DistinctKeepsSet(cells);
      if cells == [] {
        return;
      }
      tiles := tiles + Distinct(cells);
    }

    /** One cell in a transaction of its own, with its tile; a failing one leaves no trace. */
    method DrainAlone(key: Key, cutoff: int) returns (ok: bool)
      requires saved.None?
      modifies this
      ensures saved.None? && ticks == old(ticks) && polls == old(polls)
      ensures ok <==> !fails(key)
      ensures State() == if ok then DrainOne(g, old(State()), key, cutoff).(tiles := old(tiles) + [key.cell])
                         else old(State())
    {
      hide RecomputeCell;
      Begin();
      ok := DrainOneCell(key, cutoff);
      if ok {
        assert Distinct([key.cell]) == [key.cell];
        EnqueueTilesForCells([key.cell]);
        Commit();
      } else {
        Rollback();
      }
    }

    /** The failure path: every cell in a transaction of its own. `n` is how far it came. */
    method ReplayOneAtATime(cells: seq<Key>, cutoff: int) returns (drained: nat, failed: nat, ghost n: nat)
      requires Steady() && saved.None?
      modifies this
      ensures saved.None? && ticks == old(ticks) && polls >= old(polls)
      ensures n <= |cells| && (n < |cells| ==> Stopped())
      ensures State() == OneAtATime(g, old(State()), cells[..n], cutoff, fails)
      ensures drained == Healthy(cells[..n], fails) && drained + failed == n
      ensures polls == old(polls) + n + if n < |cells| then 1 else 0
      ensures NoneSeen(cancelled, old(polls), old(polls) + n)
    {
      hide OneAtATime, Healthy, DrainOne, NoneSeen;
      drained, failed, n := 0, 0, 0;
      OneMorePoll(cancelled, polls, polls);
      assert cells[..0] == [];
      OneAtATimeStep(g, State(), [], Key("", Cell(0, 0)), cutoff, fails);
      for i := 0 to |cells|
        invariant saved.None? && ticks == old(ticks) && polls >= old(polls)
        invariant n == i
        invariant State() == OneAtATime(g, old(State()), cells[..i], cutoff, fails)
        invariant drained == Healthy(cells[..i], fails) && drained + failed == i
        invariant polls == old(polls) + i && NoneSeen(cancelled, old(polls), polls)
      {
        var stop := IsCancelled();
        if stop {
          return;
        }
        OneMorePoll(cancelled, old(polls), polls - 1);
        assert cells[..i + 1] == cells[..i] + [cells[i]];
        OneAtATimeStep(g, old(State()), cells[..i], cells[i], cutoff, fails);
        var ok := DrainAlone(cells[i], cutoff);
        if ok {
          drained := drained + 1;
        } else {
          failed := failed + 1;
        }
        n := i + 1;
      }
      assert cells[..|cells|] == cells;
    }

    /** The body of a group's transaction, up to the tile enqueue. */
    method DrainUntilStopped(group: seq<Key>, cutoff: int) returns (ok: bool, stop: bool, done: seq<Key>)
      modifies this`unmatched, this`totals, this`queue, this`polls
      ensures polls >= old(polls)
      ensures done <= group && (forall k :: k in done ==> !fails(k))
      ensures ok ==> State() == DrainCells(g, old(State()), done, cutoff)
      ensures ok && !stop ==> done == group
      ensures !ok ==> |done| < |group| && fails(group[|done|])
      ensures stop ==> ok && Stopped() && |done| < |group|
      ensures polls == old(polls) + |done| + if ok && !stop then 0 else 1
      ensures NoneSeen(cancelled, old(polls), old(polls) + |done|)
    {
      hide DrainCells, DrainOne;
      stop, ok, done := false, true, [];
      DrainCellsStep(g, State(), [], Key("", Cell(0, 0)), cutoff);
      while |done| < |group| && !stop && ok
        invariant polls >= old(polls)
        invariant done <= group && forall k :: k in done ==> !fails(k)
        invariant ok ==> State() == DrainCells(g, old(State()), done, cutoff)
        invariant !ok ==> |done| < |group| && fails(group[|done|])
        invariant stop ==> ok && Stopped() && |done| < |group|
        invariant polls == old(polls) + |done| + if ok && !stop then 0 else 1
        invariant NoneSeen(cancelled, old(polls), old(polls) + |done|)
        decreases |group| - |done|, !stop && ok
      {
        stop := IsCancelled();
        if !stop {
          var key := group[|done|];
          ok := DrainOneCell(key, cutoff);
          if ok {
            DrainCellsStep(g, old(State()), done, key, cutoff);
            done := done + [key];
          }
        }
      }
    }

    method CommitGroup(ghost start: Db, done: seq<Key>, cutoff: int)
      requires saved.Some? && forall k :: k in done ==> !fails(k)
      requires State() == DrainCells(g, start, done, cutoff)
      modifies this`tiles, this`saved
      ensures saved.None? && Healthy(done, fails) == |done|
      ensures SameButTiles(State(), OneAtATime(g, start, done, cutoff, fails))
    {
      hide OneAtATime, Healthy, DrainCells;
      GroupIsOneAtATime(g, start, done, cutoff, fails);
      EnqueueTilesForCells(TileCells(done));
      Commit();
    }

    method RollBackAndReplay(group: seq<Key>, cutoff: int) returns (outcome: GroupOutcome, ghost n: nat)
      requires Steady() && saved.Some?
      modifies this
      ensures saved.None? && ticks == old(ticks) && polls >= old(polls)
      ensures n <= |group| && (n < |group| ==> outcome.cancelled) && (outcome.cancelled ==> Stopped())
      ensures State() == OneAtATime(g, old(saved.value), group[..n], cutoff, fails)
      ensures outcome.drained == Healthy(group[..n], fails) && outcome.drained + outcome.failed == n
      ensures cancelled(old(polls)) ==> n == 0
    {
      hide OneAtATime, Healthy;
      Rollback();
      var drained, failed;
      drained, failed, n := ReplayOneAtATime(group, cutoff);
      ghost var last := polls - 1;
      ghost var early := Stopped();
      var now := IsCancelled();
      assert early ==> cancelled(last) && last <= polls - 1;
      outcome := GroupOutcome(drained, failed, now);
    }

    /** One transaction for the group, of at most `size` cells, with the tile enqueue of exactly the cells it
        drained. On a failure the group is rolled back and replayed cell by cell; on a stop, what is finished
        is committed; and no cell is looked at twice unless one fails. Whatever happens, the effect is that of
        draining the first `n` cells one at a time, and `n` falls short of the group only after a stop. */
    method DrainGroup(group: seq<Key>, cutoff: int, ghost size: nat) returns (outcome: GroupOutcome, ghost n: nat)
      requires Steady() && saved.None? && |group| <= size
      modifies this
      ensures saved.None? && ticks == old(ticks) && polls >= old(polls)
      ensures n <= |group| && (n < |group| ==> outcome.cancelled) && (outcome.cancelled ==> Stopped())
      ensures SameButTiles(State(), OneAtATime(g, old(State()), group[..n], cutoff, fails))
      ensures outcome.drained == Healthy(group[..n], fails) && outcome.drained + outcome.failed == n
      ensures cancelled(old(polls)) ==> n == 0
      ensures (forall k :: k in group ==> !fails(k)) ==> polls <= old(polls) + |group|
    {
      hide OneAtATime, Healthy, DrainCells;
      ghost var start := State();
      Begin();
      var ok, stop, done := DrainUntilStopped(group, cutoff);
      if ok {
        n := |done|;
        assert group[..n] == done;
        CommitGroup(start, done, cutoff);
        outcome := GroupOutcome(|done|, 0, stop);
      } else {
        outcome, n := RollBackAndReplay(group, cutoff);
      }
    }

    /** `cells.chunks(size)`: group after group until the list is done or a stop is seen. The
        result does not depend on the size. */
    method DrainInGroups(cells: seq<Key>, size: nat, cutoff: int) returns (drained: nat, failed: nat, ghost n: nat)
      requires Steady() && saved.None? && size > 0
      modifies this
      ensures saved.None? && ticks == old(ticks) && polls >= old(polls)
      ensures n <= |cells| && (n < |cells| ==> Stopped())
      ensures SameButTiles(State(), OneAtATime(g, old(State()), cells[..n], cutoff, fails))
      ensures drained == Healthy(cells[..n], fails) && drained + failed == n
      ensures cancelled(old(polls)) ==> n == 0
    {
      hide OneAtATime, Healthy;
      ghost var start := State();
      OneAtATimeStep(g, start, [], Key("", Cell(0, 0)), cutoff, fails);
      drained, failed, n := 0, 0, 0;
      var from := 0;
      assert cells[..0] == [];
      while from < |cells|
        invariant saved.None? && ticks == old(ticks) && polls >= old(polls)
        invariant from <= |cells| && n == from
        invariant SameButTiles(State(), OneAtATime(g, start, cells[..from], cutoff, fails))
        invariant drained == Healthy(cells[..from], fails) && drained + failed == from
        invariant cancelled(old(polls)) ==> from == 0
        decreases |cells| - from
      {
        var to := if |cells| - from < size then |cells| else from + size;
        ghost var before := State();
        var outcome;
        ghost var m;
        outcome, m := DrainGroup(cells[from..to], cutoff, size);
        assert cells[..from + m] == cells[..from] + cells[from..to][..m];
        NextChunk(g, start, before, State(), cells[..from], cells[from..to][..m], cutoff, fails);
        drained := drained + outcome.drained;
        failed := failed + outcome.failed;
        n := from + m;
        if outcome.cancelled {
          return;
        }
        from := to;
      }
    }

    method PickOldest(cutoff: int, among: set<Key>) returns (key: Key)
      requires among != {} && among <= Eligible(queue, cutoff)
      ensures key in among && forall other :: other in among ==> NoYounger(queue, key, other, cutoff)
    {
      OldestEligible(queue, cutoff, among);
      key :| key in among && forall other :: other in among ==> NoYounger(queue, key, other, cutoff);
    }

    /** The read of the batch. */
    method SelectOldest(cutoff: int, limit: nat) returns (cells: seq<Key>)
      ensures OldestFirst(queue, cutoff, limit, cells)
      ensures TakesOldest(queue, cutoff, limit, cells)
    {
      hide NoYounger, TakesOldest;
      cells := [];
      var left := Eligible(queue, cutoff);
      while |cells| < limit && left != {}
        invariant left <= Eligible(queue, cutoff)
        invariant forall k :: k in Eligible(queue, cutoff) ==> (k in left <==> k !in cells)
        invariant |cells| <= limit && OldestSoFar(queue, cutoff, cells)
        decreases left
      {
        var key := PickOldest(cutoff, left);
        TakeNext(queue, cutoff, cells, key);
        cells := cells + [key];
        left := left - {key};
      }
      OldestFirstMeans(queue, cutoff, limit, cells);
    }

    /** Drain up to `batchSize` cells queued at or before now. The same cutoff serves the purge,
        the read and every queue delete. */
    method DrainBatch(batchSize: nat)
      returns (stats: DrainStats, ghost cutoff: int, ghost selected: seq<Key>, ghost n: nat)
      requires Steady() && saved.None?
      modifies this
      ensures saved.None? && ticks == old(ticks) + 1 && polls >= old(polls)
      ensures cutoff == clock(old(ticks))
      ensures OldestFirst(Purge(old(State()), cutoff).queue, cutoff, batchSize, selected)
      ensures TakesOldest(old(queue), cutoff, batchSize, selected)
      ensures n <= |selected| && (n < |selected| ==> Stopped())
      ensures SameButTiles(State(), OneAtATime(g, Purge(old(State()), cutoff), selected[..n], cutoff, fails))
      ensures stats.cells == Healthy(selected[..n], fails) && stats.cells + stats.failed == n
      ensures cancelled(old(polls)) ==> n == 0
      ensures stats.purged == |UnknownDue(old(queue), cutoff)|
      ensures BatchLeaves(old(queue), queue, cutoff, selected[..n], fails)
    {
      hide OneAtATime, Healthy, OldestFirst, TakesOldest, BatchLeaves;
      var now := Now();
      cutoff := now;
      var unknown := UnknownDue(queue, now);
      queue := queue - unknown;
      assert queue == Purge(old(State()), cutoff).queue;
      var cells := SelectOldest(now, batchSize);
      selected := cells;
      PurgeKeepsDue(old(State()), cutoff, batchSize, selected);
      var drained, failed;
      drained, failed, n := DrainInGroups(cells, CELLS_PER_COMMIT, now);
      RowsLeft(g, old(State()), cutoff, cells[..n], fails);
      stats := DrainStats(drained, failed, |unknown|);
    }
  }
}
