/** One process's downloads, among whatever other attempts do meanwhile (src/download.rs). */
module Download {
  import opened Basics
  import opened TempPaths
  import opened DownloadProtocol

  const MAX_RETRIES := 3

  /** How one attempt will fare: the response, and which steps fail. `stop` is the item of the stream at
      which a shutdown is seen, `writes` the number of chunks that can be written. */
  datatype Reply =
    | NoResponse
    | Response(chunks: seq<Bytes>, broken: bool, creates: bool, stop: Option<nat>, writes: nat,
               flushes: bool, renames: bool, removes: bool)

  /** The items of the stream: the chunks, and an error when it breaks off. */
  function Items(r: Reply): nat
    requires r.Response?
  {
    |r.chunks| + (if r.broken then 1 else 0)
  }

  /** The whole response is received, written and flushed. */
  predicate Completes(r: Reply) {
    && r.Response? && r.creates && !r.broken && r.flushes && r.writes >= |r.chunks|
    && (r.stop.Some? ==> r.stop.value >= |r.chunks|)
  }

  predicate Succeeds(r: Reply) {
    Completes(r) && r.renames
  }

  /** The step that disposes of the temporary file works: the rename of a complete response, the removal
      after a failure. */
  predicate CleansUp(r: Reply)
    requires r.Response?
  {
    if Completes(r) then r.renames else r.removes
  }

  datatype Outcome = Skipped | Done(attempt: nat) | Stopped(attempt: nat) | GaveUp

  /** What three attempts come to, a shutdown being looked for between them. */
  predicate IsOutcome(replies: nat -> Reply, shutdown: nat -> bool, outcome: Outcome) {
    match outcome
    case Skipped => false
    case Done(n) => 1 <= n <= 3 && Succeeds(replies(n)) && FailedUpTo(replies, shutdown, n)
    case Stopped(n) => 1 <= n < 3 && !Succeeds(replies(n)) && FailedUpTo(replies, shutdown, n) && shutdown(n)
    case GaveUp => !Succeeds(replies(3)) && FailedUpTo(replies, shutdown, 3)
  }

  predicate FailedUpTo(replies: nat -> Reply, shutdown: nat -> bool, n: nat) {
    forall k :: 1 <= k < n ==> !Succeeds(replies(k)) && !shutdown(k)
  }

  class Downloader {
    const pid: nat
    /** What the other attempts do at each point where this one can be interrupted. */
    const others: nat -> seq<Event>
    var clock: nat
    var world: World
    ghost var start: World
    ghost var events: seq<Event>

    ghost predicate Valid()
      reads this
    {
      Start(start) && Runs(start, events) && world == After(start, events) && pid in world.counters
    }

    constructor (pid: nat, files: map<Path, Bytes>, others: nat -> seq<Event>)
      ensures Valid() && this.pid == pid && this.others == others
      ensures start.files == files && events == [Spawn(pid)] && world == World(files, map[], map[pid := 0])
    {
      this.pid, this.others, clock := pid, others, 0;
      world := World(files, map[], map[pid := 0]);
      start := World(files, map[], map[]);
      events := [Spawn(pid)];
      new;
      assert events[..0] == [];
      assert Runs(start, []);
    }

    method Do(e: Event)
      requires Valid() && Enabled(world, e) && e != Crash(pid)
      modifies this`world, this`events
      ensures Valid() && world == Apply(old(world), e) && events == old(events) + [e]
    {
      events := events + [e];
      assert events[..|events| - 1] == old(events);
      world := Apply(world, e);
      hide TempPath, IsPart, Concat;
    }

    /** The first thing they would do happens, if it can and has no part in this attempt. */
    predicate OthersGoFirst(w: World, theirs: seq<Event>, mine: Id, before: seq<Event>, after: seq<Event>) {
      theirs != [] && Enabled(w, theirs[0]) && !ActsFor(w, theirs[0], mine) ==> before + [theirs[0]] <= after
    }

    /** Lets the others act. They have no part in this attempt, and cannot make its process crash. */
    method Yield(mine: Id)
      requires Valid() && mine in world.live && mine.pid == pid
      modifies this
      ensures OthersGoFirst(old(world), others(old(clock)), mine, old(events), events)
      ensures Valid() && start == old(start) && old(events) <= events && clock == old(clock) + 1
      ensures forall k :: |old(events)| <= k < |events| ==> events[k] != Rename(mine)
      ensures mine in world.live && world.live[mine] == old(world).live[mine]
      ensures Temp(world, mine) in world.files <==> Temp(old(world), mine) in old(world).files
      ensures Temp(world, mine) in world.files ==> world.files[Temp(world, mine)] == old(world).files[Temp(world, mine)]
    {
      hide TempPath, IsPart, Concat, Apply, Enabled, Runs, After, Start;
      var theirs := others(clock);
      clock := clock + 1;
      var i := 0;
      while i < |theirs|
        invariant 0 <= i <= |theirs|
        invariant Valid() && start == old(start) && old(events) <= events && clock == old(clock) + 1
        invariant forall k :: |old(events)| <= k < |events| ==> events[k] != Rename(mine)
        invariant mine in world.live && world.live[mine] == old(world).live[mine]
        invariant Temp(world, mine) in world.files <==> Temp(old(world), mine) in old(world).files
        invariant Temp(world, mine) in world.files
                  ==> world.files[Temp(world, mine)] == old(world).files[Temp(world, mine)]
        invariant i == 0 ==> world == old(world) && events == old(events)
        invariant i > 0 ==> OthersGoFirst(old(world), theirs, mine, old(events), events)
      {
        var e := theirs[i];
        if Enabled(world, e) && !ActsFor(world, e, mine) {
          RunKeepsInv(start, events);
          ProperDestinations(start, world, events);
          OthersLeaveIt(world, e, mine);
          Do(e);
        }
        i := i + 1;
      }
    }

    predicate OthersGo(w: World, theirs: seq<Event>, before: seq<Event>, after: seq<Event>) {
      theirs != [] && Enabled(w, theirs[0]) && theirs[0] != Crash(pid) ==> before + [theirs[0]] <= after
    }

    /** Lets the others act while this process has no attempt of its own under way here. A rename among
        what they do is of an attempt begun before, never of one still to begin. */
    method Wait()
      requires Valid()
      modifies this
      ensures OthersGo(old(world), others(old(clock)), old(events), events)
      ensures Valid() && start == old(start) && old(events) <= events && clock == old(clock) + 1
      ensures forall k :: |old(events)| <= k < |events| ==> BegunBefore(world, events[k])
    {
      hide TempPath, IsPart, Concat, Runs, After, Start;
      var theirs := others(clock);
      clock := clock + 1;
      var i := 0;
      while i < |theirs|
        invariant 0 <= i <= |theirs|
        invariant Valid() && start == old(start) && old(events) <= events && clock == old(clock) + 1
        invariant forall k :: |old(events)| <= k < |events| ==> BegunBefore(world, events[k])
        invariant i == 0 ==> world == old(world) && events == old(events)
        invariant i > 0 ==> OthersGo(old(world), theirs, old(events), events)
      {
        var e := theirs[i];
        if Enabled(world, e) && e != Crash(pid) {
          RunKeepsInv(start, events);
          assert e.Rename? ==> GoodAttempt(world, events, e.id);
          Do(e);
        }
        i := i + 1;
      }
    }

    predicate BegunBefore(w: World, e: Event) {
      e.Rename? && e.id.pid == pid ==> pid in w.counters && e.id.count < w.counters[pid]
    }

    /** Streams the response into the temporary file and flushes it. On a failure what was written so
        far stays in the file. */
    method WriteResponseToFile(id: Id, reply: Reply) returns (ok: bool)
      requires Valid() && id.pid == pid && reply.Response? && reply.creates
      requires id in world.live && Temp(world, id) in world.files && world.files[Temp(world, id)] == []
      requires world.live[id] == Attempt(world.live[id].dest, reply.chunks, reply.broken, 0, Streaming)
      modifies this
      ensures Valid() && start == old(start) && old(events) <= events
      ensures forall k :: |old(events)| <= k < |events| ==> events[k] != Rename(id)
      ensures id in world.live && world.live[id].dest == old(world).live[id].dest
      ensures ok <==> Completes(reply)
      ensures InPhase(world, id, if ok then Flushed else Failed)
      ensures Temp(world, id) in world.files
      ensures ok ==> world.files[Temp(world, id)] == Concat(reply.chunks)
    {
      hide TempPath, IsPart, Concat, Runs, After, Start, OthersGoFirst;
      var i := 0;
      while i < Items(reply)
        invariant 0 <= i <= Items(reply) && i <= |reply.chunks|
        invariant Valid() && start == old(start) && old(events) <= events
        invariant forall k :: |old(events)| <= k < |events| ==> events[k] != Rename(id)
        invariant id in world.live && Temp(world, id) in world.files
        invariant world.live[id] == Attempt(old(world).live[id].dest, reply.chunks, reply.broken, i, Streaming)
        invariant (reply.stop.Some? ==> reply.stop.value >= i) && reply.writes >= i
      {
        if reply.stop == Some(i) || i == |reply.chunks| || reply.writes == i {
          Do(Fail(id));
          return false;
        }
        Do(Receive(id));
        Yield(id);
        SpillSome(id);
        Yield(id);
        i := i + 1;
      }
      if !reply.flushes {
        Do(Fail(id));
        return false;
      }
      Do(Flush(id));
      return true;
    }

    /** The buffer passes on some of the bytes written to it, or none. */
    method SpillSome(id: Id)
      requires Valid() && InPhase(world, id, Streaming) && Temp(world, id) in world.files
      requires world.live[id].received <= |world.live[id].chunks|
      modifies this`world, this`events
      ensures Valid() && old(events) <= events && world.live == old(world).live
      ensures forall k :: |old(events)| <= k < |events| ==> events[k] != Rename(id)
      ensures Temp(world, id) in world.files
    {
      hide TempPath, IsPart, Concat, Runs, After, Start;
      var a := world.live[id];
      var size: nat :| size <= |Concat(a.chunks[..a.received])|;
      if Enabled(world, Spill(id, size)) {
        Do(Spill(id, size));
      }
    }

    /** Takes the process's next number and creates the temporary file that goes with it. */
    method BeginAttempt(dest: Path, reply: Reply) returns (id: Id)
      requires Valid() && !IsPart(dest) && reply.Response?
      modifies this`world, this`events
      ensures Valid() && old(events) <= events && id.pid == pid && id !in old(world).live
      ensures forall k :: |old(events)| <= k < |events| ==> events[k] != Rename(id)
      ensures !BegunBefore(old(world), Rename(id))
      ensures id in world.live && world.live[id]
           == Attempt(dest, reply.chunks, reply.broken, 0, if reply.creates then Streaming else Failed)
      ensures reply.creates ==> Temp(world, id) in world.files && world.files[Temp(world, id)] == []
      ensures !reply.creates ==> world.files == old(world).files
    {
      hide TempPath, IsPart, Concat, Runs, After, Start;
      id := Id(pid, world.counters[pid]);
      RunKeepsInv(start, events);
      assert GoodAttempt(world, events, id);
      Do(Begin(pid, dest, reply.chunks, reply.broken, reply.creates));
    }

    /** The end of an attempt: the rename, or the removal of what a failed write left. */
    method Conclude(id: Id, written: bool, renames: bool, removes: bool) returns (ok: bool)
      requires Valid() && InPhase(world, id, if written then Flushed else Failed)
      requires written ==> Temp(world, id) in world.files
      modifies this`world, this`events
      ensures Valid() && old(events) <= events && id !in world.live
      ensures ok <==> written && renames
      ensures !ok ==> forall k :: |old(events)| <= k < |events| ==> events[k] != Rename(id)
      ensures !IsPart(old(world).live[id].dest)
      ensures ok ==>
        var temp := Temp(old(world), id);
        world.files == (old(world).files - {temp})[old(world).live[id].dest := old(world).files[temp]]
      ensures !ok && (written || !removes) ==> world.files == old(world).files
      ensures !written && removes ==> world.files == old(world).files - {Temp(old(world), id)}
    {
      hide TempPath, IsPart, Concat, Runs, After, Start;
      RunKeepsInv(start, events);
      assert GoodAttempt(world, events, id);
      if written {
        if renames {
          Do(Rename(id));
        } else {
          Do(RenameFails(id));
        }
      } else if removes {
        Do(Remove(id));
      } else {
        Do(RemoveFails(id));
      }
      return written && renames;
    }

    /** One attempt. It renames onto the destination exactly when it succeeds, and then the destination
        is the whole response; otherwise it has not touched it. A temporary file that it created stays
        exactly when the rename of a complete response, or the removal after a failure, fails. */
    method DoDownload(dest: Path, reply: Reply) returns (ok: bool, attempt: Option<Id>)
      requires Valid() && !IsPart(dest)
      modifies this
      ensures Valid() && start == old(start) && old(events) <= events
      ensures ok <==> Succeeds(reply)
      ensures attempt.None? <==> reply.NoResponse?
      ensures ok ==> dest in world.files && world.files[dest] == Concat(reply.chunks)
      ensures attempt.Some? ==> attempt.value !in world.live
      ensures attempt.Some? && !ok ==> forall k :: |old(events)| <= k < |events| ==> events[k] != Rename(attempt.value)
      ensures attempt.Some? && CleansUp(reply) ==> TempPath(dest, attempt.value) !in world.files
      ensures attempt.Some? && reply.creates && !CleansUp(reply) ==> TempPath(dest, attempt.value) in world.files
    {
      assert reply.Response? && !reply.creates ==> !Completes(reply);
      hide TempPath, IsPart, Concat, Runs, After, Start, Completes, Apply, Enabled, OthersGoFirst;
      Wait();
      if reply.NoResponse? {
        return false, None;
      }
      var id := BeginAttempt(dest, reply);
      TempPathsAreDistinct(dest, id, dest, id);
      Yield(id);
      var written := false;
      if reply.creates {
        written := WriteResponseToFile(id, reply);
        Yield(id);
      }
      ok := Conclude(id, written, reply.renames, reply.removes);
      return ok, Some(id);
    }

    /** Up to three attempts, with a look for a shutdown between two. */
    method DownloadWithRetry(dest: Path, replies: nat -> Reply, shutdown: nat -> bool) returns (outcome: Outcome)
      requires Valid() && !IsPart(dest)
      modifies this
      ensures Valid() && start == old(start) && old(events) <= events
      ensures IsOutcome(replies, shutdown, outcome)
      ensures outcome.Done? ==> dest in world.files && world.files[dest] == Concat(replies(outcome.attempt).chunks)
    {
      hide Succeeds, IsPart, Concat, Runs, After, Start;
      var attempt := 1;
      while true
        invariant 1 <= attempt <= MAX_RETRIES && FailedUpTo(replies, shutdown, attempt)
        invariant Valid() && start == old(start) && old(events) <= events
        decreases MAX_RETRIES - attempt
      {
        var ok, _ := DoDownload(dest, replies(attempt));
        if ok {
          return Done(attempt);
        }
        if attempt == MAX_RETRIES {
          return GaveUp;
        }
        if shutdown(attempt) {
          return Stopped(attempt);
        }
        attempt := attempt + 1;
      }
    }

    /** A destination that exists is taken as it is; that it can be is what the protocol is for. */
    method DownloadFileAs(dest: Path, replies: nat -> Reply, shutdown: nat -> bool) returns (outcome: Outcome)
      requires Valid() && !IsPart(dest)
      modifies this
      ensures Valid() && start == old(start) && old(events) <= events
      ensures outcome.Skipped? <==> dest in old(world).files
      ensures outcome.Skipped? ==> world == old(world)
      ensures !outcome.Skipped? ==> IsOutcome(replies, shutdown, outcome)
      ensures outcome.Skipped? || outcome.Done? ==> dest in world.files
      ensures Whole(start, world, events, dest)
    {
      hide IsPart, Concat, Runs, After, Start;
      if dest in world.files {
        outcome := Skipped;
      } else {
        outcome := DownloadWithRetry(dest, replies, shutdown);
      }
      DownloadsAreSafe(start, events);
    }
  }
}
