/** Any number of concurrent download attempts over one file system (src/download.rs): each streams to
    its own temporary file and renames it onto the destination. */
module DownloadProtocol {
  import opened Basics
  import opened TempPaths

  type Bytes = seq<Byte>

  datatype Phase = Streaming | Flushed | Failed

  /** A running attempt: the response's chunks, whether the stream breaks off after them, and how many
      have been received. */
  datatype Attempt = Attempt(dest: Path, chunks: seq<Bytes>, broken: bool, received: nat, phase: Phase)

  /** The files, the running attempts and the counter of each process. */
  datatype World = World(files: map<Path, Bytes>, live: map<Id, Attempt>, counters: map<nat, nat>)

  datatype Event =
    | Spawn(pid: nat)
    | Begin(pid: nat, dest: Path, chunks: seq<Bytes>, broken: bool, created: bool)
    | Receive(id: Id)
    | Spill(id: Id, size: nat)
    | Flush(id: Id)
    | Fail(id: Id)
    | Rename(id: Id)
    | RenameFails(id: Id)
    | Remove(id: Id)
    | RemoveFails(id: Id)
    | Crash(pid: nat)

  function Concat(chunks: seq<Bytes>): Bytes {
    if chunks == [] then [] else chunks[0] + Concat(chunks[1..])
  }

  /** The bytes of the chunks in the order they came. */
  lemma {:induction false} ConcatAppend(chunks: seq<Bytes>, chunk: Bytes)
    ensures Concat([]) == [] && Concat(chunks + [chunk]) == Concat(chunks) + chunk
  {
    if chunks == [] {
      assert [chunk][1..] == [] && chunks + [chunk] == [chunk];
    } else {
      assert (chunks + [chunk])[1..] == chunks[1..] + [chunk];
      ConcatAppend(chunks[1..], chunk);
    }
  }

  function Body(a: Attempt): Bytes {
    Concat(a.chunks)
  }

  predicate InPhase(w: World, id: Id, phase: Phase) {
    id in w.live && w.live[id].phase == phase
  }

  function Temp(w: World, id: Id): Path
    requires id in w.live
  {
    TempPath(w.live[id].dest, id)
  }

  predicate Enabled(w: World, e: Event) {
    match e
    case Spawn(pid) => pid !in w.counters
    case Begin(pid, dest, _, _, _) => pid in w.counters && !IsPart(dest)
    case Receive(id) => InPhase(w, id, Streaming) && w.live[id].received < |w.live[id].chunks|
    case Spill(id, size) =>
      && id in w.live && w.live[id].phase != Flushed && w.live[id].received <= |w.live[id].chunks|
      && Temp(w, id) in w.files
      && |w.files[Temp(w, id)]| <= size <= |Concat(w.live[id].chunks[..w.live[id].received])|
    case Flush(id) =>
      InPhase(w, id, Streaming) && !w.live[id].broken && w.live[id].received == |w.live[id].chunks|
    case Fail(id) => InPhase(w, id, Streaming)
    case Rename(id) => InPhase(w, id, Flushed) && Temp(w, id) in w.files
    case RenameFails(id) => InPhase(w, id, Flushed)
    case Remove(id) => InPhase(w, id, Failed)
    case RemoveFails(id) => InPhase(w, id, Failed)
    case Crash(pid) => pid in w.counters
  }

  function WithPhase(w: World, id: Id, phase: Phase): World
    requires id in w.live
  {
    w.(live := w.live[id := w.live[id].(phase := phase)])
  }

  /** Creating truncates, buffered bytes reach the file at any time up to the flush, a rename replaces
      the destination in one step, and a crash leaves every file as it is. */
  function Apply(w: World, e: Event): World
    requires Enabled(w, e)
  {
    match e
    case Spawn(pid) => w.(counters := w.counters[pid := 0])
    case Begin(pid, dest, chunks, broken, created) =>
      var id := Id(pid, w.counters[pid]);
      World(if created then w.files[TempPath(dest, id) := []] else w.files,
            w.live[id := Attempt(dest, chunks, broken, 0, if created then Streaming else Failed)],
            w.counters[pid := w.counters[pid] + 1])
    case Receive(id) => w.(live := w.live[id := w.live[id].(received := w.live[id].received + 1)])
    case Spill(id, size) =>
      w.(files := w.files[Temp(w, id) := Concat(w.live[id].chunks[..w.live[id].received])[..size]])
    case Flush(id) => WithPhase(w, id, Flushed).(files := w.files[Temp(w, id) := Body(w.live[id])])
    case Fail(id) => WithPhase(w, id, Failed)
    case Rename(id) =>
      var moved := w.files - {Temp(w, id)};
      w.(files := moved[w.live[id].dest := w.files[Temp(w, id)]], live := w.live - {id})
    case RenameFails(id) => w.(live := w.live - {id})
    case Remove(id) => w.(files := w.files - {Temp(w, id)}, live := w.live - {id})
    case RemoveFails(id) => w.(live := w.live - {id})
    case Crash(pid) =>
      w.(live := map id | id in w.live && id.pid != pid :: w.live[id], counters := w.counters - {pid})
  }

  predicate Runs(w: World, events: seq<Event>)
    decreases |events|, 0
  {
    events == [] || (var n := |events| - 1; Runs(w, events[..n]) && Enabled(After(w, events[..n]), events[n]))
  }

  function After(w: World, events: seq<Event>): World
    requires Runs(w, events)
    decreases |events|, 1
  {
    if events == [] then w else var n := |events| - 1; Apply(After(w, events[..n]), events[n])
  }

  /** A disk with any files on it, before any process runs. */
  predicate Start(w: World) {
    w.live == map[] && w.counters == map[]
  }

  // ---- the invariant ----

  /** Some attempt was given `body` as the whole response for `dest`. */
  predicate Offered(events: seq<Event>, dest: Path, body: Bytes) {
    exists i :: 0 <= i < |events| && IsOffer(events[i], dest, body)
  }

  predicate IsOffer(e: Event, dest: Path, body: Bytes) {
    e.Begin? && !e.broken && e.dest == dest && Concat(e.chunks) == body
  }

  /** A running attempt goes for a proper destination, took its number from its process, and has at its
      temporary path what it should: after the flush the whole response. */
  predicate GoodAttempt(w: World, events: seq<Event>, id: Id) {
    id in w.live ==>
      var a := w.live[id];
      && !IsPart(a.dest)
      && id.pid in w.counters && id.count < w.counters[id.pid]
      && (!a.broken ==> Offered(events, a.dest, Body(a)))
      && (a.phase == Streaming ==> Temp(w, id) in w.files)
      && (a.phase == Flushed ==> !a.broken && Temp(w, id) in w.files && w.files[Temp(w, id)] == Body(a))
  }

  /** The destination is absent only if it was, and holds what it held or one whole response. */
  predicate Whole(start: World, w: World, events: seq<Event>, dest: Path) {
    && (dest in start.files ==> dest in w.files)
    && (dest in w.files ==>
          || (dest in start.files && w.files[dest] == start.files[dest])
          || Offered(events, dest, w.files[dest]))
  }

  ghost predicate Inv(start: World, w: World, events: seq<Event>) {
    && (forall id :: GoodAttempt(w, events, id))
    && (forall dest :: !IsPart(dest) ==> Whole(start, w, events, dest))
  }

  lemma OfferedStays(events: seq<Event>, e: Event)
    ensures forall dest, body :: Offered(events, dest, body) ==> Offered(events + [e], dest, body)
    ensures e.Begin? && !e.broken ==> Offered(events + [e], e.dest, Concat(e.chunks))
  {
    var more := events + [e];
    assert more[|events|] == e;
    forall dest, body | Offered(events, dest, body)
      ensures Offered(more, dest, body)
    {
      var i :| 0 <= i < |events| && IsOffer(events[i], dest, body);
      assert more[i] == events[i];
    }
  }

  /** What an event does not do: only a rename changes a destination, and no event of another attempt
      touches an attempt or its temporary file. */
  predicate ActsFor(w: World, e: Event, id: Id) {
    match e
    case Spawn(_) => false
    case Begin(pid, _, _, _, _) => pid in w.counters && id == Id(pid, w.counters[pid])
    case Crash(pid) => pid == id.pid
    case _ => e.id == id
  }

  lemma OthersLeaveIt(w: World, e: Event, id: Id)
    requires Enabled(w, e) && id in w.live && !ActsFor(w, e, id)
    requires forall other :: other in w.live ==> !IsPart(w.live[other].dest)
    ensures id in Apply(w, e).live && Apply(w, e).live[id] == w.live[id]
    ensures Temp(w, id) in Apply(w, e).files <==> Temp(w, id) in w.files
    ensures Temp(w, id) in w.files ==> Apply(w, e).files[Temp(w, id)] == w.files[Temp(w, id)]
  {
    hide TempPath, IsPart, Concat;
    var a := w.live[id];
    TempPathsAreDistinct(a.dest, id, a.dest, id);
    if e.Begin? {
      TempPathsAreDistinct(a.dest, id, e.dest, Id(e.pid, w.counters[e.pid]));
    } else if !e.Spawn? && !e.Crash? {
      TempPathsAreDistinct(a.dest, id, w.live[e.id].dest, e.id);
    }
  }

  lemma OnlyRenamesTouchDestinations(w: World, e: Event, dest: Path)
    requires Enabled(w, e) && !IsPart(dest)
    ensures !(e.Rename? && w.live[e.id].dest == dest) ==>
              && (dest in Apply(w, e).files <==> dest in w.files)
              && (dest in w.files ==> Apply(w, e).files[dest] == w.files[dest])
  {
    hide TempPath, IsPart, Concat;
    if e.Begin? {
      TempPathsAreDistinct(e.dest, Id(e.pid, w.counters[e.pid]), e.dest, Id(e.pid, w.counters[e.pid]));
    } else if !e.Spawn? && !e.Crash? {
      TempPathsAreDistinct(w.live[e.id].dest, e.id, w.live[e.id].dest, e.id);
    }
  }

  lemma ProperDestinations(start: World, w: World, events: seq<Event>)
    requires Inv(start, w, events)
    ensures forall id :: id in w.live ==> !IsPart(w.live[id].dest)
  {
    forall id | id in w.live
      ensures !IsPart(w.live[id].dest)
    {
      assert GoodAttempt(w, events, id);
    }
  }

  lemma StepKeepsAttempts(start: World, w: World, events: seq<Event>, e: Event, id: Id)
    requires Inv(start, w, events) && Enabled(w, e)
    ensures GoodAttempt(Apply(w, e), events + [e], id)
  {
    hide TempPath, IsPart, Concat, Offered, Whole;
    OfferedStays(events, e);
    assert GoodAttempt(w, events, id);
    if id in w.live && !ActsFor(w, e, id) {
      ProperDestinations(start, w, events);
      OthersLeaveIt(w, e, id);
    }
  }

  lemma StepKeepsDestinations(start: World, w: World, events: seq<Event>, e: Event, dest: Path)
    requires Inv(start, w, events) && Enabled(w, e) && !IsPart(dest)
    ensures Whole(start, Apply(w, e), events + [e], dest)
  {
    hide TempPath, IsPart, Concat, Offered;
    OfferedStays(events, e);
    assert Whole(start, w, events, dest);
    OnlyRenamesTouchDestinations(w, e, dest);
    if e.Rename? {
      assert GoodAttempt(w, events, e.id);
    }
  }

  lemma {:induction false} RunKeepsInv(start: World, events: seq<Event>)
    requires Start(start) && Runs(start, events)
    ensures Inv(start, After(start, events), events)
    decreases events
  {
    hide GoodAttempt, Whole, Enabled, Apply;
    if events == [] {
      InvAtStart(start);
    } else {
      var before, e := events[..|events| - 1], events[|events| - 1];
      var w := After(start, before);
      RunKeepsInv(start, before);
      assert before + [e] == events;
      forall id ensures GoodAttempt(Apply(w, e), events, id) { StepKeepsAttempts(start, w, before, e, id); }
      forall dest | !IsPart(dest) ensures Whole(start, Apply(w, e), events, dest) {
        StepKeepsDestinations(start, w, before, e, dest);
      }
    }
  }

  lemma InvAtStart(start: World)
    requires Start(start)
    ensures Inv(start, start, [])
  {
  }

  /** After any run, with failures and crashes anywhere, a destination is absent, as it was, or one
      whole response; running attempts do not share a temporary path. */
  lemma DownloadsAreSafe(start: World, events: seq<Event>)
    requires Start(start) && Runs(start, events)
    ensures forall dest :: !IsPart(dest) ==> Whole(start, After(start, events), events, dest)
    ensures var w := After(start, events);
            forall i, j :: i in w.live && j in w.live && i != j ==> Temp(w, i) != Temp(w, j)
  {
    RunKeepsInv(start, events);
    var w := After(start, events);
    forall i, j | i in w.live && j in w.live && i != j
      ensures Temp(w, i) != Temp(w, j)
    {
      TempPathsAreDistinct(w.live[i].dest, i, w.live[j].dest, j);
    }
  }

  /** A crash can strike a process at any point; its attempts are gone, and every file stays as it is. */
  lemma CrashStrikesAnywhere(w: World, pid: nat)
    requires pid in w.counters
    ensures Enabled(w, Crash(pid))
    ensures var after := Apply(w, Crash(pid));
            && after.files == w.files && pid !in after.counters
            && (forall id :: id in after.live <==> id in w.live && id.pid != pid)
            && (forall id :: id in after.live ==> after.live[id] == w.live[id])
  {
  }

  // ---- what is left behind ----

  predicate Leaves(e: Event) {
    e.Crash? || e.RenameFails? || e.RemoveFails?
  }

  /** A file is an old one, a destination or the temporary file of a running attempt. */
  predicate Accounted(start: World, w: World, p: Path) {
    p in w.files ==> p in start.files || !IsPart(p) || exists id :: id in w.live && Temp(w, id) == p
  }

  lemma StepLeavesNothing(start: World, w: World, events: seq<Event>, e: Event, p: Path)
    requires Inv(start, w, events) && Enabled(w, e) && !Leaves(e) && Accounted(start, w, p)
    ensures Accounted(start, Apply(w, e), p)
  {
    hide TempPath, IsPart, Concat, Offered, Whole;
    ProperDestinations(start, w, events);
    var w' := Apply(w, e);
    if p in w.files && p !in start.files && IsPart(p) {
      var id :| id in w.live && Temp(w, id) == p;
      assert GoodAttempt(w, events, id);
      if !ActsFor(w, e, id) {
        OthersLeaveIt(w, e, id);
        assert id in w'.live && Temp(w', id) == p;
      } else if id in w'.live {
        assert Temp(w', id) == p;
      }
    } else if e.Flush? {
      assert GoodAttempt(w, events, e.id);
    } else if p in w'.files && e.Begin? {
      var id := Id(e.pid, w.counters[e.pid]);
      assert id in w'.live && Temp(w', id) == TempPath(e.dest, id);
    }
  }

  /** Unless a process crashed, or a rename or the removal after a failure failed, nothing is left at a
      temporary path but what running attempts have there: once none runs, no temporary file is new. */
  lemma {:induction false} NothingIsLeft(start: World, events: seq<Event>)
    requires Start(start) && Runs(start, events) && forall e :: e in events ==> !Leaves(e)
    ensures forall p :: Accounted(start, After(start, events), p)
    decreases events
  {
    hide Enabled, Apply, Accounted, Inv, Leaves;
    if events == [] {
      forall p ensures Accounted(start, start, p) { AccountedAtStart(start, p); }
    } else {
      var before, e := events[..|events| - 1], events[|events| - 1];
      NothingIsLeft(start, before);
      RunKeepsInv(start, before);
      var w := After(start, before);
      assert e in events;
      forall p ensures Accounted(start, Apply(w, e), p) { StepLeavesNothing(start, w, before, e, p); }
    }
  }

  lemma AccountedAtStart(start: World, p: Path)
    ensures Accounted(start, start, p)
  {
  }

}
