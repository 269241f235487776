/** Re-keying the collapsed street table onto the names PRG publishes now, and the whole migration
    (scripts/migrate_legacy_street_mappings.py). */
module StreetRetarget {
  import opened Basics
  import opened StreetMigration

  /** PRG's current names: all of them, and by settlement. The export leaves out blank names. */
  datatype Vocabulary = Vocabulary(all: seq<string>, bySimc: map<string, set<string>>)

  predicate NoBlanks(v: Vocabulary) {
    "" !in v.all && forall simc :: simc in v.bySimc ==> "" !in v.bySimc[simc]
  }

  function Names(v: Vocabulary, simc: string): set<string> {
    if simc == "" then set name | name in v.all
    else if simc in v.bySimc then v.bySimc[simc] else {}
  }

  /** What a name becomes among the published ones: itself, else one that differs in case only, else
      one that differs in dots and spaces too, else nothing. */
  predicate Respelt(lower: string -> string, punct: string -> string, names: set<string>, prg: string,
                    current: Option<string>)
  {
    if prg in names then current == Some(prg)
    else if exists c :: c in names && lower(c) == lower(prg) then
      current.Some? && current.value in names && lower(current.value) == lower(prg)
    else if exists c :: c in names && punct(c) == punct(prg) then
      current.Some? && current.value in names && punct(current.value) == punct(prg)
    else current.None?
  }

  /** The first name whose image is `x`. */
  function FirstWith(names: seq<string>, f: string -> string, x: string): (first: Option<string>)
    ensures first.Some? ==> first.value in names && f(first.value) == x
    ensures first.None? <==> (forall name :: name in names ==> f(name) != x)
  {
    if names == [] then None
    else
      var last := names[|names| - 1];
      var before := FirstWith(names[..|names| - 1], f, x);
      assert names == names[..|names| - 1] + [last];
      if before.Some? then before else if f(last) == x then Some(last) else None
  }

  function Get(m: map<string, string>, x: string): Option<string> {
    if x in m then Some(m[x]) else None
  }

  method Index(names: seq<string>, f: string -> string) returns (m: map<string, string>)
    ensures forall x :: Get(m, x) == FirstWith(names, f, x)
  {
    m := map[];
    for i := 0 to |names|
      invariant forall x :: Get(m, x) == FirstWith(names[..i], f, x)
    {
      assert names[..i + 1][..i] == names[..i];
      if f(names[i]) !in m {
        m := m[f(names[i]) := names[i]];
      }
    }
    assert names[..|names|] == names;
  }

  /** The name among a settlement's; a set is searched in no particular order. */
  method RespellLocal(lower: string -> string, punct: string -> string, names: set<string>, prg: string)
    returns (current: Option<string>)
    ensures Respelt(lower, punct, names, prg, current)
  {
    if prg in names { return Some(prg); }
    var cased := set c | c in names && lower(c) == lower(prg);
    if cased != {} {
      var c :| c in cased;
      return Some(c);
    }
    assert forall c :: c in names && lower(c) == lower(prg) ==> c in cased;
    var spaced := set c | c in names && punct(c) == punct(prg);
    if spaced != {} {
      var c :| c in spaced;
      return Some(c);
    }
    assert forall c :: c in names && punct(c) == punct(prg) ==> c in spaced;
    return None;
  }

  /** A row under its current name; gone when it has none, or is global and says what PRG says. */
  function Rekeyed(row: OutRow, current: Option<string>): Option<OutRow> {
    if current.None? || (row.simc == "" && current.value == row.osm) then None
    else Some(row.(prg := current.value))
  }

  ghost predicate AllRespelt(lower: string -> string, punct: string -> string, v: Vocabulary,
                             rows: seq<OutRow>, spelling: seq<Option<string>>) {
    && |spelling| == |rows|
    && forall i :: 0 <= i < |rows| ==> Respelt(lower, punct, Names(v, rows[i].simc), rows[i].prg, spelling[i])
  }

  /** The rows that remain, in order. */
  function Remaining(rows: seq<OutRow>, spelling: seq<Option<string>>): seq<OutRow>
    requires |rows| == |spelling|
  {
    if rows == [] then []
    else
      var n := |rows| - 1;
      var row := Rekeyed(rows[n], spelling[n]);
      Remaining(rows[..n], spelling[..n]) + if row.Some? then [row.value] else []
  }

  lemma RemainingNone()
    ensures Remaining([], []) == []
  {
  }

  lemma RemainingNext(rows: seq<OutRow>, spelling: seq<Option<string>>, i: nat, current: Option<string>)
    requires i < |rows| && |spelling| == i
    ensures Remaining(rows[..i + 1], spelling + [current])
         == Remaining(rows[..i], spelling)
            + if Rekeyed(rows[i], current).Some? then [Rekeyed(rows[i], current).value] else []
  {
    hide Rekeyed;
    assert rows[..i + 1][..i] == rows[..i] && (spelling + [current])[..i] == spelling;
  }

  method RekeyAll(lower: string -> string, punct: string -> string, v: Vocabulary, rows: seq<OutRow>)
    returns (result: seq<OutRow>, spelling: seq<Option<string>>)
    requires NoBlanks(v)
    ensures AllRespelt(lower, punct, v, rows, spelling) && result == Remaining(rows, spelling)
  {
    hide Respelt, Rekeyed, Remaining, FirstWith, Get;
    var byLower := Index(v.all, lower);
    var byPunct := Index(v.all, punct);
    result, spelling := [], [];
    RemainingNone();
    for i := 0 to |rows|
      invariant AllRespelt(lower, punct, v, rows[..i], spelling)
      invariant result == Remaining(rows[..i], spelling)
    {
      var row := rows[i];
      var current: Option<string>;
      if row.simc != "" {
        current := RespellLocal(lower, punct, Names(v, row.simc), row.prg);
      } else if row.prg in v.all {
        current := Some(row.prg);
        GlobalIsRespelt(lower, punct, v, row.prg, current);
      } else {
        current := Get(byLower, lower(row.prg));
        if current.None? {
          current := Get(byPunct, punct(row.prg));
        }
        GlobalIsRespelt(lower, punct, v, row.prg, current);
      }
      RemainingNext(rows, spelling, i, current);
      spelling := spelling + [current];
      var kept := Rekeyed(row, current);
      if kept.Some? {
        result := result + [kept.value];
      }
    }
    assert rows[..|rows|] == rows;
  }

  lemma GlobalIsRespelt(lower: string -> string, punct: string -> string, v: Vocabulary, prg: string,
                        current: Option<string>)
    requires var cased := FirstWith(v.all, lower, lower(prg));
             current == if prg in v.all then Some(prg)
                        else if cased.Some? then cased else FirstWith(v.all, punct, punct(prg))
    ensures Respelt(lower, punct, Names(v, ""), prg, current)
  {
    var names := Names(v, "");
    assert forall name :: name in names <==> name in v.all;
  }

  predicate Contradict(lower: string -> string, a: OutRow, b: OutRow) {
    SameKey(lower, a, b) && a.osm != b.osm
  }

  predicate Contradicts(lower: string -> string, rows: seq<OutRow>) {
    exists a, b :: a in rows && b in rows && Contradict(lower, a, b)
  }

  /** One row is left of each settlement and lower-cased name, with the target all of them agree on. */
  predicate Deduped(lower: string -> string, rows: seq<OutRow>, result: seq<OutRow>) {
    && Unique(lower, result)
    && (forall o :: o in result ==> o in rows)
    && (forall o :: o in rows ==> HasAgreeing(lower, result, o))
  }

  predicate HasAgreeing(lower: string -> string, result: seq<OutRow>, o: OutRow) {
    exists p :: p in result && SameKey(lower, p, o) && p.osm == o.osm
  }

  /** Keeps the first row of each key; any row that contradicts it stops the migration. */
  method Dedup(lower: string -> string, rows: seq<OutRow>) returns (r: Result<seq<OutRow>>)
    ensures r.Ok? <==> !Contradicts(lower, rows)
    ensures r.Ok? ==> Deduped(lower, rows, r.value)
    ensures r.Exits? ==> r.reason == RekeyConflict
  {
    hide HasAgreeing;
    var seen: map<(string, string), string> := map[];
    var deduped: seq<OutRow> := [];
    var conflicts := 0;
    for i := 0 to |rows|
      invariant Unique(lower, deduped)
      invariant forall o :: o in deduped ==> o in rows[..i]
      invariant forall o :: o in deduped ==> (o.simc, lower(o.prg)) in seen && seen[(o.simc, lower(o.prg))] == o.osm
      invariant forall k :: k in seen ==> SeenBy(lower, deduped, k, seen[k])
      invariant conflicts == 0 ==> forall o :: o in rows[..i] ==> HasAgreeing(lower, deduped, o)
      invariant conflicts > 0 ==> Contradicts(lower, rows)
    {
      var o := rows[i];
      var k := (o.simc, lower(o.prg));
      assert rows[..i + 1] == rows[..i] + [o];
      if k in seen {
        Agreement(lower, rows, deduped, o, seen[k]);
        if seen[k] != o.osm {
          conflicts := conflicts + 1;
        }
      } else {
        seen := seen[k := o.osm];
        AddOne(lower, deduped, o);
        deduped := deduped + [o];
      }
    }
    assert rows[..|rows|] == rows;
    if conflicts > 0 { return Exits(RekeyConflict); }
    DedupedAgrees(lower, rows, deduped);
    return Ok(deduped);
  }

  predicate SeenBy(lower: string -> string, deduped: seq<OutRow>, k: (string, string), osm: string) {
    exists p :: p in deduped && p.simc == k.0 && lower(p.prg) == k.1 && p.osm == osm
  }

  lemma Agreement(lower: string -> string, rows: seq<OutRow>, deduped: seq<OutRow>, o: OutRow, osm: string)
    requires o in rows && SeenBy(lower, deduped, (o.simc, lower(o.prg)), osm) && forall p :: p in deduped ==> p in rows
    ensures osm == o.osm ==> HasAgreeing(lower, deduped, o)
    ensures osm != o.osm ==> Contradicts(lower, rows)
  {
    var p :| p in deduped && p.simc == o.simc && lower(p.prg) == lower(o.prg) && p.osm == osm;
    if osm != o.osm {
      assert Contradict(lower, p, o);
    } else {
      assert SameKey(lower, p, o);
    }
  }

  lemma AddOne(lower: string -> string, deduped: seq<OutRow>, o: OutRow)
    ensures forall p :: HasAgreeing(lower, deduped, p) ==> HasAgreeing(lower, deduped + [o], p)
    ensures HasAgreeing(lower, deduped + [o], o)
    ensures forall k, osm :: SeenBy(lower, deduped, k, osm) ==> SeenBy(lower, deduped + [o], k, osm)
    ensures SeenBy(lower, deduped + [o], (o.simc, lower(o.prg)), o.osm)
  {
    var more := deduped + [o];
    forall p | HasAgreeing(lower, deduped, p)
      ensures HasAgreeing(lower, more, p)
    {
      var q :| q in deduped && SameKey(lower, q, p) && q.osm == p.osm;
      assert q in more;
    }
    forall k, osm | SeenBy(lower, deduped, k, osm)
      ensures SeenBy(lower, more, k, osm)
    {
      var q :| q in deduped && q.simc == k.0 && lower(q.prg) == k.1 && q.osm == osm;
      assert q in more;
    }
    assert o in more && SameKey(lower, o, o);
  }

  lemma DedupedAgrees(lower: string -> string, rows: seq<OutRow>, deduped: seq<OutRow>)
    requires Deduped(lower, rows, deduped)
    ensures !Contradicts(lower, rows)
  {
    forall a, b | a in rows && b in rows && SameKey(lower, a, b)
      ensures a.osm == b.osm
    {
      assert HasAgreeing(lower, deduped, a) && HasAgreeing(lower, deduped, b);
      var p :| p in deduped && SameKey(lower, p, a) && p.osm == a.osm;
      var q :| q in deduped && SameKey(lower, q, b) && q.osm == b.osm;
      var i :| 0 <= i < |deduped| && deduped[i] == p;
      var j :| 0 <= j < |deduped| && deduped[j] == q;
      assert SameKey(lower, p, q) && SameKey(lower, q, p);
    }
  }

  // ---- the migration ----

  predicate ReferencesPresent(d: Decisions, rows: seq<SourceRow>) {
    d.keepExceptions + d.dropRows + d.fixRows.Keys - Present(rows) == {}
  }

  predicate FixesUsed(d: Decisions, targets: set<string>) {
    d.fixTargets.Keys - targets == {}
  }

  /** The migration exits exactly when a decision is missing, stale or refers to nothing, or when rows
      clash before or after re-keying; otherwise the collapsed list keeps the meaning of the source and
      what is written is that list, re-keyed. */
  method Migrate(d: Decisions, lower: string -> string, punct: string -> string, v: Vocabulary, raw: seq<OutRow>)
    returns (r: Result<seq<OutRow>>, ghost collapsed: seq<OutRow>, ghost spelling: seq<Option<string>>)
    requires ProperDecisions(d) && NoBlanks(v)
    ensures var rows := SourceRows(d, lower, raw);
            r.Ok? ==>
              && Decided(d, rows) && UpToDate(d, rows) && !Clashes(d, rows)
              && ReferencesPresent(d, rows) && FixesUsed(d, RawTargets(raw))
              && Preserves(d, lower, rows, collapsed)
              && AllRespelt(lower, punct, v, collapsed, spelling)
              && Deduped(lower, Remaining(collapsed, spelling), r.value)
    ensures var rows := SourceRows(d, lower, raw);
            && (r == Exits(Undecided) <==> !Decided(d, rows))
            && (r == Exits(Stale) <==> Decided(d, rows) && !UpToDate(d, rows))
            && (r == Exits(Conflict) <==> Decided(d, rows) && UpToDate(d, rows) && Clashes(d, rows))
            && (r == Exits(StaleReference) ==> !ReferencesPresent(d, rows))
            && (r == Exits(UnusedFix) ==> !FixesUsed(d, RawTargets(raw)))
    ensures r == Exits(RekeyConflict) ==>
              && Preserves(d, lower, SourceRows(d, lower, raw), collapsed)
              && AllRespelt(lower, punct, v, collapsed, spelling)
              && Contradicts(lower, Remaining(collapsed, spelling))
    ensures r.Ok? ==> ServesTheFile(d, lower, raw, collapsed)
    ensures r == Exits(StaleReference) ==> !ReferencesInSource(d, lower, raw)
    ensures r == Exits(UnusedFix) ==> ReferencesInSource(d, lower, raw) && !FixesInSource(d, raw)
    ensures r in {Exits(StaleReference), Exits(UnusedFix)} ==>
              && AllRespelt(lower, punct, v, collapsed, spelling)
              && !Contradicts(lower, Remaining(collapsed, spelling))
    ensures r.Ok? ==> ReferencesInSource(d, lower, raw) && FixesInSource(d, raw)
  {
    hide Preserves, Clashes, Remaining, Contradicts, Deduped, Respelt, Unique;
    hide ServesTheFile, ReferencesInSource, FixesInSource;
    hide AllRead, AsDecided, AtOdds, OneTarget, Resolve, Decided, UpToDate, ReferencesPresent, FixesUsed, SourceRows;
    hide RawTargets, Keyed, AllRespelt;
    collapsed, spelling := [], [];
    var rows, targets := ReadRows(d, lower, raw);
    ReadsKeyed(d, lower, raw);
    var out := Collapse(d, lower, rows);
    if out.Exits? { return out, [], []; }
    collapsed := out.value;
    var result: seq<OutRow>;
    result, spelling := RekeyAll(lower, punct, v, out.value);
    r := Dedup(lower, result);
    if r.Exits? { return r, collapsed, spelling; }
    ReferencesMean(d, lower, raw);
    FixesMean(d, raw);
    if !ReferencesPresent(d, rows) { return Exits(StaleReference), collapsed, spelling; }
    if !FixesUsed(d, targets) { return Exits(UnusedFix), collapsed, spelling; }
    FileIsServed(d, lower, raw, collapsed);
  }

  predicate InSource(lower: string -> string, raw: seq<OutRow>, simc: string, k: string) {
    exists o :: o in raw && Named(o) && o.simc == simc && lower(o.prg) == k
  }

  /** Every row that a decision names is in the file. */
  ghost predicate ReferencesInSource(d: Decisions, lower: string -> string, raw: seq<OutRow>) {
    forall e :: e in d.keepExceptions || e in d.dropRows || e in d.fixRows ==> InSource(lower, raw, e.0, e.1)
  }

  /** Every correction corrects something. */
  ghost predicate FixesInSource(d: Decisions, raw: seq<OutRow>) {
    forall target :: target in d.fixTargets ==> exists o :: o in raw && Named(o) && o.osm == target
  }

  /** What a row of the file asks for is what its name resolves to. */
  ghost predicate ServesTheFile(d: Decisions, lower: string -> string, raw: seq<OutRow>, collapsed: seq<OutRow>) {
    forall o :: (o in raw && Named(o) && lower(o.prg) !in d.dropKeys && (o.simc, lower(o.prg)) !in d.dropRows) ==>
      var found := Resolve(lower, collapsed, o.simc, lower(o.prg));
      found.Some? && AsDecided(d, SourceRows(d, lower, raw), AsRead(d, lower, o), found.value)
  }

  lemma FileIsServed(d: Decisions, lower: string -> string, raw: seq<OutRow>, collapsed: seq<OutRow>)
    requires Preserves(d, lower, SourceRows(d, lower, raw), collapsed)
    ensures ServesTheFile(d, lower, raw, collapsed)
  {
    hide SourceRows, Preserves, Resolve, AsDecided;
    SourceRowsAreRead(d, lower, raw);
    ResolvesAsDecided(d, lower, SourceRows(d, lower, raw), collapsed);
  }

  lemma PresentMeansInSource(d: Decisions, lower: string -> string, raw: seq<OutRow>, rows: seq<SourceRow>,
                             e: (string, string))
    requires AllRead(d, lower, raw, rows)
    ensures e in Present(rows) <==> InSource(lower, raw, e.0, e.1)
  {
    if e in Present(rows) {
      var r :| r in rows && (r.simc, r.key) == e;
      assert IsRead(d, lower, raw, r);
      var o :| o in raw && Named(o) && AsRead(d, lower, o) == r;
    }
    if InSource(lower, raw, e.0, e.1) {
      var o :| o in raw && Named(o) && o.simc == e.0 && lower(o.prg) == e.1;
      assert AsRead(d, lower, o) in rows;
    }
  }

  lemma ReferencesMean(d: Decisions, lower: string -> string, raw: seq<OutRow>)
    ensures ReferencesPresent(d, SourceRows(d, lower, raw)) <==> ReferencesInSource(d, lower, raw)
  {
    hide SourceRows, InSource, AllRead, Present;
    var rows := SourceRows(d, lower, raw);
    SourceRowsAreRead(d, lower, raw);
    var named := d.keepExceptions + d.dropRows + d.fixRows.Keys;
    assert forall e :: e in named <==> e in d.keepExceptions || e in d.dropRows || e in d.fixRows;
    forall e: (string, string)
      ensures e in Present(rows) <==> InSource(lower, raw, e.0, e.1)
    {
      PresentMeansInSource(d, lower, raw, rows, e);
    }
    assert ReferencesPresent(d, rows) <==> named - Present(rows) == {};
    if e :| e in named && e !in Present(rows) {
      assert e in named - Present(rows);
    }
  }

  lemma FixesMean(d: Decisions, raw: seq<OutRow>)
    ensures FixesUsed(d, RawTargets(raw)) <==> FixesInSource(d, raw)
  {
    if target :| target in d.fixTargets && target !in RawTargets(raw) {
      assert target in d.fixTargets.Keys - RawTargets(raw);
    }
  }

  lemma {:induction false} ReadsKeyed(d: Decisions, lower: string -> string, raw: seq<OutRow>)
    ensures Keyed(lower, SourceRows(d, lower, raw))
    decreases |raw|
  {
    if raw != [] { ReadsKeyed(d, lower, raw[..|raw| - 1]); }
  }

  // ---- what is written ----

  lemma {:induction false} RemainingHas(rows: seq<OutRow>, spelling: seq<Option<string>>)
    requires |rows| == |spelling|
    ensures forall i :: 0 <= i < |rows| && Rekeyed(rows[i], spelling[i]).Some?
                        ==> Rekeyed(rows[i], spelling[i]).value in Remaining(rows, spelling)
    ensures forall o :: o in Remaining(rows, spelling)
                        ==> exists i :: 0 <= i < |rows| && Rekeyed(rows[i], spelling[i]) == Some(o)
    decreases |rows|
  {
    if rows != [] {
      var n := |rows| - 1;
      RemainingHas(rows[..n], spelling[..n]);
      forall o | o in Remaining(rows, spelling)
        ensures exists i :: 0 <= i < |rows| && Rekeyed(rows[i], spelling[i]) == Some(o)
      {
        if o in Remaining(rows[..n], spelling[..n]) {
          var i :| 0 <= i < n && Rekeyed(rows[..n][i], spelling[..n][i]) == Some(o);
          assert Rekeyed(rows[i], spelling[i]) == Some(o);
        } else {
          assert Rekeyed(rows[n], spelling[n]) == Some(o);
        }
      }
    }
  }

  lemma RespeltIsPublished(lower: string -> string, punct: string -> string, names: set<string>, prg: string,
                           current: Option<string>)
    requires Respelt(lower, punct, names, prg, current)
    ensures current.Some? ==> current.value in names
  {
  }

  /** No settlement has a name twice in what is written, in any casing, and every name is one that PRG
      publishes, for the settlement of the row where it has one. */
  lemma WrittenNames(lower: string -> string, punct: string -> string, v: Vocabulary, collapsed: seq<OutRow>,
                     spelling: seq<Option<string>>, written: seq<OutRow>)
    requires AllRespelt(lower, punct, v, collapsed, spelling)
    requires Deduped(lower, Remaining(collapsed, spelling), written)
    ensures forall i, j :: 0 <= i < |written| && 0 <= j < |written| && SameKey(lower, written[i], written[j]) ==> i == j
    ensures forall o :: o in written ==> o.prg in Names(v, o.simc)
  {
    hide Remaining, Respelt, Names, HasAgreeing;
    RemainingHas(collapsed, spelling);
    forall o | o in written
      ensures o.prg in Names(v, o.simc)
    {
      var i :| 0 <= i < |collapsed| && Rekeyed(collapsed[i], spelling[i]) == Some(o);
      RespeltIsPublished(lower, punct, Names(v, collapsed[i].simc), collapsed[i].prg, spelling[i]);
    }
    forall i, j | 0 <= i < |written| && 0 <= j < |written| && SameKey(lower, written[i], written[j])
      ensures i == j
    {
      assert SameKey(lower, written[j], written[i]);
    }
  }

  /** The collapsed row that a source row's name resolves to. */
  predicate Serves(lower: string -> string, collapsed: seq<OutRow>, i: nat, r: SourceRow) {
    && i < |collapsed|
    && (|| Matches(lower, collapsed[i], r.simc, r.key)
        || (Matches(lower, collapsed[i], "", r.key) && Find(lower, collapsed, r.simc, r.key).None?))
  }

  lemma WrittenFor(lower: string -> string, rows: seq<OutRow>, written: seq<OutRow>, row: OutRow)
    requires Deduped(lower, rows, written) && row in rows
    ensures Find(lower, written, row.simc, lower(row.prg)) == Some(row.osm)
  {
    hide Unique;
    assert HasAgreeing(lower, written, row);
    var p :| p in written && SameKey(lower, p, row) && p.osm == row.osm;
    var j :| 0 <= j < |written| && written[j] == p;
    FindsItsRow(lower, written, j);
  }

  /** PRG's two lists come from one table: a settlement's names are among all names. */
  predicate Consistent(v: Vocabulary) {
    forall simc :: simc in v.bySimc ==> forall name :: name in v.bySimc[simc] ==> name in v.all
  }

  /** What a name of the settlement is served as: the settlement's row, the global row, or itself. */
  function Served(lower: string -> string, written: seq<OutRow>, simc: string, name: string): string {
    var found := Resolve(lower, written, simc, lower(name));
    if found.Some? then found.value else name
  }

  /** Row `j`, re-keyed, is one for the settlement and the lower-cased name. */
  predicate Lands(lower: string -> string, collapsed: seq<OutRow>, spelling: seq<Option<string>>, j: nat,
                  simc: string, k: string)
    requires |spelling| == |collapsed|
  {
    && j < |collapsed|
    && Rekeyed(collapsed[j], spelling[j]).Some?
    && Matches(lower, Rekeyed(collapsed[j], spelling[j]).value, simc, k)
  }

  ghost predicate SomeLands(lower: string -> string, collapsed: seq<OutRow>, spelling: seq<Option<string>>,
                            simc: string, k: string)
    requires |spelling| == |collapsed|
  {
    exists j: nat :: Lands(lower, collapsed, spelling, j, simc, k)
  }

  /** Some row with another target lands on the name. */
  ghost predicate OtherLands(lower: string -> string, collapsed: seq<OutRow>, spelling: seq<Option<string>>,
                             simc: string, k: string, target: string)
    requires |spelling| == |collapsed|
  {
    exists j: nat :: Lands(lower, collapsed, spelling, j, simc, k) && collapsed[j].osm != target
  }

  lemma FindsALandedRow(lower: string -> string, collapsed: seq<OutRow>, spelling: seq<Option<string>>,
                        written: seq<OutRow>, j: nat, simc: string, k: string)
    requires |spelling| == |collapsed| && Deduped(lower, Remaining(collapsed, spelling), written)
    requires Lands(lower, collapsed, spelling, j, simc, k)
    ensures Find(lower, written, simc, k) == Some(collapsed[j].osm)
  {
    hide Remaining, Deduped, Find, Rekeyed;
    RemainingHas(collapsed, spelling);
    RekeyedKeeps(collapsed[j], spelling[j]);
    WrittenFor(lower, Remaining(collapsed, spelling), written, Rekeyed(collapsed[j], spelling[j]).value);
  }

  lemma FoundMeansLanded(lower: string -> string, collapsed: seq<OutRow>, spelling: seq<Option<string>>,
                         written: seq<OutRow>, simc: string, k: string)
    requires |spelling| == |collapsed| && Deduped(lower, Remaining(collapsed, spelling), written)
    requires Find(lower, written, simc, k).Some?
    ensures SomeLands(lower, collapsed, spelling, simc, k)
  {
    hide Remaining, HasAgreeing, Unique, Rekeyed, Find;
    var o :| o in written && Matches(lower, o, simc, k);
    RemainingComesFrom(collapsed, spelling, o);
    var j: nat :| j < |collapsed| && Rekeyed(collapsed[j], spelling[j]) == Some(o);
    assert Lands(lower, collapsed, spelling, j, simc, k);
  }

  lemma RemainingComesFrom(collapsed: seq<OutRow>, spelling: seq<Option<string>>, o: OutRow)
    requires |spelling| == |collapsed| && o in Remaining(collapsed, spelling)
    ensures exists j: nat :: j < |collapsed| && Rekeyed(collapsed[j], spelling[j]) == Some(o)
  {
    hide Remaining, Rekeyed;
    RemainingHas(collapsed, spelling);
  }

  /** A search in what is written finds what the rows that land there say, which is one thing. */
  lemma FindsWhatLands(lower: string -> string, collapsed: seq<OutRow>, spelling: seq<Option<string>>,
                       written: seq<OutRow>, simc: string, k: string)
    requires |spelling| == |collapsed| && Deduped(lower, Remaining(collapsed, spelling), written)
    ensures var found := Find(lower, written, simc, k);
            && (found.Some? <==> SomeLands(lower, collapsed, spelling, simc, k))
            && (forall target :: found.Some? ==>
                  (OtherLands(lower, collapsed, spelling, simc, k, target) <==> found.value != target))
            && (forall target :: found.None? ==> !OtherLands(lower, collapsed, spelling, simc, k, target))
  {
    hide Remaining, Deduped, Rekeyed, Find;
    forall j: nat | Lands(lower, collapsed, spelling, j, simc, k)
      ensures Find(lower, written, simc, k) == Some(collapsed[j].osm)
    {
      FindsALandedRow(lower, collapsed, spelling, written, j, simc, k);
    }
    if Find(lower, written, simc, k).Some? {
      FoundMeansLanded(lower, collapsed, spelling, written, simc, k);
    }
  }

  lemma RekeyedKeeps(row: OutRow, current: Option<string>)
    requires Rekeyed(row, current).Some?
    ensures Rekeyed(row, current) == Some(row.(prg := current.value))
  {
  }

  /** A name that is published for the row's scope goes on to a published name that differs in case only. */
  lemma StaysUnderItsKey(lower: string -> string, punct: string -> string, v: Vocabulary, collapsed: seq<OutRow>,
                         spelling: seq<Option<string>>, i: nat, simc: string, name: string)
    requires AllRespelt(lower, punct, v, collapsed, spelling) && Consistent(v)
    requires i < |collapsed| && name in Names(v, simc) && collapsed[i].simc in {"", simc}
    requires lower(collapsed[i].prg) == lower(name)
    ensures spelling[i].Some? && lower(spelling[i].value) == lower(name)
  {
    assert name in Names(v, collapsed[i].simc);
    assert Respelt(lower, punct, Names(v, collapsed[i].simc), collapsed[i].prg, spelling[i]);
  }

  /** Every kept source row is served by a row of the collapsed list. */
  lemma ServedByARow(d: Decisions, lower: string -> string, rows: seq<SourceRow>, collapsed: seq<OutRow>, r: SourceRow)
    returns (i: nat)
    requires Preserves(d, lower, rows, collapsed) && r in rows && Kept(d, r)
    ensures Serves(lower, collapsed, i, r) && collapsed[i].osm == Target(d, Ambiguous(rows), r)
  {
    hide Target, Ambiguous, Kept, WellSpelt, RowsOf, Unique;
    assert Resolve(lower, collapsed, r.simc, r.key) == Some(Target(d, Ambiguous(rows), r));
    var scope := if Find(lower, collapsed, r.simc, r.key).Some? then r.simc else "";
    var o :| o in collapsed && Matches(lower, o, scope, r.key);
    i :| 0 <= i < |collapsed| && collapsed[i] == o;
    FindsItsRow(lower, collapsed, i);
  }

  /** Whether re-keying leaves a row that serves a name in charge of it. A settlement's own row stays in
      charge. A global row does unless a row of the settlement that says something else was re-keyed onto
      the name; and where it was dropped because it said what PRG says, unless no row of the settlement and
      another global row came to stand there, or PRG's casing is another. */
  ghost predicate StaysInCharge(lower: string -> string, collapsed: seq<OutRow>, spelling: seq<Option<string>>,
                                i: nat, simc: string, name: string)
    requires |spelling| == |collapsed| && i < |collapsed|
  {
    var (k, target) := (lower(name), collapsed[i].osm);
    collapsed[i].simc == "" ==>
      && !OtherLands(lower, collapsed, spelling, simc, k, target)
      && (|| Rekeyed(collapsed[i], spelling[i]).Some?
          || SomeLands(lower, collapsed, spelling, simc, k)
          || (!OtherLands(lower, collapsed, spelling, "", k, target)
              && (SomeLands(lower, collapsed, spelling, "", k) || name == target)))
  }

  /** A kept source row whose name PRG publishes in its settlement, in whatever casing, is served as its
      target exactly when the row that serves it stays in charge. Where that row was not dropped, the
      settlement-then-global lookup finds the target exactly when no row of the settlement with another
      target was re-keyed onto the name. */
  lemma MeaningIsKept(d: Decisions, lower: string -> string, punct: string -> string, v: Vocabulary,
                      rows: seq<SourceRow>,
                      collapsed: seq<OutRow>, spelling: seq<Option<string>>, written: seq<OutRow>, r: SourceRow, i: nat,
                      name: string)
    requires Preserves(d, lower, rows, collapsed) && AllRespelt(lower, punct, v, collapsed, spelling)
    requires Deduped(lower, Remaining(collapsed, spelling), written) && Consistent(v)
    requires r in rows && Kept(d, r) && Serves(lower, collapsed, i, r)
    requires name in Names(v, r.simc) && lower(name) == r.key
    ensures Served(lower, written, r.simc, name) == Target(d, Ambiguous(rows), r)
            <==> StaysInCharge(lower, collapsed, spelling, i, r.simc, name)
    ensures Rekeyed(collapsed[i], spelling[i]).Some? ==>
              (Resolve(lower, written, r.simc, r.key) == Some(Target(d, Ambiguous(rows), r))
               <==> !OtherLands(lower, collapsed, spelling, r.simc, r.key, Target(d, Ambiguous(rows), r)))
  {
    hide Target, Ambiguous, Kept, Remaining, Preserves, Deduped, AllRespelt, Consistent, Names;
    hide SomeLands, OtherLands, Find, Rekeyed;
    var target := Target(d, Ambiguous(rows), r);
    TargetOfServing(d, lower, rows, collapsed, r, i);
    SizesAgree(lower, punct, v, collapsed, spelling);
    StaysUnderItsKey(lower, punct, v, collapsed, spelling, i, r.simc, name);
    FindsWhatLands(lower, collapsed, spelling, written, r.simc, r.key);
    FindsWhatLands(lower, collapsed, spelling, written, "", r.key);
    if Rekeyed(collapsed[i], spelling[i]).Some? {
      RekeyedKeeps(collapsed[i], spelling[i]);
      LandsItself(lower, collapsed, spelling, i, collapsed[i].simc, r.key);
      FindsALandedRow(lower, collapsed, spelling, written, i, collapsed[i].simc, r.key);
    } else {
      OnlyGlobalsGo(collapsed[i], spelling[i]);
    }
  }

  lemma LandsItself(lower: string -> string, collapsed: seq<OutRow>, spelling: seq<Option<string>>, j: nat,
                    simc: string, k: string)
    requires |spelling| == |collapsed| && Lands(lower, collapsed, spelling, j, simc, k)
    ensures SomeLands(lower, collapsed, spelling, simc, k)
  {
  }

  lemma OnlyGlobalsGo(row: OutRow, current: Option<string>)
    requires current.Some? && Rekeyed(row, current).None?
    ensures row.simc == "" && row.osm == current.value
  {
  }

  lemma SizesAgree(lower: string -> string, punct: string -> string, v: Vocabulary, collapsed: seq<OutRow>,
                   spelling: seq<Option<string>>)
    requires AllRespelt(lower, punct, v, collapsed, spelling)
    ensures |spelling| == |collapsed|
  {
  }

  lemma TargetOfServing(d: Decisions, lower: string -> string, rows: seq<SourceRow>, collapsed: seq<OutRow>,
                        r: SourceRow, i: nat)
    requires Preserves(d, lower, rows, collapsed) && r in rows && Kept(d, r) && Serves(lower, collapsed, i, r)
    ensures collapsed[i].osm == Target(d, Ambiguous(rows), r)
  {
    hide Target, Ambiguous, Kept, WellSpelt, RowsOf, Unique;
    assert Resolve(lower, collapsed, r.simc, r.key) == Some(Target(d, Ambiguous(rows), r));
    FindsItsRow(lower, collapsed, i);
  }

  // ---- a re-keyed row that shadows the global one ----

  /** PRG writes a name as `near` in settlement `s` and as `far` in `t`. The source maps `near` to `a` in
      `s`, and `far`, which is left to the settlements, to `x` and `y`. */
  datatype Shadowing =
    Shadowing(s: string, t: string, near: string, far: string, a: string, x: string, y: string)
  {
    predicate Proper(lower: string -> string, punct: string -> string) {
      && s != "" && t != "" && s != t && near != "" && far != "" && near != far
      && lower(near) == near && lower(far) == far && punct(near) == punct(far)
      && a != near && x != a && x != y
    }

    function Tables(): Decisions {
      Decisions(map[], {far}, {}, {}, map[], map[], {})
    }

    function Published(): Vocabulary {
      Vocabulary([near, far], map[s := {near}, t := {far}])
    }

    function Source(): seq<SourceRow> {
      [SourceRow(s, near, near, a), SourceRow(s, far, far, x), SourceRow(t, far, far, y)]
    }

    function Collapsed(): seq<OutRow> {
      [OutRow("", near, a), OutRow(s, far, x), OutRow(t, far, y)]
    }

    function Spelling(): seq<Option<string>> {
      [Some(near), Some(near), Some(far)]
    }

    function Written(): seq<OutRow> {
      [OutRow("", near, a), OutRow(s, near, x), OutRow(t, far, y)]
    }
  }

  /** The migration does not exit on this source, and in `s` the name `near` resolved to `a` in the
      collapsed list but resolves to `x` in what is written: the settlement's row for `far`, which PRG does
      not publish there, was re-keyed onto `near`. */
  lemma AReKeyedRowShadows(lower: string -> string, punct: string -> string, c: Shadowing)
    requires c.Proper(lower, punct)
    ensures ProperDecisions(c.Tables()) && NoBlanks(c.Published()) && Consistent(c.Published())
    ensures Decided(c.Tables(), c.Source()) && UpToDate(c.Tables(), c.Source()) && !Clashes(c.Tables(), c.Source())
    ensures Preserves(c.Tables(), lower, c.Source(), c.Collapsed())
    ensures AllRespelt(lower, punct, c.Published(), c.Collapsed(), c.Spelling())
    ensures Deduped(lower, Remaining(c.Collapsed(), c.Spelling()), c.Written())
    ensures Resolve(lower, c.Collapsed(), c.s, c.near) == Some(c.a)
    ensures Resolve(lower, c.Written(), c.s, c.near) == Some(c.x)
  {
    hide Preserves, AllRespelt, Deduped, Remaining, Resolve, Decided, UpToDate, Clashes;
    ShadowingDecided(lower, punct, c);
    ShadowingResolves(lower, punct, c);
    ShadowingPreserves(lower, punct, c);
    ShadowingRespelt(lower, punct, c);
    ShadowingWritten(lower, punct, c);
  }

  lemma ShadowingRespelt(lower: string -> string, punct: string -> string, c: Shadowing)
    requires c.Proper(lower, punct)
    ensures AllRespelt(lower, punct, c.Published(), c.Collapsed(), c.Spelling())
  {
  }

  lemma ShadowingDecided(lower: string -> string, punct: string -> string, c: Shadowing)
    requires c.Proper(lower, punct)
    ensures Decided(c.Tables(), c.Source()) && UpToDate(c.Tables(), c.Source()) && !Clashes(c.Tables(), c.Source())
  {
    hide Ambiguous;
    ShadowingAmbiguous(lower, punct, c);
  }

  lemma ShadowingResolves(lower: string -> string, punct: string -> string, c: Shadowing)
    requires c.Proper(lower, punct)
    ensures Resolve(lower, c.Collapsed(), c.s, c.near) == Some(c.a)
    ensures forall r :: r in c.Source()
              ==> Resolve(lower, c.Collapsed(), r.simc, r.key) == Some(Target(c.Tables(), Ambiguous(c.Source()), r))
  {
    hide Find, Ambiguous;
    ShadowingAmbiguous(lower, punct, c);
    ShadowingFinds(lower, punct, c);
  }

  lemma ShadowingPreserves(lower: string -> string, punct: string -> string, c: Shadowing)
    requires c.Proper(lower, punct)
    ensures Preserves(c.Tables(), lower, c.Source(), c.Collapsed())
  {
    hide Resolve, Target, RowsOf, IsMostCommon, Ambiguous;
    var rows := c.Source();
    ShadowingResolves(lower, punct, c);
    ShadowingForm(lower, punct, c);
    assert rows[0] in rows && rows[1] in rows && rows[2] in rows;
  }

  lemma ShadowingAmbiguous(lower: string -> string, punct: string -> string, c: Shadowing)
    requires c.Proper(lower, punct)
    ensures Ambiguous(c.Source()) == {c.far}
  {
    var rows := c.Source();
    assert rows[1] in rows && rows[2] in rows;
  }

  lemma ShadowingFinds(lower: string -> string, punct: string -> string, c: Shadowing)
    requires c.Proper(lower, punct)
    ensures Find(lower, c.Collapsed(), c.s, c.far) == Some(c.x) && Find(lower, c.Collapsed(), c.t, c.far) == Some(c.y)
    ensures Find(lower, c.Collapsed(), c.s, c.near).None? && Find(lower, c.Collapsed(), "", c.near) == Some(c.a)
  {
    var rows := c.Collapsed();
    var (two, one) := ([rows[1], rows[2]], [rows[2]]);
    assert rows[1..] == two && two[1..] == one && one[1..] == [];
    assert Find(lower, one, c.t, c.far) == Some(c.y) && Find(lower, two, c.t, c.far) == Some(c.y);
  }

  lemma ShadowingForm(lower: string -> string, punct: string -> string, c: Shadowing)
    requires c.Proper(lower, punct)
    ensures IsMostCommon(RowsOf(c.Tables(), c.Source(), c.near), c.near)
  {
    var (d, rows) := (c.Tables(), c.Source());
    assert rows[..3] == rows && rows[..0] == [];
    RowsOfNone(d);
    RowsOfNext(d, rows, 0);
    RowsOfNext(d, rows, 1);
    RowsOfNext(d, rows, 2);
    var one := [rows[0]];
    assert RowsOf(d, rows[..1], c.near) == [] + one == one;
    assert RowsOf(d, rows[..2], c.near) == one + [] == one;
    assert RowsOf(d, rows[..3], c.near) == one + [] == one;
    hide RowsOf, Uses;
    assert MostCommonAt(one, 0);
  }

  lemma ShadowingWritten(lower: string -> string, punct: string -> string, c: Shadowing)
    requires c.Proper(lower, punct)
    ensures Deduped(lower, Remaining(c.Collapsed(), c.Spelling()), c.Written())
    ensures Resolve(lower, c.Written(), c.s, c.near) == Some(c.x)
  {
    var written := c.Written();
    ShadowingRemains(lower, punct, c);
    hide Remaining;
    forall o | o in written
      ensures HasAgreeing(lower, written, o)
    {
      assert SameKey(lower, o, o);
    }
    assert Unique(lower, written);
    FindsItsRow(lower, written, 1);
  }

  lemma ShadowingRemains(lower: string -> string, punct: string -> string, c: Shadowing)
    requires c.Proper(lower, punct)
    ensures Remaining(c.Collapsed(), c.Spelling()) == c.Written()
  {
    var (rows, spelling) := (c.Collapsed(), c.Spelling());
    RemainingOfThree(rows[0], rows[1], rows[2], spelling[0], spelling[1], spelling[2]);
    hide Remaining;
    assert c.Written() == [OutRow("", c.near, c.a)] + [OutRow(c.s, c.near, c.x)] + [OutRow(c.t, c.far, c.y)];
  }

  function Outcome(row: OutRow, current: Option<string>): seq<OutRow> {
    if Rekeyed(row, current).Some? then [Rekeyed(row, current).value] else []
  }

  lemma RemainingOfThree(o: OutRow, p: OutRow, q: OutRow, x: Option<string>, y: Option<string>, z: Option<string>)
    ensures Remaining([o, p, q], [x, y, z]) == Outcome(o, x) + Outcome(p, y) + Outcome(q, z)
  {
    hide Rekeyed;
    assert [o, p, q][..2] == [o, p] && [o, p][..1] == [o] && [o][..0] == [];
    assert [x, y, z][..2] == [x, y] && [x, y][..1] == [x] && [x][..0] == [];
    assert Remaining([o], [x]) == [] + Outcome(o, x);
    assert Remaining([o, p], [x, y]) == Remaining([o], [x]) + Outcome(p, y);
  }
}
