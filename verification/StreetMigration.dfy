/** The collapse of a per-settlement street table into global rows and exceptions
    (scripts/migrate_legacy_street_mappings.py). The settlement of a global row is the empty text. */
module StreetMigration {
  import opened Basics

  datatype SourceRow = SourceRow(simc: string, key: string, prg: string, osm: string)

  datatype OutRow = OutRow(simc: string, prg: string, osm: string)

  datatype Exit = Undecided | Stale | Conflict | RekeyConflict | StaleReference | UnusedFix

  datatype Result<T> = Ok(value: T) | Exits(reason: Exit)

  /** The curated tables: per key, and per settlement and key. */
  datatype Decisions = Decisions(
    globals: map<string, string>, settlementOnly: set<string>, dropKeys: set<string>,
    dropRows: set<(string, string)>, fixRows: map<(string, string), string>,
    fixTargets: map<string, string>, keepExceptions: set<(string, string)>)

  /** What the recorded tables satisfy: an exception names a settlement. */
  predicate ProperDecisions(d: Decisions) {
    forall e :: e in d.keepExceptions ==> e.0 != ""
  }

  // ---- reading ----

  function Fixed(d: Decisions, osm: string): string {
    if osm in d.fixTargets then d.fixTargets[osm] else osm
  }

  /** The source rows, stripped: those with both names, keyed by the lower-cased one, targets corrected. */
  function SourceRows(d: Decisions, lower: string -> string, raw: seq<OutRow>): seq<SourceRow> {
    if raw == [] then []
    else
      var last := raw[|raw| - 1];
      SourceRows(d, lower, raw[..|raw| - 1])
      + if last.prg == "" || last.osm == "" then []
           else [SourceRow(last.simc, lower(last.prg), last.prg, Fixed(d, last.osm))]
  }

  function RawTargets(raw: seq<OutRow>): set<string> {
    set r | r in raw && r.prg != "" && r.osm != "" :: r.osm
  }

  predicate Named(o: OutRow) {
    o.prg != "" && o.osm != ""
  }

  /** What a row of the file is read as. */
  function AsRead(d: Decisions, lower: string -> string, o: OutRow): SourceRow {
    var target := if o.osm in d.fixTargets then d.fixTargets[o.osm] else o.osm;
    SourceRow(o.simc, lower(o.prg), o.prg, target)
  }

  predicate IsRead(d: Decisions, lower: string -> string, raw: seq<OutRow>, r: SourceRow) {
    exists o :: o in raw && Named(o) && AsRead(d, lower, o) == r
  }

  /** Every row with both names is read, and nothing else. */
  predicate AllRead(d: Decisions, lower: string -> string, raw: seq<OutRow>, rows: seq<SourceRow>) {
    && (forall o :: o in raw && Named(o) ==> AsRead(d, lower, o) in rows)
    && (forall r :: r in rows ==> IsRead(d, lower, raw, r))
  }

  lemma {:induction false} SourceRowsAreRead(d: Decisions, lower: string -> string, raw: seq<OutRow>)
    ensures AllRead(d, lower, raw, SourceRows(d, lower, raw))
    decreases |raw|
  {
    if raw != [] {
      var front, last := raw[..|raw| - 1], raw[|raw| - 1];
      SourceRowsAreRead(d, lower, front);
      assert raw == front + [last];
      assert SourceRows(d, lower, raw)
          == SourceRows(d, lower, front) + if Named(last) then [AsRead(d, lower, last)] else [];
      hide SourceRows, AsRead;
      assert IsRead(d, lower, [last], AsRead(d, lower, last)) || !Named(last);
    }
  }

  lemma TargetsMean(raw: seq<OutRow>)
    ensures forall target :: target in RawTargets(raw) <==> exists o :: o in raw && Named(o) && o.osm == target
  {
  }

  method ReadRows(d: Decisions, lower: string -> string, raw: seq<OutRow>)
    returns (rows: seq<SourceRow>, targets: set<string>)
    ensures rows == SourceRows(d, lower, raw) && targets == RawTargets(raw)
    ensures AllRead(d, lower, raw, rows)
    ensures forall target :: target in targets <==> exists o :: o in raw && Named(o) && o.osm == target
  {
    hide AllRead;
    SourceRowsAreRead(d, lower, raw);
    TargetsMean(raw);
    rows, targets := [], {};
    for i := 0 to |raw|
      invariant rows == SourceRows(d, lower, raw[..i]) && targets == RawTargets(raw[..i])
    {
      assert raw[..i + 1] == raw[..i] + [raw[i]];
      var r := raw[i];
      if r.prg != "" && r.osm != "" {
        targets := targets + {r.osm};
        rows := rows + [SourceRow(r.simc, lower(r.prg), r.prg, Fixed(d, r.osm))];
      }
    }
    assert raw[..|raw|] == raw;
  }

  /** Keys under which the source has more than one target. */
  function Ambiguous(rows: seq<SourceRow>): set<string> {
    set r, s | r in rows && s in rows && r.key == s.key && r.osm != s.osm :: r.key
  }

  function Present(rows: seq<SourceRow>): set<(string, string)> {
    set r | r in rows :: (r.simc, r.key)
  }

  predicate Dropped(d: Decisions, r: SourceRow) {
    (r.simc, r.key) in d.dropRows
  }

  /** The rows of a key that are not dropped, in the order of the file. */
  function RowsOf(d: Decisions, rows: seq<SourceRow>, k: string): (of: seq<SourceRow>)
    ensures forall r :: r in of <==> r in rows && r.key == k && !Dropped(d, r)
  {
    if rows == [] then []
    else
      var last := rows[|rows| - 1];
      var before := RowsOf(d, rows[..|rows| - 1], k);
      assert rows == rows[..|rows| - 1] + [last];
      if last.key == k && !Dropped(d, last) then before + [last] else before
  }

  lemma RowsOfNone(d: Decisions)
    ensures forall k :: RowsOf(d, [], k) == []
  {
  }

  lemma RowsOfNext(d: Decisions, rows: seq<SourceRow>, i: nat)
    requires i < |rows|
    ensures forall k :: RowsOf(d, rows[..i + 1], k)
                        == RowsOf(d, rows[..i], k) + if rows[i].key == k && !Dropped(d, rows[i]) then [rows[i]] else []
  {
    hide Dropped;
    assert rows[..i + 1][..i] == rows[..i];
  }

  /** `of` is the rows at `at`: all those of the key that are not dropped, from first to last. */
  predicate AreAt(d: Decisions, rows: seq<SourceRow>, k: string, of: seq<SourceRow>, at: seq<nat>) {
    && |at| == |of|
    && (forall i :: 0 <= i < |at| ==> at[i] < |rows| && of[i] == rows[at[i]])
    && (forall i, j :: 0 <= i < j < |at| ==> at[i] < at[j])
    && (forall a: nat :: a < |rows| && rows[a].key == k && !Dropped(d, rows[a]) ==> a in at)
  }

  lemma OneMoreAt(d: Decisions, rows: seq<SourceRow>, k: string, of: seq<SourceRow>, at: seq<nat>, r: SourceRow)
    requires AreAt(d, rows, k, of, at)
    ensures r.key == k && !Dropped(d, r) ==> AreAt(d, rows + [r], k, of + [r], at + [|rows|])
    ensures r.key != k || Dropped(d, r) ==> AreAt(d, rows + [r], k, of, at)
  {
    hide Dropped;
  }

  /** The rows of a key stand in the order of the file, each as often as there. */
  lemma {:induction false} RowsOfKeepsOrder(d: Decisions, rows: seq<SourceRow>, k: string)
    returns (at: seq<nat>)
    ensures AreAt(d, rows, k, RowsOf(d, rows, k), at)
    decreases |rows|
  {
    hide AreAt, Dropped;
    if rows == [] {
      at := [];
      assert AreAt(d, rows, k, RowsOf(d, rows, k), at) by { NoneAt(d, k); }
    } else {
      var n := |rows| - 1;
      at := RowsOfKeepsOrder(d, rows[..n], k);
      OneMoreAt(d, rows[..n], k, RowsOf(d, rows[..n], k), at, rows[n]);
      assert rows == rows[..n] + [rows[n]];
      at := if rows[n].key == k && !Dropped(d, rows[n]) then at + [n] else at;
    }
  }

  lemma NoneAt(d: Decisions, k: string)
    ensures AreAt(d, [], k, [], [])
  {
  }

  /** Groups the rows by key; the keys come in the order of their first rows. */
  method GroupByKey(d: Decisions, rows: seq<SourceRow>)
    returns (keys: seq<string>, byKey: map<string, seq<SourceRow>>)
    ensures forall i, j :: 0 <= i < j < |keys| ==> keys[i] != keys[j]
    ensures forall k :: k in keys <==> RowsOf(d, rows, k) != []
    ensures forall k :: k in keys <==> k in byKey
    ensures forall k :: k in keys ==> byKey[k] == RowsOf(d, rows, k)
  {
    hide Dropped, RowsOf;
    keys, byKey := [], map[];
    RowsOfNone(d);
    for i := 0 to |rows|
      invariant forall a, b :: 0 <= a < b < |keys| ==> keys[a] != keys[b]
      invariant forall k :: k in keys <==> k in byKey
      invariant forall k :: k in keys <==> RowsOf(d, rows[..i], k) != []
      invariant forall k :: k in keys ==> byKey[k] == RowsOf(d, rows[..i], k)
    {
      var r := rows[i];
      RowsOfNext(d, rows, i);
      if !Dropped(d, r) {
        if r.key in byKey {
          byKey := byKey[r.key := byKey[r.key] + [r]];
        } else {
          keys := keys + [r.key];
          byKey := byKey[r.key := [r]];
        }
      }
    }
    assert rows[..|rows|] == rows;
  }

  // ---- looking a name up ----

  predicate Matches(lower: string -> string, o: OutRow, simc: string, k: string) {
    o.simc == simc && lower(o.prg) == k
  }

  /** The target of the first row for the settlement and the lower-cased name. */
  function Find(lower: string -> string, rows: seq<OutRow>, simc: string, k: string): (target: Option<string>)
    ensures target.None? <==> (forall o :: o in rows ==> !Matches(lower, o, simc, k))
  {
    if rows == [] then None
    else if Matches(lower, rows[0], simc, k) then Some(rows[0].osm)
    else Find(lower, rows[1..], simc, k)
  }

  /** The settlement's row wins over the global one. */
  function Resolve(lower: string -> string, rows: seq<OutRow>, simc: string, k: string): Option<string> {
    var local := Find(lower, rows, simc, k);
    if local.Some? then local else Find(lower, rows, "", k)
  }

  predicate SameKey(lower: string -> string, a: OutRow, b: OutRow) {
    a.simc == b.simc && lower(a.prg) == lower(b.prg)
  }

  predicate Unique(lower: string -> string, rows: seq<OutRow>) {
    forall i, j :: 0 <= i < j < |rows| ==> !SameKey(lower, rows[i], rows[j])
  }

  lemma {:induction false} FindsItsRow(lower: string -> string, rows: seq<OutRow>, i: nat)
    requires Unique(lower, rows) && i < |rows|
    ensures Find(lower, rows, rows[i].simc, lower(rows[i].prg)) == Some(rows[i].osm)
    decreases rows
  {
    if i > 0 {
      assert !SameKey(lower, rows[0], rows[i]);
      FindsItsRow(lower, rows[1..], i - 1);
    }
  }

  /** Rows of other keys do not matter to a lookup. */
  lemma {:induction false} FindSkips(lower: string -> string, before: seq<OutRow>, after: seq<OutRow>, simc: string,
                                     k: string)
    ensures (forall o :: o in after ==> lower(o.prg) != k)
            ==> Find(lower, before + after, simc, k) == Find(lower, before, simc, k)
    ensures (forall o :: o in before ==> lower(o.prg) != k)
            ==> Find(lower, before + after, simc, k) == Find(lower, after, simc, k)
    decreases before
  {
    if before == [] {
      assert before + after == after;
    } else {
      assert (before + after)[1..] == before[1..] + after;
      FindSkips(lower, before[1..], after, simc, k);
    }
  }

  // ---- one key ----

  /** A curated global counts unless it is empty. */
  function GlobalOf(d: Decisions, k: string): Option<string> {
    if k in d.globals && d.globals[k] != "" then Some(d.globals[k]) else None
  }

  /** Whether a row of an ambiguous key stays a row of its settlement. */
  predicate Stays(d: Decisions, r: SourceRow) {
    GlobalOf(d, r.key).None? || (r.simc, r.key) in d.keepExceptions
  }

  function RowTarget(d: Decisions, r: SourceRow): string {
    if (r.simc, r.key) in d.fixRows then d.fixRows[(r.simc, r.key)] else r.osm
  }

  /** What a kept source row is to resolve to: its own target where its key has one only, else its
      listed target where it stays, else the curated global. */
  function Target(d: Decisions, ambiguous: set<string>, r: SourceRow): string {
    if r.key !in ambiguous then r.osm
    else if Stays(d, r) then RowTarget(d, r)
    else GlobalOf(d, r.key).value
  }

  /** Two rows of one settlement and key that stay, with different targets. */
  predicate Clash(d: Decisions, r: SourceRow, s: SourceRow) {
    r.simc == s.simc && r.key == s.key && Stays(d, r) && RowTarget(d, r) != RowTarget(d, s)
  }

  predicate HasClash(d: Decisions, ambiguous: set<string>, k: string, entries: seq<SourceRow>) {
    k in ambiguous && exists r, s :: r in entries && s in entries && Clash(d, r, s)
  }

  function Uses(entries: seq<SourceRow>, form: string): nat {
    if entries == [] then 0 else (if entries[0].prg == form then 1 else 0) + Uses(entries[1..], form)
  }

  /** Where the spelling occurs. */
  function Spelt(entries: seq<SourceRow>, form: string): set<nat> {
    set i: nat | i < |entries| && entries[i].prg == form
  }

  lemma {:induction false} UsesFrom(entries: seq<SourceRow>, form: string, k: nat)
    requires k <= |entries|
    ensures Uses(entries[k..], form) == |set i: nat | k <= i < |entries| && entries[i].prg == form|
    decreases |entries| - k
  {
    var from := set i: nat | k <= i < |entries| && entries[i].prg == form;
    if k < |entries| {
      UsesFrom(entries, form, k + 1);
      assert entries[k..][1..] == entries[k + 1..];
      var after := set i: nat | k + 1 <= i < |entries| && entries[i].prg == form;
      assert from == after + if entries[k].prg == form then {k} else {};
    } else {
      assert from == {};
    }
  }

  lemma UsesCounts(entries: seq<SourceRow>, form: string)
    ensures Uses(entries, form) == |Spelt(entries, form)|
  {
    UsesFrom(entries, form, 0);
    assert entries[0..] == entries;
    assert Spelt(entries, form) == set i: nat | 0 <= i < |entries| && entries[i].prg == form;
  }

  predicate MostCommonAt(entries: seq<SourceRow>, i: nat)
    requires i < |entries|
  {
    && (forall j :: 0 <= j < |entries| ==> |Spelt(entries, entries[j].prg)| <= |Spelt(entries, entries[i].prg)|)
    && (forall j :: 0 <= j < i ==> |Spelt(entries, entries[j].prg)| < |Spelt(entries, entries[i].prg)|)
  }

  predicate IsMostCommon(entries: seq<SourceRow>, form: string) {
    exists i :: 0 <= i < |entries| && form == entries[i].prg && MostCommonAt(entries, i)
  }

  /** The most common spelling, the earliest among equals. */
  method MostCommon(entries: seq<SourceRow>) returns (form: string)
    requires entries != []
    ensures IsMostCommon(entries, form)
  {
    var best := 0;
    for i := 1 to |entries|
      invariant 0 <= best < i
      invariant forall j :: 0 <= j < i ==> Uses(entries, entries[j].prg) <= Uses(entries, entries[best].prg)
      invariant forall j :: 0 <= j < best ==> Uses(entries, entries[j].prg) < Uses(entries, entries[best].prg)
    {
      if Uses(entries, entries[i].prg) > Uses(entries, entries[best].prg) {
        best := i;
      }
    }
    form := entries[best].prg;
    forall f ensures Uses(entries, f) == |Spelt(entries, f)| { UsesCounts(entries, f); }
    assert MostCommonAt(entries, best);
  }

  predicate EntriesOf(lower: string -> string, ambiguous: set<string>, k: string, entries: seq<SourceRow>) {
    && entries != []
    && (forall e :: e in entries ==> e.key == k == lower(e.prg))
    && (k !in ambiguous ==> forall e, f :: e in entries && f in entries ==> e.osm == f.osm)
  }

  predicate FromEntry(d: Decisions, entries: seq<SourceRow>, o: OutRow) {
    exists e :: e in entries && Stays(d, e) && o == OutRow(e.simc, e.prg, RowTarget(d, e))
  }

  predicate HasRow(d: Decisions, kept: seq<OutRow>, e: SourceRow) {
    exists o :: o in kept && o.simc == e.simc && o.osm == RowTarget(d, e)
  }

  /** One row per settlement, from rows that stay and for every row that stays. */
  predicate KeptRows(d: Decisions, entries: seq<SourceRow>, kept: seq<OutRow>) {
    && (forall i, j :: 0 <= i < j < |kept| ==> kept[i].simc != kept[j].simc)
    && (forall o :: o in kept ==> FromEntry(d, entries, o))
    && (forall e :: e in entries && Stays(d, e) ==> HasRow(d, kept, e))
  }

  /** Whether a row stays depends on its settlement and key alone. */
  lemma NoClash(d: Decisions, k: string, entries: seq<SourceRow>, seen: map<string, OutRow>, e: SourceRow, f: SourceRow)
    requires forall a :: 0 <= a < |entries| ==> entries[a].key == k
    requires forall a :: 0 <= a < |entries| && Stays(d, entries[a])
                         ==> entries[a].simc in seen && seen[entries[a].simc].osm == RowTarget(d, entries[a])
    requires e in entries && f in entries
    ensures !Clash(d, e, f)
  {
    hide RowTarget;
  }

  ghost predicate Seen(d: Decisions, entries: seq<SourceRow>, order: seq<string>, seen: map<string, OutRow>, i: nat)
    requires i <= |entries|
  {
    && (forall a, b :: 0 <= a < b < |order| ==> order[a] != order[b])
    && (forall s :: s in order <==> s in seen)
    && (forall s :: s in seen ==> seen[s].simc == s && FromEntry(d, entries, seen[s]))
    && (forall a :: 0 <= a < i && Stays(d, entries[a])
                    ==> entries[a].simc in seen && seen[entries[a].simc].osm == RowTarget(d, entries[a]))
  }

  function RowsSeen(order: seq<string>, seen: map<string, OutRow>): seq<OutRow>
    requires forall i :: 0 <= i < |order| ==> order[i] in seen
  {
    seq(|order|, i requires 0 <= i < |order| => seen[order[i]])
  }

  lemma IsFromEntry(d: Decisions, entries: seq<SourceRow>, e: SourceRow)
    requires e in entries && Stays(d, e)
    ensures FromEntry(d, entries, OutRow(e.simc, e.prg, RowTarget(d, e)))
  {
    hide Stays, RowTarget;
  }

  lemma FoundClash(d: Decisions, k: string, entries: seq<SourceRow>, o: OutRow, e: SourceRow)
    requires forall f :: f in entries ==> f.key == k
    requires FromEntry(d, entries, o) && e in entries && o.simc == e.simc && o.osm != RowTarget(d, e)
    ensures exists r, s :: r in entries && s in entries && Clash(d, r, s)
  {
    hide Stays, RowTarget;
    var r :| r in entries && Stays(d, r) && o == OutRow(r.simc, r.prg, RowTarget(d, r));
    assert Clash(d, r, e);
  }

  lemma SeenIsKept(d: Decisions, k: string, entries: seq<SourceRow>, order: seq<string>, seen: map<string, OutRow>)
    requires Seen(d, entries, order, seen, |entries|)
    requires forall f :: f in entries ==> f.key == k
    ensures KeptRows(d, entries, RowsSeen(order, seen))
    ensures !exists r, s :: r in entries && s in entries && Clash(d, r, s)
  {
    hide Stays, RowTarget, FromEntry, Clash;
    var rows := RowsSeen(order, seen);
    forall e, f | e in entries && f in entries
      ensures !Clash(d, e, f)
    {
      NoClash(d, k, entries, seen, e, f);
    }
    forall e | e in entries && Stays(d, e)
      ensures HasRow(d, rows, e)
    {
      var a :| 0 <= a < |entries| && entries[a] == e;
      var i :| 0 <= i < |order| && order[i] == e.simc;
      assert rows[i] in rows;
    }
  }

  /** The rows that stay, one per settlement, in the order of the settlements' first rows. */
  method KeepSettlements(d: Decisions, lower: string -> string, ambiguous: set<string>, k: string,
                         entries: seq<SourceRow>)
    returns (r: Result<seq<OutRow>>)
    requires EntriesOf(lower, ambiguous, k, entries)
    ensures r.Ok? <==> !exists e, f :: e in entries && f in entries && Clash(d, e, f)
    ensures r.Exits? ==> r.reason == Conflict
    ensures r.Ok? ==> KeptRows(d, entries, r.value)
  {
    hide Stays, RowTarget, FromEntry, HasRow, Clash;
    var order: seq<string> := [];
    var seen: map<string, OutRow> := map[];
    for i := 0 to |entries|
      invariant Seen(d, entries, order, seen, i)
    {
      var e := entries[i];
      if Stays(d, e) {
        IsFromEntry(d, entries, e);
        if e.simc in seen && seen[e.simc].osm != RowTarget(d, e) {
          FoundClash(d, k, entries, seen[e.simc], e);
          return Exits(Conflict);
        }
        if e.simc !in seen {
          order := order + [e.simc];
        }
        seen := seen[e.simc := OutRow(e.simc, e.prg, RowTarget(d, e))];
      }
    }
    SeenIsKept(d, k, entries, order, seen);
    return Ok(RowsSeen(order, seen));
  }

  /** A global row of an unambiguous key, or of one with a curated global, has the key's most common
      spelling. */
  predicate WellSpelt(d: Decisions, ambiguous: set<string>, k: string, entries: seq<SourceRow>, o: OutRow) {
    o.simc == "" && (k !in ambiguous || GlobalOf(d, k).Some?) ==> IsMostCommon(entries, o.prg)
  }

  /** The rows written for one key: a global row where the key is unambiguous or has a curated global,
      and the settlements' rows that stay. */
  method CollapseKey(d: Decisions, lower: string -> string, ambiguous: set<string>, k: string, entries: seq<SourceRow>)
    returns (r: Result<seq<OutRow>>)
    requires ProperDecisions(d) && EntriesOf(lower, ambiguous, k, entries)
    ensures r.Ok? <==> !HasClash(d, ambiguous, k, entries)
    ensures r.Exits? ==> r.reason == Conflict
    ensures r.Ok? ==> Unique(lower, r.value)
    ensures r.Ok? ==> forall o :: o in r.value ==> exists e :: e in entries && e.prg == o.prg && o.simc in {"", e.simc}
    ensures r.Ok? ==> forall o :: o in r.value ==> WellSpelt(d, ambiguous, k, entries, o)
    ensures r.Ok? ==> forall e :: e in entries ==> Resolve(lower, r.value, e.simc, k) == Some(Target(d, ambiguous, e))
  {
    hide IsMostCommon;
    var form := MostCommon(entries);
    if k !in ambiguous {
      var row := OutRow("", form, entries[0].osm);
      FormIsUsed(entries, form);
      OneRow(lower, row);
      return Ok([row]);
    }
    var curated := GlobalOf(d, k);
    var global := if curated.Some? then [OutRow("", form, curated.value)] else [];
    var kept := KeepSettlements(d, lower, ambiguous, k, entries);
    if kept.Exits? { return kept; }
    var rows := global + kept.value;
    forall o | o in rows
      ensures exists e :: e in entries && e.prg == o.prg && o.simc in {"", e.simc}
      ensures WellSpelt(d, ambiguous, k, entries, o)
    {
      if o in global {
        FormIsUsed(entries, form);
      } else {
        assert FromEntry(d, entries, o);
      }
    }
    KeyIsUnique(d, lower, k, entries, global, kept.value);
    forall e | e in entries
      ensures Resolve(lower, rows, e.simc, k) == Some(Target(d, ambiguous, e))
    {
      KeyResolves(d, lower, ambiguous, k, entries, global, kept.value, e);
    }
    return Ok(rows);
  }

  lemma FormIsUsed(entries: seq<SourceRow>, form: string)
    requires IsMostCommon(entries, form)
    ensures exists e :: e in entries && e.prg == form
  {
  }

  lemma OneRow(lower: string -> string, row: OutRow)
    requires row.simc == ""
    ensures forall simc :: Resolve(lower, [row], simc, lower(row.prg)) == Some(row.osm)
  {
    assert [row][1..] == [];
  }

  predicate GlobalRow(d: Decisions, lower: string -> string, k: string, global: seq<OutRow>) {
    if GlobalOf(d, k).Some?
    then |global| == 1 && global[0].simc == "" && lower(global[0].prg) == k && global[0].osm == GlobalOf(d, k).value
    else global == []
  }

  lemma KeptComesFrom(d: Decisions, lower: string -> string, k: string, entries: seq<SourceRow>, kept: seq<OutRow>,
                      o: OutRow)
    requires (forall e :: e in entries ==> e.key == k == lower(e.prg)) && KeptRows(d, entries, kept) && o in kept
    ensures lower(o.prg) == k
    ensures GlobalOf(d, k).None? || (o.simc, k) in d.keepExceptions
  {
    hide HasRow;
    var e :| e in entries && Stays(d, e) && o == OutRow(e.simc, e.prg, RowTarget(d, e));
  }

  lemma KeptFor(d: Decisions, lower: string -> string, k: string, entries: seq<SourceRow>, kept: seq<OutRow>,
                e: SourceRow)
    returns (i: nat)
    requires (forall e :: e in entries ==> e.key == k == lower(e.prg)) && KeptRows(d, entries, kept)
    requires e in entries && Stays(d, e)
    ensures i < |kept| && kept[i].simc == e.simc && kept[i].osm == RowTarget(d, e) && lower(kept[i].prg) == k
  {
    hide FromEntry;
    assert HasRow(d, kept, e);
    var o :| o in kept && o.simc == e.simc && o.osm == RowTarget(d, e);
    KeptComesFrom(d, lower, k, entries, kept, o);
    i :| 0 <= i < |kept| && kept[i] == o;
  }

  lemma KeyIsUnique(d: Decisions, lower: string -> string, k: string, entries: seq<SourceRow>,
                    global: seq<OutRow>, kept: seq<OutRow>)
    requires ProperDecisions(d) && (forall e :: e in entries ==> e.key == k == lower(e.prg))
    requires KeptRows(d, entries, kept) && GlobalRow(d, lower, k, global)
    ensures Unique(lower, global + kept)
  {
    hide FromEntry, HasRow;
    forall i, j | 0 <= i < j < |global + kept|
      ensures !SameKey(lower, (global + kept)[i], (global + kept)[j])
    {
      var o := kept[j - |global|];
      KeptComesFrom(d, lower, k, entries, kept, o);
    }
  }

  lemma KeyResolves(d: Decisions, lower: string -> string, ambiguous: set<string>, k: string, entries: seq<SourceRow>,
                    global: seq<OutRow>, kept: seq<OutRow>, e: SourceRow)
    requires (forall e :: e in entries ==> e.key == k == lower(e.prg)) && k in ambiguous && e in entries
    requires KeptRows(d, entries, kept) && GlobalRow(d, lower, k, global) && Unique(lower, global + kept)
    ensures Resolve(lower, global + kept, e.simc, k) == Some(Target(d, ambiguous, e))
  {
    hide Unique, FromEntry, HasRow, KeptRows;
    var rows := global + kept;
    if Stays(d, e) {
      var i := KeptFor(d, lower, k, entries, kept, e);
      assert rows[|global| + i] == kept[i];
      FindsItsRow(lower, rows, |global| + i);
    } else {
      assert rows[0] == global[0];
      FindsItsRow(lower, rows, 0);
      forall o | o in rows && e.simc != ""
        ensures !Matches(lower, o, e.simc, k)
      {
        if o in kept { KeptComesFrom(d, lower, k, entries, kept, o); }
      }
    }
  }

  // ---- what the decisions say of a row ----

  /** The rows of the key have one target. */
  predicate OneTarget(rows: seq<SourceRow>, k: string) {
    forall r, s :: r in rows && s in rows && r.key == k && s.key == k ==> r.osm == s.osm
  }

  /** A row of a key with one target has that target. Otherwise the row follows the curated global of its key,
      unless there is none or the row is a listed exception; then it has the target listed for it, or its
      own. */
  predicate AsDecided(d: Decisions, rows: seq<SourceRow>, r: SourceRow, target: string) {
    if OneTarget(rows, r.key) then target == r.osm
    else if r.key in d.globals && d.globals[r.key] != "" && (r.simc, r.key) !in d.keepExceptions
    then target == d.globals[r.key]
    else if (r.simc, r.key) in d.fixRows then target == d.fixRows[(r.simc, r.key)]
    else target == r.osm
  }

  /** Two rows for one settlement and key of which both stay, to different targets. */
  predicate AtOdds(d: Decisions, rows: seq<SourceRow>, r: SourceRow, s: SourceRow) {
    && r in rows && s in rows && r.simc == s.simc && r.key == s.key && !OneTarget(rows, r.key)
    && r.key !in d.dropKeys && (r.simc, r.key) !in d.dropRows
    && (r.key !in d.globals || d.globals[r.key] == "" || (r.simc, r.key) in d.keepExceptions)
    && (r.simc, r.key) !in d.fixRows && r.osm != s.osm
  }

  lemma AmbiguousMeans(rows: seq<SourceRow>, k: string)
    ensures k in Ambiguous(rows) <==> !OneTarget(rows, k)
  {
  }

  lemma TargetIsAsDecided(d: Decisions, rows: seq<SourceRow>, r: SourceRow)
    ensures AsDecided(d, rows, r, Target(d, Ambiguous(rows), r))
  {
    hide Ambiguous, OneTarget;
    AmbiguousMeans(rows, r.key);
  }

  /** What the exits are for, said of the rows themselves. */
  lemma ExitsMean(d: Decisions, rows: seq<SourceRow>)
    ensures !Decided(d, rows) <==>
      exists r :: r in rows && !OneTarget(rows, r.key)
                  && r.key !in d.globals && r.key !in d.settlementOnly && r.key !in d.dropKeys
    ensures !UpToDate(d, rows) <==>
      exists k :: (k in d.globals || k in d.settlementOnly || k in d.dropKeys) && OneTarget(rows, k)
    ensures Clashes(d, rows) <==> exists r, s :: AtOdds(d, rows, r, s)
  {
    hide Ambiguous, OneTarget;
    forall k ensures k in Ambiguous(rows) <==> !OneTarget(rows, k) { AmbiguousMeans(rows, k); }
    forall k | k in Ambiguous(rows)
      ensures exists r :: r in rows && r.key == k
    {
      AmbiguousHasARow(rows, k);
    }
    ClashesMean(d, rows);
    if !Decided(d, rows) {
      var k :| k in Ambiguous(rows) - d.globals.Keys - d.settlementOnly - d.dropKeys;
      var r :| r in rows && r.key == k;
    }
    if r :| r in rows && !OneTarget(rows, r.key) && r.key !in d.globals && r.key !in d.settlementOnly
                && r.key !in d.dropKeys {
      assert r.key in Ambiguous(rows) - d.globals.Keys - d.settlementOnly - d.dropKeys;
    }
    if !UpToDate(d, rows) {
      var k :| k in (d.globals.Keys + d.settlementOnly + d.dropKeys) - Ambiguous(rows);
      assert (k in d.globals || k in d.settlementOnly || k in d.dropKeys) && OneTarget(rows, k);
    }
    if k :| (k in d.globals || k in d.settlementOnly || k in d.dropKeys) && OneTarget(rows, k) {
      assert k in (d.globals.Keys + d.settlementOnly + d.dropKeys) - Ambiguous(rows);
    }
  }

  lemma AmbiguousHasARow(rows: seq<SourceRow>, k: string)
    requires k in Ambiguous(rows)
    ensures exists r :: r in rows && r.key == k
  {
  }

  lemma ClashesMean(d: Decisions, rows: seq<SourceRow>)
    ensures Clashes(d, rows) <==> exists r, s :: AtOdds(d, rows, r, s)
  {
    hide Ambiguous, OneTarget;
    forall k ensures k in Ambiguous(rows) <==> !OneTarget(rows, k) { AmbiguousMeans(rows, k); }
    if Clashes(d, rows) {
      var r, s :| r in rows && s in rows && Kept(d, r) && Kept(d, s) && r.key in Ambiguous(rows) && Clash(d, r, s);
      assert AtOdds(d, rows, r, s);
    }
    if r, s :| AtOdds(d, rows, r, s) {
      assert Kept(d, r) && Kept(d, s) && Clash(d, r, s);
    }
  }

  // ---- all keys ----

  predicate Decided(d: Decisions, rows: seq<SourceRow>) {
    Ambiguous(rows) - d.globals.Keys - d.settlementOnly - d.dropKeys == {}
  }

  predicate UpToDate(d: Decisions, rows: seq<SourceRow>) {
    (d.globals.Keys + d.settlementOnly + d.dropKeys) - Ambiguous(rows) == {}
  }

  predicate Kept(d: Decisions, r: SourceRow) {
    r.key !in d.dropKeys && !Dropped(d, r)
  }

  /** Two kept rows of an ambiguous key clash. */
  predicate Clashes(d: Decisions, rows: seq<SourceRow>) {
    exists r, s :: r in rows && s in rows && Kept(d, r) && Kept(d, s) && r.key in Ambiguous(rows) && Clash(d, r, s)
  }

  predicate Keyed(lower: string -> string, rows: seq<SourceRow>) {
    forall r :: r in rows ==> r.key == lower(r.prg)
  }

  /** The list keeps the meaning of the source: every kept row resolves to what it should, no
      settlement has a name twice, and every row comes from a kept source row. */
  ghost predicate Preserves(d: Decisions, lower: string -> string, rows: seq<SourceRow>, out: seq<OutRow>) {
    && Unique(lower, out)
    && (forall r :: r in rows && Kept(d, r)
               ==> Resolve(lower, out, r.simc, r.key) == Some(Target(d, Ambiguous(rows), r)))
    && (forall o :: o in out ==> exists r :: r in rows && Kept(d, r) && r.prg == o.prg && o.simc in {"", r.simc})
    && (forall o :: o in out ==> WellSpelt(d, Ambiguous(rows), lower(o.prg), RowsOf(d, rows, lower(o.prg)), o))
  }

  /** The same, of the keys in a set. */
  ghost predicate PreservesKeys(d: Decisions, lower: string -> string, rows: seq<SourceRow>, out: seq<OutRow>,
                                keys: set<string>)
  {
    && Unique(lower, out)
    && (forall r :: r in rows && Kept(d, r) && r.key in keys
                    ==> Resolve(lower, out, r.simc, r.key) == Some(Target(d, Ambiguous(rows), r)))
    && (forall o :: o in out ==> lower(o.prg) in keys
                                 && exists r :: r in rows && Kept(d, r) && r.prg == o.prg && o.simc in {"", r.simc})
    && (forall o :: o in out ==> WellSpelt(d, Ambiguous(rows), lower(o.prg), RowsOf(d, rows, lower(o.prg)), o))
  }

  lemma AddKey(d: Decisions, lower: string -> string, rows: seq<SourceRow>, out: seq<OutRow>, keys: set<string>,
               k: string, more: seq<OutRow>)
    requires Keyed(lower, rows) && PreservesKeys(d, lower, rows, out, keys) && k !in keys && k !in d.dropKeys
    requires Unique(lower, more)
    requires forall o :: o in more ==> exists e :: e in RowsOf(d, rows, k) && e.prg == o.prg && o.simc in {"", e.simc}
    requires forall o :: o in more ==> WellSpelt(d, Ambiguous(rows), k, RowsOf(d, rows, k), o)
    requires forall e :: e in RowsOf(d, rows, k) ==>
      Resolve(lower, more, e.simc, k) == Some(Target(d, Ambiguous(rows), e))
    ensures PreservesKeys(d, lower, rows, out + more, keys + {k})
  {
    hide Resolve, RowsOf, Target, Dropped, Ambiguous, WellSpelt;
    forall o | o in more
      ensures lower(o.prg) == k
      ensures exists r :: r in rows && Kept(d, r) && r.prg == o.prg && o.simc in {"", r.simc}
    {
      var e :| e in RowsOf(d, rows, k) && e.prg == o.prg && o.simc in {"", e.simc};
      assert Kept(d, e);
    }
    assert Unique(lower, out + more) by {
      forall i, j | 0 <= i < j < |out + more|
        ensures !SameKey(lower, (out + more)[i], (out + more)[j])
      {
        if i < |out| <= j {
          assert out[i] in out && more[j - |out|] in more;
        }
      }
    }
    forall r | r in rows && Kept(d, r) && r.key in keys + {k}
      ensures Resolve(lower, out + more, r.simc, r.key) == Some(Target(d, Ambiguous(rows), r))
    {
      ResolveSkips(lower, out, more, r.simc, r.key);
      if r.key == k { assert r in RowsOf(d, rows, k); }
    }
  }

  lemma ResolveSkips(lower: string -> string, before: seq<OutRow>, after: seq<OutRow>, simc: string, k: string)
    ensures (forall o :: o in after ==> lower(o.prg) != k)
            ==> Resolve(lower, before + after, simc, k) == Resolve(lower, before, simc, k)
    ensures (forall o :: o in before ==> lower(o.prg) != k)
            ==> Resolve(lower, before + after, simc, k) == Resolve(lower, after, simc, k)
  {
    FindSkips(lower, before, after, simc, k);
    FindSkips(lower, before, after, "", k);
  }

  /** The collapse: it exits exactly where a decision is missing or stale or two rows clash, and
      otherwise keeps the meaning of the source. */
  method Collapse(d: Decisions, lower: string -> string, rows: seq<SourceRow>) returns (r: Result<seq<OutRow>>)
    requires ProperDecisions(d) && Keyed(lower, rows)
    ensures r == Exits(Undecided) <==> !Decided(d, rows)
    ensures r == Exits(Stale) <==> Decided(d, rows) && !UpToDate(d, rows)
    ensures r == Exits(Conflict) <==> Decided(d, rows) && UpToDate(d, rows) && Clashes(d, rows)
    ensures r.Ok? <==> Decided(d, rows) && UpToDate(d, rows) && !Clashes(d, rows)
    ensures r.Ok? ==> Preserves(d, lower, rows, r.value)
    ensures r.Ok? ==> forall s :: s in rows && s.key !in d.dropKeys && (s.simc, s.key) !in d.dropRows ==>
              var found := Resolve(lower, r.value, s.simc, s.key);
              found.Some? && AsDecided(d, rows, s, found.value)
    ensures r == Exits(Undecided) <==>
      exists s :: s in rows && !OneTarget(rows, s.key)
                  && s.key !in d.globals && s.key !in d.settlementOnly && s.key !in d.dropKeys
    ensures r == Exits(Conflict) ==> exists s, s' :: AtOdds(d, rows, s, s')
  {
    hide AsDecided, AtOdds, OneTarget, Decided, UpToDate, Clashes, Kept;
    ExitsMean(d, rows);
    hide Resolve, Target, Dropped, Unique, PreservesKeys, RowsOf, WellSpelt;
    var ambiguous := Ambiguous(rows);
    var keys, byKey := GroupByKey(d, rows);
    if !Decided(d, rows) { return Exits(Undecided); }
    if !UpToDate(d, rows) { return Exits(Stale); }
    var out: seq<OutRow> := [];
    ghost var done: set<string> := {};
    NothingYet(d, lower, rows);
    for i := 0 to |keys|
      invariant PreservesKeys(d, lower, rows, out, done)
      invariant forall k :: k in done <==> k in keys[..i] && k !in d.dropKeys
      invariant forall k :: k in done ==> !HasClash(d, ambiguous, k, RowsOf(d, rows, k))
    {
      var k := keys[i];
      assert keys[..i + 1] == keys[..i] + [k];
      assert k !in keys[..i];
      if k !in d.dropKeys {
        OfOneKey(d, lower, rows, k);
        var more := CollapseKey(d, lower, ambiguous, k, byKey[k]);
        if more.Exits? {
          ClashOfKey(d, rows, k);
          return more;
        }
        AddKey(d, lower, rows, out, done, k, more.value);
        out := out + more.value;
        done := done + {k};
      }
    }
    assert keys[..|keys|] == keys;
    AllKeys(d, lower, rows, out, done);
    ResolvesAsDecided(d, lower, rows, out);
    return Ok(out);
  }

  lemma ResolvesAsDecided(d: Decisions, lower: string -> string, rows: seq<SourceRow>, out: seq<OutRow>)
    requires Preserves(d, lower, rows, out)
    ensures forall s :: s in rows && s.key !in d.dropKeys && (s.simc, s.key) !in d.dropRows ==>
              var found := Resolve(lower, out, s.simc, s.key);
              found.Some? && AsDecided(d, rows, s, found.value)
  {
    hide Resolve, AsDecided, Target, Ambiguous, Unique, WellSpelt;
    forall s | s in rows && s.key !in d.dropKeys && (s.simc, s.key) !in d.dropRows
      ensures Resolve(lower, out, s.simc, s.key).Some?
              && AsDecided(d, rows, s, Resolve(lower, out, s.simc, s.key).value)
    {
      assert Kept(d, s);
      TargetIsAsDecided(d, rows, s);
    }
  }

  lemma NothingYet(d: Decisions, lower: string -> string, rows: seq<SourceRow>)
    ensures PreservesKeys(d, lower, rows, [], {})
  {
  }

  lemma OfOneKey(d: Decisions, lower: string -> string, rows: seq<SourceRow>, k: string)
    requires Keyed(lower, rows) && RowsOf(d, rows, k) != []
    ensures EntriesOf(lower, Ambiguous(rows), k, RowsOf(d, rows, k))
  {
    hide RowsOf, Dropped;
  }

  lemma ClashOfKey(d: Decisions, rows: seq<SourceRow>, k: string)
    requires k !in d.dropKeys && HasClash(d, Ambiguous(rows), k, RowsOf(d, rows, k))
    ensures Clashes(d, rows)
  {
    hide RowsOf, Dropped, Clash, Ambiguous;
    var r, s :| r in RowsOf(d, rows, k) && s in RowsOf(d, rows, k) && Clash(d, r, s);
    assert Kept(d, r) && Kept(d, s);
  }

  lemma AllKeys(d: Decisions, lower: string -> string, rows: seq<SourceRow>, out: seq<OutRow>, done: set<string>)
    requires PreservesKeys(d, lower, rows, out, done)
    requires forall k :: k in done <==> RowsOf(d, rows, k) != [] && k !in d.dropKeys
    requires forall k :: k in done ==> !HasClash(d, Ambiguous(rows), k, RowsOf(d, rows, k))
    ensures Preserves(d, lower, rows, out) && !Clashes(d, rows)
  {
    hide RowsOf, Dropped, Resolve, Target, Ambiguous, Unique, WellSpelt;
    forall r | r in rows && Kept(d, r)
      ensures r in RowsOf(d, rows, r.key) && r.key in done
    {
    }
    forall r, s | r in rows && s in rows && Kept(d, r) && Kept(d, s) && r.key in Ambiguous(rows)
      ensures !Clash(d, r, s)
    {
      assert !HasClash(d, Ambiguous(rows), r.key, RowsOf(d, rows, r.key));
    }
  }
}
