/** Loading a source file into its table: the filters, the removal of duplicates and the accounting
    (src/import/bdot10k.rs, src/dataset.rs). A table is a map from row ids to records. */
module LoadPipeline {
  import opened Basics
  import opened Dataset

  const MAX_EXAMPLE_IDS := 20
  const MIN_BUILDING_AREA := 1.0

  type Table = map<nat, Record>

  /** What the spatial functions say of a geometry; the extents, in cells, and the area are NULL for an
      empty one. */
  datatype Facts = Facts(valid: bool, xExtent: Option<real>, yExtent: Option<real>, empty: bool, area: Option<real>)

  datatype Reason = Invalid | Oversized | Undersized

  /** Whether a filter deletes the record: its SQL condition is true, neither false nor NULL. */
  predicate Fails(reason: Reason, facts: seq<Byte> -> Facts, r: Record) {
    if r.wkb.None? then false
    else
      var f := facts(r.wkb.value);
      match reason
      case Invalid => !f.valid
      case Oversized => (f.xExtent.Some? && f.xExtent.value >= 1.0) || (f.yExtent.Some? && f.yExtent.value >= 1.0)
      case Undersized => f.empty || (f.area.Some? && f.area.value < MIN_BUILDING_AREA)
  }

  /** Neither extent reaches a whole cell; an unknown one does not count. */
  predicate WithinACell(f: Facts) {
    (f.xExtent.Some? ==> f.xExtent.value < 1.0) && (f.yExtent.Some? ==> f.yExtent.value < 1.0)
  }

  /** A footprint of a square metre or more, or of unknown size. */
  predicate LargeEnough(f: Facts) {
    !f.empty && (f.area.Some? ==> f.area.value >= 1.0)
  }

  /** A record without a geometry is sound: no spatial condition is true of NULL. */
  predicate Sound(facts: seq<Byte> -> Facts, r: Record) {
    r.wkb.Some? ==>
      var f := facts(r.wkb.value);
      f.valid && WithinACell(f) && LargeEnough(f)
  }

  /** Rows are only ever deleted, never changed. */
  predicate IsPartOf(after: Table, before: Table) {
    after.Keys <= before.Keys && forall rid :: rid in after ==> after[rid] == before[rid]
  }

  /** The rows that stay are those whose geometry, where there is one, is valid; is within a cell; is large
      enough. */
  predicate LeavesValid(facts: seq<Byte> -> Facts, before: Table, after: Table) {
    IsPartOf(after, before)
    && forall rid :: rid in before ==>
         (rid in after <==> (before[rid].wkb.Some? ==> facts(before[rid].wkb.value).valid))
  }

  predicate LeavesWithinACell(facts: seq<Byte> -> Facts, before: Table, after: Table) {
    IsPartOf(after, before)
    && forall rid :: rid in before ==>
         (rid in after <==> (before[rid].wkb.Some? ==> WithinACell(facts(before[rid].wkb.value))))
  }

  predicate LeavesLargeEnough(facts: seq<Byte> -> Facts, before: Table, after: Table) {
    IsPartOf(after, before)
    && forall rid :: rid in before ==>
         (rid in after <==> (before[rid].wkb.Some? ==> LargeEnough(facts(before[rid].wkb.value))))
  }

  predicate Passes(facts: seq<Byte> -> Facts, r: Record) {
    !Fails(Invalid, facts, r) && !Fails(Oversized, facts, r) && !Fails(Undersized, facts, r)
  }

  datatype LoadStats = LoadStats(
    invalid: nat, invalidIds: seq<string>,
    oversized: nat, oversizedIds: seq<string>,
    undersized: nat, undersizedIds: seq<string>,
    nullKey: nat, duplicate: nat, duplicateIds: seq<string>)
  {
    function MergeOversized(other: LoadStats): LoadStats {
      this.(oversized := other.oversized, oversizedIds := other.oversizedIds)
    }

    function MergeUndersized(other: LoadStats): LoadStats {
      this.(undersized := other.undersized, undersizedIds := other.undersizedIds)
    }

    function MergeUniqueKey(other: LoadStats): LoadStats {
      this.(nullKey := other.nullKey, duplicate := other.duplicate, duplicateIds := other.duplicateIds)
    }

    function Skipped(): nat {
      invalid + oversized + undersized + nullKey + duplicate
    }
  }

  const NO_STATS := LoadStats(0, [], 0, [], 0, [], 0, 0, [])

  // ---- what the steps leave ----

  /** The rows the load select writes. */
  function Created(spec: DatasetSpec, file: seq<Record>): Table {
    map i | 0 <= i < |file| && NonNullKey(spec, file[i]) :: file[i]
  }

  function NullKeyed(spec: DatasetSpec, file: seq<Record>): set<nat> {
    set i: nat | i < |file| && NullKey(spec, file[i])
  }

  function Failing(reason: Reason, facts: seq<Byte> -> Facts, rows: Table): set<nat> {
    set rid | rid in rows && Fails(reason, facts, rows[rid])
  }

  function Filtered(reason: Reason, facts: seq<Byte> -> Facts, rows: Table): Table {
    rows - Failing(reason, facts, rows)
  }

  /** The rows that reach the removal of duplicates. */
  function Survivors(spec: DatasetSpec, facts: seq<Byte> -> Facts, file: seq<Record>): Table {
    map i | 0 <= i < |file| && NonNullKey(spec, file[i]) && Passes(facts, file[i]) :: file[i]
  }

  /** One best-ranked row is left of every key; which one among rows that tie is open. A row without a
      key joins with no key and stays. */
  ghost predicate Deduplicated(spec: DatasetSpec, md5: string -> string, before: Table, after: Table) {
    && after.Keys <= before.Keys
    && (forall rid :: rid in after ==> after[rid] == before[rid])
    && (forall rid :: rid in before && NullKey(spec, before[rid]) ==> rid in after)
    && (forall i, j :: i in after && j in after && i != j ==> !SameKey(spec, after[i], after[j]))
    && (forall rid :: rid in before && NonNullKey(spec, before[rid])
                      ==> exists kept :: kept in after && Represents(spec, md5, after[kept], before[rid]))
  }

  predicate Represents(spec: DatasetSpec, md5: string -> string, kept: Record, r: Record) {
    SameKey(spec, r, kept) && !RanksBefore(spec, md5, r, kept)
  }

  /** The record has a version no lower than the other's, if that has any. */
  predicate NotOlder(kept: Record, r: Record) {
    r.version.Some? ==> kept.version.Some? && kept.version.value >= r.version.value
  }

  /** No row of the key was newer than the one that is left. */
  ghost predicate NewestStays(spec: DatasetSpec, before: Table, after: Table) {
    forall i, j :: i in before && j in after && SameKey(spec, before[i], after[j]) ==> NotOlder(after[j], before[i])
  }

  /** What a loaded table is: a row is a sound one of the file with a key, and no sound row of the file
      with its key is newer. */
  ghost predicate NewestSoundRows(spec: DatasetSpec, facts: seq<Byte> -> Facts, file: seq<Record>, rows: Table) {
    && (forall j :: j in rows ==>
          j < |file| && rows[j] == file[j] && Sound(facts, file[j]) && NonNullKey(spec, file[j]))
    && (forall i, j :: 0 <= i < |file| && Sound(facts, file[i]) && j in rows && SameKey(spec, file[i], rows[j])
                       ==> NotOlder(rows[j], file[i]))
  }

  ghost predicate Loaded(spec: DatasetSpec, md5: string -> string, facts: seq<Byte> -> Facts,
                         file: seq<Record>, rows: Table) {
    Deduplicated(spec, md5, Survivors(spec, facts, file), rows)
  }

  /** The ids reported for rows about to be deleted: of each an id, and no more than the cap. */
  ghost predicate ExamplesOf(ids: seq<string>, doomed: set<nat>, rows: Table, idColumn: string) {
    && |ids| == (if |doomed| < 20 then |doomed| else 20)
    && forall id :: id in ids ==> exists rid :: HasId(rows, doomed, idColumn, rid, id)
  }

  predicate HasId(rows: Table, doomed: set<nat>, idColumn: string, rid: nat, id: string) {
    rid in doomed && rid in rows && Value(rows[rid], idColumn) == Some(id)
  }

  predicate Identified(rows: Table, idColumn: string) {
    forall rid :: rid in rows ==> Value(rows[rid], idColumn).Some?
  }

  /** The statements of a load at which the database may report an error. */
  datatype LoadStep = CountNullKeys | CreateTable | DeleteRows(reason: Reason) | Deduplicate

  /** The table when a statement fails; creating it starts with dropping the previous one. */
  function LeftBefore(step: LoadStep, spec: DatasetSpec, facts: seq<Byte> -> Facts, file: seq<Record>,
                      previous: Table): Table
  {
    match step
    case CountNullKeys => previous
    case CreateTable => map[]
    case DeleteRows(Invalid) => Created(spec, file)
    case DeleteRows(Oversized) => Filtered(Invalid, facts, Created(spec, file))
    case DeleteRows(Undersized) => Filtered(Oversized, facts, Filtered(Invalid, facts, Created(spec, file)))
    case Deduplicate => Survivors(spec, facts, file)
  }

  // ---- the connection ----

  class Loader {
    const spec: DatasetSpec
    const md5: string -> string
    const facts: seq<Byte> -> Facts
    var rows: Table
    /** The setting `enable_geoparquet_conversion`, which all connections share. */
    var conversion: bool

    constructor (spec: DatasetSpec, md5: string -> string, facts: seq<Byte> -> Facts)
      ensures this.spec == spec && this.md5 == md5 && this.facts == facts && rows == map[] && conversion
    {
      this.spec, this.md5, this.facts := spec, md5, facts;
      rows, conversion := map[], true;
    }

    /** Reads the ids of some of the rows, in no particular order; a NULL among them is an error. */
    method ExampleIds(doomed: set<nat>, idColumn: string) returns (ids: Option<seq<string>>)
      requires doomed <= rows.Keys
      ensures ids.Some? ==> ExamplesOf(ids.value, doomed, rows, idColumn)
      ensures Identified(rows, idColumn) ==> ids.Some?
    {
      var found: seq<string> := [];
      var left := doomed;
      while left != {} && |found| < MAX_EXAMPLE_IDS
        invariant left <= doomed && |found| + |left| == |doomed| && |found| <= MAX_EXAMPLE_IDS
        invariant forall id :: id in found ==> exists rid :: HasId(rows, doomed, idColumn, rid, id)
        decreases left
      {
        var rid :| rid in left;
        var id := Value(rows[rid], idColumn);
        if id.None? { return None; }
        assert HasId(rows, doomed, idColumn, rid, id.value);
        found := found + [id.value];
        left := left - {rid};
      }
      return Some(found);
    }

    /** The shape the three geometry filters share: read some ids, then delete. */
    method DeleteFailing(reason: Reason, idColumn: string) returns (deleted: Option<(nat, seq<string>)>)
      modifies this`rows
      ensures Identified(old(rows), idColumn) ==> deleted.Some?
      ensures deleted.None? ==> rows == old(rows)
      ensures deleted.Some? ==> rows == Filtered(reason, facts, old(rows))
      ensures deleted.Some? ==> deleted.value.0 == |Failing(reason, facts, old(rows))|
      ensures deleted.Some? ==> ExamplesOf(deleted.value.1, Failing(reason, facts, old(rows)), old(rows), idColumn)
    {
      var doomed := Failing(reason, facts, rows);
      var ids := ExampleIds(doomed, idColumn);
      if ids.None? { return None; }
      rows := rows - doomed;
      return Some((|doomed|, ids.value));
    }

    method FilterInvalidGeometry(idColumn: string) returns (stats: Option<LoadStats>)
      modifies this`rows
      ensures Identified(old(rows), idColumn) ==> stats.Some?
      ensures stats.None? ==> rows == old(rows)
      ensures stats.Some? ==>
                && rows == Filtered(Invalid, facts, old(rows))
                && stats.value == LoadStats(|Failing(Invalid, facts, old(rows))|, stats.value.invalidIds,
                                            0, [], 0, [], 0, 0, [])
                && ExamplesOf(stats.value.invalidIds, Failing(Invalid, facts, old(rows)), old(rows), idColumn)
      ensures stats.Some? ==> LeavesValid(facts, old(rows), rows)
    {
      var deleted := DeleteFailing(Invalid, idColumn);
      if deleted.None? { return None; }
      return Some(NO_STATS.(invalid := deleted.value.0, invalidIds := deleted.value.1));
    }

    method FilterOversizedGeometry(idColumn: string) returns (stats: Option<LoadStats>)
      modifies this`rows
      ensures Identified(old(rows), idColumn) ==> stats.Some?
      ensures stats.None? ==> rows == old(rows)
      ensures stats.Some? ==>
                && rows == Filtered(Oversized, facts, old(rows))
                && stats.value == LoadStats(0, [], |Failing(Oversized, facts, old(rows))|, stats.value.oversizedIds,
                                            0, [], 0, 0, [])
                && ExamplesOf(stats.value.oversizedIds, Failing(Oversized, facts, old(rows)), old(rows), idColumn)
      ensures stats.Some? ==> LeavesWithinACell(facts, old(rows), rows)
    {
      var deleted := DeleteFailing(Oversized, idColumn);
      if deleted.None? { return None; }
      return Some(NO_STATS.(oversized := deleted.value.0, oversizedIds := deleted.value.1));
    }

    method FilterUndersizedGeometry(idColumn: string) returns (stats: Option<LoadStats>)
      modifies this`rows
      ensures Identified(old(rows), idColumn) ==> stats.Some?
      ensures stats.None? ==> rows == old(rows)
      ensures stats.Some? ==>
                && rows == Filtered(Undersized, facts, old(rows))
                && stats.value == LoadStats(0, [], 0, [], |Failing(Undersized, facts, old(rows))|,
                                            stats.value.undersizedIds, 0, 0, [])
                && ExamplesOf(stats.value.undersizedIds, Failing(Undersized, facts, old(rows)), old(rows), idColumn)
      ensures stats.Some? ==> LeavesLargeEnough(facts, old(rows), rows)
    {
      var deleted := DeleteFailing(Undersized, idColumn);
      if deleted.None? { return None; }
      return Some(NO_STATS.(undersized := deleted.value.0, undersizedIds := deleted.value.1));
    }

    /** The row `row_number()` puts first among rows with one key; ties fall either way. */
    method FirstOf(partition: set<nat>) returns (best: nat)
      requires partition != {} && partition <= rows.Keys
      ensures best in partition
      ensures forall rid :: rid in partition ==> !RanksBefore(spec, md5, rows[rid], rows[best])
    {
      hide RanksBefore;
      best :| best in partition;
      RankingIsIrreflexive(spec, md5, rows[best]);
      var left := partition - {best};
      while left != {}
        invariant left <= partition && best in partition
        invariant forall rid :: rid in partition - left ==> !RanksBefore(spec, md5, rows[rid], rows[best])
        decreases left
      {
        var rid :| rid in left;
        if RanksBefore(spec, md5, rows[rid], rows[best]) {
          forall seen | seen in partition - left
            ensures !RanksBefore(spec, md5, rows[seen], rows[rid])
          {
            if RanksBefore(spec, md5, rows[seen], rows[rid]) {
              RankingIsTransitive(spec, md5, rows[seen], rows[rid], rows[best]);
            }
          }
          RankingIsIrreflexive(spec, md5, rows[rid]);
          best := rid;
        }
        left := left - {rid};
      }
    }

    method DeduplicateByKey(idColumn: string) returns (stats: Option<LoadStats>)
      modifies this`rows
      ensures Identified(old(rows), idColumn) ==> stats.Some?
      ensures stats.None? ==> rows == old(rows)
      ensures stats.Some? ==>
                && Deduplicated(spec, md5, old(rows), rows)
                && stats.value.duplicate + |rows| == |old(rows)|
                && stats.value == LoadStats(0, [], 0, [], 0, [], 0, stats.value.duplicate, stats.value.duplicateIds)
                && ExamplesOf(stats.value.duplicateIds, old(rows).Keys - rows.Keys, old(rows), idColumn)
      ensures stats.Some? ==> NewestStays(spec, old(rows), rows)
    {
      hide RanksBefore, SameKey, NonNullKey, Sorted, Deduplicated;
      var doomed: set<nat> := {};
      var left := set rid | rid in rows && NonNullKey(spec, rows[rid]);
      NothingSorted(spec, md5, rows);
      while left != {}
        invariant rows == old(rows) && Sorted(spec, md5, rows, left, doomed) && doomed <= rows.Keys && left <= rows.Keys
        decreases left
      {
        var some :| some in left;
        var partition := set rid | rid in left && SameKey(spec, rows[some], rows[rid]);
        OwnKey(spec, md5, rows, left, doomed, some);
        var best := FirstOf(partition);
        SortOneKey(spec, md5, rows, left, doomed, some, best);
        doomed := doomed + (partition - {best});
        left := left - partition;
      }
      var ids := ExampleIds(doomed, idColumn);
      if ids.None? { return None; }
      AllSorted(spec, md5, rows, doomed);
      KeptIsNewest(spec, md5, rows, rows - doomed);
      Shrinks(rows, doomed);
      rows := rows - doomed;
      assert old(rows).Keys - rows.Keys == doomed;
      return Some(NO_STATS.(duplicate := |doomed|, duplicateIds := ids.value));
    }

    /** Counts the rows that the load select leaves out. With the setting on, no query of the file binds. */
    method CountNullKeyRows(file: seq<Record>, breaks: bool) returns (n: Option<nat>)
      ensures n == if conversion || breaks then None else Some(|NullKeyed(spec, file)|)
    {
      if conversion || breaks { return None; }
      return Some(|NullKeyed(spec, file)|);
    }

    /** Drops the previous table and creates the new one, which the setting makes fail as well. */
    method CreateFrom(file: seq<Record>, breaks: bool) returns (ok: bool)
      modifies this`rows
      ensures ok <==> !conversion && !breaks
      ensures rows == if ok then Created(spec, file) else map[]
    {
      rows := map[];
      ok := !conversion && !breaks;
      if ok {
        rows := Created(spec, file);
      }
    }

    /** Loads the file. The setting is back on whatever fails, and a failure leaves the table as the last
        statement before it left it. On success the table holds one row per key that any usable row has,
        and every input row is accounted for once. */
    method LoadInto(file: seq<Record>, fault: Option<LoadStep>, idColumn: string) returns (stats: Option<LoadStats>)
      requires idColumn in spec.keyColumns
      modifies this
      ensures conversion
      ensures stats.None? <==> fault.Some?
      ensures fault.Some? ==> rows == LeftBefore(fault.value, spec, facts, file, old(rows))
      ensures stats.Some? ==>
                && Loaded(spec, md5, facts, file, rows)
                && |rows| + stats.value.Skipped() == |file|
                && stats.value.nullKey == |NullKeyed(spec, file)|
                && stats.value.invalid == |Failing(Invalid, facts, Created(spec, file))|
                && stats.value.oversized == |Failing(Oversized, facts, Filtered(Invalid, facts, Created(spec, file)))|
                && stats.value.undersized
                == |Failing(Undersized, facts,
                            Filtered(Oversized, facts, Filtered(Invalid, facts, Created(spec, file))))|
                && stats.value.duplicate + |rows| == |Survivors(spec, facts, file)|
      ensures stats.Some? ==> NewestSoundRows(spec, facts, file, rows)
    {
      hide LeavesValid, LeavesWithinACell, LeavesLargeEnough, NewestStays, NewestSoundRows;
      hide Created, NullKeyed, Failing, Filtered, Survivors, ExamplesOf, Deduplicated, Identified;
      var deletes := fault.Some? && fault.value.DeleteRows?;
      conversion := false;
      var nullKeyRows := CountNullKeyRows(file, fault == Some(CountNullKeys));
      var created := false;
      if nullKeyRows.Some? {
        created := CreateFrom(file, fault == Some(CreateTable));
      }
      conversion := true;
      if !created { return None; }
      KeyedOrNot(spec, file);
      CreatedIdentified(spec, file, idColumn);
      FiltersLeaveSurvivors(spec, facts, file);
      FilterShrinks(Invalid, facts, rows, idColumn);
      if deletes && fault.value.reason.Invalid? { return None; }
      var invalid := FilterInvalidGeometry(idColumn);
      FilterShrinks(Oversized, facts, rows, idColumn);
      if deletes && fault.value.reason.Oversized? { return None; }
      var oversized := FilterOversizedGeometry(idColumn);
      FilterShrinks(Undersized, facts, rows, idColumn);
      if deletes && fault.value.reason.Undersized? { return None; }
      var undersized := FilterUndersizedGeometry(idColumn);
      if fault == Some(Deduplicate) { return None; }
      var unique := DeduplicateByKey(idColumn);
      LoadedIsNewest(spec, md5, facts, file, rows);
      return Some(invalid.value.MergeOversized(oversized.value).MergeUndersized(undersized.value)
                  .MergeUniqueKey(unique.value.(nullKey := nullKeyRows.value)));
    }
  }

  // ---- sorting out duplicates, one key at a time ----

  /** The keys of the rows not in `left` are settled: of each of them one row is not doomed. */
  ghost predicate Sorted(spec: DatasetSpec, md5: string -> string, rows: Table, left: set<nat>, doomed: set<nat>) {
    && left <= rows.Keys && doomed <= rows.Keys && doomed !! left
    && (forall rid :: rid in left || rid in doomed ==> NonNullKey(spec, rows[rid]))
    && (forall i, j :: i in left && j in rows.Keys - left ==> !SameKey(spec, rows[i], rows[j]))
    && (forall i, j :: i in rows.Keys - left - doomed && j in rows.Keys - left - doomed && i != j
                       ==> !SameKey(spec, rows[i], rows[j]))
    && (forall rid :: rid in rows.Keys - left && NonNullKey(spec, rows[rid])
                      ==> exists kept :: kept in rows.Keys - left - doomed
                                         && Represents(spec, md5, rows[kept], rows[rid]))
  }

  lemma SameKeyIsAnEquivalence(spec: DatasetSpec, a: Record, b: Record, c: Record)
    ensures SameKey(spec, a, b) ==> SameKey(spec, b, a) && NonNullKey(spec, a) && NonNullKey(spec, b)
    ensures SameKey(spec, a, b) && SameKey(spec, b, c) ==> SameKey(spec, a, c)
    ensures NonNullKey(spec, a) ==> SameKey(spec, a, a)
    ensures NonNullKey(spec, a) <==> !NullKey(spec, a)
  {
  }

  lemma NothingSorted(spec: DatasetSpec, md5: string -> string, rows: Table)
    ensures Sorted(spec, md5, rows, set rid | rid in rows && NonNullKey(spec, rows[rid]), {})
  {
    hide NonNullKey, SameKey, RanksBefore, Represents;
    forall i, j | i in rows && j in rows && !NonNullKey(spec, rows[j])
      ensures !SameKey(spec, rows[i], rows[j])
    {
      SameKeyIsAnEquivalence(spec, rows[i], rows[j], rows[j]);
    }
  }

  lemma OwnKey(spec: DatasetSpec, md5: string -> string, rows: Table, left: set<nat>, doomed: set<nat>, rid: nat)
    requires Sorted(spec, md5, rows, left, doomed) && rid in left
    ensures SameKey(spec, rows[rid], rows[rid])
  {
    hide NonNullKey, SameKey, Represents;
    SameKeyIsAnEquivalence(spec, rows[rid], rows[rid], rows[rid]);
  }

  lemma SortOneKey(spec: DatasetSpec, md5: string -> string, rows: Table, left: set<nat>, doomed: set<nat>,
                   some: nat, best: nat)
    requires Sorted(spec, md5, rows, left, doomed) && some in left
    requires best in left && SameKey(spec, rows[some], rows[best])
    requires forall rid :: rid in left && SameKey(spec, rows[some], rows[rid])
                           ==> !RanksBefore(spec, md5, rows[rid], rows[best])
    ensures var partition := set rid | rid in left && SameKey(spec, rows[some], rows[rid]);
            Sorted(spec, md5, rows, left - partition, doomed + (partition - {best}))
  {
    hide NonNullKey, NullKey, SameKey, RanksBefore, Represents;
    var partition := set rid | rid in left && SameKey(spec, rows[some], rows[rid]);
    var (left', doomed') := (left - partition, doomed + (partition - {best}));
    forall i, j | i in left' && j in partition
      ensures !SameKey(spec, rows[i], rows[j])
    {
      SameKeyIsAnEquivalence(spec, rows[i], rows[j], rows[some]);
      SameKeyIsAnEquivalence(spec, rows[some], rows[j], rows[i]);
    }
    forall j | j in rows.Keys - left
      ensures !SameKey(spec, rows[best], rows[j]) && !SameKey(spec, rows[j], rows[best])
    {
      SameKeyIsAnEquivalence(spec, rows[j], rows[best], rows[j]);
    }
    forall rid | rid in rows.Keys - left' && NonNullKey(spec, rows[rid])
      ensures exists kept :: kept in rows.Keys - left' - doomed' && Represents(spec, md5, rows[kept], rows[rid])
    {
      if rid in partition {
        Represented(spec, md5, rows[some], rows[rid], rows[best]);
        assert best in rows.Keys - left' - doomed';
      } else {
        var kept :| kept in rows.Keys - left - doomed && Represents(spec, md5, rows[kept], rows[rid]);
        assert kept in rows.Keys - left' - doomed';
      }
    }
  }

  lemma Represented(spec: DatasetSpec, md5: string -> string, some: Record, r: Record, best: Record)
    requires SameKey(spec, some, r) && SameKey(spec, some, best) && !RanksBefore(spec, md5, r, best)
    ensures Represents(spec, md5, best, r)
  {
    hide SameKey, RanksBefore, NonNullKey, NullKey;
    SameKeyIsAnEquivalence(spec, some, r, r);
    SameKeyIsAnEquivalence(spec, r, some, best);
  }

  lemma AllSorted(spec: DatasetSpec, md5: string -> string, rows: Table, doomed: set<nat>)
    requires Sorted(spec, md5, rows, {}, doomed)
    ensures Deduplicated(spec, md5, rows, rows - doomed)
  {
    hide NonNullKey, NullKey, SameKey, RanksBefore, Represents;
    assert rows - {} - doomed == rows - doomed;
    forall rid | rid in rows && NullKey(spec, rows[rid])
      ensures rid !in doomed
    {
      SameKeyIsAnEquivalence(spec, rows[rid], rows[rid], rows[rid]);
    }
  }

  lemma LoadedIsNewest(spec: DatasetSpec, md5: string -> string, facts: seq<Byte> -> Facts, file: seq<Record>,
                       rows: Table)
    requires Loaded(spec, md5, facts, file, rows)
    ensures NewestSoundRows(spec, facts, file, rows)
  {
    hide SameKey, NonNullKey, NullKey, RanksBefore, Represents, Sound, Passes, NotOlder, Deduplicated;
    var usable := Survivors(spec, facts, file);
    KeptIsNewest(spec, md5, usable, rows);
    LoadedFrom(spec, md5, facts, file, rows);
    forall i, j | 0 <= i < |file| && Sound(facts, file[i]) && j in rows && SameKey(spec, file[i], rows[j])
      ensures NotOlder(rows[j], file[i])
    {
      SameKeyIsAnEquivalence(spec, file[i], rows[j], file[i]);
      PassesMeansSound(facts, file[i]);
      assert i in usable && usable[i] == file[i];
    }
  }

  lemma LoadedFrom(spec: DatasetSpec, md5: string -> string, facts: seq<Byte> -> Facts, file: seq<Record>, rows: Table)
    requires Loaded(spec, md5, facts, file, rows)
    ensures forall j :: j in rows ==>
              j < |file| && rows[j] == file[j] && Sound(facts, file[j]) && NonNullKey(spec, file[j])
  {
    hide SameKey, NonNullKey, NullKey, RanksBefore, Represents, Sound, Passes;
    forall j | j in rows
      ensures j < |file| && rows[j] == file[j] && Sound(facts, file[j]) && NonNullKey(spec, file[j])
    {
      assert j in Survivors(spec, facts, file);
      PassesMeansSound(facts, file[j]);
    }
  }

  lemma PassesMeansSound(facts: seq<Byte> -> Facts, r: Record)
    ensures Passes(facts, r) <==> Sound(facts, r)
  {
  }

  /** The row left of a key is the newest of it, and of rows with its version it has the least signature. */
  lemma KeptIsNewest(spec: DatasetSpec, md5: string -> string, before: Table, after: Table)
    requires Deduplicated(spec, md5, before, after)
    ensures NewestStays(spec, before, after)
    ensures forall i, j :: i in before && j in after && SameKey(spec, before[i], after[j])
                           && before[i].version == after[j].version
              ==> !TextLess(Signature(spec, md5, before[i]), Signature(spec, md5, after[j]))
  {
    hide SameKey, NonNullKey, NullKey, Signature, TextLess;
    forall i, j | i in before && j in after && SameKey(spec, before[i], after[j])
      ensures !RanksBefore(spec, md5, before[i], after[j])
    {
      SameKeyIsAnEquivalence(spec, before[i], after[j], before[i]);
      var kept :| kept in after && Represents(spec, md5, after[kept], before[i]);
      SameKeyIsAnEquivalence(spec, after[j], before[i], after[kept]);
      assert kept == j;
    }
  }

  // ---- counting ----

  lemma Shrinks(rows: Table, doomed: set<nat>)
    requires doomed <= rows.Keys
    ensures |rows - doomed| + |doomed| == |rows|
  {
    assert (rows - doomed).Keys == rows.Keys - doomed;
    assert |rows.Keys| == |rows| && |(rows - doomed).Keys| == |rows - doomed|;
  }

  function Below(n: nat): (s: set<nat>)
    ensures |s| == n && forall i :: i in s <==> 0 <= i < n
  {
    if n == 0 then {} else Below(n - 1) + {n - 1}
  }

  /** The two key conditions split the file. */
  lemma KeyedOrNot(spec: DatasetSpec, file: seq<Record>)
    ensures |Created(spec, file)| + |NullKeyed(spec, file)| == |file|
  {
    assert Below(|file|) == Created(spec, file).Keys + NullKeyed(spec, file);
    assert |Created(spec, file).Keys| == |Created(spec, file)|;
  }

  lemma CreatedIdentified(spec: DatasetSpec, file: seq<Record>, idColumn: string)
    requires idColumn in spec.keyColumns
    ensures Identified(Created(spec, file), idColumn)
  {
  }

  lemma FilterShrinks(reason: Reason, facts: seq<Byte> -> Facts, rows: Table, idColumn: string)
    ensures |Filtered(reason, facts, rows)| + |Failing(reason, facts, rows)| == |rows|
    ensures Identified(rows, idColumn) ==> Identified(Filtered(reason, facts, rows), idColumn)
  {
    hide Fails;
    Shrinks(rows, Failing(reason, facts, rows));
  }

  lemma FiltersLeaveSurvivors(spec: DatasetSpec, facts: seq<Byte> -> Facts, file: seq<Record>)
    ensures Filtered(Undersized, facts, Filtered(Oversized, facts, Filtered(Invalid, facts, Created(spec, file))))
         == Survivors(spec, facts, file)
  {
  }

  lemma RankingIsIrreflexive(spec: DatasetSpec, md5: string -> string, r: Record)
    ensures !RanksBefore(spec, md5, r, r)
  {
    TextIsNotLess(Signature(spec, md5, r));
  }

  lemma {:induction false} TextIsNotLess(s: string)
    ensures !TextLess(s, s)
    decreases s
  {
    if s != [] { TextIsNotLess(s[1..]); }
  }

  // ---- what a load leaves ----

  predicate HasKey(spec: DatasetSpec, rows: Table, r: Record) {
    exists rid :: rid in rows && SameKey(spec, r, rows[rid])
  }

  lemma KeptIsARow(spec: DatasetSpec, md5: string -> string, facts: seq<Byte> -> Facts,
                   file: seq<Record>, rows: Table, rid: nat)
    requires Loaded(spec, md5, facts, file, rows) && rid in rows
    ensures rid < |file| && rows[rid] == file[rid] && Passes(facts, file[rid])
  {
    hide SameKey, NonNullKey, NullKey, Passes, RanksBefore, Represents;
    assert rid in Survivors(spec, facts, file);
  }

  /** Of every usable row of the file a row of its key, not ranked after it, is kept. */
  lemma KeptFor(spec: DatasetSpec, md5: string -> string, facts: seq<Byte> -> Facts,
                file: seq<Record>, rows: Table, i: nat) returns (kept: nat)
    requires Loaded(spec, md5, facts, file, rows)
    requires i < |file| && NonNullKey(spec, file[i]) && Passes(facts, file[i])
    ensures kept in rows && Represents(spec, md5, rows[kept], file[i])
  {
    hide SameKey, NonNullKey, NullKey, Passes, RanksBefore, Represents;
    assert i in Survivors(spec, facts, file) && Survivors(spec, facts, file)[i] == file[i];
    kept :| kept in rows && Represents(spec, md5, rows[kept], file[i]);
  }

  lemma KeptOnce(spec: DatasetSpec, md5: string -> string, facts: seq<Byte> -> Facts,
                 file: seq<Record>, rows: Table, i: nat, j: nat)
    requires Loaded(spec, md5, facts, file, rows) && i in rows && j in rows && SameKey(spec, rows[i], rows[j])
    ensures i == j
  {
    hide SameKey, NonNullKey, NullKey, Passes, RanksBefore, Represents, Survivors;
  }

  /** A record's key is in the loaded table exactly when some row of the file with that key passes the
      three filters. */
  lemma KeySurvivesExactlyWhen(spec: DatasetSpec, md5: string -> string, facts: seq<Byte> -> Facts,
                               file: seq<Record>, rows: Table, r: Record)
    requires Loaded(spec, md5, facts, file, rows)
    ensures HasKey(spec, rows, r)
        <==> (exists s :: s in file && SameKey(spec, r, s) && Passes(facts, s))
  {
    hide Loaded, SameKey, NonNullKey, NullKey, Passes, RanksBefore;
    if rid :| rid in rows && SameKey(spec, r, rows[rid]) {
      KeptIsARow(spec, md5, facts, file, rows, rid);
    }
    if s :| s in file && SameKey(spec, r, s) && Passes(facts, s) {
      var i :| 0 <= i < |file| && file[i] == s;
      SameKeyIsAnEquivalence(spec, r, file[i], file[i]);
      var kept := KeptFor(spec, md5, facts, file, rows, i);
      SameKeyIsAnEquivalence(spec, r, file[i], rows[kept]);
    }
  }

  /** Removing duplicates before filtering would lose a key whose best-ranked rows all fail, though an
      older row of it passes. */
  lemma DeduplicatingFirstLosesKeys(spec: DatasetSpec, md5: string -> string, reason: Reason,
                                    facts: seq<Byte> -> Facts, rows: Table, after: Table, r: Record)
    requires Deduplicated(spec, md5, rows, after) && NonNullKey(spec, r)
    requires forall rid :: rid in rows && SameKey(spec, r, rows[rid])
                           ==> Fails(reason, facts, rows[rid]) || Outranked(spec, md5, rows, rid)
    ensures !HasKey(spec, Filtered(reason, facts, after), r)
  {
    hide SameKey, NonNullKey, NullKey, RanksBefore, Fails;
    forall rid | rid in after && SameKey(spec, r, after[rid])
      ensures Fails(reason, facts, after[rid])
    {
      if Outranked(spec, md5, rows, rid) {
        var better :| better in rows && SameKey(spec, rows[rid], rows[better])
                      && RanksBefore(spec, md5, rows[better], rows[rid]);
        SameKeyIsAnEquivalence(spec, rows[rid], rows[better], rows[better]);
        var kept :| kept in after && Represents(spec, md5, after[kept], rows[better]);
        SameKeyIsAnEquivalence(spec, rows[rid], rows[better], after[kept]);
      }
    }
  }

  predicate Outranked(spec: DatasetSpec, md5: string -> string, rows: Table, rid: nat)
    requires rid in rows
  {
    exists better :: better in rows && SameKey(spec, rows[rid], rows[better])
                     && RanksBefore(spec, md5, rows[better], rows[rid])
  }

  /** Two files with the same records, in any order and however often repeated. */
  predicate SameRecords(file: seq<Record>, other: seq<Record>) {
    (forall r :: r in file ==> r in other) && (forall r :: r in other ==> r in file)
  }

  /** Loading is deterministic up to what the source compares: the same keys, and no record of one
      load counts as changed against the other's. */
  lemma LoadIsDeterministic(spec: DatasetSpec, md5: string -> string, facts: seq<Byte> -> Facts,
                            file: seq<Record>, other: seq<Record>, rows: Table, rows': Table)
    requires CollisionFree(md5) && SameRecords(file, other)
    requires forall r :: r in file ==> PlainRecord(spec, r)
    requires Loaded(spec, md5, facts, file, rows) && Loaded(spec, md5, facts, other, rows')
    ensures forall r :: HasKey(spec, rows, r) <==> HasKey(spec, rows', r)
    ensures forall i, j :: i in rows && j in rows' && SameKey(spec, rows[i], rows'[j]) ==>
      !Changed(spec, rows[i], rows'[j])
  {
    hide HasKey, Loaded, SameKey, NonNullKey, NullKey, Passes, RanksBefore, Changed, PlainRecord, CollisionFree;
    forall r
      ensures HasKey(spec, rows, r) <==> HasKey(spec, rows', r)
    {
      KeySurvivesExactlyWhen(spec, md5, facts, file, rows, r);
      KeySurvivesExactlyWhen(spec, md5, facts, other, rows', r);
    }
    forall i, j | i in rows && j in rows' && SameKey(spec, rows[i], rows'[j])
      ensures !Changed(spec, rows[i], rows'[j])
    {
      SameKeyIsAnEquivalence(spec, rows[i], rows'[j], rows[i]);
      NoneRanksBefore(spec, md5, facts, file, other, rows, rows', i, j);
      NoneRanksBefore(spec, md5, facts, other, file, rows', rows, j, i);
      TiesAreUnchanged(spec, md5, rows[i], rows'[j]);
    }
  }

  /** A row that a load kept is not outranked by a row of that key in the other load. */
  lemma NoneRanksBefore(spec: DatasetSpec, md5: string -> string, facts: seq<Byte> -> Facts,
                        file: seq<Record>, other: seq<Record>, rows: Table, rows': Table, i: nat, j: nat)
    requires SameRecords(file, other)
    requires Loaded(spec, md5, facts, file, rows) && Loaded(spec, md5, facts, other, rows')
    requires i in rows && j in rows' && SameKey(spec, rows[i], rows'[j])
    ensures !RanksBefore(spec, md5, rows[i], rows'[j])
    ensures rows[i] in file
  {
    hide Loaded, SameKey, NonNullKey, NullKey, Passes, RanksBefore;
    KeptIsARow(spec, md5, facts, file, rows, i);
    assert file[i] in other;
    var k :| 0 <= k < |other| && other[k] == file[i];
    SameKeyIsAnEquivalence(spec, rows[i], rows'[j], rows[i]);
    var kept := KeptFor(spec, md5, facts, other, rows', k);
    SameKeyIsAnEquivalence(spec, rows'[j], rows[i], rows'[kept]);
    KeptOnce(spec, md5, facts, other, rows', j, kept);
  }
}
