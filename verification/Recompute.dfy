/** What a per-cell recompute writes (src/compare/incremental.rs, src/compare/totals.rs) and the
    whole-source rebuild of the denominators. */
module Recompute {
  import opened Basics
  import opened TileMath
  import opened MatchRule
  import opened Tables

  /** Read wide, write narrow: the envelope test is closed, so the tag guard decides which of the
      cells sharing an edge owns the row. */
  predicate InCell(g: Geometry, row: Row, key: Key) {
    && row.source == key.source
    && row.point.Some?
    && Inside(row.point.value, TileBox(g.proj, key.cell))
    && CellOf(g.proj, row.point.value) == key.cell
  }

  predicate Unmatched(g: Geometry, evidence: set<Evidence>, row: Row, key: Key) {
    InCell(g, row, key) && Comparable(row) && !Settled(g, evidence, row, Some(ReadArea(g, key)))
  }

  function Tagged(g: Geometry, row: Row): Entry<Row> {
    Entry(row.source, if row.point.Some? then Some(CellOf(g.proj, row.point.value)) else None, row)
  }

  function CellRows(g: Geometry, live: seq<Row>, evidence: set<Evidence>, key: Key): seq<Entry<Row>> {
    if live == [] then []
    else (if Unmatched(g, evidence, live[0], key) then [Tagged(g, live[0])] else [])
         + CellRows(g, live[1..], evidence, key)
  }

  function CellTotal(g: Geometry, live: seq<Row>, key: Key): nat {
    if live == [] then 0
    else (if InCell(g, live[0], key) && Comparable(live[0]) then 1 else 0) + CellTotal(g, live[1..], key)
  }

  /** An empty cell gets no row at all rather than a zero. */
  function TotalRows(key: Key, n: nat): seq<Entry<nat>> {
    if n > 0 then [Entry(key.source, Some(key.cell), n)] else []
  }

  function RecomputeCell(g: Geometry, db: Db, key: Key): Db {
    db.(unmatched := Rest(db.unmatched, key) + CellRows(g, db.live, db.evidence, key),
        totals := Rest(db.totals, key) + TotalRows(key, CellTotal(g, db.live, key)))
  }

  /** The cell's slices hold what a recompute of the current data would write. */
  ghost predicate Fresh(g: Geometry, db: Db, key: Key) {
    && multiset(Slice(db.unmatched, key)) == multiset(CellRows(g, db.live, db.evidence, key))
    && Slice(db.totals, key) == TotalRows(key, CellTotal(g, db.live, key))
  }

  lemma {:induction false} CellRowsAreTagged(g: Geometry, live: seq<Row>, evidence: set<Evidence>, key: Key)
    ensures forall e :: e in CellRows(g, live, evidence, key) ==> At(e, key)
  {
    if live != [] {
      CellRowsAreTagged(g, live[1..], evidence, key);
    }
  }

  /** A recompute of one cell makes that cell fresh and leaves every other slice as it was. */
  lemma RecomputeIsLocal(g: Geometry, db: Db, key: Key, other: Key)
    ensures var after := RecomputeCell(g, db, key);
            && (other == key ==> Slice(after.unmatched, key) == CellRows(g, db.live, db.evidence, key)
                                 && Slice(after.totals, key) == TotalRows(key, CellTotal(g, db.live, key)))
            && (other != key ==> Slice(after.unmatched, other) == Slice(db.unmatched, other)
                                 && Slice(after.totals, other) == Slice(db.totals, other))
  {
    hide Slice, Rest, CellRows, CellTotal, InCell;
    var rows := CellRows(g, db.live, db.evidence, key);
    var total := TotalRows(key, CellTotal(g, db.live, key));
    SliceAppend(Rest(db.unmatched, key), rows, other);
    SliceAppend(Rest(db.totals, key), total, other);
    SliceOfRest(db.unmatched, key, other);
    SliceOfRest(db.totals, key, other);
    CellRowsAreTagged(g, db.live, db.evidence, key);
    if other == key {
      SliceOfOwn(rows, key);
      SliceOfOwn(total, key);
    } else {
      SliceOfForeign(rows, other);
      SliceOfForeign(total, other);
    }
  }

  /** The numerator never exceeds the denominator computed beside it. */
  lemma {:induction false} RowsWithinTotal(g: Geometry, live: seq<Row>, evidence: set<Evidence>, key: Key)
    ensures |CellRows(g, live, evidence, key)| <= CellTotal(g, live, key)
  {
    if live != [] {
      RowsWithinTotal(g, live[1..], evidence, key);
    }
  }

  // ---- what a cell's rows and its total are, without the envelope test ----

  /** Every representative point lies where the projection is defined. */
  ghost predicate Mapped(live: seq<Row>) {
    forall row :: row in live && row.point.Some? ==> ProperLatitude(row.point.value.lat)
  }

  /** A row of the source whose point is the cell's; of BDOT10k, one that is standing. */
  predicate Belongs(g: Geometry, row: Row, key: Key) {
    && row.source == key.source
    && row.point.Some? && CellOf(g.proj, row.point.value) == key.cell
    && (row.source == "bdot10k" ==> row.standing)
  }

  /** The positions from `k` on of the rows that belong to the cell. */
  function Belonging(g: Geometry, live: seq<Row>, key: Key, k: nat): set<nat> {
    set i: nat | k <= i < |live| && Belongs(g, live[i], key)
  }

  lemma InCellMeansBelongs(g: Geometry, row: Row, key: Key)
    requires Monotone(g.proj) && (row.point.Some? ==> ProperLatitude(row.point.value.lat))
    ensures InCell(g, row, key) && Comparable(row) <==> Belongs(g, row, key)
  {
    hide TileBox, CellOf, Inside;
    if row.point.Some? {
      OwnerBoxContains(g.proj, row.point.value);
    }
  }

  lemma {:induction false} TotalFrom(g: Geometry, live: seq<Row>, key: Key, k: nat)
    requires Monotone(g.proj) && Mapped(live) && k <= |live|
    ensures CellTotal(g, live[k..], key) == |Belonging(g, live, key, k)|
    decreases |live| - k
  {
    hide InCell, Belongs, Comparable;
    if k == |live| {
      assert Belonging(g, live, key, k) == {};
    } else {
      TotalFrom(g, live, key, k + 1);
      InCellMeansBelongs(g, live[k], key);
      assert live[k..][1..] == live[k + 1..];
      assert Belonging(g, live, key, k)
          == Belonging(g, live, key, k + 1) + if Belongs(g, live[k], key) then {k} else {};
    }
  }

  /** The total of a cell is the number of rows that belong to it. */
  lemma TotalCounts(g: Geometry, live: seq<Row>, key: Key)
    requires Monotone(g.proj) && Mapped(live)
    ensures CellTotal(g, live, key) == |Belonging(g, live, key, 0)|
  {
    TotalFrom(g, live, key, 0);
    assert live[0..] == live;
  }

  /** The rows of a cell are those that belong to it and that nothing read for the cell settles, each tagged
      with its source and the cell. */
  lemma {:induction false} RowsAreTheUnsettled(g: Geometry, live: seq<Row>, evidence: set<Evidence>, key: Key,
                                               e: Entry<Row>)
    requires Monotone(g.proj) && Mapped(live)
    ensures e in CellRows(g, live, evidence, key)
            <==> && e.value in live && e.source == key.source && e.cell == Some(key.cell)
                 && Belongs(g, e.value, key)
                 && forall o :: o in evidence && ReadIn(g, o, Some(ReadArea(g, key))) ==> !Settles(g, o, e.value)
    decreases |live|
  {
    hide InCell, Belongs, Comparable, ReadArea, ReadIn, Settles;
    if live != [] {
      var rest := live[1..];
      assert live == [live[0]] + rest;
      RowsAreTheUnsettled(g, rest, evidence, key, e);
      InCellMeansBelongs(g, live[0], key);
      if Belongs(g, live[0], key) {
        BelongsIsTagged(g, live[0], key);
      }
      if e.value == live[0] && Belongs(g, live[0], key) {
        UnmatchedMeansUnsettled(g, evidence, live[0], key);
      }
    }
  }

  lemma UnmatchedMeansUnsettled(g: Geometry, evidence: set<Evidence>, row: Row, key: Key)
    requires InCell(g, row, key) && Comparable(row)
    ensures Unmatched(g, evidence, row, key)
            <==> forall o :: o in evidence && ReadIn(g, o, Some(ReadArea(g, key))) ==> !Settles(g, o, row)
  {
    hide InCell, Comparable, ReadArea, ReadIn, Settles;
  }

  lemma BelongsIsTagged(g: Geometry, row: Row, key: Key)
    requires Belongs(g, row, key)
    ensures Tagged(g, row) == Entry(key.source, Some(key.cell), row)
  {
  }

  // ---- the whole-source rebuild of the denominators ----

  /** One more object in `cell`: the running GROUP BY. */
  function Bump(t: seq<Entry<nat>>, source: string, cell: Cell): seq<Entry<nat>> {
    if t == [] then [Entry(source, Some(cell), 1)]
    else if t[0].source == source && t[0].cell == Some(cell) then [t[0].(value := t[0].value + 1)] + t[1..]
    else [t[0]] + Bump(t[1..], source, cell)
  }

  function GroupTotals(g: Geometry, live: seq<Row>, source: string): seq<Entry<nat>> {
    if live == [] then []
    else
      var others := GroupTotals(g, live[1..], source);
      var row := live[0];
      if row.source == source && row.point.Some? && Comparable(row)
      then Bump(others, source, CellOf(g.proj, row.point.value))
      else others
  }

  function RebuildAll(g: Geometry, db: Db, source: string): Db {
    db.(totals := OtherSources(db.totals, source) + GroupTotals(g, db.live, source))
  }

  lemma {:induction false} SliceOfBump(t: seq<Entry<nat>>, source: string, cell: Cell, key: Key, n: nat)
    requires Slice(t, key) == TotalRows(key, n)
    ensures Slice(Bump(t, source, cell), key) == TotalRows(key, if Key(source, cell) == key then n + 1 else n)
  {
    if t != [] {
      if t[0].source == source && t[0].cell == Some(cell) {
        if At(t[0], key) {
          assert Slice(t, key)[0] == t[0];
          assert Slice(t[1..], key) == Slice(t, key)[1..] == [];
        }
      } else if At(t[0], key) {
        assert Slice(t, key)[0] == t[0];
        assert Slice(t[1..], key) == Slice(t, key)[1..] == [];
        SliceOfBump(t[1..], source, cell, key, 0);
      } else {
        SliceOfBump(t[1..], source, cell, key, n);
      }
    }
  }

  /** Two algorithms, one denominator: the grouped rebuild gives each cell of the source exactly
      the row that a recompute of that cell would write. */
  lemma {:induction false} GroupTotalsAgree(g: Geometry, live: seq<Row>, source: string, key: Key)
    requires Monotone(g.proj) && Mapped(live)
    ensures Slice(GroupTotals(g, live, source), key)
            == TotalRows(key, if key.source == source then CellTotal(g, live, key) else 0)
  {
    if live != [] {
      GroupTotalsAgree(g, live[1..], source, key);
      var row := live[0];
      if row.source == source && row.point.Some? && Comparable(row) {
        OwnerBoxContains(g.proj, row.point.value);
        SliceOfBump(GroupTotals(g, live[1..], source), source, CellOf(g.proj, row.point.value), key,
                    if key.source == source then CellTotal(g, live[1..], key) else 0);
      }
    }
  }

  lemma RebuildAllIsRecomputeEverywhere(g: Geometry, db: Db, source: string, key: Key)
    requires Monotone(g.proj) && Mapped(db.live)
    ensures Slice(RebuildAll(g, db, source).totals, key)
            == if key.source == source then Slice(RecomputeCell(g, db, key).totals, key) else Slice(db.totals, key)
  {
    SliceAppend(OtherSources(db.totals, source), GroupTotals(g, db.live, source), key);
    SliceOfOtherSources(db.totals, source, key);
    GroupTotalsAgree(g, db.live, source, key);
    RecomputeIsLocal(g, db, key, key);
  }
}
