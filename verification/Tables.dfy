/** The database tables of the incremental matcher, as values.

    A serving table is a bag of entries kept as a sequence, each tagged with its source and cell.
    `Slice` is what one cell of one source holds and `Rest` is what stays when that cell is
    cleared. */
module Tables {
  import opened Basics
  import opened TileMath
  import opened MatchRule

  /** A tag of None is a NULL cell, which no per-cell statement reaches. */
  datatype Entry<V> = Entry(source: string, cell: Option<Cell>, value: V)

  predicate At<V>(e: Entry<V>, key: Key) {
    e.source == key.source && e.cell == Some(key.cell)
  }

  function Slice<V>(t: seq<Entry<V>>, key: Key): seq<Entry<V>> {
    if t == [] then []
    else (if At(t[0], key) then [t[0]] else []) + Slice(t[1..], key)
  }

  function Rest<V>(t: seq<Entry<V>>, key: Key): seq<Entry<V>> {
    if t == [] then []
    else (if At(t[0], key) then [] else [t[0]]) + Rest(t[1..], key)
  }

  /** What is left of a table after one source's rows are deleted. */
  function OtherSources<V>(t: seq<Entry<V>>, source: string): seq<Entry<V>> {
    if t == [] then []
    else (if t[0].source == source then [] else [t[0]]) + OtherSources(t[1..], source)
  }

  /** A queue row. `rid` is the storage identity of the row: two rows may agree on all columns. */
  datatype QueueRow = QueueRow(rid: nat, key: Key, at: int)

  datatype Db = Db(
    live: seq<Row>,
    evidence: set<Evidence>,
    unmatched: seq<Entry<Row>>,
    totals: seq<Entry<nat>>,
    queue: set<QueueRow>,
    tiles: seq<Cell>,
    nextRid: nat)

  predicate Queued(queue: set<QueueRow>, key: Key) {
    exists r :: r in queue && r.key == key
  }

  /** Every row identity in use lies below the next one to be handed out. */
  ghost predicate RidsBelow(queue: set<QueueRow>, n: nat) {
    forall r :: r in queue ==> r.rid < n
  }

  lemma SliceAppend<V>(a: seq<Entry<V>>, b: seq<Entry<V>>, key: Key)
    ensures Slice(a + b, key) == Slice(a, key) + Slice(b, key)
  {
    if a == [] {
      assert a + b == b;
    } else {
      assert (a + b)[1..] == a[1..] + b;
    }
  }

  lemma SliceOfRest<V>(t: seq<Entry<V>>, key: Key, other: Key)
    ensures Slice(Rest(t, key), other) == if other == key then [] else Slice(t, other)
  {
    if t != [] {
      var head := if At(t[0], key) then [] else [t[0]];
      SliceAppend(head, Rest(t[1..], key), other);
      assert head != [] ==> Slice(head, other) == (if At(t[0], other) then [t[0]] else []) + Slice([], other);
    }
  }

  lemma RestIsPart<V>(t: seq<Entry<V>>, key: Key, e: Entry<V>)
    ensures e in Rest(t, key) <==> e in t && !At(e, key)
  {
  }

  lemma SliceOfOtherSources<V>(t: seq<Entry<V>>, source: string, key: Key)
    ensures Slice(OtherSources(t, source), key) == if key.source == source then [] else Slice(t, key)
  {
    if t != [] {
      var head := if t[0].source == source then [] else [t[0]];
      SliceAppend(head, OtherSources(t[1..], source), key);
      assert head != [] ==> Slice(head, key) == (if At(t[0], key) then [t[0]] else []) + Slice([], key);
    }
  }

  /** A slice holds an entry as often as its table does when the entry is tagged with the slice's
      key, and not at all otherwise. */
  lemma SliceMultiplicity<V>(t: seq<Entry<V>>, key: Key, e: Entry<V>)
    ensures multiset(Slice(t, key))[e] == if At(e, key) then multiset(t)[e] else 0
  {
    if t != [] {
      assert t == [t[0]] + t[1..];
      SliceMultiplicity(t[1..], key, e);
    }
  }

  lemma OtherSourcesMultiplicity<V>(t: seq<Entry<V>>, source: string, e: Entry<V>)
    ensures multiset(OtherSources(t, source))[e] == if e.source == source then 0 else multiset(t)[e]
  {
    if t != [] {
      assert t == [t[0]] + t[1..];
      OtherSourcesMultiplicity(t[1..], source, e);
    }
  }

  lemma SliceOfOwn<V>(t: seq<Entry<V>>, key: Key)
    requires forall e :: e in t ==> At(e, key)
    ensures Slice(t, key) == t
  {
    if t != [] {
      assert t == [t[0]] + t[1..];
      assert forall e :: e in t[1..] ==> e in t;
    }
  }

  lemma SliceOfForeign<V>(t: seq<Entry<V>>, key: Key)
    requires forall e :: e in t ==> !At(e, key)
    ensures Slice(t, key) == []
  {
    if t != [] {
      assert forall e :: e in t[1..] ==> e in t;
    }
  }
}
