/** Record identity, change detection and the ranking of duplicates (src/dataset.rs). */
module Dataset {
  import opened Basics

  /** A loaded record: its columns as text, the version it is ranked by, its geometry as WKB. */
  datatype Record = Record(values: map<string, Option<string>>, version: Option<int>, wkb: Option<seq<Byte>>)

  datatype DatasetSpec =
    DatasetSpec(keyColumns: seq<string>, comparedColumns: seq<string>, compareGeometry: bool)

  function Value(r: Record, column: string): Option<string> {
    if column in r.values then r.values[column] else None
  }

  predicate NonNullKey(spec: DatasetSpec, r: Record) {
    forall c :: c in spec.keyColumns ==> Value(r, c).Some?
  }

  predicate NullKey(spec: DatasetSpec, r: Record) {
    exists c :: c in spec.keyColumns && Value(r, c).None?
  }

  /** Two records join on the key: NULL joins with nothing. */
  predicate SameKey(spec: DatasetSpec, a: Record, b: Record) {
    forall c :: c in spec.keyColumns ==> Value(a, c).Some? && Value(a, c) == Value(b, c)
  }

  // ---- "modified" ----

  /** The definition of "modified": a NULL-safe comparison of the compared columns and, where the
      source says so, of the geometry. */
  predicate Changed(spec: DatasetSpec, a: Record, b: Record) {
    || (exists c :: c in spec.comparedColumns && Value(a, c) != Value(b, c))
    || (spec.compareGeometry && a.wkb != b.wkb)
  }

  // ---- the content signature ----

  const NULL_SENTINEL: char := '\U{1E}'
  const SEPARATOR: char := '\U{1F}'

  function Coalesce(value: Option<string>): string {
    if value.Some? then value.value else [NULL_SENTINEL]
  }

  function HexDigit(n: int): (digit: char)
    requires 0 <= n < 16
    ensures digit == "0123456789ABCDEF"[n]
  {
    if n < 10 then ('0' as int + n) as char else ('A' as int + n - 10) as char
  }

  function Hex(bytes: seq<Byte>): string {
    if bytes == [] then "" else [HexDigit(bytes[0] / 16), HexDigit(bytes[0] % 16)] + Hex(bytes[1..])
  }

  function HexOf(wkb: Option<seq<Byte>>): Option<string> {
    if wkb.Some? then Some(Hex(wkb.value)) else None
  }

  /** The compared columns, NULL replaced by the sentinel. */
  function ColumnParts(columns: seq<string>, r: Record): seq<string> {
    if columns == [] then [] else [Coalesce(Value(r, columns[0]))] + ColumnParts(columns[1..], r)
  }

  function Parts(spec: DatasetSpec, r: Record): seq<string> {
    ColumnParts(spec.comparedColumns, r) + (if spec.compareGeometry then [Coalesce(HexOf(r.wkb))] else [])
  }

  function Join(parts: seq<string>): string {
    if parts == [] then ""
    else if |parts| == 1 then parts[0]
    else parts[0] + [SEPARATOR] + Join(parts[1..])
  }

  /** The digest of the parts; a source that compares nothing digests the empty text. */
  function Signature(spec: DatasetSpec, md5: string -> string, r: Record): string {
    md5(Join(Parts(spec, r)))
  }

  /** What is assumed of md5. */
  ghost predicate CollisionFree(md5: string -> string) {
    forall s, t :: md5(s) == md5(t) ==> s == t
  }

  /** A text that is not the sentinel and holds no separator. */
  predicate Plain(s: string) {
    s != [NULL_SENTINEL] && SEPARATOR !in s
  }

  predicate PlainRecord(spec: DatasetSpec, r: Record) {
    forall c :: c in spec.comparedColumns && Value(r, c).Some? ==> Plain(Value(r, c).value)
  }

  // ---- the encoding loses nothing ----

  lemma {:induction false} HexIsInjective(a: seq<Byte>, b: seq<Byte>)
    requires Hex(a) == Hex(b)
    ensures a == b
    decreases a
  {
    if a != [] && b != [] {
      var (x, y) := (Hex(a), Hex(b));
      assert x[0] == HexDigit(a[0] / 16) && x[1] == HexDigit(a[0] % 16) && x[2..] == Hex(a[1..]);
      assert y[0] == HexDigit(b[0] / 16) && y[1] == HexDigit(b[0] % 16) && y[2..] == Hex(b[1..]);
      HexIsInjective(a[1..], b[1..]);
      assert a[0] == b[0];
      assert a == [a[0]] + a[1..] && b == [b[0]] + b[1..];
    }
  }

  lemma {:induction false} HexIsPlain(a: seq<Byte>)
    ensures Plain(Hex(a)) && NULL_SENTINEL !in Hex(a)
    decreases a
  {
    if a != [] { HexIsPlain(a[1..]); }
  }

  lemma PartThenSeparator(p: string, x: string)
    requires SEPARATOR !in p
    ensures var s := p + [SEPARATOR] + x;
            s[|p|] == SEPARATOR && s[..|p|] == p && s[|p| + 1..] == x && forall i :: 0 <= i < |p| ==> s[i] != SEPARATOR
  {
    assert (p + [SEPARATOR] + x)[..|p|] == p && (p + [SEPARATOR] + x)[|p| + 1..] == x;
  }

  /** The first separator shows where the first part ends. */
  lemma FirstPartEnds(p: string, q: string, x: string, y: string)
    requires SEPARATOR !in p && SEPARATOR !in q && p + [SEPARATOR] + x == q + [SEPARATOR] + y
    ensures p == q && x == y
  {
    PartThenSeparator(p, x);
    PartThenSeparator(q, y);
  }

  lemma {:induction false} JoinIsInjective(p: seq<string>, q: seq<string>)
    requires |p| == |q| && Join(p) == Join(q)
    requires forall i :: 0 <= i < |p| ==> SEPARATOR !in p[i] && SEPARATOR !in q[i]
    ensures p == q
    decreases p
  {
    if |p| == 1 {
      assert p == [p[0]] && q == [q[0]];
    } else if |p| > 1 {
      FirstPartEnds(p[0], q[0], Join(p[1..]), Join(q[1..]));
      JoinIsInjective(p[1..], q[1..]);
      assert p == [p[0]] + p[1..] && q == [q[0]] + q[1..];
    }
  }

  /** Column by column: the parts agree exactly when the values do, and hold no separator. */
  lemma {:induction false} ColumnPartsAgree(columns: seq<string>, a: Record, b: Record)
    requires forall c :: c in columns && Value(a, c).Some? ==> Plain(Value(a, c).value)
    requires forall c :: c in columns && Value(b, c).Some? ==> Plain(Value(b, c).value)
    ensures |ColumnParts(columns, a)| == |ColumnParts(columns, b)|
    ensures forall i :: 0 <= i < |ColumnParts(columns, a)|
                        ==> SEPARATOR !in ColumnParts(columns, a)[i] && SEPARATOR !in ColumnParts(columns, b)[i]
    ensures ColumnParts(columns, a) == ColumnParts(columns, b)
        <==> (forall c :: c in columns ==> Value(a, c) == Value(b, c))
    decreases columns
  {
    if columns != [] {
      var (x, y) := (ColumnParts(columns, a), ColumnParts(columns, b));
      ColumnPartsAgree(columns[1..], a, b);
      assert x[1..] == ColumnParts(columns[1..], a) && y[1..] == ColumnParts(columns[1..], b);
      assert x == [x[0]] + x[1..] && y == [y[0]] + y[1..];
      assert x[0] == y[0] <==> Value(a, columns[0]) == Value(b, columns[0]);
      assert forall c :: c in columns <==> c == columns[0] || c in columns[1..];
    }
  }

  lemma GeometryPartsAgree(a: Record, b: Record)
    ensures Coalesce(HexOf(a.wkb)) == Coalesce(HexOf(b.wkb)) <==> a.wkb == b.wkb
    ensures SEPARATOR !in Coalesce(HexOf(a.wkb))
  {
    if a.wkb.Some? { HexIsPlain(a.wkb.value); }
    if b.wkb.Some? { HexIsPlain(b.wkb.value); }
    if a.wkb.Some? && b.wkb.Some? && Hex(a.wkb.value) == Hex(b.wkb.value) {
      HexIsInjective(a.wkb.value, b.wkb.value);
    }
  }

  /** On plain values the parts agree exactly when nothing compared differs. */
  lemma PartsAgree(spec: DatasetSpec, a: Record, b: Record)
    requires PlainRecord(spec, a) && PlainRecord(spec, b)
    ensures |Parts(spec, a)| == |Parts(spec, b)|
    ensures forall i :: 0 <= i < |Parts(spec, a)| ==> SEPARATOR !in Parts(spec, a)[i] && SEPARATOR !in Parts(spec, b)[i]
    ensures Parts(spec, a) == Parts(spec, b) <==> !Changed(spec, a, b)
  {
    hide ColumnParts, Hex, Coalesce, HexOf;
    var (x, y) := (ColumnParts(spec.comparedColumns, a), ColumnParts(spec.comparedColumns, b));
    ColumnPartsAgree(spec.comparedColumns, a, b);
    GeometryPartsAgree(a, b);
    GeometryPartsAgree(b, a);
    assert Parts(spec, a)[..|x|] == x && Parts(spec, b)[..|y|] == y;
    if spec.compareGeometry {
      assert Parts(spec, a)[|x|] == Coalesce(HexOf(a.wkb)) && Parts(spec, b)[|y|] == Coalesce(HexOf(b.wkb));
    }
  }

  /** The signature changes exactly when the record does. */
  lemma SignatureTracksChange(spec: DatasetSpec, md5: string -> string, a: Record, b: Record)
    requires CollisionFree(md5) && PlainRecord(spec, a) && PlainRecord(spec, b)
    ensures Signature(spec, md5, a) != Signature(spec, md5, b) <==> Changed(spec, a, b)
  {
    hide Parts, Join, Changed, PlainRecord;
    PartsAgree(spec, a, b);
    if Signature(spec, md5, a) == Signature(spec, md5, b) {
      JoinIsInjective(Parts(spec, a), Parts(spec, b));
    }
  }

  /** Values that are not plain do collide: the sentinel with NULL, and a separator moved from one
      column to the next. */
  lemma UnplainValuesCollide(md5: string -> string)
    ensures var one := DatasetSpec(["id"], ["a"], false);
            var a := Record(map["id" := Some("1"), "a" := None], None, None);
            var b := Record(map["id" := Some("1"), "a" := Some([NULL_SENTINEL])], None, None);
            Changed(one, a, b) && Signature(one, md5, a) == Signature(one, md5, b)
    ensures var two := DatasetSpec(["id"], ["a", "b"], false);
            var a := Record(map["id" := Some("1"), "a" := Some("x" + [SEPARATOR]), "b" := Some("y")], None, None);
            var b := Record(map["id" := Some("1"), "a" := Some("x"), "b" := Some([SEPARATOR] + "y")], None, None);
            Changed(two, a, b) && Signature(two, md5, a) == Signature(two, md5, b)
  {
    var one := DatasetSpec(["id"], ["a"], false);
    var a1 := Record(map["id" := Some("1"), "a" := None], None, None);
    var b1 := Record(map["id" := Some("1"), "a" := Some([NULL_SENTINEL])], None, None);
    assert "a" in one.comparedColumns && Value(a1, "a") != Value(b1, "a");
    OnePart("a", a1);
    OnePart("a", b1);
    var a2 := Record(map["id" := Some("1"), "a" := Some("x" + [SEPARATOR]), "b" := Some("y")], None, None);
    var b2 := Record(map["id" := Some("1"), "a" := Some("x"), "b" := Some([SEPARATOR] + "y")], None, None);
    assert Value(a2, "a") != Value(b2, "a") by { assert |Value(a2, "a").value| == 2; }
    assert "a" in ["a", "b"];
    TwoParts("a", "b", a2);
    TwoParts("a", "b", b2);
    assert "x" + [SEPARATOR] + [SEPARATOR] + "y" == "x" + [SEPARATOR] + ([SEPARATOR] + "y");
  }

  lemma OnePart(column: string, r: Record)
    ensures ColumnParts([column], r) == [Coalesce(Value(r, column))]
    ensures Join(Parts(DatasetSpec(["id"], [column], false), r)) == Coalesce(Value(r, column))
  {
    assert [column][1..] == [];
    assert ColumnParts([], r) == [];
    assert Parts(DatasetSpec(["id"], [column], false), r) == ColumnParts([column], r);
  }

  lemma TwoParts(first: string, second: string, r: Record)
    ensures Join(Parts(DatasetSpec(["id"], [first, second], false), r))
         == Coalesce(Value(r, first)) + [SEPARATOR] + Coalesce(Value(r, second))
  {
    OnePart(second, r);
    assert [first, second][1..] == [second];
    var parts := [Coalesce(Value(r, first)), Coalesce(Value(r, second))];
    assert Parts(DatasetSpec(["id"], [first, second], false), r) == ColumnParts([first, second], r) == parts;
    assert parts[1..] == [Coalesce(Value(r, second))];
  }

  // ---- the ranking of duplicates ----

  predicate TextLess(s: string, t: string) {
    if t == [] then false
    else if s == [] then true
    else s[0] < t[0] || (s[0] == t[0] && TextLess(s[1..], t[1..]))
  }

  /** The first place where the texts differ decides, and there the end of a text comes first. */
  predicate DifferAt(s: string, t: string, n: nat) {
    n <= |s| && n < |t| && s[..n] == t[..n] && (n == |s| || s[n] < t[n])
  }

  lemma {:induction false} TextLessExactlyWhen(s: string, t: string)
    ensures TextLess(s, t) <==> exists n: nat :: DifferAt(s, t, n)
    decreases s
  {
    if s == [] && t != [] {
      assert DifferAt(s, t, 0);
    } else if s != [] && t != [] {
      var (u, v) := (s[1..], t[1..]);
      TextLessExactlyWhen(u, v);
      if s[0] < t[0] {
        assert DifferAt(s, t, 0);
      }
      if n: nat :| s[0] == t[0] && DifferAt(u, v, n) {
        assert s[..n + 1] == [s[0]] + u[..n] && t[..n + 1] == [t[0]] + v[..n];
        assert DifferAt(s, t, n + 1);
      }
      if n: nat :| n > 0 && DifferAt(s, t, n) {
        assert s[..n] == [s[0]] + u[..n - 1] && t[..n] == [t[0]] + v[..n - 1];
        assert s[..n][0] == t[..n][0] && s[..n][1..] == t[..n][1..];
        assert DifferAt(u, v, n - 1);
      }
    }
  }

  /** Newer versions first, no version last. */
  predicate VersionBefore(a: Option<int>, b: Option<int>) {
    a.Some? && (b.None? || a.value > b.value)
  }

  predicate RanksBefore(spec: DatasetSpec, md5: string -> string, a: Record, b: Record) {
    || VersionBefore(a.version, b.version)
    || (a.version == b.version && TextLess(Signature(spec, md5, a), Signature(spec, md5, b)))
  }

  lemma {:induction false} TextLessIsTotal(s: string, t: string)
    ensures TextLess(s, t) || TextLess(t, s) || s == t
    decreases s
  {
    if s != [] && t != [] {
      TextLessIsTotal(s[1..], t[1..]);
      assert s == [s[0]] + s[1..] && t == [t[0]] + t[1..];
    }
  }

  lemma {:induction false} TextLessIsTransitive(s: string, t: string, u: string)
    requires TextLess(s, t) && TextLess(t, u)
    ensures TextLess(s, u)
    decreases s
  {
    if s != [] && s[0] == t[0] == u[0] {
      TextLessIsTransitive(s[1..], t[1..], u[1..]);
    }
  }

  lemma RankingIsTransitive(spec: DatasetSpec, md5: string -> string, a: Record, b: Record, c: Record)
    requires RanksBefore(spec, md5, a, b) && RanksBefore(spec, md5, b, c)
    ensures RanksBefore(spec, md5, a, c)
  {
    hide Signature;
    if a.version == b.version == c.version {
      TextLessIsTransitive(Signature(spec, md5, a), Signature(spec, md5, b), Signature(spec, md5, c));
    }
  }

  /** Records that tie in the ranking differ in nothing the source compares. */
  lemma TiesAreUnchanged(spec: DatasetSpec, md5: string -> string, a: Record, b: Record)
    requires CollisionFree(md5) && PlainRecord(spec, a) && PlainRecord(spec, b)
    requires !RanksBefore(spec, md5, a, b) && !RanksBefore(spec, md5, b, a)
    ensures !Changed(spec, a, b)
  {
    hide Signature, Changed, PlainRecord, TextLess;
    TextLessIsTotal(Signature(spec, md5, a), Signature(spec, md5, b));
    SignatureTracksChange(spec, md5, a, b);
  }
}
