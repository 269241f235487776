/** The protobuf walkers over a PBF file's header (src/osm/pbf_header.rs). */
module PbfHeader {
  import opened Basics
  import opened Varint
  import CivilDate

  const TIMESTAMP_FIELD := 32
  const SEQUENCE_FIELD := 33
  const TYPE_FIELD := 1
  const DATASIZE_FIELD := 3

  /** The largest length Rust allows a slice of bytes. */
  const SLICE_MAX: int := 0x7fff_ffff_ffff_ffff

  /** Whether a field could be skipped, and where that leaves the cursor. */
  datatype Skip = Skip(ok: bool, next: nat)

  /** A checked addition to the cursor, which stays where it was when the sum leaves 64 bits. */
  function Advance(pos: nat, n: nat): Skip {
    if pos + n < U64_SIZE then Skip(true, pos + n) else Skip(false, pos)
  }

  function SkipAt(data: seq<Byte>, pos: nat, wire: nat): Skip {
    if wire == 0 then
      var r := VarintAt(data, pos);
      Skip(r.value.Some?, r.next)
    else if wire == 1 then Advance(pos, 8)
    else if wire == 2 then
      var r := VarintAt(data, pos);
      if r.value.None? then Skip(false, r.next) else Advance(r.next, r.value.value)
    else if wire == 5 then Advance(pos, 4)
    else Skip(false, pos)
  }

  /** A skip leads from the body of any well-formed field to its end, never back, and nowhere for the
      wire types the format does not use. */
  method SkipField(data: seq<Byte>, pos: nat, wire: nat) returns (ok: bool, next: nat)
    ensures Skip(ok, next) == SkipAt(data, pos, wire)
    ensures next >= pos
    ensures wire !in {0, 1, 2, 5} ==> !ok && next == pos
    ensures wire in {1, 5} ==> (ok <==> pos + (if wire == 1 then 8 else 4) <= 0xffff_ffff_ffff_ffff)
    ensures wire == 2 ==>
      (ok <==> VarintAt(data, pos).value.Some?
               && VarintAt(data, pos).next + VarintAt(data, pos).value.value <= 0xffff_ffff_ffff_ffff)
    ensures |data| <= SLICE_MAX ==>
      forall f :: WellFormed(f) && Wire(f) == wire && At(data, pos, EncodeBody(f))
        ==> ok && next == pos + |EncodeBody(f)|
  {
    SkipGoesOn(data, pos, wire);
    if |data| <= SLICE_MAX {
      forall f | WellFormed(f) && Wire(f) == wire && At(data, pos, EncodeBody(f))
        ensures SkipAt(data, pos, wire) == Skip(true, pos + |EncodeBody(f)|)
      {
        SkipsBody(data, pos, f);
      }
    }
    if wire == 0 {
      var value, after := ReadVarint(data, pos);
      return value.Some?, after;
    } else if wire == 1 {
      var r := Advance(pos, 8);
      return r.ok, r.next;
    } else if wire == 2 {
      var value, after := ReadVarint(data, pos);
      if value.None? { return false, after; }
      var r := Advance(after, value.value);
      return r.ok, r.next;
    } else if wire == 5 {
      var r := Advance(pos, 4);
      return r.ok, r.next;
    } else {
      return false, pos;
    }
  }

  /** The cast from u64 to i64. */
  function AsI64(value: nat): (i: int)
    ensures i == value || i == value - U64_SIZE
    ensures value < U64_SIZE ==> -0x8000_0000_0000_0000 <= i <= 0x7fff_ffff_ffff_ffff
  {
    if value <= CivilDate.I64_MAX then value else value - U64_SIZE
  }

  function AsU64(value: int): (u: nat)
    requires -0x8000_0000_0000_0000 <= value <= 0x7fff_ffff_ffff_ffff
    ensures u < U64_SIZE && AsI64(u) == value
  {
    if value >= 0 then value else value + U64_SIZE
  }

  // ---- the header block ----

  datatype Replication = Replication(sequence: Option<int>, timestamp: Option<int>)

  function ValueOrZero(r: Read): nat {
    if r.value.Some? then r.value.value else 0
  }

  /** The walk over the header block, from `pos`, with what was found before. A failed skip is
      ignored; only a tag that cannot be read stops the walk early. */
  function WalkReplication(data: seq<Byte>, pos: nat, found: Replication): Replication
    decreases |data| - pos
  {
    if pos >= |data| then found
    else
      var tag := VarintAt(data, pos);
      if tag.value.None? then found
      else
        var (number, wire) := (tag.value.value / 8, tag.value.value % 8);
        SkipGoesOn(data, tag.next, wire);
        var value := VarintAt(data, tag.next);
        if number == TIMESTAMP_FIELD && wire == 0 then
          WalkReplication(data, value.next, found.(timestamp := Some(AsI64(ValueOrZero(value)))))
        else if number == SEQUENCE_FIELD && wire == 0 then
          WalkReplication(data, value.next, found.(sequence := Some(AsI64(ValueOrZero(value)))))
        else WalkReplication(data, SkipAt(data, tag.next, wire).next, found)
  }

  /** No skip moves the cursor back. */
  lemma SkipGoesOn(data: seq<Byte>, pos: nat, wire: nat)
    ensures SkipAt(data, pos, wire).next >= pos && VarintAt(data, pos).next >= pos
  {
  }

  method ParseHeaderBlockReplication(data: seq<Byte>) returns (found: Replication)
    ensures found == WalkReplication(data, 0, Replication(None, None))
  {
    hide VarintAt, SkipAt;
    found := Replication(None, None);
    var pos := 0;
    while pos < |data|
      invariant WalkReplication(data, pos, found) == WalkReplication(data, 0, Replication(None, None))
      decreases |data| - pos
    {
      ReadAdvances(data, pos);
      var tag, afterTag := ReadVarint(data, pos);
      if tag.None? {
        break;
      }
      var number, wire := tag.value / 8, tag.value % 8;
      SkipGoesOn(data, afterTag, wire);
      if number == TIMESTAMP_FIELD && wire == 0 {
        var value, next := ReadVarint(data, afterTag);
        found := found.(timestamp := Some(AsI64(if value.Some? then value.value else 0)));
        pos := next;
      } else if number == SEQUENCE_FIELD && wire == 0 {
        var value, next := ReadVarint(data, afterTag);
        found := found.(sequence := Some(AsI64(if value.Some? then value.value else 0)));
        pos := next;
      } else {
        var _, next := SkipField(data, afterTag, wire);
        pos := next;
      }
    }
  }

  // ---- the blob header ----

  /** `Panic` stands for a length that leaves the data, at which the slice panics. */
  datatype BlobHeader = Panic | Absent | Header(blockType: seq<Byte>, size: nat)

  function Both(blockType: Option<seq<Byte>>, size: Option<nat>): BlobHeader {
    if blockType.Some? && size.Some? then Header(blockType.value, size.value) else Absent
  }

  function WalkBlobHeader(data: seq<Byte>, pos: nat, blockType: Option<seq<Byte>>, size: Option<nat>): BlobHeader
    decreases |data| - pos
  {
    if pos >= |data| then Both(blockType, size)
    else
      var tag := VarintAt(data, pos);
      if tag.value.None? then Absent
      else
        var (number, wire) := (tag.value.value / 8, tag.value.value % 8);
        SkipGoesOn(data, tag.next, wire);
        var value := VarintAt(data, tag.next);
        var skip := SkipAt(data, tag.next, wire);
        if number == TYPE_FIELD && wire == 2 then
          if value.value.None? then Absent
          else if value.next + value.value.value > |data| then Panic
          else
            var end := value.next + value.value.value;
            WalkBlobHeader(data, end, Some(data[value.next..end]), size)
        else if number == DATASIZE_FIELD && wire == 0 then
          if value.value.None? then Absent else WalkBlobHeader(data, value.next, blockType, value.value)
        else if skip.ok then WalkBlobHeader(data, skip.next, blockType, size)
        else Absent
  }

  method ParseBlobHeader(data: seq<Byte>) returns (r: BlobHeader)
    ensures r == WalkBlobHeader(data, 0, None, None)
  {
    hide VarintAt, SkipAt;
    var pos: nat := 0;
    var blockType: Option<seq<Byte>> := None;
    var size: Option<nat> := None;
    while pos < |data|
      invariant WalkBlobHeader(data, pos, blockType, size) == WalkBlobHeader(data, 0, None, None)
      decreases |data| - pos
    {
      ReadAdvances(data, pos);
      var tag, afterTag := ReadVarint(data, pos);
      if tag.None? { return Absent; }
      var number, wire := tag.value / 8, tag.value % 8;
      SkipGoesOn(data, afterTag, wire);
      if number == TYPE_FIELD && wire == 2 {
        var length, start := ReadVarint(data, afterTag);
        if length.None? { return Absent; }
        if start + length.value > |data| { return Panic; }
        blockType := Some(data[start..start + length.value]);
        pos := start + length.value;
      } else if number == DATASIZE_FIELD && wire == 0 {
        var value, next := ReadVarint(data, afterTag);
        if value.None? { return Absent; }
        size := value;
        pos := next;
      } else {
        var ok, next := SkipField(data, afterTag, wire);
        if !ok { return Absent; }
        pos := next;
      }
    }
    return Both(blockType, size);
  }

  // ---- messages ----

  datatype Field =
    | VarintField(number: nat, value: nat)
    | Fixed64(number: nat, payload: seq<Byte>)
    | Bytes(number: nat, payload: seq<Byte>)
    | Fixed32(number: nat, payload: seq<Byte>)

  function Wire(f: Field): nat {
    match f
    case VarintField(_, _) => 0
    case Fixed64(_, _) => 1
    case Bytes(_, _) => 2
    case Fixed32(_, _) => 5
  }

  /** The tag and the value fit in 64 bits, and the fixed sizes are what they should be. */
  predicate WellFormed(f: Field) {
    && f.number * 8 + Wire(f) < U64_SIZE
    && match f
       case VarintField(_, value) => value < U64_SIZE
       case Fixed64(_, payload) => |payload| == 8
       case Bytes(_, payload) => |payload| < U64_SIZE
       case Fixed32(_, payload) => |payload| == 4
  }

  function EncodeBody(f: Field): seq<Byte> {
    match f
    case VarintField(_, value) => Encode(value)
    case Fixed64(_, payload) => payload
    case Bytes(_, payload) => Encode(|payload|) + payload
    case Fixed32(_, payload) => payload
  }

  function EncodeField(f: Field): seq<Byte> {
    Encode(f.number * 8 + Wire(f)) + EncodeBody(f)
  }

  function EncodeAll(fields: seq<Field>): seq<Byte> {
    if fields == [] then [] else EncodeField(fields[0]) + EncodeAll(fields[1..])
  }

  predicate AllWellFormed(fields: seq<Field>) {
    forall f :: f in fields ==> WellFormed(f)
  }

  /** The value of the last varint field with the number. */
  function LastVarint(fields: seq<Field>, number: nat): Option<nat> {
    if fields == [] then None
    else
      var later := LastVarint(fields[1..], number);
      if later.Some? then later
      else if fields[0].VarintField? && fields[0].number == number then Some(fields[0].value)
      else None
  }

  /** The payload of the last length-delimited field with the number. */
  function LastBytes(fields: seq<Field>, number: nat): Option<seq<Byte>> {
    if fields == [] then None
    else
      var later := LastBytes(fields[1..], number);
      if later.Some? then later
      else if fields[0].Bytes? && fields[0].number == number then Some(fields[0].payload)
      else None
  }

  function Signed(value: Option<nat>): Option<int> {
    if value.Some? then Some(AsI64(value.value)) else None
  }

  function OrElse<T>(first: Option<T>, second: Option<T>): Option<T> {
    if first.Some? then first else second
  }

  // ---- one field ----

  /** Where the value of a field at `pos` starts. */
  function BodyAt(pos: nat, f: Field): nat {
    pos + |Encode(f.number * 8 + Wire(f))|
  }

  /** At a field the walkers read its tag, and skipping it leads to its end. */
  lemma FieldReads(data: seq<Byte>, pos: nat, f: Field)
    requires WellFormed(f) && At(data, pos, EncodeField(f)) && |data| <= SLICE_MAX
    ensures pos < BodyAt(pos, f)
    ensures VarintAt(data, pos) == Read(Some(f.number * 8 + Wire(f)), BodyAt(pos, f))
    ensures At(data, BodyAt(pos, f), EncodeBody(f))
    ensures SkipAt(data, BodyAt(pos, f), Wire(f)) == Skip(true, pos + |EncodeField(f)|)
    ensures f.VarintField? ==> VarintAt(data, BodyAt(pos, f)) == Read(Some(f.value), pos + |EncodeField(f)|)
  {
    hide VarintAt, Encode, At;
    AtSplits(data, pos, Encode(f.number * 8 + Wire(f)), EncodeBody(f));
    ReadUndoesEncode(data, pos, f.number * 8 + Wire(f));
    SkipsBody(data, BodyAt(pos, f), f);
  }

  lemma SkipsBody(data: seq<Byte>, pos: nat, f: Field)
    requires WellFormed(f) && At(data, pos, EncodeBody(f)) && |data| <= SLICE_MAX
    ensures SkipAt(data, pos, Wire(f)) == Skip(true, pos + |EncodeBody(f)|)
    ensures f.VarintField? ==> VarintAt(data, pos) == Read(Some(f.value), pos + |EncodeBody(f)|)
  {
    hide VarintAt, Encode, At;
    EndsInside(data, pos, EncodeBody(f));
    if f.VarintField? {
      ReadUndoesEncode(data, pos, f.value);
    } else if f.Bytes? {
      BytesRead(data, pos, f.payload);
    }
  }

  lemma EndsInside(data: seq<Byte>, pos: nat, chunk: seq<Byte>)
    requires At(data, pos, chunk)
    ensures pos + |chunk| <= |data|
  {
  }

  lemma BytesRead(data: seq<Byte>, pos: nat, payload: seq<Byte>)
    requires |payload| < U64_SIZE && At(data, pos, Encode(|payload|) + payload)
    ensures VarintAt(data, pos) == Read(Some(|payload|), pos + |Encode(|payload|)|)
    ensures At(data, pos + |Encode(|payload|)|, payload)
  {
    hide VarintAt, Encode;
    AtSplits(data, pos, Encode(|payload|), payload);
    ReadUndoesEncode(data, pos, |payload|);
  }

  // ---- the header block undoes its encoding ----

  function Taken(f: Field, found: Replication): Replication {
    if f.VarintField? && f.number == TIMESTAMP_FIELD then found.(timestamp := Some(AsI64(f.value)))
    else if f.VarintField? && f.number == SEQUENCE_FIELD then found.(sequence := Some(AsI64(f.value)))
    else found
  }

  lemma ReplicationStep(data: seq<Byte>, pos: nat, f: Field, found: Replication)
    requires WellFormed(f) && At(data, pos, EncodeField(f)) && |data| <= SLICE_MAX
    ensures WalkReplication(data, pos, found) == WalkReplication(data, pos + |EncodeField(f)|, Taken(f, found))
  {
    hide VarintAt, SkipAt, Encode, EncodeBody;
    FieldReads(data, pos, f);
    var tag := f.number * 8 + Wire(f);
    assert tag / 8 == f.number && tag % 8 == Wire(f);
    EndsInside(data, pos, EncodeField(f));
  }

  /** Over the encoding of well-formed fields the walk collects the last timestamp and the last
      sequence number, and goes on behind them. */
  lemma {:induction false} WalkReadsFields(data: seq<Byte>, pos: nat, fields: seq<Field>, found: Replication)
    requires AllWellFormed(fields) && At(data, pos, EncodeAll(fields)) && |data| <= SLICE_MAX
    ensures WalkReplication(data, pos, found)
         == WalkReplication(data, pos + |EncodeAll(fields)|,
                            Replication(OrElse(Signed(LastVarint(fields, SEQUENCE_FIELD)), found.sequence),
                                        OrElse(Signed(LastVarint(fields, TIMESTAMP_FIELD)), found.timestamp)))
    decreases fields
  {
    hide WalkReplication, At, EncodeField, WellFormed;
    if fields != [] {
      var f, rest := fields[0], fields[1..];
      AtSplits(data, pos, EncodeField(f), EncodeAll(rest));
      ReplicationStep(data, pos, f, found);
      WalkReadsFields(data, pos + |EncodeField(f)|, rest, Taken(f, found));
    }
  }

  lemma ReplicationEnds(data: seq<Byte>, pos: nat)
    requires pos >= |data|
    ensures forall found :: WalkReplication(data, pos, found) == found
  {
  }

  /** Parsing a message of well-formed fields gives the last varint fields 33 and 32. */
  lemma ReplicationUndoesEncode(fields: seq<Field>)
    requires AllWellFormed(fields) && |EncodeAll(fields)| <= SLICE_MAX
    ensures WalkReplication(EncodeAll(fields), 0, Replication(None, None))
         == Replication(Signed(LastVarint(fields, 33)), Signed(LastVarint(fields, 32)))
  {
    hide WalkReplication, EncodeAll, AllWellFormed, LastVarint, At;
    var data := EncodeAll(fields);
    WholeIsAtZero(data);
    WalkReadsFields(data, 0, fields, Replication(None, None));
    ReplicationEnds(data, |data|);
  }

  lemma {:induction false} LastVarintAppend(a: seq<Field>, b: seq<Field>, number: nat)
    ensures LastVarint(a + b, number) == OrElse(LastVarint(b, number), LastVarint(a, number))
    decreases a
  {
    if a == [] {
      assert a + b == b;
    } else {
      assert (a + b)[1..] == a[1..] + b;
      LastVarintAppend(a[1..], b, number);
    }
  }

  /** A tag of a wire type the format does not use, wherever it stands, changes nothing in the header block:
      the failed skip is ignored. */
  lemma UnusedWireTypeIsIgnored(a: seq<Field>, number: nat, wire: nat, b: seq<Field>)
    requires AllWellFormed(a) && AllWellFormed(b) && wire in {3, 4, 6, 7} && number * 8 + wire < U64_SIZE
    requires |EncodeAll(a) + (Encode(number * 8 + wire) + EncodeAll(b))| <= SLICE_MAX
    ensures WalkReplication(EncodeAll(a) + (Encode(number * 8 + wire) + EncodeAll(b)), 0, Replication(None, None))
         == Replication(Signed(LastVarint(a + b, 33)), Signed(LastVarint(a + b, 32)))
  {
    hide WalkReplication, EncodeAll, AllWellFormed, LastVarint, At, Encode;
    var (before, tag, after) := (EncodeAll(a), Encode(number * 8 + wire), EncodeAll(b));
    var data := before + (tag + after);
    WholeIsAtZero(data);
    AtSplits(data, 0, before, tag + after);
    AtSplits(data, |before|, tag, after);
    var found := Replication(Signed(LastVarint(a, 33)), Signed(LastVarint(a, 32)));
    WalkReadsFields(data, 0, a, Replication(None, None));
    UnusedTagStep(data, |before|, number, wire, found);
    WalkReadsFields(data, |before| + |tag|, b, found);
    ReplicationEnds(data, |data|);
    LastVarintAppend(a, b, 33);
    LastVarintAppend(a, b, 32);
  }

  lemma UnusedTagStep(data: seq<Byte>, pos: nat, number: nat, wire: nat, found: Replication)
    requires wire in {3, 4, 6, 7} && number * 8 + wire < U64_SIZE && At(data, pos, Encode(number * 8 + wire))
    ensures WalkReplication(data, pos, found) == WalkReplication(data, pos + |Encode(number * 8 + wire)|, found)
  {
    hide VarintAt, Encode;
    var tag := number * 8 + wire;
    assert tag / 8 == number && tag % 8 == wire;
    ReadUndoesEncode(data, pos, tag);
    EndsInside(data, pos, Encode(tag));
  }

  /** The message ends inside the value of a timestamp or a sequence number, behind its whole tag. */
  predicate CutsValue(f: Field, m: nat) {
    && f.VarintField? && f.number in {32, 33}
    && m >= |Encode(f.number * 8 + Wire(f))|
  }

  function AfterCut(f: Field, m: nat, found: Replication): Replication {
    if !CutsValue(f, m) then found
    else if f.number == 32 then found.(timestamp := Some(0))
    else found.(sequence := Some(0))
  }

  /** A number that the data break off in. */
  lemma CutVarint(data: seq<Byte>, pos: nat, value: nat, m: nat)
    requires value < U64_SIZE && m < |Encode(value)| && At(data, pos, Encode(value)[..m]) && pos + m == |data|
    ensures VarintAt(data, pos) == Read(None, |data|)
  {
    hide Continued, Base128, Encode, Pow2;
    var bytes := Encode(value);
    EncodeMeans(value);
    PowersOf128();
    Seven(63);
    EncodeLength(value, 10);
    assert forall i :: pos <= i < |data| ==> data[i] == data[pos..pos + m][i - pos] == bytes[i - pos];
    ContinuedIs(data, pos, m);
  }

  /** Where the data break off in a body, both the read and the skip lead to their end or beyond. */
  lemma CutBody(data: seq<Byte>, pos: nat, f: Field, m: nat)
    requires WellFormed(f) && m < |EncodeBody(f)| && At(data, pos, EncodeBody(f)[..m]) && pos + m == |data|
    requires |data| <= SLICE_MAX && pos + |EncodeBody(f)| < U64_SIZE
    ensures SkipAt(data, pos, Wire(f)).next >= |data|
    ensures f.VarintField? ==> VarintAt(data, pos) == Read(None, |data|)
  {
    hide VarintAt, Encode;
    if f.VarintField? {
      CutVarint(data, pos, f.value, m);
    } else if f.Bytes? {
      CutBytes(data, pos, f.payload, m);
    }
  }

  lemma CutBytes(data: seq<Byte>, pos: nat, payload: seq<Byte>, m: nat)
    requires var length := Encode(|payload|);
             && m < |length + payload| && At(data, pos, (length + payload)[..m]) && pos + m == |data|
             && |data| <= SLICE_MAX && pos + |length + payload| < U64_SIZE
    ensures SkipAt(data, pos, 2).next >= |data|
  {
    hide VarintAt, Encode;
    var length := Encode(|payload|);
    if m < |length| {
      assert (length + payload)[..m] == length[..m];
      CutVarint(data, pos, |payload|, m);
    } else {
      assert (length + payload)[..m] == length + payload[..m - |length|];
      AtSplits(data, pos, length, payload[..m - |length|]);
      ReadUndoesEncode(data, pos, |payload|);
    }
  }

  lemma CutFieldStep(data: seq<Byte>, pos: nat, f: Field, m: nat, found: Replication)
    requires WellFormed(f) && m < |EncodeField(f)| && At(data, pos, EncodeField(f)[..m]) && pos + m == |data|
    requires |data| <= SLICE_MAX && pos + |EncodeField(f)| < U64_SIZE
    ensures WalkReplication(data, pos, found) == AfterCut(f, m, found)
  {
    hide VarintAt, SkipAt, Encode, EncodeBody, At;
    var tag := f.number * 8 + Wire(f);
    assert tag / 8 == f.number && tag % 8 == Wire(f);
    if m < |Encode(tag)| {
      assert EncodeField(f)[..m] == Encode(tag)[..m];
      CutVarint(data, pos, tag, m);
    } else {
      var rest := m - |Encode(tag)|;
      assert EncodeField(f)[..m] == Encode(tag) + EncodeBody(f)[..rest];
      AtSplits(data, pos, Encode(tag), EncodeBody(f)[..rest]);
      ReadUndoesEncode(data, pos, tag);
      CutBody(data, pos + |Encode(tag)|, f, rest);
      ReadAdvances(data, pos);
      ReplicationEnds(data, |data|);
    }
  }

  /** A message cut anywhere inside its last field, in the tag, a length, a payload or a value, gives the
      fields before the cut; except that a timestamp or a sequence number whose value the cut falls in
      reads as zero. */
  lemma CutMessage(fields: seq<Field>, f: Field, m: nat)
    requires AllWellFormed(fields) && WellFormed(f) && m < |EncodeField(f)|
    requires |EncodeAll(fields)| + m <= SLICE_MAX && |EncodeAll(fields)| + |EncodeField(f)| < U64_SIZE
    ensures WalkReplication(EncodeAll(fields) + EncodeField(f)[..m], 0, Replication(None, None))
         == AfterCut(f, m, Replication(Signed(LastVarint(fields, 33)),
                                       Signed(LastVarint(fields, 32))))
  {
    hide WalkReplication, EncodeAll, EncodeField, AllWellFormed, LastVarint, At;
    var cut := EncodeField(f)[..m];
    var data := EncodeAll(fields) + cut;
    WholeIsAtZero(data);
    AtSplits(data, 0, EncodeAll(fields), cut);
    WalkReadsFields(data, 0, fields, Replication(None, None));
    CutFieldStep(data, |EncodeAll(fields)|, f, m, Replication(Signed(LastVarint(fields, SEQUENCE_FIELD)),
                                                              Signed(LastVarint(fields, TIMESTAMP_FIELD))));
  }

  /** In particular a cut inside a timestamp reads as the epoch, whatever timestamp came before. */
  lemma CutTimestampIsZero(fields: seq<Field>, cut: seq<Byte>)
    requires AllWellFormed(fields) && |cut| < 10 && forall i :: 0 <= i < |cut| ==> cut[i] >= 128
    requires |EncodeAll(fields) + (Encode(32 * 8) + cut)| <= SLICE_MAX
    ensures WalkReplication(EncodeAll(fields) + (Encode(32 * 8) + cut), 0, Replication(None, None))
         == Replication(Signed(LastVarint(fields, 33)), Some(0))
  {
    hide WalkReplication, EncodeAll, Encode, AllWellFormed, LastVarint, Base128, Pow2;
    var tag := Encode(TIMESTAMP_FIELD * 8);
    var value := Base128(cut + [1]);
    ContinuationsEncode(cut);
    Base128Append(cut, 1);
    Base128Bound(cut);
    PowersOf128();
    assert 7 * |cut| in {0, 7, 14, 21, 28, 35, 42, 49, 56, 63};
    var f := VarintField(TIMESTAMP_FIELD, value);
    var m := |tag + cut|;
    assert EncodeField(f) == tag + (cut + [1]) && EncodeField(f)[..m] == tag + cut;
    CutMessage(fields, f, m);
  }

  // ---- the blob header undoes its encoding ----

  lemma BlobHeaderStep(data: seq<Byte>, pos: nat, f: Field, blockType: Option<seq<Byte>>, size: Option<nat>)
    requires WellFormed(f) && At(data, pos, EncodeField(f)) && |data| <= SLICE_MAX
    ensures WalkBlobHeader(data, pos, blockType, size)
         == WalkBlobHeader(data, pos + |EncodeField(f)|,
                           if f.Bytes? && f.number == TYPE_FIELD then Some(f.payload) else blockType,
                           if f.VarintField? && f.number == DATASIZE_FIELD then Some(f.value) else size)
  {
    hide VarintAt, SkipAt, Encode;
    FieldReads(data, pos, f);
    var tag := f.number * 8 + Wire(f);
    assert tag / 8 == f.number && tag % 8 == Wire(f);
    EndsInside(data, pos, EncodeField(f));
    if f.Bytes? && f.number == TYPE_FIELD {
      BytesRead(data, BodyAt(pos, f), f.payload);
    }
  }

  lemma {:induction false} BlobHeaderReadsFields(data: seq<Byte>, pos: nat, fields: seq<Field>,
                                                 blockType: Option<seq<Byte>>, size: Option<nat>)
    requires AllWellFormed(fields) && At(data, pos, EncodeAll(fields)) && |data| <= SLICE_MAX
    ensures WalkBlobHeader(data, pos, blockType, size)
         == WalkBlobHeader(data, pos + |EncodeAll(fields)|, OrElse(LastBytes(fields, TYPE_FIELD), blockType),
                           OrElse(LastVarint(fields, DATASIZE_FIELD), size))
    decreases fields
  {
    hide WalkBlobHeader, At, EncodeField, WellFormed;
    if fields != [] {
      var f, rest := fields[0], fields[1..];
      AtSplits(data, pos, EncodeField(f), EncodeAll(rest));
      BlobHeaderStep(data, pos, f, blockType, size);
      BlobHeaderReadsFields(data, pos + |EncodeField(f)|, rest,
                            if f.Bytes? && f.number == TYPE_FIELD then Some(f.payload) else blockType,
                            if f.VarintField? && f.number == DATASIZE_FIELD then Some(f.value) else size);
    }
  }

  lemma BlobHeaderEnds(data: seq<Byte>, pos: nat, blockType: Option<seq<Byte>>, size: Option<nat>)
    requires pos >= |data|
    ensures WalkBlobHeader(data, pos, blockType, size) == Both(blockType, size)
  {
  }

  /** A well-formed blob header gives its last type and its last size, and nothing when either is
      missing. */
  lemma BlobHeaderUndoesEncode(fields: seq<Field>)
    requires AllWellFormed(fields) && |EncodeAll(fields)| <= SLICE_MAX
    ensures var (blockType, size) := (LastBytes(fields, 1), LastVarint(fields, 3));
            WalkBlobHeader(EncodeAll(fields), 0, None, None)
            == if blockType.Some? && size.Some? then Header(blockType.value, size.value) else Absent
  {
    hide WalkBlobHeader, EncodeAll, AllWellFormed, LastVarint, LastBytes, At;
    var data := EncodeAll(fields);
    WholeIsAtZero(data);
    BlobHeaderReadsFields(data, 0, fields, None, None);
    BlobHeaderEnds(data, |data|, LastBytes(fields, TYPE_FIELD), LastVarint(fields, DATASIZE_FIELD));
  }

  /** In a blob header such a tag ends the walk with nothing, whatever came before and whatever follows. */
  lemma UnusedWireTypeEndsABlobHeader(fields: seq<Field>, number: nat, wire: nat, rest: seq<Byte>)
    requires AllWellFormed(fields) && wire in {3, 4, 6, 7} && number * 8 + wire < U64_SIZE
    requires |EncodeAll(fields) + (Encode(number * 8 + wire) + rest)| <= SLICE_MAX
    ensures WalkBlobHeader(EncodeAll(fields) + (Encode(number * 8 + wire) + rest), 0, None, None) == Absent
  {
    hide WalkBlobHeader, EncodeAll, AllWellFormed, LastVarint, LastBytes, At, Encode;
    var (before, tag) := (EncodeAll(fields), Encode(number * 8 + wire));
    var data := before + (tag + rest);
    WholeIsAtZero(data);
    AtSplits(data, 0, before, tag + rest);
    AtSplits(data, |before|, tag, rest);
    BlobHeaderReadsFields(data, 0, fields, None, None);
    UnusedTagEnds(data, |before|, number, wire, LastBytes(fields, TYPE_FIELD), LastVarint(fields, DATASIZE_FIELD));
  }

  lemma UnusedTagEnds(data: seq<Byte>, pos: nat, number: nat, wire: nat, blockType: Option<seq<Byte>>,
                      size: Option<nat>)
    requires wire in {3, 4, 6, 7} && number * 8 + wire < U64_SIZE && At(data, pos, Encode(number * 8 + wire))
    ensures WalkBlobHeader(data, pos, blockType, size) == Absent
  {
    hide VarintAt, Encode;
    var tag := number * 8 + wire;
    assert tag / 8 == number && tag % 8 == wire;
    ReadUndoesEncode(data, pos, tag);
    EndsInside(data, pos, Encode(tag));
  }

  /** What a blob header cut in its last field, after `m` bytes of it, comes to: the fields before it where the
      cut leaves nothing of the field, or where skipping a known length passes the end; a panic where the cut
      is in the type itself; nothing otherwise. */
  function AfterBlobCut(f: Field, m: nat, blockType: Option<seq<Byte>>, size: Option<nat>): BlobHeader {
    var tag := |Encode(f.number * 8 + Wire(f))|;
    if m == 0 then Both(blockType, size)
    else if m < tag || f.VarintField? then Absent
    else if f.Bytes? && m < tag + |Encode(|f.payload|)| then Absent
    else if f.Bytes? && f.number == 1 then Panic
    else Both(blockType, size)
  }

  lemma CutBlobFieldStep(data: seq<Byte>, pos: nat, f: Field, m: nat, blockType: Option<seq<Byte>>, size: Option<nat>)
    requires WellFormed(f) && m < |EncodeField(f)| && At(data, pos, EncodeField(f)[..m]) && pos + m == |data|
    requires |data| <= SLICE_MAX && pos + |EncodeField(f)| < U64_SIZE
    ensures WalkBlobHeader(data, pos, blockType, size) == AfterBlobCut(f, m, blockType, size)
  {
    hide VarintAt, Encode, EncodeBody, At, SkipAt;
    var tag := f.number * 8 + Wire(f);
    assert tag / 8 == f.number && tag % 8 == Wire(f);
    if m < |Encode(tag)| {
      assert EncodeField(f)[..m] == Encode(tag)[..m];
      CutVarint(data, pos, tag, m);
    } else {
      var rest := m - |Encode(tag)|;
      assert EncodeField(f)[..m] == Encode(tag) + EncodeBody(f)[..rest];
      AtSplits(data, pos, Encode(tag), EncodeBody(f)[..rest]);
      ReadUndoesEncode(data, pos, tag);
      ReadAdvances(data, pos);
      CutBlobBody(data, pos + |Encode(tag)|, f, rest);
    }
  }

  /** Where the data break off in a body: what reading or skipping it comes to. */
  lemma CutBlobBody(data: seq<Byte>, pos: nat, f: Field, m: nat)
    requires WellFormed(f) && m < |EncodeBody(f)| && At(data, pos, EncodeBody(f)[..m]) && pos + m == |data|
    requires |data| <= SLICE_MAX && pos + |EncodeBody(f)| < U64_SIZE
    ensures f.VarintField? ==> VarintAt(data, pos).value.None? && !SkipAt(data, pos, Wire(f)).ok
    ensures f.Bytes? && m < |Encode(|f.payload|)| ==> VarintAt(data, pos).value.None? && !SkipAt(data, pos, Wire(f)).ok
    ensures f.Bytes? && m >= |Encode(|f.payload|)| ==>
              && VarintAt(data, pos) == Read(Some(|f.payload|), pos + |Encode(|f.payload|)|)
              && SkipAt(data, pos, Wire(f)) == Skip(true, pos + |EncodeBody(f)|)
    ensures f.Fixed64? || f.Fixed32? ==> SkipAt(data, pos, Wire(f)) == Skip(true, pos + |EncodeBody(f)|)
    ensures f.Bytes? ==> |EncodeBody(f)| == |Encode(|f.payload|)| + |f.payload|
  {
    hide VarintAt, Encode, At;
    if f.VarintField? {
      CutVarint(data, pos, f.value, m);
    } else if f.Bytes? {
      var length := Encode(|f.payload|);
      if m < |length| {
        assert (length + f.payload)[..m] == length[..m];
        CutVarint(data, pos, |f.payload|, m);
      } else {
        assert (length + f.payload)[..m] == length + f.payload[..m - |length|];
        AtSplits(data, pos, length, f.payload[..m - |length|]);
        ReadUndoesEncode(data, pos, |f.payload|);
      }
    }
  }

  /** A blob header cut anywhere inside its last field, in the terms of the fields before the cut. */
  lemma CutBlobHeader(fields: seq<Field>, f: Field, m: nat)
    requires AllWellFormed(fields) && WellFormed(f) && m < |EncodeField(f)|
    requires |EncodeAll(fields)| + m <= SLICE_MAX && |EncodeAll(fields)| + |EncodeField(f)| < U64_SIZE
    ensures WalkBlobHeader(EncodeAll(fields) + EncodeField(f)[..m], 0, None, None)
         == AfterBlobCut(f, m, LastBytes(fields, 1), LastVarint(fields, 3))
  {
    hide WalkBlobHeader, EncodeAll, EncodeField, AllWellFormed, LastVarint, LastBytes, At;
    var cut := EncodeField(f)[..m];
    var data := EncodeAll(fields) + cut;
    WholeIsAtZero(data);
    AtSplits(data, 0, EncodeAll(fields), cut);
    BlobHeaderReadsFields(data, 0, fields, None, None);
    CutBlobFieldStep(data, |EncodeAll(fields)|, f, m, LastBytes(fields, 1), LastVarint(fields, 3));
  }

  // ---- from the header block to the date ----

  /** What is reported of a header block: the sequence number and the date, when both fields are there. */
  function ReplicationInfo(found: Replication): Option<(int, Option<CivilDate.DateTime>)>
    requires found.timestamp.Some? ==> CivilDate.I64_MIN <= found.timestamp.value <= CivilDate.I64_MAX
  {
    if found.sequence.Some? && found.timestamp.Some?
    then Some((found.sequence.value, CivilDate.FromEpoch(found.timestamp.value)))
    else None
  }

  /** A header whose last sequence number is `sequence` and whose last timestamp is `secs` is reported
      as that number and as the date that counts `secs` seconds from the epoch. */
  lemma InfoUndoesEncode(fields: seq<Field>, sequence: int, secs: int)
    requires AllWellFormed(fields) && |EncodeAll(fields)| <= SLICE_MAX
    requires -0x8000_0000_0000_0000 <= sequence <= 0x7fff_ffff_ffff_ffff
    requires CivilDate.EARLIEST <= secs <= 0x7fff_ffff_ffff_ffff
    requires LastVarint(fields, 33) == Some(AsU64(sequence))
    requires LastVarint(fields, 32) == Some(AsU64(secs))
    ensures var found := WalkReplication(EncodeAll(fields), 0, Replication(None, None));
            && found.timestamp == Some(secs)
            && ReplicationInfo(found).Some?
            && ReplicationInfo(found).value.0 == sequence
            && ReplicationInfo(found).value.1.Some?
            && CivilDate.ValidDateTime(ReplicationInfo(found).value.1.value)
            && CivilDate.ToEpoch(ReplicationInfo(found).value.1.value) == secs
  {
    hide WalkReplication, EncodeAll, AllWellFormed, LastVarint;
    hide CivilDate.FromEpoch, CivilDate.ToEpoch, CivilDate.ValidDateTime;
    ReplicationUndoesEncode(fields);
    CivilDate.FromEpochIsExact(secs);
  }
}
