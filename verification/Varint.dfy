/** Base-128 varints (src/osm/pbf_header.rs; Protocol Buffers encoding, "Base 128 Varints"). */
module Varint {
  import opened Basics

  const U64_SIZE: int := 0x1_0000_0000_0000_0000

  /** What a read at a cursor yields, and where it leaves the cursor. */
  datatype Read = Read(value: Option<nat>, next: nat)

  function Pow2(n: nat): (p: nat)
    ensures p > 0
  {
    if n == 0 then 1 else 2 * Pow2(n - 1)
  }

  /** Bitwise or. */
  function Or(x: nat, y: nat): nat {
    if x == 0 && y == 0 then 0
    else 2 * Or(x / 2, y / 2) + (if x % 2 == 1 || y % 2 == 1 then 1 else 0)
  }

  /** A shift to the left in 64 bits: what passes the top is lost. */
  function ShiftLeft(x: nat, n: nat): nat {
    (x * Pow2(n)) % U64_SIZE
  }

  // ---- the number a varint stands for ----

  /** The low seven bits of each byte, the least significant group first. */
  function Base128(bytes: seq<Byte>): (n: nat)
    ensures bytes == [] ==> n == 0
  {
    if bytes == [] then 0 else bytes[0] % 128 + 128 * Base128(bytes[1..])
  }

  /** How many of the bytes at `pos`, of at most `limit`, have their continuation bit set before
      one that has not. */
  function Continued(data: seq<Byte>, pos: nat, limit: nat): (n: nat)
    ensures n <= limit
    ensures forall i :: pos <= i < pos + n ==> i < |data| && data[i] >= 128
    ensures n > 0 ==> pos + n <= |data|
    ensures n < limit && pos + n < |data| ==> data[pos + n] < 128
    decreases limit
  {
    if limit == 0 || pos >= |data| || data[pos] < 128 then 0
    else
      var more := Continued(data, pos + 1, limit - 1);
      assert pos + 1 + more == pos + (1 + more);
      1 + more
  }

  /** A varint ends with its first byte without a continuation bit, which must be among ten. */
  function VarintAt(data: seq<Byte>, pos: nat): Read {
    var n := Continued(data, pos, 10);
    if n == 10 || pos + n >= |data| then Read(None, pos + n)
    else Read(Some(Base128(data[pos..pos + n + 1]) % U64_SIZE), pos + n + 1)
  }

  function Encode(value: nat): (bytes: seq<Byte>)
    ensures bytes != []
  {
    if value < 128 then [value] else [value % 128 + 128] + Encode(value / 128)
  }

  /** `chunk` lies in `data` at `pos`. */
  predicate At(data: seq<Byte>, pos: nat, chunk: seq<Byte>) {
    pos + |chunk| <= |data| && data[pos..pos + |chunk|] == chunk
  }

  // ---- bits ----

  lemma {:induction false} OrWithZero(y: nat)
    ensures Or(0, y) == y
  {
    if y != 0 { OrWithZero(y / 2); }
  }

  /** Or adds where the bits do not meet. */
  lemma {:induction false} OrOfDisjoint(x: nat, k: nat, n: nat)
    requires x < Pow2(n)
    ensures Or(x, k * Pow2(n)) == x + k * Pow2(n)
    decreases n
  {
    if n == 0 {
      OrWithZero(k);
    } else {
      var y := k * Pow2(n - 1);
      assert k * Pow2(n) == 2 * y;
      OrOfDisjoint(x / 2, k, n - 1);
      assert Or(x, 2 * y) == 2 * Or(x / 2, y) + x % 2;
    }
  }

  lemma PowersOf128()
    ensures Pow2(0) == 1 && Pow2(7) == 128 && Pow2(14) == 0x4000 && Pow2(21) == 0x20_0000
    ensures Pow2(28) == 0x1000_0000 && Pow2(35) == 0x8_0000_0000 && Pow2(42) == 0x400_0000_0000
    ensures Pow2(49) == 0x2_0000_0000_0000 && Pow2(56) == 0x100_0000_0000_0000
    ensures Pow2(63) == 0x8000_0000_0000_0000
  {
    Seven(0); Seven(7); Seven(14); Seven(21); Seven(28); Seven(35); Seven(42); Seven(49); Seven(56);
  }

  lemma Seven(n: nat)
    ensures Pow2(n + 7) == 128 * Pow2(n)
  {
    assert Pow2(n + 7) == 2 * Pow2(n + 6) == 4 * Pow2(n + 5) == 8 * Pow2(n + 4);
    assert Pow2(n + 4) == 2 * Pow2(n + 3) == 4 * Pow2(n + 2) == 8 * Pow2(n + 1);
  }

  // ---- groups ----

  /** One more byte adds its group above those before it. */
  lemma {:induction false} Base128Append(bytes: seq<Byte>, b: Byte)
    ensures Base128(bytes + [b]) == Base128(bytes) + (b % 128) * Pow2(7 * |bytes|)
    decreases bytes
  {
    if bytes == [] {
      assert [b][1..] == [];
    } else {
      var tail := bytes[1..];
      assert (bytes + [b])[1..] == tail + [b];
      Base128Append(tail, b);
      Seven(7 * |tail|);
      assert 7 * |tail| + 7 == 7 * |bytes|;
      assert 128 * ((b % 128) * Pow2(7 * |tail|)) == (b % 128) * (128 * Pow2(7 * |tail|));
    }
  }

  lemma {:induction false} Base128Bound(bytes: seq<Byte>)
    ensures Base128(bytes) < Pow2(7 * |bytes|)
    decreases bytes
  {
    if bytes != [] {
      Base128Bound(bytes[1..]);
      Seven(7 * |bytes[1..]|);
      assert 7 * |bytes[1..]| + 7 == 7 * |bytes|;
    }
  }

  lemma ProductsGrow(a: nat, b: nat, c: nat, d: nat)
    requires a <= b && c <= d
    ensures a * c <= b * d
  {
    assert a * c <= b * c <= b * d;
  }

  /** Shifting a group into place and or-ing it in is adding it, modulo the 64 bits. */
  lemma GroupsJoin(result: nat, group: nat, i: nat)
    requires i < 10 && group < 128 && result < Pow2(7 * i)
    ensures Or(result, ShiftLeft(group, 7 * i)) == (result + group * Pow2(7 * i)) % U64_SIZE
    ensures i < 9 ==> result + group * Pow2(7 * i) < U64_SIZE
  {
    hide Or, Pow2, ShiftLeft;
    PowersOf128();
    if i < 9 { LowGroup(result, group, i); } else { TopGroup(result, group); }
  }

  lemma LowGroup(result: nat, group: nat, i: nat)
    requires i < 9 && group < 128 && result < Pow2(7 * i)
    ensures Or(result, ShiftLeft(group, 7 * i)) == result + group * Pow2(7 * i) < U64_SIZE
  {
    hide Or, Pow2;
    PowersOf128();
    var p := Pow2(7 * i);
    assert p <= 0x100_0000_0000_0000 by { assert i in {0, 1, 2, 3, 4, 5, 6, 7, 8}; }
    ProductsGrow(group, 127, p, 0x100_0000_0000_0000);
    assert (group * p) % U64_SIZE == group * p;
    OrOfDisjoint(result, group, 7 * i);
  }

  lemma LostAboveTop(low: nat, group: nat)
    requires low < 0x8000_0000_0000_0000
    ensures (low + group * 0x8000_0000_0000_0000) % U64_SIZE == low + (group % 2) * 0x8000_0000_0000_0000
  {
    assert group == 2 * (group / 2) + group % 2;
    assert group * 0x8000_0000_0000_0000 == (group / 2) * U64_SIZE + (group % 2) * 0x8000_0000_0000_0000;
  }

  lemma TopGroup(result: nat, group: nat)
    requires group < 128 && result < Pow2(63)
    ensures Or(result, ShiftLeft(group, 63)) == (result + group * Pow2(63)) % U64_SIZE
  {
    hide Or, Pow2;
    PowersOf128();
    LostAboveTop(0, group);
    LostAboveTop(result, group);
    OrOfDisjoint(result, group % 2, 63);
  }

  /** What the reader does with a byte. */
  lemma ByteAdded(before: seq<Byte>, byte: Byte)
    requires |before| < 10
    ensures Or(Base128(before), ShiftLeft(byte % 128, 7 * |before|)) == Base128(before + [byte]) % U64_SIZE
    ensures |before| < 9 ==> Base128(before + [byte]) < U64_SIZE
  {
    hide Or, ShiftLeft, Pow2, Base128;
    Base128Bound(before);
    Base128Append(before, byte);
    GroupsJoin(Base128(before), byte % 128, |before|);
  }

  /** The reader of the source: the cursor passes every byte looked at, also when the read fails. */
  method ReadVarint(data: seq<Byte>, pos: nat) returns (value: Option<nat>, next: nat)
    ensures Read(value, next) == VarintAt(data, pos)
  {
    hide Or, ShiftLeft, Continued, Base128;
    var result: nat, shift: nat := 0, 0;
    ghost var before: seq<Byte> := [];
    next := pos;
    while true
      invariant shift == 7 * |before| && |before| < 10
      invariant next == pos + |before| && (before != [] ==> next <= |data|)
      invariant forall i :: 0 <= i < |before| ==> data[pos + i] == before[i] >= 128
      invariant result == Base128(before)
      decreases 10 - |before|
    {
      assert forall i :: pos <= i < next ==> i < |data| && data[i] == before[i - pos];
      ContinuedIs(data, pos, |before|);
      if next >= |data| {
        return None, next;
      }
      var byte := data[next];
      ByteAdded(before, byte);
      result := Or(result, ShiftLeft(byte % 128, shift));
      before := before + [byte];
      next := next + 1;
      assert data[pos..next] == before;
      if byte < 128 {
        return Some(result), next;
      }
      shift := shift + 7;
      if shift >= 64 {
        assert forall i :: pos <= i < next ==> i < |data| && data[i] == before[i - pos];
        ContinuedIs(data, pos, |before|);
        return None, next;
      }
    }
  }

  /** A run of continuation bytes that nothing continues is the run counted. */
  lemma ContinuedIs(data: seq<Byte>, pos: nat, n: nat)
    requires n <= 10
    requires forall i :: pos <= i < pos + n ==> i < |data| && data[i] >= 128
    ensures Continued(data, pos, 10) >= n
    ensures n == 10 || pos + n >= |data| || data[pos + n] < 128 ==> Continued(data, pos, 10) == n
  {
    hide Continued;
    var m := Continued(data, pos, 10);
    assert m < 10 && pos + m < |data| ==> data[pos + m] < 128;
  }

  // ---- decoding undoes encoding ----

  lemma {:induction false} EncodeMeans(value: nat)
    ensures Base128(Encode(value)) == value
    ensures forall i :: 0 <= i < |Encode(value)| - 1 ==> Encode(value)[i] >= 128
    ensures Encode(value)[|Encode(value)| - 1] < 128
  {
    if value >= 128 {
      EncodeMeans(value / 128);
      assert Encode(value)[1..] == Encode(value / 128);
    }
  }

  /** Continuation bytes and a one are the encoding of a number. */
  lemma {:induction false} ContinuationsEncode(cut: seq<Byte>)
    requires forall i :: 0 <= i < |cut| ==> cut[i] >= 128
    ensures Encode(Base128(cut + [1])) == cut + [1] && Base128(cut + [1]) >= 1
    decreases cut
  {
    if cut == [] {
      assert [1 as Byte][1..] == [];
    } else {
      var rest := cut[1..];
      assert (cut + [1])[1..] == rest + [1];
      ContinuationsEncode(rest);
      var value := Base128(cut + [1]);
      assert value == cut[0] % 128 + 128 * Base128(rest + [1]);
      assert value / 128 == Base128(rest + [1]) && value % 128 + 128 == cut[0];
      assert cut + [1] == [cut[0]] + (rest + [1]);
    }
  }

  lemma {:induction false} EncodeLength(value: nat, n: nat)
    requires value < Pow2(7 * n) && n > 0
    ensures |Encode(value)| <= n
    decreases n
  {
    if value >= 128 {
      PowersOf128();
      Seven(7 * (n - 1));
      assert 7 * (n - 1) + 7 == 7 * n;
      if n > 1 { EncodeLength(value / 128, n - 1); }
    }
  }

  /** A run of at most ten bytes of which only the last has no continuation bit is read whole. */
  lemma ReadsBytes(data: seq<Byte>, pos: nat, bytes: seq<Byte>)
    requires At(data, pos, bytes) && 1 <= |bytes| <= 10
    requires forall i :: 0 <= i < |bytes| - 1 ==> bytes[i] >= 128
    requires bytes[|bytes| - 1] < 128
    ensures VarintAt(data, pos) == Read(Some(Base128(bytes) % U64_SIZE), pos + |bytes|)
  {
    hide Continued, Base128;
    var n := |bytes| - 1;
    assert forall i :: pos <= i < pos + |bytes| ==> data[i] == data[pos..pos + |bytes|][i - pos];
    ContinuedIs(data, pos, n);
  }

  /** Reading an encoded 64-bit number gives it back and consumes exactly its bytes, whatever
      surrounds them. */
  lemma ReadUndoesEncode(data: seq<Byte>, pos: nat, value: nat)
    requires value < U64_SIZE && At(data, pos, Encode(value))
    ensures VarintAt(data, pos) == Read(Some(value), pos + |Encode(value)|)
  {
    hide Base128, Pow2, Encode, At, VarintAt;
    EncodeMeans(value);
    PowersOf128();
    Seven(63);
    EncodeLength(value, 10);
    ReadsBytes(data, pos, Encode(value));
  }

  /** Ten bytes whose last carries more than the topmost bit still decode: the rest is lost. */
  lemma TopBitsAreLost(data: seq<Byte>, pos: nat, groups: seq<Byte>, last: Byte)
    requires |groups| == 9 && (forall i :: 0 <= i < 9 ==> groups[i] >= 128)
    requires last < 128 && At(data, pos, groups + [last])
    ensures VarintAt(data, pos)
         == Read(Some(Base128(groups) + (last % 2) * 0x8000_0000_0000_0000), pos + 10)
  {
    hide Base128, Pow2, At, VarintAt;
    ReadsBytes(data, pos, groups + [last]);
    Base128Append(groups, last);
    Base128Bound(groups);
    PowersOf128();
    LostAboveTop(Base128(groups), last);
  }

  /** Reading at a position inside the data passes at least one byte. */
  lemma ReadAdvances(data: seq<Byte>, pos: nat)
    ensures pos < |data| ==> pos < VarintAt(data, pos).next <= |data|
    ensures pos >= |data| ==> VarintAt(data, pos) == Read(None, pos)
  {
    hide Continued, Base128;
    var n := Continued(data, pos, 10);
    assert VarintAt(data, pos).next == if n == 10 || pos + n >= |data| then pos + n else pos + n + 1;
  }

  /** A read fails exactly when no byte ends the number: the data run out, or ten bytes go on. The cursor is then
      behind the bytes looked at. */
  lemma ReadFailsExactlyWhen(data: seq<Byte>, pos: nat)
    ensures VarintAt(data, pos).value.None?
            <==> forall i :: pos <= i < pos + 10 && i < |data| ==> data[i] >= 128
    ensures VarintAt(data, pos).value.None? ==>
              VarintAt(data, pos).next == if pos + 10 <= |data| then pos + 10 else if pos <= |data| then |data| else pos
  {
    hide Continued, Base128;
    var n := Continued(data, pos, 10);
    if n < 10 && pos + n < |data| {
      assert data[pos + n] < 128;
    }
  }

  lemma WholeIsAtZero(data: seq<Byte>)
    ensures At(data, 0, data)
  {
    assert data[0..|data|] == data;
  }

  /** A chunk of two parts lies at `pos` when each part lies where it should. */
  lemma AtSplits(data: seq<Byte>, pos: nat, a: seq<Byte>, b: seq<Byte>)
    ensures At(data, pos, a + b) <==> At(data, pos, a) && At(data, pos + |a|, b)
  {
    if pos + |a| + |b| <= |data| {
      var x, y := data[pos..pos + |a|], data[pos + |a|..pos + |a| + |b|];
      assert data[pos..pos + |a + b|] == x + y;
      assert (x + y)[..|a|] == x && (x + y)[|a|..] == y;
      assert (a + b)[..|a|] == a && (a + b)[|a|..] == b;
    }
  }
}
