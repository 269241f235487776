/** Ring membership and overlap (web/app.js): even-odd point in ring, ring overlap, and the envelope
    test that rejects most candidates early. Coordinates are exact reals. */
module Rings {
  import opened Basics
  import opened Segments

  type Ring = seq<Pos>

  // ---- point in ring ----

  predicate Above(v: Pos, p: Pos) {
    v.y > p.y
  }

  /** Where a line through (x, 0) with direction (k, d) is at height n. */
  function LineAt(k: real, n: real, d: real, x: real): real
    requires d != 0.0
  {
    k * n / d + x
  }

  /** Where the edge meets the horizontal through `p`. */
  function CrossingAt(p: Pos, cur: Pos, prev: Pos): real
    requires prev.y != cur.y
  {
    LineAt(prev.x - cur.x, p.y - cur.y, prev.y - cur.y, cur.x)
  }

  /** Does the horizontal ray from `p` to the right cross the edge from `prev` to `cur`? */
  predicate Crosses(p: Pos, cur: Pos, prev: Pos) {
    Above(cur, p) != Above(prev, p) && p.x < CrossingAt(p, cur, prev)
  }

  /** The parity of the crossings along the path that starts at `prev`. */
  predicate OddCrossings(p: Pos, prev: Pos, path: Ring)
    decreases path
  {
    path != [] && Crosses(p, path[0], prev) != OddCrossings(p, path[0], path[1..])
  }

  predicate PointInRing(p: Pos, ring: Ring) {
    ring != [] && OddCrossings(p, ring[|ring| - 1], ring)
  }

  lemma {:induction false} CrossingsAppend(p: Pos, prev: Pos, a: Ring, b: Ring)
    requires a != []
    ensures OddCrossings(p, prev, a + b) == (OddCrossings(p, prev, a) != OddCrossings(p, a[|a| - 1], b))
    decreases a
  {
    hide Crosses;
    assert (a + b)[1..] == a[1..] + b;
    if |a| == 1 {
      assert a[1..] + b == b;
    } else {
      CrossingsAppend(p, a[0], a[1..], b);
    }
  }

  /** The loop over the edges, with the closing edge first. */
  method ComputePointInRing(point: Pos, ring: Ring) returns (inside: bool)
    ensures inside == PointInRing(point, ring)
  {
    hide Crosses;
    inside := false;
    var i, j := 0, |ring| - 1;
    while i < |ring|
      invariant 0 <= i <= |ring| && (i < |ring| ==> j == if i == 0 then |ring| - 1 else i - 1)
      invariant inside == (i > 0 && OddCrossings(point, ring[|ring| - 1], ring[..i]))
    {
      if Crosses(point, ring[i], ring[j]) {
        inside := !inside;
      }
      assert ring[..i + 1] == ring[..i] + [ring[i]];
      OneMoreEdge(point, ring[|ring| - 1], ring[..i], ring[i]);
      j := i;
      i := i + 1;
    }
    assert ring[..|ring|] == ring;
  }

  lemma OneMoreEdge(p: Pos, prev: Pos, path: Ring, v: Pos)
    ensures OddCrossings(p, prev, path + [v])
            == (OddCrossings(p, prev, path) != Crosses(p, v, if path == [] then prev else path[|path| - 1]))
  {
    hide Crosses;
    if path == [] {
      assert path + [v] == [v];
    } else {
      CrossingsAppend(p, prev, path, [v]);
    }
  }

  // ---- the same answer for the same ring ----

  /** Starting the ring at another vertex. */
  lemma RotationInvariant(p: Pos, a: Ring, b: Ring)
    ensures PointInRing(p, a + b) == PointInRing(p, b + a)
  {
    hide Crosses;
    if a == [] || b == [] {
      assert a + b == b + a;
    } else {
      var last := b[|b| - 1];
      CrossingsAppend(p, last, a, b);
      CrossingsAppend(p, a[|a| - 1], b, a);
    }
  }

  lemma LineEitherWay(k: real, n: real, d: real, x: real)
    requires d != 0.0
    ensures LineAt(k, n, d, x) == LineAt(-k, n - d, -d, x + k)
  {
    var q, r := k * n / d, (-k) * (n - d) / (-d);
    assert q * d == k * n;
    assert r * (-d) == (-k) * (n - d);
    assert r * d == (q - k) * d;
    Cancel(r, q - k, d);
  }

  /** The crossing test does not depend on the direction of the edge. */
  lemma CrossesEitherWay(p: Pos, a: Pos, b: Pos)
    ensures Crosses(p, a, b) == Crosses(p, b, a)
  {
    hide LineAt;
    if Above(a, p) != Above(b, p) {
      LineEitherWay(b.x - a.x, p.y - a.y, b.y - a.y, a.x);
    }
  }

  function Reverse(s: Ring): (r: Ring)
    ensures |r| == |s| && forall i :: 0 <= i < |s| ==> r[i] == s[|s| - 1 - i]
  {
    if s == [] then [] else Reverse(s[1..]) + [s[0]]
  }

  /** Walking a path backwards crosses the same edges. */
  lemma {:induction false} BackwardsPath(p: Pos, prev: Pos, path: Ring)
    requires path != []
    ensures OddCrossings(p, prev, path) == OddCrossings(p, path[|path| - 1], Reverse([prev] + path[..|path| - 1]))
    decreases path
  {
    hide Crosses;
    CrossesEitherWay(p, path[0], prev);
    var back := Reverse([prev] + path[..|path| - 1]);
    if |path| == 1 {
      assert back == [prev];
    } else {
      var rest := path[1..];
      BackwardsPath(p, path[0], rest);
      assert ([prev] + path[..|path| - 1])[1..] == [path[0]] + rest[..|rest| - 1];
      var tail := Reverse([path[0]] + rest[..|rest| - 1]);
      assert back == tail + [prev];
      OneMoreEdge(p, path[|path| - 1], tail, prev);
      assert tail[|tail| - 1] == path[0];
    }
  }

  lemma ReversalInvariant(p: Pos, ring: Ring)
    ensures PointInRing(p, Reverse(ring)) == PointInRing(p, ring)
  {
    hide Crosses;
    if ring != [] {
      var last, front := ring[|ring| - 1], ring[..|ring| - 1];
      BackwardsPath(p, last, ring);
      assert ([last] + front)[1..] == front;
      assert Reverse([last] + front) == Reverse(front) + [last];
      assert Reverse(ring) == [last] + Reverse(front);
      RotationInvariant(p, [last], Reverse(front));
    }
  }

  /** A linear ring of RFC 7946, section 3.1.6, repeats its first position at the end; that changes
      nothing. */
  lemma ClosingInvariant(p: Pos, ring: Ring)
    requires ring != []
    ensures PointInRing(p, ring + [ring[0]]) == PointInRing(p, ring)
  {
    var first, last := ring[0], ring[|ring| - 1];
    assert !Crosses(p, first, first);
    hide Crosses;
    assert ring == [first] + ring[1..];
    CrossingsAppend(p, first, ring, [first]);
    CrossingsAppend(p, last, [first], ring[1..]);
    CrossingsAppend(p, first, [first], ring[1..]);
    OneMoreEdge(p, first, [], first);
    OneMoreEdge(p, last, [], first);
  }

  // ---- the envelope ----

  /** The running minima start at plus infinity and the maxima at minus infinity. */
  datatype Ext = MinusInfinity | Finite(v: real) | PlusInfinity

  predicate Leq(a: Ext, b: Ext) {
    a.MinusInfinity? || b.PlusInfinity? || (a.Finite? && b.Finite? && a.v <= b.v)
  }

  function ExtMin(a: Ext, b: Ext): Ext {
    if Leq(a, b) then a else b
  }

  function ExtMax(a: Ext, b: Ext): Ext {
    if Leq(a, b) then b else a
  }

  datatype Envelope = Envelope(minLng: Ext, minLat: Ext, maxLng: Ext, maxLat: Ext)

  predicate InEnvelope(p: Pos, e: Envelope) {
    Leq(e.minLng, Finite(p.x)) && Leq(Finite(p.x), e.maxLng) && Leq(e.minLat, Finite(p.y)) && Leq(Finite(p.y), e.maxLat)
  }

  /** `e` holds all positions, and every envelope that does holds `e`. */
  ghost predicate IsEnvelopeOf(e: Envelope, positions: Ring) {
    && (forall p :: p in positions ==> InEnvelope(p, e))
    && (forall other: Envelope :: (forall p :: p in positions ==> InEnvelope(p, other)) ==>
          Leq(other.minLng, e.minLng) && Leq(other.minLat, e.minLat)
          && Leq(e.maxLng, other.maxLng) && Leq(e.maxLat, other.maxLat))
  }

  function Grow(e: Envelope, p: Pos): Envelope {
    var (x, y) := (Finite(p.x), Finite(p.y));
    Envelope(ExtMin(e.minLng, x), ExtMin(e.minLat, y), ExtMax(e.maxLng, x), ExtMax(e.maxLat, y))
  }

  function EnvelopeOf(positions: Ring): Envelope {
    if positions == [] then Envelope(PlusInfinity, PlusInfinity, MinusInfinity, MinusInfinity)
    else Grow(EnvelopeOf(positions[..|positions| - 1]), positions[|positions| - 1])
  }

  method ComputeEnvelopeOf(positions: Ring) returns (e: Envelope)
    ensures e == EnvelopeOf(positions)
  {
    e := Envelope(PlusInfinity, PlusInfinity, MinusInfinity, MinusInfinity);
    for i := 0 to |positions|
      invariant e == EnvelopeOf(positions[..i])
    {
      assert positions[..i + 1][..i] == positions[..i];
      e := Grow(e, positions[i]);
    }
    assert positions[..|positions|] == positions;
  }

  lemma {:induction false} EnvelopeIsTight(positions: Ring)
    ensures IsEnvelopeOf(EnvelopeOf(positions), positions)
  {
    if positions != [] {
      var front, last := positions[..|positions| - 1], positions[|positions| - 1];
      assert positions == front + [last];
      EnvelopeIsTight(front);
      forall other: Envelope | forall p :: p in positions ==> InEnvelope(p, other)
        ensures Leq(other.minLng, EnvelopeOf(positions).minLng) && Leq(other.minLat, EnvelopeOf(positions).minLat)
        ensures Leq(EnvelopeOf(positions).maxLng, other.maxLng) && Leq(EnvelopeOf(positions).maxLat, other.maxLat)
      {
        assert InEnvelope(last, other);
        assert forall p :: p in front ==> p in positions;
      }
    }
  }

  predicate EnvelopesOverlap(a: Envelope, b: Envelope) {
    Leq(a.minLng, b.maxLng) && Leq(b.minLng, a.maxLng) && Leq(a.minLat, b.maxLat) && Leq(b.minLat, a.maxLat)
  }

  predicate WestMost(p: Pos, positions: Ring) {
    p in positions && forall q :: q in positions ==> p.x <= q.x
  }

  predicate SouthMost(p: Pos, positions: Ring) {
    p in positions && forall q :: q in positions ==> p.y <= q.y
  }

  predicate EastMost(p: Pos, positions: Ring) {
    p in positions && forall q :: q in positions ==> q.x <= p.x
  }

  predicate NorthMost(p: Pos, positions: Ring) {
    p in positions && forall q :: q in positions ==> q.y <= p.y
  }

  lemma WestStep(front: Ring, v: Pos, p: Pos)
    requires WestMost(p, front)
    ensures WestMost(if p.x <= v.x then p else v, front + [v])
  {
  }

  lemma SouthStep(front: Ring, v: Pos, p: Pos)
    requires SouthMost(p, front)
    ensures SouthMost(if p.y <= v.y then p else v, front + [v])
  {
  }

  lemma EastStep(front: Ring, v: Pos, p: Pos)
    requires EastMost(p, front)
    ensures EastMost(if v.x <= p.x then p else v, front + [v])
  {
  }

  lemma NorthStep(front: Ring, v: Pos, p: Pos)
    requires NorthMost(p, front)
    ensures NorthMost(if v.y <= p.y then p else v, front + [v])
  {
  }

  lemma GrowSides(e: Envelope, v: Pos)
    requires e.minLng.Finite? && e.minLat.Finite? && e.maxLng.Finite? && e.maxLat.Finite?
    ensures Grow(e, v).minLng == Finite(if e.minLng.v <= v.x then e.minLng.v else v.x)
    ensures Grow(e, v).minLat == Finite(if e.minLat.v <= v.y then e.minLat.v else v.y)
    ensures Grow(e, v).maxLng == Finite(if v.x <= e.maxLng.v then e.maxLng.v else v.x)
    ensures Grow(e, v).maxLat == Finite(if v.y <= e.maxLat.v then e.maxLat.v else v.y)
  {
  }

  lemma FirstSides(v: Pos)
    ensures WestMost(v, [v]) && SouthMost(v, [v]) && EastMost(v, [v]) && NorthMost(v, [v])
    ensures Grow(EnvelopeOf([]), v) == Envelope(Finite(v.x), Finite(v.y), Finite(v.x), Finite(v.y))
  {
  }

  /** Each side of the envelope of some positions is a coordinate of one of them that none goes beyond. */
  lemma {:induction false} EnvelopeSides(positions: Ring) returns (west: Pos, south: Pos, east: Pos, north: Pos)
    requires positions != []
    ensures WestMost(west, positions) && EnvelopeOf(positions).minLng == Finite(west.x)
    ensures SouthMost(south, positions) && EnvelopeOf(positions).minLat == Finite(south.y)
    ensures EastMost(east, positions) && EnvelopeOf(positions).maxLng == Finite(east.x)
    ensures NorthMost(north, positions) && EnvelopeOf(positions).maxLat == Finite(north.y)
  {
    hide WestMost, SouthMost, EastMost, NorthMost, Grow;
    var front, last := positions[..|positions| - 1], positions[|positions| - 1];
    assert positions == front + [last];
    if front == [] {
      FirstSides(last);
      west, south, east, north := last, last, last, last;
    } else {
      var w, s, e, n := EnvelopeSides(front);
      WestStep(front, last, w);
      SouthStep(front, last, s);
      EastStep(front, last, e);
      NorthStep(front, last, n);
      GrowSides(EnvelopeOf(front), last);
      west := if w.x <= last.x then w else last;
      south := if s.y <= last.y then s else last;
      east := if last.x <= e.x then e else last;
      north := if last.y <= n.y then n else last;
    }
  }

  /** The early reject is exact: it lets through the envelopes that share a point and no others. */
  lemma EnvelopesOverlapExactly(a: Ring, b: Ring)
    requires a != [] && b != []
    ensures EnvelopesOverlap(EnvelopeOf(a), EnvelopeOf(b))
            <==> exists p :: InEnvelope(p, EnvelopeOf(a)) && InEnvelope(p, EnvelopeOf(b))
  {
    var (e, f) := (EnvelopeOf(a), EnvelopeOf(b));
    ProperEnvelope(a);
    ProperEnvelope(b);
    hide EnvelopeOf;
    if EnvelopesOverlap(e, f) {
      var p := Pos(Max(e.minLng.v, f.minLng.v), Max(e.minLat.v, f.minLat.v));
      assert InEnvelope(p, e) && InEnvelope(p, f);
    }
  }

  lemma ProperEnvelope(ring: Ring)
    requires ring != []
    ensures var e := EnvelopeOf(ring);
            && e.minLng.Finite? && e.maxLng.Finite? && e.minLng.v <= e.maxLng.v
            && e.minLat.Finite? && e.maxLat.Finite? && e.minLat.v <= e.maxLat.v
  {
    hide EnvelopeOf;
    var west, south, east, north := EnvelopeSides(ring);
    assert west.x <= east.x && south.y <= north.y;
  }

  lemma SharedPointOverlaps(p: Pos, a: Envelope, b: Envelope)
    requires InEnvelope(p, a) && InEnvelope(p, b)
    ensures EnvelopesOverlap(a, b)
  {
  }

  // ---- a point in a ring lies in the ring's envelope ----

  /** Where the edge meets the horizontal through `p` is between the ends of the edge. */
  lemma CrossingBetweenEnds(p: Pos, cur: Pos, prev: Pos)
    requires Above(cur, p) != Above(prev, p)
    ensures Min(cur.x, prev.x) <= CrossingAt(p, cur, prev) <= Max(cur.x, prev.x)
  {
    hide LineAt;
    LineBetween(prev.x - cur.x, p.y - cur.y, prev.y - cur.y, cur.x);
  }

  lemma LineBetween(k: real, n: real, d: real, x: real)
    requires (0.0 <= n <= d && d > 0.0) || (d <= n <= 0.0 && d < 0.0)
    ensures Min(x, x + k) <= LineAt(k, n, d, x) <= Max(x, x + k)
  {
    hide LineAt;
    var t := HeightFraction(n, d);
    LineIsSpan(k, n, d, x, t);
    SpanHolds(x, k, t);
  }

  lemma HeightFraction(n: real, d: real) returns (t: real)
    requires (0.0 <= n <= d && d > 0.0) || (d <= n <= 0.0 && d < 0.0)
    ensures Unit(t) && t * d == n
  {
    if d > 0.0 {
      t := ProperFraction(n, d);
    } else {
      var e := -d;
      t := ProperFraction(-n, e);
      TurnedProduct(t, e, d);
    }
  }

  lemma LineIsSpan(k: real, n: real, d: real, x: real, t: real)
    requires d != 0.0 && t * d == n
    ensures LineAt(k, n, d, x) == x + t * k
  {
    assert k * n == (t * k) * d by { assert k * (t * d) == (t * k) * d; }
    Cancel(k * n / d, t * k, d);
  }

  lemma {:induction false} RightOfPath(p: Pos, prev: Pos, path: Ring)
    requires prev.x <= p.x && forall v :: v in path ==> v.x <= p.x
    ensures !OddCrossings(p, prev, path)
    decreases path
  {
    hide CrossingAt;
    if path != [] {
      assert path[0] in path;
      if Above(path[0], p) != Above(prev, p) {
        CrossingBetweenEnds(p, path[0], prev);
      }
      assert !Crosses(p, path[0], prev);
      hide Crosses;
      assert forall v :: v in path[1..] ==> v in path;
      RightOfPath(p, path[0], path[1..]);
    }
  }

  /** From the left of everything the ray crosses exactly the edges that change sides, so the parity
      says whether the path ends on the side it began on. */
  lemma {:induction false} LeftOfPath(p: Pos, prev: Pos, path: Ring)
    requires p.x < prev.x && forall v :: v in path ==> p.x < v.x
    ensures OddCrossings(p, prev, path) == (Above(prev, p) != Above(if path == [] then prev else path[|path| - 1], p))
    decreases path
  {
    hide CrossingAt;
    if path != [] {
      assert path[0] in path;
      if Above(path[0], p) != Above(prev, p) {
        CrossingBetweenEnds(p, path[0], prev);
      }
      assert Crosses(p, path[0], prev) == (Above(path[0], p) != Above(prev, p));
      hide Crosses;
      assert forall v :: v in path[1..] ==> v in path;
      LeftOfPath(p, path[0], path[1..]);
    }
  }

  lemma {:induction false} OneSidedPath(p: Pos, prev: Pos, path: Ring)
    requires forall v :: v in path ==> Above(v, p) == Above(prev, p)
    ensures !OddCrossings(p, prev, path)
    decreases path
  {
    if path != [] {
      assert path[0] in path;
      assert forall v :: v in path[1..] ==> v in path;
      OneSidedPath(p, path[0], path[1..]);
    }
  }

  lemma EnvelopeHolds(ring: Ring, v: Pos)
    requires v in ring
    ensures InEnvelope(v, EnvelopeOf(ring))
  {
    hide EnvelopeOf, InEnvelope;
    EnvelopeIsTight(ring);
  }

  /** A point with vertices on all four sides. */
  lemma SurroundedIsInEnvelope(p: Pos, ring: Ring, left: Pos, right: Pos, low: Pos, high: Pos)
    requires left in ring && right in ring && low in ring && high in ring
    requires left.x <= p.x < right.x && low.y <= p.y < high.y
    ensures InEnvelope(p, EnvelopeOf(ring))
  {
    hide EnvelopeOf;
    EnvelopeHolds(ring, left);
    EnvelopeHolds(ring, right);
    EnvelopeHolds(ring, low);
    EnvelopeHolds(ring, high);
  }

  lemma PointInRingIsInEnvelope(p: Pos, ring: Ring)
    requires PointInRing(p, ring)
    ensures InEnvelope(p, EnvelopeOf(ring))
  {
    hide OddCrossings, EnvelopeOf, InEnvelope;
    var last := ring[|ring| - 1];
    assert last in ring;
    if forall v :: v in ring ==> v.x <= p.x {
      RightOfPath(p, last, ring);
    } else if forall v :: v in ring ==> p.x < v.x {
      LeftOfPath(p, last, ring);
    } else if forall v :: v in ring ==> Above(v, p) {
      OneSidedPath(p, last, ring);
    } else if forall v :: v in ring ==> !Above(v, p) {
      OneSidedPath(p, last, ring);
    } else {
      var right :| right in ring && right.x > p.x;
      var left :| left in ring && left.x <= p.x;
      var low :| low in ring && !Above(low, p);
      var high :| high in ring && Above(high, p);
      SurroundedIsInEnvelope(p, ring, left, right, low, high);
    }
  }

  /** The ring of an axis-aligned rectangle holds exactly its half-open interior, whichever way it is
      walked: what even-odd counting with a one-sided comparison promises. */
  lemma RectangleMembership(p: Pos, lo: Pos, hi: Pos)
    requires lo.x <= hi.x && lo.y <= hi.y
    ensures PointInRing(p, [lo, Pos(hi.x, lo.y), hi, Pos(lo.x, hi.y), lo])
            <==> lo.x <= p.x < hi.x && lo.y <= p.y < hi.y
  {
    var b, d := Pos(hi.x, lo.y), Pos(lo.x, hi.y);
    var ring := [lo, b, hi, d, lo];
    assert ring[1..] == [b, hi, d, lo] && ring[1..][1..] == [hi, d, lo] && ring[1..][1..][1..] == [d, lo]
           && ring[1..][1..][1..][1..] == [lo] && ring[1..][1..][1..][1..][1..] == [];
    UprightEdge(p, hi, b);
    UprightEdge(p, lo, d);
    assert !Crosses(p, lo, lo) && !Crosses(p, b, lo) && !Crosses(p, d, hi);
    hide Crosses;
    assert OddCrossings(p, d, [lo]) == Crosses(p, lo, d);
    assert OddCrossings(p, hi, [d, lo]) == Crosses(p, lo, d);
    assert OddCrossings(p, b, [hi, d, lo]) == (Crosses(p, hi, b) != Crosses(p, lo, d));
    assert OddCrossings(p, lo, [b, hi, d, lo]) == (Crosses(p, hi, b) != Crosses(p, lo, d));
    assert OddCrossings(p, lo, ring) == (Crosses(p, hi, b) != Crosses(p, lo, d));
  }

  lemma UprightEdge(p: Pos, cur: Pos, prev: Pos)
    requires cur.x == prev.x
    ensures Crosses(p, cur, prev) <==> Above(cur, p) != Above(prev, p) && p.x < cur.x
  {
    if Above(cur, p) != Above(prev, p) {
      CrossingBetweenEnds(p, cur, prev);
    }
  }

  // ---- ring overlap ----

  function Prev(ring: Ring, i: nat): Pos
    requires i < |ring|
  {
    ring[if i == 0 then |ring| - 1 else i - 1]
  }

  predicate EdgesMeet(a: Ring, b: Ring, i: nat, k: nat)
    requires i < |a| && k < |b|
  {
    SegmentsIntersect(Prev(a, i), a[i], Prev(b, k), b[k])
  }

  /** A vertex of one inside the other, or two edges that share a point. */
  predicate RingsOverlap(a: Ring, b: Ring) {
    || (exists p :: p in a && PointInRing(p, b))
    || (exists p :: p in b && PointInRing(p, a))
    || (exists i: nat, k: nat :: i < |a| && k < |b| && EdgesMeet(a, b, i, k))
  }

  method ComputeRingsOverlap(a: Ring, b: Ring) returns (overlap: bool)
    ensures overlap == RingsOverlap(a, b)
  {
    hide PointInRing, EdgesMeet;
    for n := 0 to |a|
      invariant forall m :: 0 <= m < n ==> !PointInRing(a[m], b)
    {
      var inside := ComputePointInRing(a[n], b);
      if inside { return true; }
    }
    for n := 0 to |b|
      invariant forall m :: 0 <= m < n ==> !PointInRing(b[m], a)
    {
      var inside := ComputePointInRing(b[n], a);
      if inside { return true; }
    }
    for i := 0 to |a|
      invariant forall n: nat, k: nat :: n < i && k < |b| ==> !EdgesMeet(a, b, n, k)
    {
      for k := 0 to |b|
        invariant forall m: nat :: m < k ==> !EdgesMeet(a, b, i, m)
      {
        if EdgesMeet(a, b, i, k) { return true; }
      }
    }
    return false;
  }

  lemma OverlapIsSymmetric(a: Ring, b: Ring)
    ensures RingsOverlap(a, b) == RingsOverlap(b, a)
  {
    hide PointInRing, SegmentsIntersect;
    forall i: nat, k: nat | i < |a| && k < |b|
      ensures EdgesMeet(a, b, i, k) == EdgesMeet(b, a, k, i)
    {
      MeetingIsSymmetric(Prev(a, i), a[i], Prev(b, k), b[k]);
    }
  }

  lemma MeetingIsSymmetric(a: Pos, b: Pos, c: Pos, d: Pos)
    ensures SegmentsIntersect(a, b, c, d) == SegmentsIntersect(c, d, a, b)
  {
    hide SegmentsIntersect, Along;
    IntersectExactlyWhenTheyShareAPoint(a, b, c, d);
    IntersectExactlyWhenTheyShareAPoint(c, d, a, b);
    if SharePoint(a, b, c, d) {
      var s, t :| Meet(a, b, c, d, s, t);
      assert Meet(c, d, a, b, t, s);
    }
    if SharePoint(c, d, a, b) {
      var s, t :| Meet(c, d, a, b, s, t);
      assert Meet(a, b, c, d, t, s);
    }
  }

  lemma EdgePointInEnvelope(ring: Ring, i: nat, s: real)
    requires i < |ring| && Unit(s)
    ensures InEnvelope(Along(Prev(ring, i), ring[i], s), EnvelopeOf(ring))
  {
    hide EnvelopeOf, Along;
    EnvelopeIsTight(ring);
    AlongInBox(Prev(ring, i), ring[i], s);
    assert Prev(ring, i) in ring && ring[i] in ring;
    assert InEnvelope(Prev(ring, i), EnvelopeOf(ring)) && InEnvelope(ring[i], EnvelopeOf(ring));
  }

  /** The early reject changes nothing: rings that overlap have envelopes that overlap. */
  lemma OverlapNeedsEnvelopes(a: Ring, b: Ring)
    requires RingsOverlap(a, b)
    ensures EnvelopesOverlap(EnvelopeOf(a), EnvelopeOf(b))
  {
    hide PointInRing, SegmentsIntersect, EnvelopeOf, EnvelopesOverlap, InEnvelope, Along;
    EnvelopeIsTight(a);
    EnvelopeIsTight(b);
    if p :| p in a && PointInRing(p, b) {
      PointInRingIsInEnvelope(p, b);
      SharedPointOverlaps(p, EnvelopeOf(a), EnvelopeOf(b));
    } else if p :| p in b && PointInRing(p, a) {
      PointInRingIsInEnvelope(p, a);
      SharedPointOverlaps(p, EnvelopeOf(a), EnvelopeOf(b));
    } else {
      var i: nat, k: nat :| i < |a| && k < |b| && EdgesMeet(a, b, i, k);
      IntersectExactlyWhenTheyShareAPoint(Prev(a, i), a[i], Prev(b, k), b[k]);
      var s, t :| Meet(Prev(a, i), a[i], Prev(b, k), b[k], s, t);
      EdgePointInEnvelope(a, i, s);
      EdgePointInEnvelope(b, k, t);
      SharedPointOverlaps(Along(Prev(a, i), a[i], s), EnvelopeOf(a), EnvelopeOf(b));
    }
  }

  lemma RejectIsSound(a: Ring, b: Ring)
    ensures !EnvelopesOverlap(EnvelopeOf(a), EnvelopeOf(b)) ==> !RingsOverlap(a, b)
  {
    hide RingsOverlap, EnvelopesOverlap;
    if RingsOverlap(a, b) {
      OverlapNeedsEnvelopes(a, b);
    }
  }

  // ---- a candidate geometry against the drawn ring ----

  datatype Geometry =
    | NoGeometry
    | PointGeometry(at: Pos)
    | MultiPoint(points: seq<Pos>)
    | Polygon(rings: seq<Ring>)
    | MultiPolygon(polygons: seq<Outline>)
    | OtherGeometry

  datatype Outline = Outline(outer: Ring, holes: seq<Ring>)

  function OuterRingsOf(geometry: Geometry): seq<Ring> {
    match geometry
    case Polygon(rings) => if rings == [] then [] else [rings[0]]
    case MultiPolygon(polygons) => seq(|polygons|, i requires 0 <= i < |polygons| => polygons[i].outer)
    case _ => []
  }

  /** Membership without any early reject: a point of the geometry in the ring, or an outer ring that
      overlaps it. */
  predicate OverlapsRing(geometry: Geometry, ring: Ring) {
    match geometry
    case PointGeometry(at) => PointInRing(at, ring)
    case MultiPoint(points) => exists p :: p in points && PointInRing(p, ring)
    case _ => exists outer :: outer in OuterRingsOf(geometry) && RingsOverlap(outer, ring)
  }

  method GeometryOverlapsRing(geometry: Geometry, ring: Ring, ringEnvelope: Envelope) returns (overlap: bool)
    requires ringEnvelope == EnvelopeOf(ring)
    ensures overlap == OverlapsRing(geometry, ring)
    ensures geometry.PointGeometry? ==> overlap == PointInRing(geometry.at, ring)
    ensures geometry.MultiPoint? ==> overlap == exists p :: p in geometry.points && PointInRing(p, ring)
    ensures geometry.Polygon? ==> overlap == (geometry.rings != [] && RingsOverlap(geometry.rings[0], ring))
    ensures geometry.MultiPolygon? ==> overlap == exists o :: o in geometry.polygons && RingsOverlap(o.outer, ring)
    ensures geometry.NoGeometry? || geometry.OtherGeometry? ==> !overlap
  {
    hide PointInRing, RingsOverlap, EnvelopeOf;
    if geometry.NoGeometry? { return false; }
    if geometry.PointGeometry? {
      overlap := ComputePointInRing(geometry.at, ring);
      return;
    }
    if geometry.MultiPoint? {
      for n := 0 to |geometry.points|
        invariant forall m :: 0 <= m < n ==> !PointInRing(geometry.points[m], ring)
      {
        var inside := ComputePointInRing(geometry.points[n], ring);
        if inside { return true; }
      }
      return false;
    }
    var outers := OuterRingsOf(geometry);
    for n := 0 to |outers|
      invariant forall m :: 0 <= m < n ==> !RingsOverlap(outers[m], ring)
    {
      var envelope := ComputeEnvelopeOf(outers[n]);
      if !EnvelopesOverlap(envelope, ringEnvelope) {
        RejectIsSound(outers[n], ring);
        continue;
      }
      var hit := ComputeRingsOverlap(outers[n], ring);
      if hit { return true; }
    }
    return false;
  }
}
