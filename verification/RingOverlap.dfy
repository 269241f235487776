/** What ring overlap means (web/app.js): that some point lies inside or on both rings. It rests on
    the parity of crossings being the same at both ends of a segment that misses the ring. */
module RingOverlap {
  import opened Basics
  import opened Segments
  import opened Rings

  // ---- parts of a segment ----

  lemma BetweenFractions(s: real, r: real, t: real)
    requires Unit(s) && Unit(r) && Unit(t)
    ensures Unit(s + t * (r - s))
  {
    SpanHolds(s, r - s, t);
  }

  /** One coordinate of a point between two points of a segment. */
  lemma MixedFraction(x: real, k: real, s: real, r: real, t: real, y: real, z: real, f: real)
    requires y == x + s * k && z == x + r * k && f == s + t * (r - s)
    ensures y + t * (z - y) == x + f * k
  {
    var e, d := r - s, z - y;
    assert d == e * k by { assert e * k == r * k - s * k; }
    assert t * d == (t * e) * k;
    assert f * k == s * k + (t * e) * k;
  }

  lemma AlongAlong(a: Pos, b: Pos, s: real, r: real, t: real)
    ensures Along(Along(a, b, s), Along(a, b, r), t) == Along(a, b, s + t * (r - s))
  {
    var y, z, f := Along(a, b, s), Along(a, b, r), s + t * (r - s);
    MixedFraction(a.x, b.x - a.x, s, r, t, y.x, z.x, f);
    MixedFraction(a.y, b.y - a.y, s, r, t, y.y, z.y, f);
  }

  /** Part of a segment meets nothing that the segment does not. */
  lemma PartShares(u: Pos, v: Pos, a: Pos, b: Pos, s: real, r: real)
    requires Unit(s) && Unit(r) && SharePoint(u, v, Along(a, b, s), Along(a, b, r))
    ensures SharePoint(u, v, a, b)
  {
    hide Along;
    var m, t :| Meet(u, v, Along(a, b, s), Along(a, b, r), m, t);
    BetweenFractions(s, r, t);
    AlongAlong(a, b, s, r, t);
    assert Meet(u, v, a, b, m, s + t * (r - s));
  }

  lemma ShareIsSymmetric(a: Pos, b: Pos, c: Pos, d: Pos)
    ensures SharePoint(a, b, c, d) <==> SharePoint(c, d, a, b)
  {
    hide SegmentsIntersect, SharePoint;
    MeetingIsSymmetric(a, b, c, d);
    IntersectExactlyWhenTheyShareAPoint(a, b, c, d);
    IntersectExactlyWhenTheyShareAPoint(c, d, a, b);
  }

  /** A segment is the same walked either way. */
  lemma TurnedShares(u: Pos, v: Pos, a: Pos, b: Pos)
    requires SharePoint(v, u, a, b)
    ensures SharePoint(u, v, a, b)
  {
    var m, t :| Meet(v, u, a, b, m, t);
    var e := 1.0 - m;
    ComplementaryShares(m, v.x - u.x, e);
    ComplementaryShares(m, v.y - u.y, e);
    TurnedProduct(m, v.x - u.x, u.x - v.x);
    TurnedProduct(m, v.y - u.y, u.y - v.y);
    assert Meet(u, v, a, b, e, t);
  }

  // ---- sides ----

  predicate RightOf(u: Pos, v: Pos, z: Pos) {
    Cross(u, v, z) < 0.0
  }

  predicate InBand(u: Pos, v: Pos, z: Pos) {
    u.y <= z.y <= v.y
  }

  /** At the height of an end of a rising segment the side is told by comparing with that end. */
  lemma SideAtAnEnd(u: Pos, v: Pos, z: Pos)
    requires u.y < v.y
    ensures z.y == u.y ==> (RightOf(u, v, z) <==> u.x < z.x)
    ensures z.y == v.y ==> (RightOf(u, v, z) <==> v.x < z.x)
  {
    var k := v.y - u.y;
    if z.y == u.y {
      ProductSign(k, z.x - u.x);
      assert Cross(u, v, z) == -(k * (z.x - u.x));
    } else if z.y == v.y {
      ProductSign(k, v.x - z.x);
      assert Cross(u, v, z) == k * (v.x - z.x);
    }
  }

  lemma CrossAlong(u: Pos, v: Pos, a: Pos, b: Pos, t: real)
    ensures Cross(u, v, Along(a, b, t)) == Cross(u, v, a) + t * (Cross(u, v, b) - Cross(u, v, a))
  {
    hide Det;
    var w := Sub(v, u);
    DetRules(w, Sub(a, u), Sub(b, a), t);
    DetRules(w, Sub(b, u), Sub(a, u), 0.0);
    assert Sub(Along(a, b, t), u) == Add(Sub(a, u), Scale(t, Sub(b, a)));
    assert Sub(b, a) == Sub(Sub(b, u), Sub(a, u));
  }

  lemma HeightAlong(a: Pos, b: Pos, s: real, k: real)
    requires k == b.y - a.y
    ensures Along(a, b, s).y == a.y + s * k
  {
  }

  lemma BandIsConvex(u: Pos, v: Pos, y: Pos, z: Pos, t: real)
    requires InBand(u, v, y) && InBand(u, v, z) && Unit(t)
    ensures InBand(u, v, Along(y, z, t))
  {
    hide Along;
    var k := z.y - y.y;
    HeightAlong(y, z, t, k);
    SpanHolds(y.y, k, t);
  }

  /** A point of the line through a rising segment that is within its heights is on it. */
  lemma BandFraction(u: Pos, v: Pos, m: Pos) returns (s: real)
    requires u.y < v.y && InBand(u, v, m) && Cross(u, v, m) == 0.0
    ensures Unit(s) && Along(u, v, s) == m
  {
    hide Cross, Along, CollinearPointOnSegment;
    s := OnLine(u, v, m);
    var k := v.y - u.y;
    HeightAlong(u, v, s, k);
    SpanBounds(u.y, k, s);
  }

  /** Within the heights of a rising segment, what joins points of different sides meets it. */
  lemma SidesAreParted(u: Pos, v: Pos, y: Pos, z: Pos)
    requires u.y < v.y && InBand(u, v, y) && InBand(u, v, z) && RightOf(u, v, y) != RightOf(u, v, z)
    ensures SharePoint(u, v, y, z)
  {
    hide Cross, Along;
    var p, k := Cross(u, v, y), Cross(u, v, z) - Cross(u, v, y);
    var t := SignChange(p, k);
    CrossAlong(u, v, y, z, t);
    BandIsConvex(u, v, y, z, t);
    var s := BandFraction(u, v, Along(y, z, t));
    assert Meet(u, v, y, z, s, t);
  }

  /** All points of an edge within the heights are on one side of a rising segment that the edge misses. */
  lemma SideOfEdge(u: Pos, v: Pos, a: Pos, b: Pos) returns (right: bool)
    requires u.y < v.y && !SharePoint(u, v, a, b)
    ensures forall s :: Unit(s) && InBand(u, v, Along(a, b, s)) ==> RightOf(u, v, Along(a, b, s)) == right
  {
    hide Along, RightOf, SharePoint;
    if r :| Unit(r) && InBand(u, v, Along(a, b, r)) {
      right := RightOf(u, v, Along(a, b, r));
      forall s | Unit(s) && InBand(u, v, Along(a, b, s))
        ensures RightOf(u, v, Along(a, b, s)) == right
      {
        if RightOf(u, v, Along(a, b, s)) != right {
          SidesAreParted(u, v, Along(a, b, r), Along(a, b, s));
          PartShares(u, v, a, b, r, s);
        }
      }
    } else {
      right := false;
    }
  }

  /** Where an edge meets the height of `p`: a point of the edge. */
  lemma AtHeight(p: Pos, cur: Pos, prev: Pos) returns (s: real)
    requires Above(cur, p) != Above(prev, p)
    ensures Unit(s) && Along(cur, prev, s) == Pos(CrossingAt(p, cur, prev), p.y)
  {
    var n, d := p.y - cur.y, prev.y - cur.y;
    s := HeightFraction(n, d);
    LineIsSpan(prev.x - cur.x, n, d, cur.x, s);
  }

  // ---- parity along a segment that misses the ring ----

  /** The ray from a point moving from `u` up to `v` passes over the vertex. */
  predicate Swept(u: Pos, v: Pos, c: Pos) {
    Above(c, u) && !Above(c, v) && RightOf(u, v, c)
  }

  /** Between `u` and `v` the crossing of an edge changes as often as one of its ends is passed over. */
  lemma EdgeParity(u: Pos, v: Pos, cur: Pos, prev: Pos)
    requires u.y <= v.y && !SharePoint(u, v, cur, prev)
    ensures (Crosses(u, cur, prev) != Crosses(v, cur, prev)) == (Swept(u, v, cur) != Swept(u, v, prev))
  {
    hide SharePoint, CrossingAt, RightOf, Along;
    if u.y < v.y {
      var right := SideOfEdge(u, v, cur, prev);
      Ends(cur, prev);
      CrossesOnSide(u, v, u, cur, prev, right);
      CrossesOnSide(u, v, v, cur, prev, right);
      SweptOnSide(u, v, cur, cur, prev, 0.0, right);
      SweptOnSide(u, v, prev, cur, prev, 1.0, right);
    } else {
      LevelEdge(u, v, cur, prev);
    }
  }

  lemma CrossesOnSide(u: Pos, v: Pos, p: Pos, cur: Pos, prev: Pos, right: bool)
    requires u.y < v.y && p in {u, v}
    requires forall s :: Unit(s) && InBand(u, v, Along(cur, prev, s)) ==> RightOf(u, v, Along(cur, prev, s)) == right
    ensures Crosses(p, cur, prev) == (Above(cur, p) != Above(prev, p) && right)
  {
    hide CrossingAt, RightOf, Along;
    if Above(cur, p) != Above(prev, p) {
      var s := AtHeight(p, cur, prev);
      assert InBand(u, v, Along(cur, prev, s));
      SideAtAnEnd(u, v, Along(cur, prev, s));
    }
  }

  lemma SweptOnSide(u: Pos, v: Pos, c: Pos, cur: Pos, prev: Pos, s: real, right: bool)
    requires u.y < v.y && Unit(s) && c == Along(cur, prev, s)
    requires forall s :: Unit(s) && InBand(u, v, Along(cur, prev, s)) ==> RightOf(u, v, Along(cur, prev, s)) == right
    ensures Swept(u, v, c) == (Above(c, u) && !Above(c, v) && right)
  {
    hide RightOf, Along;
  }

  /** Moving along the level passes over nothing, and an edge would be met where its crossing changes. */
  lemma LevelEdge(u: Pos, v: Pos, cur: Pos, prev: Pos)
    requires u.y == v.y && !SharePoint(u, v, cur, prev)
    ensures Crosses(u, cur, prev) == Crosses(v, cur, prev)
  {
    hide CrossingAt, SharePoint;
    if Above(cur, u) != Above(prev, u) && Crosses(u, cur, prev) != Crosses(v, cur, prev) {
      var s := AtHeight(u, cur, prev);
      SameHeight(u, v, cur, prev);
      hide Along;
      OnLevel(u, v, Along(cur, prev, s));
      LevelShares(u, v, cur, prev, s);
    }
  }

  lemma SameHeight(u: Pos, v: Pos, cur: Pos, prev: Pos)
    requires u.y == v.y && cur.y != prev.y
    ensures CrossingAt(u, cur, prev) == CrossingAt(v, cur, prev)
  {
  }

  ghost predicate OnSegment(z: Pos, a: Pos, b: Pos) {
    exists s :: Unit(s) && z == Along(a, b, s)
  }

  lemma OnLevel(u: Pos, v: Pos, z: Pos)
    requires u.y == v.y == z.y && (u.x < z.x) != (v.x < z.x)
    ensures OnSegment(z, u, v)
  {
    var t: real;
    if u.x < v.x {
      t := ProperFraction(z.x - u.x, v.x - u.x);
    } else {
      t := ProperFraction(u.x - z.x, u.x - v.x);
      TurnedProduct(t, u.x - v.x, v.x - u.x);
    }
    assert z == Along(u, v, t);
  }

  lemma LevelShares(u: Pos, v: Pos, a: Pos, b: Pos, s: real)
    requires Unit(s) && OnSegment(Along(a, b, s), u, v)
    ensures SharePoint(u, v, a, b)
  {
    hide Along;
    var t :| Unit(t) && Along(a, b, s) == Along(u, v, t);
    assert Meet(u, v, a, b, t, s);
  }

  ghost predicate Misses(u: Pos, v: Pos, ring: Ring) {
    forall i: nat :: i < |ring| ==> !SharePoint(u, v, ring[i], Prev(ring, i))
  }

  /** The vertex before position `n` of the ring. */
  function Before(ring: Ring, n: nat): Pos
    requires ring != [] && n <= |ring|
  {
    ring[if n == 0 then |ring| - 1 else n - 1]
  }

  /** One more edge of the ring. */
  lemma NextEdge(p: Pos, ring: Ring, n: nat)
    requires 0 < n <= |ring|
    ensures var last := ring[|ring| - 1];
            OddCrossings(p, last, ring[..n])
            == (OddCrossings(p, last, ring[..n - 1]) != Crosses(p, ring[n - 1], Prev(ring, n - 1)))
  {
    hide Crosses, OddCrossings;
    var front := ring[..n - 1];
    assert ring[..n] == front + [ring[n - 1]];
    OneMoreEdge(p, ring[|ring| - 1], front, ring[n - 1]);
  }

  lemma NoEdgesYet(p: Pos, ring: Ring)
    requires ring != []
    ensures !OddCrossings(p, ring[|ring| - 1], ring[..0])
  {
  }

  lemma MissesEdge(u: Pos, v: Pos, ring: Ring, i: nat)
    requires Misses(u, v, ring) && i < |ring|
    ensures !SharePoint(u, v, ring[i], Prev(ring, i))
  {
    hide SharePoint;
  }

  /** Over the first edges of the ring the parity changes exactly when one of the two outermost vertices
      is passed over. */
  lemma {:induction false} PrefixParity(u: Pos, v: Pos, ring: Ring, n: nat)
    requires ring != [] && n <= |ring| && u.y <= v.y && Misses(u, v, ring)
    ensures var last := ring[|ring| - 1];
            (OddCrossings(u, last, ring[..n]) != OddCrossings(v, last, ring[..n]))
            == (Swept(u, v, last) != Swept(u, v, Before(ring, n)))
    decreases n
  {
    hide Crosses, Swept, SharePoint, OddCrossings, Misses;
    if n == 0 {
      NoEdgesYet(u, ring);
      NoEdgesYet(v, ring);
    } else {
      PrefixParity(u, v, ring, n - 1);
      NextEdge(u, ring, n);
      NextEdge(v, ring, n);
      assert Prev(ring, n - 1) == Before(ring, n - 1);
      MissesEdge(u, v, ring, n - 1);
      EdgeParity(u, v, ring[n - 1], Prev(ring, n - 1));
    }
  }

  lemma RisingParity(u: Pos, v: Pos, ring: Ring)
    requires u.y <= v.y && Misses(u, v, ring)
    ensures PointInRing(u, ring) == PointInRing(v, ring)
  {
    hide OddCrossings, Swept, Misses;
    if ring != [] {
      PrefixParity(u, v, ring, |ring|);
      assert ring[..|ring|] == ring;
    }
  }

  /** Both ends of a segment that misses the ring are inside it, or neither is. */
  lemma ParityIsConstant(u: Pos, v: Pos, ring: Ring)
    requires Misses(u, v, ring)
    ensures PointInRing(u, ring) == PointInRing(v, ring)
  {
    hide PointInRing, SharePoint;
    if u.y <= v.y {
      RisingParity(u, v, ring);
    } else {
      forall i: nat | i < |ring|
        ensures !SharePoint(v, u, ring[i], Prev(ring, i))
      {
        if SharePoint(v, u, ring[i], Prev(ring, i)) {
          TurnedShares(u, v, ring[i], Prev(ring, i));
        }
      }
      RisingParity(v, u, ring);
    }
  }

  // ---- overlap ----

  predicate IsEdgePoint(p: Pos, ring: Ring, i: nat, s: real) {
    i < |ring| && Unit(s) && p == Along(ring[i], Prev(ring, i), s)
  }

  ghost predicate OnRing(p: Pos, ring: Ring) {
    exists i: nat, s: real :: IsEdgePoint(p, ring, i, s)
  }

  ghost predicate InsideOrOn(p: Pos, ring: Ring) {
    PointInRing(p, ring) || OnRing(p, ring)
  }

  lemma VertexIsOnRing(ring: Ring, i: nat)
    requires i < |ring|
    ensures OnRing(ring[i], ring)
  {
    Ends(ring[i], Prev(ring, i));
    assert IsEdgePoint(ring[i], ring, i, 0.0);
  }

  /** Edges that share a point make the rings overlap. */
  lemma SharedEdgePoint(a: Ring, b: Ring, i: nat, k: nat)
    requires i < |a| && k < |b| && SharePoint(a[i], Prev(a, i), b[k], Prev(b, k))
    ensures RingsOverlap(a, b)
  {
    hide SegmentsIntersect, SharePoint, PointInRing;
    EitherWayShares(a[i], Prev(a, i), b[k], Prev(b, k));
    IntersectExactlyWhenTheyShareAPoint(Prev(a, i), a[i], Prev(b, k), b[k]);
    assert EdgesMeet(a, b, i, k);
  }

  lemma EitherWayShares(a: Pos, b: Pos, c: Pos, d: Pos)
    requires SharePoint(a, b, c, d)
    ensures SharePoint(b, a, d, c)
  {
    hide SharePoint;
    TurnedShares(b, a, c, d);
    ShareIsSymmetric(b, a, c, d);
    TurnedShares(d, c, b, a);
    ShareIsSymmetric(d, c, b, a);
  }

  lemma OnBothOverlaps(p: Pos, a: Ring, b: Ring)
    requires OnRing(p, a) && OnRing(p, b)
    ensures RingsOverlap(a, b)
  {
    hide RingsOverlap, Along;
    var i: nat, s: real :| IsEdgePoint(p, a, i, s);
    var k: nat, t: real :| IsEdgePoint(p, b, k, t);
    assert Meet(a[i], Prev(a, i), b[k], Prev(b, k), s, t);
    SharedEdgePoint(a, b, i, k);
  }

  /** From a point of one ring that is inside the other, walk along the edge to its end: either the other
      ring is met on the way, or the end is inside it too. */
  lemma OnOneInsideOtherOverlaps(p: Pos, a: Ring, b: Ring)
    requires OnRing(p, a) && PointInRing(p, b)
    ensures RingsOverlap(a, b)
  {
    hide PointInRing, Along, SharePoint, EdgesMeet;
    var i: nat, s: real :| IsEdgePoint(p, a, i, s);
    if Misses(p, a[i], b) {
      ParityIsConstant(p, a[i], b);
      assert a[i] in a;
    } else {
      var k: nat :| k < |b| && SharePoint(p, a[i], b[k], Prev(b, k));
      Ends(a[i], Prev(a, i));
      ShareIsSymmetric(p, a[i], b[k], Prev(b, k));
      PartShares(b[k], Prev(b, k), a[i], Prev(a, i), s, 0.0);
      ShareIsSymmetric(b[k], Prev(b, k), a[i], Prev(a, i));
      SharedEdgePoint(a, b, i, k);
    }
  }

  // ---- a point inside both ----

  predicate CrossesEdge(p: Pos, ring: Ring, i: nat)
    requires i < |ring|
  {
    Crosses(p, ring[i], Prev(ring, i))
  }

  function EdgeCrossing(p: Pos, ring: Ring, i: nat): real
    requires i < |ring| && CrossesEdge(p, ring, i)
  {
    CrossingAt(p, ring[i], Prev(ring, i))
  }

  /** Points of one height that cross the same edges are inside together. */
  lemma {:induction false} SameCrossings(p: Pos, q: Pos, ring: Ring, n: nat)
    requires ring != [] && n <= |ring|
             && forall i: nat :: i < |ring| ==> CrossesEdge(p, ring, i) == CrossesEdge(q, ring, i)
    ensures OddCrossings(p, ring[|ring| - 1], ring[..n]) == OddCrossings(q, ring[|ring| - 1], ring[..n])
    decreases n
  {
    hide Crosses, OddCrossings;
    if n == 0 {
      NoEdgesYet(p, ring);
      NoEdgesYet(q, ring);
    } else {
      SameCrossings(p, q, ring, n - 1);
      NextEdge(p, ring, n);
      NextEdge(q, ring, n);
      assert CrossesEdge(p, ring, n - 1) == CrossesEdge(q, ring, n - 1);
    }
  }

  lemma {:induction false} NoCrossings(p: Pos, ring: Ring, n: nat)
    requires ring != [] && n <= |ring| && forall i: nat :: i < |ring| ==> !CrossesEdge(p, ring, i)
    ensures !OddCrossings(p, ring[|ring| - 1], ring[..n])
    decreases n
  {
    hide Crosses, OddCrossings;
    if n == 0 {
      NoEdgesYet(p, ring);
    } else {
      NoCrossings(p, ring, n - 1);
      NextEdge(p, ring, n);
      assert !CrossesEdge(p, ring, n - 1);
    }
  }

  lemma {:induction false} NearestAmong(p: Pos, ring: Ring, n: nat, some: nat) returns (i: nat)
    requires n <= |ring| && some < |ring| && CrossesEdge(p, ring, some)
    ensures i < |ring| && CrossesEdge(p, ring, i)
    ensures EdgeCrossing(p, ring, i) <= EdgeCrossing(p, ring, some)
    ensures forall j: nat :: j < n && CrossesEdge(p, ring, j) ==> EdgeCrossing(p, ring, i) <= EdgeCrossing(p, ring, j)
    decreases n
  {
    hide Crosses, CrossingAt;
    i := some;
    if n > 0 {
      i := NearestAmong(p, ring, n - 1, some);
      if CrossesEdge(p, ring, n - 1) && EdgeCrossing(p, ring, n - 1) < EdgeCrossing(p, ring, i) {
        i := n - 1;
      }
    }
  }

  /** From inside a ring the ray crosses an edge, and there is a nearest crossing. */
  lemma Nearest(p: Pos, ring: Ring) returns (i: nat)
    requires PointInRing(p, ring)
    ensures i < |ring| && CrossesEdge(p, ring, i)
    ensures forall j: nat :: j < |ring| && CrossesEdge(p, ring, j) ==>
      EdgeCrossing(p, ring, i) <= EdgeCrossing(p, ring, j)
  {
    hide OddCrossings, CrossesEdge;
    assert ring[..|ring|] == ring;
    if forall j: nat :: j < |ring| ==> !CrossesEdge(p, ring, j) {
      NoCrossings(p, ring, |ring|);
    }
    var some: nat :| some < |ring| && CrossesEdge(p, ring, some);
    i := NearestAmong(p, ring, |ring|, some);
  }

  lemma CrossingIsOnRing(p: Pos, ring: Ring, i: nat)
    requires i < |ring| && CrossesEdge(p, ring, i)
    ensures OnRing(Pos(EdgeCrossing(p, ring, i), p.y), ring) && p.x < EdgeCrossing(p, ring, i)
  {
    hide CrossingAt, Along;
    var s := AtHeight(p, ring[i], Prev(ring, i));
    assert IsEdgePoint(Pos(EdgeCrossing(p, ring, i), p.y), ring, i, s);
  }

  /** Up to the nearest crossing of a ring nothing changes for the ring. */
  lemma InsideUpToNearest(p: Pos, q: Pos, ring: Ring)
    requires PointInRing(p, ring) && p.y == q.y && p.x < q.x
    requires forall j: nat :: j < |ring| && CrossesEdge(p, ring, j) ==> q.x < EdgeCrossing(p, ring, j)
    ensures PointInRing(q, ring)
  {
    hide OddCrossings, CrossingAt;
    forall j: nat | j < |ring|
      ensures CrossesEdge(p, ring, j) == CrossesEdge(q, ring, j)
    {
      if Above(ring[j], p) != Above(Prev(ring, j), p) {
        SameHeight(p, q, ring[j], Prev(ring, j));
      }
    }
    hide CrossesEdge;
    SameCrossings(p, q, ring, |ring|);
    assert ring[..|ring|] == ring;
  }

  /** Go right from a point inside both to the first edge: there one ring is met, and the other one too or
      its inside. */
  lemma InsideBothOverlaps(p: Pos, a: Ring, b: Ring)
    requires PointInRing(p, a) && PointInRing(p, b)
    ensures RingsOverlap(a, b)
  {
    hide PointInRing, RingsOverlap, CrossesEdge, EdgeCrossing;
    var i := Nearest(p, a);
    var k := Nearest(p, b);
    CrossingIsOnRing(p, a, i);
    CrossingIsOnRing(p, b, k);
    var x, y := EdgeCrossing(p, a, i), EdgeCrossing(p, b, k);
    if x < y {
      InsideUpToNearest(p, Pos(x, p.y), b);
      OnOneInsideOtherOverlaps(Pos(x, p.y), a, b);
    } else if y < x {
      InsideUpToNearest(p, Pos(y, p.y), a);
      OnOneInsideOtherOverlaps(Pos(y, p.y), b, a);
      OverlapIsSymmetric(a, b);
    } else {
      OnBothOverlaps(Pos(x, p.y), a, b);
    }
  }

  /** The three tests together decide whether the rings share any area or boundary. */
  lemma OverlapExactlyWhenTheyShareAPoint(a: Ring, b: Ring)
    ensures RingsOverlap(a, b) <==> exists p :: InsideOrOn(p, a) && InsideOrOn(p, b)
  {
    hide PointInRing, RingsOverlap, OnRing;
    if RingsOverlap(a, b) {
      OverlapGivesAPoint(a, b);
    }
    if p :| InsideOrOn(p, a) && InsideOrOn(p, b) {
      if OnRing(p, a) && OnRing(p, b) {
        OnBothOverlaps(p, a, b);
      } else if OnRing(p, a) {
        OnOneInsideOtherOverlaps(p, a, b);
      } else if OnRing(p, b) {
        OnOneInsideOtherOverlaps(p, b, a);
        OverlapIsSymmetric(a, b);
      } else {
        InsideBothOverlaps(p, a, b);
      }
    }
  }

  lemma OverlapGivesAPoint(a: Ring, b: Ring)
    requires RingsOverlap(a, b)
    ensures exists p :: InsideOrOn(p, a) && InsideOrOn(p, b)
  {
    hide PointInRing, OnRing, SegmentsIntersect, SharePoint;
    if p :| p in a && PointInRing(p, b) {
      var i :| 0 <= i < |a| && a[i] == p;
      VertexIsOnRing(a, i);
      assert InsideOrOn(p, a) && InsideOrOn(p, b);
    } else if p :| p in b && PointInRing(p, a) {
      var i :| 0 <= i < |b| && b[i] == p;
      VertexIsOnRing(b, i);
      assert InsideOrOn(p, a) && InsideOrOn(p, b);
    } else {
      var i: nat, k: nat :| i < |a| && k < |b| && EdgesMeet(a, b, i, k);
      IntersectExactlyWhenTheyShareAPoint(Prev(a, i), a[i], Prev(b, k), b[k]);
      EitherWayShares(Prev(a, i), a[i], Prev(b, k), b[k]);
      SharedPointIsOnBoth(a, b, i, k);
    }
  }

  lemma SharedPointIsOnBoth(a: Ring, b: Ring, i: nat, k: nat)
    requires i < |a| && k < |b| && SharePoint(a[i], Prev(a, i), b[k], Prev(b, k))
    ensures exists p :: InsideOrOn(p, a) && InsideOrOn(p, b)
  {
    hide PointInRing, Along;
    var s, t :| Meet(a[i], Prev(a, i), b[k], Prev(b, k), s, t);
    var p := Along(a[i], Prev(a, i), s);
    assert IsEdgePoint(p, a, i, s) && IsEdgePoint(p, b, k, t);
    assert InsideOrOn(p, a) && InsideOrOn(p, b);
  }
}
