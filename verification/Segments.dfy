/** Segment intersection by orientation (web/app.js), over exact reals.

    The proofs keep products between atoms only - a scalar, a coordinate, a determinant - and leave
    everything else linear. */
module Segments {
  import opened Basics

  /** A position, or the difference of two. */
  datatype Pos = Pos(x: real, y: real)

  function Sub(p: Pos, q: Pos): Pos {
    Pos(p.x - q.x, p.y - q.y)
  }

  function Det(u: Pos, v: Pos): real {
    u.x * v.y - u.y * v.x
  }

  /** The cross product (b-a) x (c-a). */
  function Cross(a: Pos, b: Pos, c: Pos): real {
    Det(Sub(b, a), Sub(c, a))
  }

  function Sign(v: real): int {
    if v > 0.0 then 1 else if v < 0.0 then -1 else 0
  }

  function TurnDirection(a: Pos, b: Pos, c: Pos): int {
    Sign(Cross(a, b, c))
  }

  predicate CollinearPointOnSegment(a: Pos, b: Pos, c: Pos) {
    Min(a.x, b.x) <= c.x <= Max(a.x, b.x) && Min(a.y, b.y) <= c.y <= Max(a.y, b.y)
  }

  predicate SegmentsIntersect(a: Pos, b: Pos, c: Pos, d: Pos) {
    var d1 := TurnDirection(a, b, c);
    var d2 := TurnDirection(a, b, d);
    var d3 := TurnDirection(c, d, a);
    var d4 := TurnDirection(c, d, b);
    if d1 != d2 && d3 != d4 then true
    else if d1 == 0 && CollinearPointOnSegment(a, b, c) then true
    else if d2 == 0 && CollinearPointOnSegment(a, b, d) then true
    else if d3 == 0 && CollinearPointOnSegment(c, d, a) then true
    else if d4 == 0 && CollinearPointOnSegment(c, d, b) then true
    else false
  }

  function Scale(s: real, v: Pos): Pos {
    Pos(s * v.x, s * v.y)
  }

  function Add(p: Pos, v: Pos): Pos {
    Pos(p.x + v.x, p.y + v.y)
  }

  /** The point a fraction `s` of the way from `a` to `b`. */
  function Along(a: Pos, b: Pos, s: real): Pos {
    Add(a, Scale(s, Sub(b, a)))
  }

  predicate Unit(s: real) {
    0.0 <= s <= 1.0
  }

  predicate Meet(a: Pos, b: Pos, c: Pos, d: Pos, s: real, t: real) {
    Unit(s) && Unit(t) && Along(a, b, s) == Along(c, d, t)
  }

  /** The two closed segments share a point. */
  ghost predicate SharePoint(a: Pos, b: Pos, c: Pos, d: Pos) {
    exists s, t :: Meet(a, b, c, d, s, t)
  }

  // ---- scalars ----

  lemma ProductSign(x: real, y: real)
    ensures x > 0.0 && y > 0.0 ==> x * y > 0.0
    ensures x < 0.0 && y > 0.0 ==> x * y < 0.0
    ensures x > 0.0 && y < 0.0 ==> x * y < 0.0
    ensures x < 0.0 && y < 0.0 ==> x * y > 0.0
    ensures x == 0.0 ==> x * y == 0.0
  {
  }

  lemma Cancel(p: real, q: real, k: real)
    requires p * k == q * k && k != 0.0
    ensures p == q
  {
    ProductSign(p - q, k);
  }

  lemma Quotient(n: real, k: real) returns (r: real)
    requires k != 0.0
    ensures r * k == n
  {
    r := n / k;
  }

  lemma ProperFraction(n: real, k: real) returns (r: real)
    requires 0.0 <= n <= k && k > 0.0
    ensures Unit(r) && r * k == n
  {
    r := Quotient(n, k);
    ProductSign(r, k);
    ProductSign(r - 1.0, k);
  }

  lemma ProductOfDifference(r: real, x: real, y: real, k: real)
    requires k == x - y
    ensures r * k == r * x - r * y
  {
  }

  lemma ProductPastOne(t: real, x: real, e: real)
    requires e == x - 1.0
    ensures t * e == t * x - t
  {
  }

  lemma ComplementaryShares(t: real, p: real, e: real)
    requires e == 1.0 - t
    ensures e * p == p - t * p
  {
  }

  lemma TurnedProduct(r: real, k: real, l: real)
    requires l == -k
    ensures r * l == -(r * k)
  {
  }

  /** Going from `p` by `k` to a number of another sign passes zero on the way. */
  lemma SignChange(p: real, k: real) returns (t: real)
    requires Sign(p) != Sign(p + k)
    ensures k != 0.0 && Unit(t) && p + t * k == 0.0
  {
    if p <= 0.0 && p + k >= 0.0 {
      t := ProperFraction(-p, k);
    } else {
      t := ProperFraction(p, -k);
      TurnedProduct(t, k, -k);
    }
  }

  lemma SpanHolds(a: real, k: real, s: real)
    requires Unit(s)
    ensures Min(a, a + k) <= a + s * k <= Max(a, a + k)
  {
    ProductSign(s, k);
    ProductSign(1.0 - s, k);
    assert (1.0 - s) * k == k - s * k;
  }

  lemma SpanBounds(a: real, k: real, p: real)
    requires k != 0.0 && Min(a, a + k) <= a + p * k <= Max(a, a + k)
    ensures Unit(p)
  {
    ProductSign(p, k);
    ProductSign(p - 1.0, k);
    assert (p - 1.0) * k == p * k - k;
  }

  lemma MixIsPositive(p: real, q: real, t: real)
    requires Unit(t) && p > 0.0 && q > 0.0
    ensures p + t * (q - p) > 0.0
  {
    var e, k := 1.0 - t, q - p;
    ProductSign(e, p);
    ProductSign(t, q);
    ProductOfDifference(t, q, p, k);
    ComplementaryShares(t, p, e);
  }

  lemma MixIsNegative(p: real, q: real, t: real)
    requires Unit(t) && p < 0.0 && q < 0.0
    ensures p + t * (q - p) < 0.0
  {
    var e, k := 1.0 - t, q - p;
    ProductSign(e, p);
    ProductSign(t, q);
    ProductOfDifference(t, q, p, k);
    ComplementaryShares(t, p, e);
  }

  lemma MixIsAboveOne(p: real, q: real, t: real)
    requires Unit(t) && p > 1.0 && q > 1.0
    ensures p + t * (q - p) > 1.0
  {
    var e, f := p - 1.0, q - 1.0;
    MixIsPositive(e, f, t);
    ProductPastOne(t, p, e);
    ProductPastOne(t, q, f);
  }

  lemma ZeroBetween(p: real, q: real) returns (r: real)
    requires p < 0.0 < q || q < 0.0 < p
    ensures Unit(r) && p + r * (q - p) == 0.0
  {
    if p < q {
      var k := q - p;
      r := ProperFraction(-p, k);
      ProductOfDifference(r, q, p, k);
    } else {
      var k := p - q;
      r := ProperFraction(p, k);
      ProductOfDifference(r, p, q, k);
    }
  }

  /** Two numbers outside the unit interval with a mixture of them inside lie on either side of it. */
  lemma Straddle(p: real, q: real, t: real) returns (r: real)
    requires Unit(t) && Unit(p + t * (q - p)) && !Unit(p) && !Unit(q)
    ensures Unit(r) && p + r * (q - p) == 0.0
  {
    if p < 0.0 && q < 0.0 { MixIsNegative(p, q, t); }
    if p > 1.0 && q > 1.0 { MixIsAboveOne(p, q, t); }
    r := ZeroBetween(p, q);
  }

  // ---- determinants ----

  lemma DetRules(u: Pos, v: Pos, w: Pos, t: real)
    ensures Det(u, u) == 0.0
    ensures Det(v, u) == -Det(u, v)
    ensures Det(u, Add(v, Scale(t, w))) == Det(u, v) + t * Det(u, w)
    ensures Det(u, Scale(t, w)) == t * Det(u, w)
    ensures Det(u, Sub(v, w)) == Det(u, v) - Det(u, w)
  {
    DetOfSum(u, v, Scale(t, w));
    DetOfScaled(u, w, t);
  }

  lemma DetOfSum(u: Pos, v: Pos, w: Pos)
    ensures Det(u, Add(v, w)) == Det(u, v) + Det(u, w)
  {
    assert u.x * (v.y + w.y) == u.x * v.y + u.x * w.y;
    assert u.y * (v.x + w.x) == u.y * v.x + u.y * w.x;
  }

  lemma DetOfScaled(u: Pos, w: Pos, t: real)
    ensures Det(u, Scale(t, w)) == t * Det(u, w)
  {
    assert u.x * (t * w.y) - u.y * (t * w.x) == t * (u.x * w.y - u.y * w.x);
  }

  /** The turns at the two ends of the second segment differ by the determinant of the directions,
      and so do those at the ends of the first. */
  lemma TurnsDiffer(a: Pos, b: Pos, c: Pos, d: Pos)
    ensures var u, v, w := Sub(b, a), Sub(d, c), Sub(c, a);
            && Cross(a, b, c) == Det(u, w)
            && Cross(a, b, d) == Det(u, w) + Det(u, v)
            && Cross(c, d, a) == Det(w, v)
            && Cross(c, d, b) == Det(w, v) + Det(v, u)
  {
    hide Det;
    var u, v, w := Sub(b, a), Sub(d, c), Sub(c, a);
    assert Sub(d, a) == Add(w, v) && Sub(a, c) == Minus(w) && Sub(b, c) == Add(Minus(w), u);
    DetOfSum(u, w, v);
    DetOfSum(v, Minus(w), u);
    DetTurned(v, w);
  }

  function Minus(v: Pos): Pos {
    Pos(-v.x, -v.y)
  }

  lemma DetTurned(v: Pos, w: Pos)
    ensures Det(v, Minus(w)) == Det(w, v)
  {
  }

  /** The vector equation s*u == w + t*v, solved. */
  lemma Cramer(u: Pos, v: Pos, w: Pos, s: real, t: real)
    requires Det(u, v) != 0.0
    requires Det(u, w) + t * Det(u, v) == 0.0 && Det(w, v) + s * Det(v, u) == 0.0
    ensures Scale(s, u) == Add(w, Scale(t, v))
  {
    var gap := Sub(Scale(s, u), Add(w, Scale(t, v)));
    OrthogonalToBoth(u, v, w, s, t);
    ZeroWhenOrthogonal(u, v, gap);
  }

  lemma OrthogonalToBoth(u: Pos, v: Pos, w: Pos, s: real, t: real)
    requires Det(u, w) + t * Det(u, v) == 0.0 && Det(w, v) + s * Det(v, u) == 0.0
    ensures var gap := Sub(Scale(s, u), Add(w, Scale(t, v))); Det(u, gap) == 0.0 && Det(v, gap) == 0.0
  {
    hide Det;
    DetRules(u, Scale(s, u), Add(w, Scale(t, v)), 0.0);
    DetRules(u, w, v, t);
    DetRules(u, u, u, s);
    DetRules(v, Scale(s, u), Add(w, Scale(t, v)), 0.0);
    DetRules(v, w, v, t);
    DetRules(v, u, u, s);
    DetRules(v, w, w, 0.0);
  }

  lemma ZeroWhenOrthogonal(u: Pos, v: Pos, z: Pos)
    requires Det(u, v) != 0.0 && Det(u, z) == 0.0 && Det(v, z) == 0.0
    ensures z == Pos(0.0, 0.0)
  {
    assert z.x * Det(u, v) == 0.0 by {
      assert z.x * (u.x * v.y - u.y * v.x) == u.x * (v.y * z.x - v.x * z.y) + v.x * (u.x * z.y - u.y * z.x);
    }
    assert z.y * Det(u, v) == 0.0 by {
      assert z.y * (u.x * v.y - u.y * v.x) == u.y * (v.y * z.x - v.x * z.y) + v.y * (u.x * z.y - u.y * z.x);
    }
    Cancel(z.x, 0.0, Det(u, v));
    Cancel(z.y, 0.0, Det(u, v));
  }

  /** Two parallel directions are multiples. */
  lemma Parallel(u: Pos, w: Pos) returns (p: real)
    requires u != Pos(0.0, 0.0) && Det(u, w) == 0.0
    ensures w == Scale(p, u)
  {
    if u.x != 0.0 {
      p := Quotient(w.x, u.x);
      assert (p * u.y) * u.x == w.y * u.x by { assert (p * u.y) * u.x == (p * u.x) * u.y; }
      Cancel(p * u.y, w.y, u.x);
    } else {
      p := Quotient(w.y, u.y);
      assert w.x * u.y == 0.0;
      Cancel(w.x, 0.0, u.y);
    }
  }

  // ---- points on a segment ----

  lemma AlongInBox(a: Pos, b: Pos, s: real)
    requires Unit(s)
    ensures CollinearPointOnSegment(a, b, Along(a, b, s))
  {
    SpanHolds(a.x, Sub(b, a).x, s);
    SpanHolds(a.y, Sub(b, a).y, s);
  }

  lemma InBoxMeansFraction(a: Pos, b: Pos, p: real)
    requires a != b && CollinearPointOnSegment(a, b, Along(a, b, p))
    ensures Unit(p)
  {
    if Sub(b, a).x != 0.0 {
      SpanBounds(a.x, Sub(b, a).x, p);
    } else {
      SpanBounds(a.y, Sub(b, a).y, p);
    }
  }

  lemma AlongIsCollinear(a: Pos, b: Pos, s: real)
    ensures Cross(a, b, Along(a, b, s)) == 0.0
  {
    hide Det;
    var u := Sub(b, a);
    DetRules(u, u, u, s);
    assert Sub(Along(a, b, s), a) == Scale(s, u);
  }

  /** A point of the line through two distinct points is some fraction along it, and is in their box
      exactly when the fraction is proper. */
  lemma OnLine(a: Pos, b: Pos, c: Pos) returns (p: real)
    requires a != b && Cross(a, b, c) == 0.0
    ensures Sub(c, a) == Scale(p, Sub(b, a)) && c == Along(a, b, p)
    ensures CollinearPointOnSegment(a, b, c) <==> Unit(p)
  {
    hide Det, CollinearPointOnSegment;
    assert Sub(b, a) != Pos(0.0, 0.0);
    p := Parallel(Sub(b, a), Sub(c, a));
    if Unit(p) { AlongInBox(a, b, p); }
    if CollinearPointOnSegment(a, b, c) { InBoxMeansFraction(a, b, p); }
  }

  /** An end point collinear with a segment and in its box lies on it. */
  lemma EndPointOn(a: Pos, b: Pos, c: Pos) returns (s: real)
    requires Cross(a, b, c) == 0.0 && CollinearPointOnSegment(a, b, c)
    ensures Unit(s) && c == Along(a, b, s)
  {
    if a == b {
      s := 0.0;
    } else {
      s := OnLine(a, b, c);
    }
  }

  lemma Ends(a: Pos, b: Pos)
    ensures Along(a, b, 0.0) == a && Along(a, b, 1.0) == b
  {
  }

  // ---- from the tests to a common point ----

  lemma ProperCrossing(a: Pos, b: Pos, c: Pos, d: Pos)
    requires TurnDirection(a, b, c) != TurnDirection(a, b, d)
    requires TurnDirection(c, d, a) != TurnDirection(c, d, b)
    ensures SharePoint(a, b, c, d)
  {
    hide Det, Cross, Scale;
    var u, v, w := Sub(b, a), Sub(d, c), Sub(c, a);
    TurnsDiffer(a, b, c, d);
    var t := SignChange(Det(u, w), Det(u, v));
    var s := SignChange(Det(w, v), Det(v, u));
    Cramer(u, v, w, s, t);
    assert Along(a, b, s) == Along(c, d, t);
    assert Meet(a, b, c, d, s, t);
  }

  lemma TestsGiveAPoint(a: Pos, b: Pos, c: Pos, d: Pos)
    requires SegmentsIntersect(a, b, c, d)
    ensures SharePoint(a, b, c, d)
  {
    hide Cross, CollinearPointOnSegment, Along;
    Ends(a, b);
    Ends(c, d);
    if TurnDirection(a, b, c) != TurnDirection(a, b, d) && TurnDirection(c, d, a) != TurnDirection(c, d, b) {
      ProperCrossing(a, b, c, d);
    } else if TurnDirection(a, b, c) == 0 && CollinearPointOnSegment(a, b, c) {
      var s := EndPointOn(a, b, c);
      assert Meet(a, b, c, d, s, 0.0);
    } else if TurnDirection(a, b, d) == 0 && CollinearPointOnSegment(a, b, d) {
      var s := EndPointOn(a, b, d);
      assert Meet(a, b, c, d, s, 1.0);
    } else if TurnDirection(c, d, a) == 0 && CollinearPointOnSegment(c, d, a) {
      var t := EndPointOn(c, d, a);
      assert Meet(a, b, c, d, 0.0, t);
    } else {
      var t := EndPointOn(c, d, b);
      assert Meet(a, b, c, d, 1.0, t);
    }
  }

  // ---- from a common point to the tests ----

  /** If the line through `a` and `b` passes through the other segment, then `c` and `d` turn
      differently or both lie on the line. */
  lemma SidesOfACrossedLine(a: Pos, b: Pos, c: Pos, d: Pos, s: real, t: real)
    requires Meet(a, b, c, d, s, t)
    ensures TurnDirection(a, b, c) == TurnDirection(a, b, d) ==> Cross(a, b, c) == 0.0 && Cross(a, b, d) == 0.0
  {
    hide Det, Scale;
    var u, v, w := Sub(b, a), Sub(d, c), Sub(c, a);
    TurnsDiffer(a, b, c, d);
    AlongIsCollinear(a, b, s);
    assert Sub(Along(c, d, t), a) == Add(w, Scale(t, v));
    DetRules(u, w, v, t);
    var p, q := Det(u, w), Det(u, w) + Det(u, v);
    if p > 0.0 && q > 0.0 { MixIsPositive(p, q, t); }
    if p < 0.0 && q < 0.0 { MixIsNegative(p, q, t); }
  }

  lemma MixOfFractions(k: real, v: real, p: real, q: real, s: real, t: real)
    requires k != 0.0 && v == q * k - p * k && s * k == p * k + t * v
    ensures s == p + t * (q - p)
  {
    assert t * v == t * (q - p) * k;
    Cancel(s, p + t * (q - p), k);
  }

  lemma BackToStart(k: real, v: real, p: real, q: real, r: real)
    requires v == q * k - p * k && p + r * (q - p) == 0.0
    ensures p * k + r * v == 0.0
  {
    assert r * v == (r * (q - p)) * k;
    assert (p + r * (q - p)) * k == p * k + (r * (q - p)) * k;
  }

  /** Four collinear points whose segments share a point: some end point lies in the other box. */
  lemma CollinearOverlap(a: Pos, b: Pos, c: Pos, d: Pos, s: real, t: real)
    requires a != b && Meet(a, b, c, d, s, t) && Cross(a, b, c) == 0.0 && Cross(a, b, d) == 0.0
    ensures || CollinearPointOnSegment(a, b, c)
            || CollinearPointOnSegment(a, b, d)
            || (Cross(c, d, a) == 0.0 && CollinearPointOnSegment(c, d, a))
  {
    hide Det, Cross, CollinearPointOnSegment;
    var u, v := Sub(b, a), Sub(d, c);
    var p := OnLine(a, b, c);
    var q := OnLine(a, b, d);
    if !Unit(p) && !Unit(q) {
      if u.x != 0.0 {
        MixOfFractions(u.x, v.x, p, q, s, t);
      } else {
        MixOfFractions(u.y, v.y, p, q, s, t);
      }
      var r := Straddle(p, q, t);
      BackToStart(u.x, v.x, p, q, r);
      BackToStart(u.y, v.y, p, q, r);
      assert a == Along(c, d, r);
      AlongIsCollinear(c, d, r);
      AlongInBox(c, d, r);
    }
  }

  /** A segment of one point that lies on the other. */
  lemma PointOverlap(a: Pos, c: Pos, d: Pos, s: real, t: real)
    requires Meet(a, a, c, d, s, t)
    ensures Cross(c, d, a) == 0.0 && CollinearPointOnSegment(c, d, a)
  {
    hide Det, Cross, CollinearPointOnSegment;
    assert Along(a, a, s) == a;
    AlongIsCollinear(c, d, t);
    AlongInBox(c, d, t);
  }

  lemma PointGivesTests(a: Pos, b: Pos, c: Pos, d: Pos, s: real, t: real)
    requires Meet(a, b, c, d, s, t)
    ensures SegmentsIntersect(a, b, c, d)
  {
    hide Det, CollinearPointOnSegment, Along, Cross;
    SidesOfACrossedLine(a, b, c, d, s, t);
    SidesOfACrossedLine(c, d, a, b, t, s);
    TurnsDiffer(a, b, c, d);
    DetRules(Sub(b, a), Sub(d, c), Sub(d, c), 0.0);
    if TurnDirection(a, b, c) == TurnDirection(a, b, d) {
      if a == b {
        PointOverlap(a, c, d, s, t);
      } else {
        CollinearOverlap(a, b, c, d, s, t);
      }
    }
  }

  /** The orientation tests decide exactly whether the two closed segments share a point, with
      touching, collinear and degenerate segments included. */
  lemma IntersectExactlyWhenTheyShareAPoint(a: Pos, b: Pos, c: Pos, d: Pos)
    ensures SegmentsIntersect(a, b, c, d) <==> SharePoint(a, b, c, d)
  {
    hide SegmentsIntersect;
    if SegmentsIntersect(a, b, c, d) {
      TestsGiveAPoint(a, b, c, d);
    }
    if SharePoint(a, b, c, d) {
      var s, t :| Meet(a, b, c, d, s, t);
      PointGivesTests(a, b, c, d, s, t);
    }
  }
}
