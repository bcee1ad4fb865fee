/** The integer path of Bresenham's algorithm as `draw_line` walks it. */
module LinePath {
  /** The error term after k steps along the major axis, for major extent a and minor extent b. */
  function Err(a: nat, b: nat, k: nat): int {
    if k == 0 then a / 2
    else
      var e := Err(a, b, k - 1) - b;
      if e < 0 then e + a else e
  }

  /** The number of steps along the minor axis within the first k steps. */
  function Minor(a: nat, b: nat, k: nat): nat {
    if k == 0 then 0
    else Minor(a, b, k - 1) + if Err(a, b, k - 1) - b < 0 then 1 else 0
  }

  lemma MulStep(x: int, y: int)
    ensures (x + 1) * y == x * y + y
  {
  }

  /** The error term measures the distance from the ideal line, and stays within one step. */
  lemma {:induction false} ErrOk(a: nat, b: nat, k: nat)
    requires b <= a
    ensures Err(a, b, k) == a / 2 - k * b + Minor(a, b, k) * a
    ensures 0 <= Err(a, b, k) && (Err(a, b, k) < a || a == 0)
    decreases k
  {
    if k > 0 {
      ErrOk(a, b, k - 1);
      MulStep(k - 1, b);
      MulStep(Minor(a, b, k - 1), a);
    }
  }

  function Abs(x: int): nat {
    if x < 0 then -x else x
  }

  /** The classic bound: the k-th point is at most half a step away from the ideal line. */
  lemma WithinHalf(a: nat, b: nat, k: nat)
    requires b <= a
    ensures 2 * Abs(Minor(a, b, k) * a - k * b) <= a
  {
    ErrOk(a, b, k);
  }

  lemma PositiveMultiple(d: int, a: int)
    requires d >= 1 && a >= 0
    ensures d * a >= a
  {
  }

  lemma NearMultiple(m: int, b: int, a: nat)
    requires a > 0
    ensures 2 * Abs(m * a - a * b) <= a ==> m == b
  {
    assert m * a - a * b == (m - b) * a;
    if m > b { PositiveMultiple(m - b, a); }
    if m < b {
      assert (m - b) * a == -((b - m) * a);
      PositiveMultiple(b - m, a);
    }
  }

  /** After a steps the path has made exactly b minor steps. */
  lemma EndsExactly(a: nat, b: nat)
    requires b <= a
    ensures Minor(a, b, a) == b
  {
    if a > 0 {
      WithinHalf(a, b, a);
      hide Minor;
      NearMultiple(Minor(a, b, a), b, a);
    }
  }

  /** The minor coordinate never runs backwards, so it stays between its end points. */
  lemma {:induction false} MinorMonotone(a: nat, b: nat, j: nat, k: nat)
    requires j <= k
    ensures Minor(a, b, j) <= Minor(a, b, k) <= Minor(a, b, j) + (k - j)
    decreases k
  {
    if j < k { MinorMonotone(a, b, j, k - 1); }
  }

  lemma {:induction false} FlatLine(a: nat, k: nat)
    ensures Minor(a, 0, k) == 0
    decreases k
  {
    if k > 0 {
      FlatLine(a, k - 1);
      ErrOk(a, 0, k - 1);
    }
  }

  // ----- in two dimensions -----

  datatype Point = Point(x: int, y: int)

  function Sign(d: int): int {
    if d < 0 then -1 else if d > 0 then 1 else 0
  }

  /** The number of steps from p to q. */
  function Length(p: Point, q: Point): nat {
    if Abs(q.x - p.x) >= Abs(q.y - p.y) then Abs(q.x - p.x) else Abs(q.y - p.y)
  }

  /** The k-th point that `draw_line` visits on its way from p to q. */
  function At(p: Point, q: Point, k: nat): Point {
    var adx, ady := Abs(q.x - p.x), Abs(q.y - p.y);
    var sx, sy := Sign(q.x - p.x), Sign(q.y - p.y);
    if adx >= ady then Point(p.x + k * sx, p.y + Minor(adx, ady, k) * sy)
    else Point(p.x + Minor(ady, adx, k) * sx, p.y + k * sy)
  }

  /** The path starts at p and ends at q. */
  lemma PathEnds(p: Point, q: Point)
    ensures At(p, q, 0) == p && At(p, q, Length(p, q)) == q
  {
    var adx, ady := Abs(q.x - p.x), Abs(q.y - p.y);
    if adx >= ady { EndsExactly(adx, ady); } else { EndsExactly(ady, adx); }
  }

  /** One turn of the loop leads from one point to the next. */
  lemma NextPoint(p: Point, q: Point, k: nat)
    requires k > 0
    ensures var adx, ady := Abs(q.x - p.x), Abs(q.y - p.y);
            var sx, sy := Sign(q.x - p.x), Sign(q.y - p.y);
            var r := At(p, q, k - 1);
            At(p, q, k) == if adx >= ady then Point(r.x + sx, if Err(adx, ady, k - 1) - ady < 0 then r.y + sy else r.y)
                           else Point(if Err(ady, adx, k - 1) - adx < 0 then r.x + sx else r.x, r.y + sy)
    ensures var adx, ady := Abs(q.x - p.x), Abs(q.y - p.y);
            var a, b := if adx >= ady then adx else ady, if adx >= ady then ady else adx;
            Err(a, b, k) == if Err(a, b, k - 1) - b < 0 then Err(a, b, k - 1) - b + a else Err(a, b, k - 1) - b
  {
  }

  /** The loop's test for the end point along the major axis. */
  lemma EndTest(p: Point, q: Point, k: nat)
    requires k <= Length(p, q)
    ensures k == Length(p, q) <==>
      if Abs(q.x - p.x) >= Abs(q.y - p.y) then At(p, q, k).x == q.x else At(p, q, k).y == q.y
  {
  }

  /** The path stays inside the rectangle spanned by its end points. */
  lemma PathInBox(p: Point, q: Point, k: nat)
    requires k <= Length(p, q)
    ensures p.x <= At(p, q, k).x <= q.x || q.x <= At(p, q, k).x <= p.x
    ensures p.y <= At(p, q, k).y <= q.y || q.y <= At(p, q, k).y <= p.y
  {
    var adx, ady := Abs(q.x - p.x), Abs(q.y - p.y);
    if adx >= ady {
      EndsExactly(adx, ady);
      MinorMonotone(adx, ady, k, adx);
    } else {
      EndsExactly(ady, adx);
      MinorMonotone(ady, adx, k, ady);
    }
  }

  /** Every point of the path is within half a pixel of the ideal line. */
  lemma PathNearLine(p: Point, q: Point, k: nat)
    ensures var adx, ady := Abs(q.x - p.x), Abs(q.y - p.y);
            var r := At(p, q, k);
            if adx >= ady then 2 * Abs(Abs(r.y - p.y) * adx - k * ady) <= adx && Abs(r.x - p.x) == if adx == 0 then 0 else k
            else 2 * Abs(Abs(r.x - p.x) * ady - k * adx) <= ady && Abs(r.y - p.y) == k
  {
    var adx, ady := Abs(q.x - p.x), Abs(q.y - p.y);
    if adx >= ady {
      WithinHalf(adx, ady, k);
      if ady == 0 { FlatLine(adx, k); }
    } else {
      WithinHalf(ady, adx, k);
      if adx == 0 { FlatLine(ady, k); }
    }
  }
}
