/** gfx/primitives.c on a framebuffer of pixels. */
module Pixels {
  import opened Words
  import opened LinePath

  /** The framebuffer's geometry.  `depth` is its bits per pixel. */
  datatype Mode = Mode(width: nat, height: nat, depth: nat)
  {
    /** What a pixel keeps of a packed colour. */
    function Kept(c: Word): Word {
      if depth == 24 then c % 0x100_0000 else if depth == 16 then c % 0x1_0000 else c
    }

    predicate Supported() {
      depth == 32 || depth == 24 || depth == 16
    }

    predicate On(x: int, y: int) {
      0 <= x < width && 0 <= y < height
    }
  }

  function Pow2(n: nat): nat {
    if n == 0 then 1 else 2 * Pow2(n - 1)
  }

  lemma PowersOfTwo()
    ensures Pow2(16) == 0x1_0000 && Pow2(24) == 0x100_0000 && Pow2(32) == TWO_TO_32
  {
    assert Pow2(8) == 0x100;
    assert Pow2(16) == 0x1_0000;
  }

  /** A pixel keeps as many low bits of the colour as the mode has bits per pixel. */
  lemma KeptBits(mode: Mode, c: Word)
    requires mode.Supported()
    ensures Pow2(mode.depth) > 0 && mode.Kept(c) == c % Pow2(mode.depth)
  {
    PowersOfTwo();
  }

  /** Column by column, the stored pixel values. */
  type Image = seq<seq<Word>>

  ghost predicate Fits(img: Image, mode: Mode) {
    && |img| == mode.width
    && (forall x | 0 <= x < mode.width :: |img[x]| == mode.height)
  }

  /** Every stored value fits the depth, as anything read from the framebuffer does. */
  ghost predicate InDepth(img: Image, mode: Mode)
    requires Fits(img, mode)
  {
    forall x, y | mode.On(x, y) :: img[x][y] == mode.Kept(img[x][y])
  }

  /** What a pixel holds after `points` have been painted in colour c. */
  ghost function Painted(was: Word, p: Point, mode: Mode, points: set<Point>, c: Word): Word {
    if p in points && mode.Supported() then mode.Kept(c) else was
  }

  /** The image after `points` have been painted in colour c; points off the screen are ignored. */
  ghost function Paint(img: Image, mode: Mode, points: set<Point>, c: Word): (r: Image)
    requires Fits(img, mode)
    ensures Fits(r, mode)
  {
    seq(|img|, x requires 0 <= x < |img| => seq(|img[x]|, y requires 0 <= y < |img[x]| =>
      Painted(img[x][y], Point(x, y), mode, points, c)))
  }

  lemma SameImage(a: Image, b: Image, mode: Mode)
    requires Fits(a, mode) && Fits(b, mode)
    requires forall x, y | mode.On(x, y) :: a[x][y] == b[x][y]
    ensures a == b
  {
    forall x | 0 <= x < mode.width ensures a[x] == b[x] {
      forall y | 0 <= y < mode.height ensures a[x][y] == b[x][y] {
        assert mode.On(x, y);
      }
    }
  }

  /** Only points on the screen matter. */
  lemma SamePaint(img: Image, mode: Mode, a: set<Point>, b: set<Point>, c: Word)
    requires Fits(img, mode)
    requires forall p: Point | mode.On(p.x, p.y) :: p in a <==> p in b
    ensures Paint(img, mode, a, c) == Paint(img, mode, b, c)
  {
    SameImage(Paint(img, mode, a, c), Paint(img, mode, b, c), mode);
  }

  /** Painting twice in the same colour paints the union. */
  lemma PaintTwice(img: Image, mode: Mode, a: set<Point>, b: set<Point>, c: Word)
    requires Fits(img, mode)
    ensures Paint(Paint(img, mode, a, c), mode, b, c) == Paint(img, mode, a + b, c)
  {
    SameImage(Paint(Paint(img, mode, a, c), mode, b, c), Paint(img, mode, a + b, c), mode);
  }

  lemma PaintNothing(img: Image, mode: Mode, points: set<Point>, c: Word)
    requires Fits(img, mode)
    requires forall p | p in points :: !mode.On(p.x, p.y)
    ensures Paint(img, mode, points, c) == img
  {
    SameImage(Paint(img, mode, points, c), img, mode);
  }

  // ----- which pixels the primitives paint -----

  /** The first n points of the path from p to q. */
  ghost function LinePoints(p: Point, q: Point, n: nat): set<Point> {
    set k | 0 <= k < n :: At(p, q, k)
  }

  /** How many points `draw_line` has plotted when it stops, given that it has plotted k: it
      stops behind the end point or in front of the first point that is off the screen. */
  ghost function Stop(mode: Mode, p: Point, q: Point, k: nat): (n: nat)
    requires k <= Length(p, q) + 1
    ensures k <= n <= Length(p, q) + 1
    decreases Length(p, q) + 1 - k
  {
    if k <= Length(p, q) && mode.On(At(p, q, k).x, At(p, q, k).y) then Stop(mode, p, q, k + 1) else k
  }

  /** The points before the stop are on the screen, and the one at it is not. */
  lemma {:induction false} StopOk(mode: Mode, p: Point, q: Point, k: nat)
    requires k <= Length(p, q) + 1
    ensures var n := Stop(mode, p, q, k);
            && (forall j | k <= j < n :: mode.On(At(p, q, j).x, At(p, q, j).y))
            && (n <= Length(p, q) ==> !mode.On(At(p, q, n).x, At(p, q, n).y))
    decreases Length(p, q) + 1 - k
  {
    hide At, Length;
    if k <= Length(p, q) && mode.On(At(p, q, k).x, At(p, q, k).y) { StopOk(mode, p, q, k + 1); }
  }

  lemma StopStep(mode: Mode, p: Point, q: Point, k: nat)
    requires k <= Length(p, q) && mode.On(At(p, q, k).x, At(p, q, k).y)
    ensures Stop(mode, p, q, k) == Stop(mode, p, q, k + 1)
  {
  }

  lemma StopHere(mode: Mode, p: Point, q: Point, k: nat)
    requires k == Length(p, q) + 1 || (k <= Length(p, q) && !mode.On(At(p, q, k).x, At(p, q, k).y))
    ensures Stop(mode, p, q, k) == k
  {
  }

  /** The pixels of a line. */
  ghost function Line(mode: Mode, p: Point, q: Point): set<Point> {
    LinePoints(p, q, Stop(mode, p, q, 0))
  }

  /** If both end points are on the screen the whole path is drawn, and the last pixel is q. */
  lemma OnScreenLineIsComplete(mode: Mode, p: Point, q: Point)
    requires mode.On(p.x, p.y) && mode.On(q.x, q.y)
    ensures Stop(mode, p, q, 0) == Length(p, q) + 1
    ensures p in Line(mode, p, q) && q in Line(mode, p, q)
  {
    var n := Stop(mode, p, q, 0);
    StopOk(mode, p, q, 0);
    if n <= Length(p, q) {
      PathInBox(p, q, n);
    }
    PathEnds(p, q);
    hide At;
    assert At(p, q, 0) in LinePoints(p, q, n) && At(p, q, Length(p, q)) in LinePoints(p, q, n);
  }

  /** The filled rectangle [x, x2) x [y, y2). */
  ghost function Box(x: int, y: int, x2: int, y2: int): set<Point> {
    set u, v | x <= u < x2 && y <= v < y2 :: Point(u, v)
  }

  /** The hollow rectangle whose sides run through x, x2, y and y2. */
  ghost function Border(x: int, y: int, x2: int, y2: int): set<Point> {
    set u, v | x <= u <= x2 && y <= v <= y2 && (u == x || u == x2 || v == y || v == y2) :: Point(u, v)
  }

  lemma HorizontalLine(mode: Mode, p: Point, q: Point)
    requires mode.On(p.x, p.y) && mode.On(q.x, q.y) && p.y == q.y
    ensures forall r: Point :: r in Line(mode, p, q) <==> r.y == p.y && (p.x <= r.x <= q.x || q.x <= r.x <= p.x)
  {
    OnScreenLineIsComplete(mode, p, q);
    var n := Length(p, q);
    forall k: nat ensures At(p, q, k) == Point(p.x + k * Sign(q.x - p.x), p.y) {
      FlatLine(n, k);
    }
    forall r: Point | r.y == p.y && (p.x <= r.x <= q.x || q.x <= r.x <= p.x) ensures r in Line(mode, p, q) {
      assert At(p, q, Abs(r.x - p.x)) == r;
    }
  }

  lemma VerticalLine(mode: Mode, p: Point, q: Point)
    requires mode.On(p.x, p.y) && mode.On(q.x, q.y) && p.x == q.x
    ensures forall r: Point :: r in Line(mode, p, q) <==> r.x == p.x && (p.y <= r.y <= q.y || q.y <= r.y <= p.y)
  {
    OnScreenLineIsComplete(mode, p, q);
    var n := Length(p, q);
    forall k: nat ensures At(p, q, k) == Point(p.x, p.y + k * Sign(q.y - p.y)) {
      FlatLine(n, k);
    }
    forall r: Point | r.x == p.x && (p.y <= r.y <= q.y || q.y <= r.y <= p.y) ensures r in Line(mode, p, q) {
      assert At(p, q, Abs(r.y - p.y)) == r;
    }
  }

  /** The pixels of a hollow rectangle with opposite corners p and q, drawn as four lines. */
  ghost function FourSides(mode: Mode, p: Point, q: Point): set<Point> {
    Line(mode, p, Point(q.x, p.y)) + Line(mode, Point(q.x, p.y), q)
    + Line(mode, q, Point(p.x, q.y)) + Line(mode, Point(p.x, q.y), p)
  }

  /** On the screen the four lines are exactly the border, its far row and column included. */
  lemma FourSidesAreTheBorder(mode: Mode, p: Point, q: Point)
    requires 0 <= p.x <= q.x < mode.width && 0 <= p.y <= q.y < mode.height
    ensures FourSides(mode, p, q) == Border(p.x, p.y, q.x, q.y)
  {
    hide Line;
    HorizontalLine(mode, p, Point(q.x, p.y));
    VerticalLine(mode, Point(q.x, p.y), q);
    HorizontalLine(mode, q, Point(p.x, q.y));
    VerticalLine(mode, Point(p.x, q.y), p);
    forall r: Point ensures r in FourSides(mode, p, q) <==> r in Border(p.x, p.y, q.x, q.y) {
      assert r == Point(r.x, r.y);
    }
  }

  lemma LineInBox(mode: Mode, p: Point, q: Point, lo: Point, hi: Point)
    requires lo.x <= p.x <= hi.x && lo.x <= q.x <= hi.x && lo.y <= p.y <= hi.y && lo.y <= q.y <= hi.y
    ensures forall r: Point :: r in Line(mode, p, q) ==> lo.x <= r.x <= hi.x && lo.y <= r.y <= hi.y
  {
    hide At, Length, Stop;
    forall k | 0 <= k < Stop(mode, p, q, 0)
      ensures lo.x <= At(p, q, k).x <= hi.x && lo.y <= At(p, q, k).y <= hi.y
    {
      PathInBox(p, q, k);
    }
  }

  /** Wherever the screen ends, the four lines stay within the rectangle. */
  lemma FourSidesInBox(mode: Mode, p: Point, q: Point)
    requires p.x <= q.x && p.y <= q.y
    ensures forall r: Point :: r in FourSides(mode, p, q) ==> p.x <= r.x <= q.x && p.y <= r.y <= q.y
  {
    hide Line;
    LineInBox(mode, p, Point(q.x, p.y), p, q);
    LineInBox(mode, Point(q.x, p.y), q, p, q);
    LineInBox(mode, q, Point(p.x, q.y), p, q);
    LineInBox(mode, Point(p.x, q.y), p, p, q);
  }

  // ----- the framebuffer -----

  type Int32 = x: int | -0x8000_0000 <= x < 0x8000_0000

  /** The `int32_t` with the bits of x. */
  function ToInt32(x: Word): (r: Int32)
    ensures (r - x) % TWO_TO_32 == 0
  {
    if x < 0x8000_0000 then x else x - TWO_TO_32
  }

  /** The differences that `draw_line` forms, and their negations, fit an `int32_t`. */
  predicate NoOverflow(x0: Word, y0: Word, x1: Word, y1: Word) {
    && Abs(ToInt32(x1) - ToInt32(x0)) < 0x8000_0000
    && Abs(ToInt32(y1) - ToInt32(y0)) < 0x8000_0000
  }

  predicate FitsInt32(x: int) {
    -0x8000_0000 <= x < 0x8000_0000
  }

  /** What `draw_line` demands of its callers, in terms of dx, adx, dy and ady; a line from column 0 to
      column 0x80000000 does not meet it. */
  lemma NoOverflowExactly(x0: Word, y0: Word, x1: Word, y1: Word)
    ensures var dx, dy := ToInt32(x1) - ToInt32(x0), ToInt32(y1) - ToInt32(y0);
            NoOverflow(x0, y0, x1, y1) <==> FitsInt32(dx) && FitsInt32(Abs(dx)) && FitsInt32(dy) && FitsInt32(Abs(dy))
    ensures FitsInt32(ToInt32(0x8000_0000) - ToInt32(0)) && !NoOverflow(0, 0, 0x8000_0000, 0)
  {
  }

  predicate RectNoOverflow(x: Word, y: Word, w: Word, h: Word) {
    NoOverflow(x, y, Wrap(x + w), Wrap(y + h))
  }

  function Corner(x: Word, y: Word): Point {
    Point(ToInt32(x), ToInt32(y))
  }

  lemma FourSpans(x: Word, y: Word, w: Word, h: Word)
    requires RectNoOverflow(x, y, w, h)
    ensures var x2, y2 := Wrap(x + w), Wrap(y + h);
            var p, q := Corner(x, y), Corner(x2, y2);
            && NoOverflow(x, y, x2, y) && NoOverflow(x2, y, x2, y2)
            && NoOverflow(x2, y2, x, y2) && NoOverflow(x, y2, x, y)
            && Corner(x2, y) == Point(q.x, p.y) && Corner(x, y2) == Point(p.x, q.y)
  {
  }

  lemma StartOfLine(mode: Mode, img: Image, p: Point, q: Point, c: Word)
    requires Fits(img, mode)
    ensures var adx, ady := Abs(q.x - p.x), Abs(q.y - p.y);
            && At(p, q, 0) == p && Length(p, q) == (if adx >= ady then adx else ady)
            && Err(adx, ady, 0) == adx / 2 && Err(ady, adx, 0) == ady / 2
    ensures Paint(img, mode, LinePoints(p, q, 0), c) == img
  {
    PathEnds(p, q);
    PaintNothing(img, mode, LinePoints(p, q, 0), c);
  }

  class Screen {
    const mode: Mode
    const px: array2<Word>
    ghost var img: Image

    ghost predicate Valid()
      reads this, px
    {
      && px.Length0 == mode.width && px.Length1 == mode.height && Fits(img, mode)
      && mode.width < 0x8000_0000 && mode.height < 0x8000_0000
      && InDepth(img, mode)
      && forall x, y | mode.On(x, y) :: img[x][y] == px[x, y]
    }

    constructor (m: Mode, pixels: array2<Word>)
      requires pixels.Length0 == m.width < 0x8000_0000 && pixels.Length1 == m.height < 0x8000_0000
      requires forall x, y | m.On(x, y) :: pixels[x, y] == m.Kept(pixels[x, y])
      ensures Valid() && mode == m && px == pixels
    {
      mode := m;
      px := pixels;
      img := seq(m.width, x requires 0 <= x < pixels.Length0 reads pixels =>
        seq(m.height, y requires 0 <= y < pixels.Length1 reads pixels => pixels[x, y]));
    }

    lemma ScreenFits()
      requires Valid()
      ensures Fits(img, mode) && mode.width < 0x8000_0000 && mode.height < 0x8000_0000
    {
    }

    /** One store through the `switch` on the depth. */
    method Store(x: nat, y: nat, c: Word)
      requires Valid() && mode.On(x, y)
      modifies px, this`img
      ensures Valid() && img == Paint(old(img), mode, {Point(x, y)}, c)
    {
      if mode.depth == 32 {
        px[x, y] := c;
      } else if mode.depth == 24 {
        px[x, y] := c % 0x100_0000;
      } else if mode.depth == 16 {
        px[x, y] := c % 0x1_0000;
      }
      img := Paint(img, mode, {Point(x, y)}, c);
    }

    /** `put_pixel` */
    method PutPixel(x: Word, y: Word, c: Word)
      requires Valid()
      modifies px, this`img
      ensures Valid() && img == Paint(old(img), mode, {Point(x, y)}, c)
    {
      if x >= mode.width || y >= mode.height {
        PaintNothing(img, mode, {Point(x, y)}, c);
        return;
      }
      Store(x, y, c);
    }

    /** `get_pixel` */
    method GetPixel(x: Word, y: Word) returns (c: Word)
      requires Valid()
      ensures c == if mode.On(x, y) && mode.Supported() then img[x][y] else 0
    {
      if x >= mode.width || y >= mode.height { return 0; }
      if mode.depth == 32 || mode.depth == 24 || mode.depth == 16 { return px[x, y]; }
      return 0;
    }

    /** The shallow half of `draw_line`, which steps along x. */
    method DrawShallow(x0: Int32, y0: Int32, x1: Int32, adx: Int32, ady: Int32, sx: Int32, sy: Int32, ghost q: Point, c: Word)
      requires Valid()
      requires q.x == x1 && adx == Abs(x1 - x0) && ady == Abs(q.y - y0) && adx >= ady
      requires sx == Sign(x1 - x0) && sy == Sign(q.y - y0)
      modifies px, this`img
      ensures Valid() && img == Paint(old(img), mode, Line(mode, Point(x0, y0), q), c)
    {
      ghost var p := Point(x0, y0);
      hide Valid, Fits, Paint, LinePoints, Stop, At, Err, Minor;
      ScreenFits();
      StartOfLine(mode, img, p, q, c);
      var err: Int32 := adx / 2;
      var y: Int32 := y0;
      var x: Int32 := x0;
      ghost var k: nat := 0;
      while true
        invariant Valid() && k <= adx == Length(p, q)
        invariant Point(x, y) == At(p, q, k) && err == Err(adx, ady, k)
        invariant Stop(mode, p, q, k) == Stop(mode, p, q, 0)
        invariant img == Paint(old(img), mode, LinePoints(p, q, k), c)
        decreases adx - k
      {
        if x < 0 || x >= mode.width || y < 0 || y >= mode.height {
          StopHere(mode, p, q, k);
          break;
        }
        PutPixel(x, y, c);
        PlotOne(old(img), mode, p, q, k, c);
        StopStep(mode, p, q, k);
        k := k + 1;
        EndTest(p, q, k - 1);
        if x == x1 {
          StopHere(mode, p, q, k);
          break;
        }
        ErrOk(adx, ady, k - 1);
        err := err - ady;
        if err < 0 {
          err := err + adx;
          y := y + sy;
        }
        x := x + sx;
        NextPoint(p, q, k);
      }
    }

    /** The steep half, which steps along y. */
    method DrawSteep(x0: Int32, y0: Int32, y1: Int32, adx: Int32, ady: Int32, sx: Int32, sy: Int32, ghost q: Point, c: Word)
      requires Valid()
      requires q.y == y1 && ady == Abs(y1 - y0) && adx == Abs(q.x - x0) && adx < ady
      requires sy == Sign(y1 - y0) && sx == Sign(q.x - x0)
      modifies px, this`img
      ensures Valid() && img == Paint(old(img), mode, Line(mode, Point(x0, y0), q), c)
    {
      ghost var p := Point(x0, y0);
      hide Valid, Fits, Paint, LinePoints, Stop, At, Err, Minor;
      ScreenFits();
      StartOfLine(mode, img, p, q, c);
      var err: Int32 := ady / 2;
      var x: Int32 := x0;
      var y: Int32 := y0;
      ghost var k: nat := 0;
      while true
        invariant Valid() && k <= ady == Length(p, q)
        invariant Point(x, y) == At(p, q, k) && err == Err(ady, adx, k)
        invariant Stop(mode, p, q, k) == Stop(mode, p, q, 0)
        invariant img == Paint(old(img), mode, LinePoints(p, q, k), c)
        decreases ady - k
      {
        if x < 0 || x >= mode.width || y < 0 || y >= mode.height {
          StopHere(mode, p, q, k);
          break;
        }
        PutPixel(x, y, c);
        PlotOne(old(img), mode, p, q, k, c);
        StopStep(mode, p, q, k);
        k := k + 1;
        EndTest(p, q, k - 1);
        if y == y1 {
          StopHere(mode, p, q, k);
          break;
        }
        ErrOk(ady, adx, k - 1);
        err := err - adx;
        if err < 0 {
          err := err + ady;
          x := x + sx;
        }
        y := y + sy;
        NextPoint(p, q, k);
      }
    }

    /** `draw_line`: every intermediate value fits an `int32_t`, the loop ends, and exactly the
        pixels of the line are painted. */
    method DrawLine(x0: Word, y0: Word, x1: Word, y1: Word, c: Word)
      requires Valid() && NoOverflow(x0, y0, x1, y1)
      modifies px, this`img
      ensures Valid() && img == Paint(old(img), mode, Line(mode, Corner(x0, y0), Corner(x1, y1)), c)
    {
      var dx: Int32 := ToInt32(x1) - ToInt32(x0);
      var dy: Int32 := ToInt32(y1) - ToInt32(y0);
      var adx: Int32 := if dx < 0 then -dx else dx;
      var ady: Int32 := if dy < 0 then -dy else dy;
      var sx: Int32 := if dx < 0 then -1 else if dx > 0 then 1 else 0;
      var sy: Int32 := if dy < 0 then -1 else if dy > 0 then 1 else 0;
      if adx >= ady {
        DrawShallow(ToInt32(x0), ToInt32(y0), ToInt32(x1), adx, ady, sx, sy, Corner(x1, y1), c);
      } else {
        DrawSteep(ToInt32(x0), ToInt32(y0), ToInt32(y1), adx, ady, sx, sy, Corner(x1, y1), c);
      }
    }

    /** `draw_rect`: the four sides of a rectangle that is w + 1 pixels wide and h + 1 pixels high.
        The far corner wraps around like every `uint32_t`. */
    method DrawRect(x: Word, y: Word, w: Word, h: Word, c: Word)
      requires Valid() && RectNoOverflow(x, y, w, h)
      modifies px, this`img
      ensures Valid()
      ensures img == Paint(old(img), mode, FourSides(mode, Corner(x, y), Corner(Wrap(x + w), Wrap(y + h))), c)
    {
      hide *;
      var x2 := Wrap(x + w);
      var y2 := Wrap(y + h);
      ghost var before := img;
      ScreenFits();
      FourSpans(x, y, w, h);
      DrawLine(x, y, x2, y, c);
      DrawLine(x2, y, x2, y2, c);
      DrawLine(x2, y2, x, y2, c);
      DrawLine(x, y2, x, y, c);
      PaintFour(before, mode, Corner(x, y), Corner(x2, y2), c);
    }

    /** One row of `fill_rect`. */
    method FillRow(x: Word, x2: Word, row: Word, c: Word)
      requires Valid() && x2 <= mode.width && row < mode.height
      modifies px, this`img
      ensures Valid() && img == Paint(old(img), mode, Box(x, row, x2, row + 1), c)
    {
      var col := x;
      ghost var before := img;
      PaintNothing(img, mode, Box(x, row, col, row + 1), c);
      while col < x2
        invariant Valid() && x <= col && (col == x || col <= x2)
        invariant img == Paint(before, mode, Box(x, row, col, row + 1), c)
      {
        hide Valid, Paint, Box;
        Store(col, row, c);
        NextPixel(before, mode, x, col, row, c);
        col := col + 1;
      }
      if x >= x2 { assert Box(x, row, x2, row + 1) == Box(x, row, col, row + 1); }
    }

    /** `fill_rect`: the clipped rectangle; nothing if its far edge wraps around. */
    method FillRect(x: Word, y: Word, w: Word, h: Word, c: Word)
      requires Valid()
      modifies px, this`img
      ensures Valid() && img == Paint(old(img), mode, Box(x, y, Wrap(x + w), Wrap(y + h)), c)
    {
      if x >= mode.width || y >= mode.height {
        PaintNothing(img, mode, Box(x, y, Wrap(x + w), Wrap(y + h)), c);
        return;
      }
      var x2, y2 := Wrap(x + w), Wrap(y + h);
      if x2 > mode.width { x2 := mode.width; }
      if y2 > mode.height { y2 := mode.height; }
      ghost var before := img;
      var row := y;
      PaintNothing(img, mode, Box(x, y, x2, row), c);
      while row < y2
        invariant Valid() && y <= row && (row == y || row <= y2)
        invariant img == Paint(before, mode, Box(x, y, x2, row), c)
      {
        hide Valid, Paint, Box;
        FillRow(x, x2, row, c);
        NextRow(before, mode, x, y, x2, row, c);
        row := row + 1;
      }
      SamePaint(before, mode, Box(x, y, x2, row), Box(x, y, Wrap(x + w), Wrap(y + h)), c);
    }
  }

  lemma NextPixel(img: Image, mode: Mode, x: int, col: int, row: int, c: Word)
    requires Fits(img, mode) && x <= col
    ensures Paint(Paint(img, mode, Box(x, row, col, row + 1), c), mode, {Point(col, row)}, c)
         == Paint(img, mode, Box(x, row, col + 1, row + 1), c)
  {
    PaintTwice(img, mode, Box(x, row, col, row + 1), {Point(col, row)}, c);
    assert Box(x, row, col, row + 1) + {Point(col, row)} == Box(x, row, col + 1, row + 1);
  }

  lemma NextRow(img: Image, mode: Mode, x: int, y: int, x2: int, row: int, c: Word)
    requires Fits(img, mode) && y <= row
    ensures Paint(Paint(img, mode, Box(x, y, x2, row), c), mode, Box(x, row, x2, row + 1), c)
         == Paint(img, mode, Box(x, y, x2, row + 1), c)
  {
    PaintTwice(img, mode, Box(x, y, x2, row), Box(x, row, x2, row + 1), c);
    assert Box(x, y, x2, row) + Box(x, row, x2, row + 1) == Box(x, y, x2, row + 1);
  }

  lemma PlotOne(img: Image, mode: Mode, p: Point, q: Point, k: nat, c: Word)
    requires Fits(img, mode)
    ensures Paint(Paint(img, mode, LinePoints(p, q, k), c), mode, {At(p, q, k)}, c) == Paint(img, mode, LinePoints(p, q, k + 1), c)
  {
    hide At;
    assert LinePoints(p, q, k) + {At(p, q, k)} == LinePoints(p, q, k + 1);
    PaintTwice(img, mode, LinePoints(p, q, k), {At(p, q, k)}, c);
  }

  lemma PaintFour(img: Image, mode: Mode, p: Point, q: Point, c: Word)
    requires Fits(img, mode)
    ensures var a := Paint(img, mode, Line(mode, p, Point(q.x, p.y)), c);
            var b := Paint(a, mode, Line(mode, Point(q.x, p.y), q), c);
            var d := Paint(b, mode, Line(mode, q, Point(p.x, q.y)), c);
            Paint(d, mode, Line(mode, Point(p.x, q.y), p), c) == Paint(img, mode, FourSides(mode, p, q), c)
  {
    hide Line;
    var s1, s2 := Line(mode, p, Point(q.x, p.y)), Line(mode, Point(q.x, p.y), q);
    var s3, s4 := Line(mode, q, Point(p.x, q.y)), Line(mode, Point(p.x, q.y), p);
    PaintTwice(img, mode, s1, s2, c);
    PaintTwice(img, mode, s1 + s2, s3, c);
    PaintTwice(img, mode, s1 + s2 + s3, s4, c);
  }
}
