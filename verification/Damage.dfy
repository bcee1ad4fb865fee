/** Damage tracking: the dirty rectangle of wm/wm.c and the marks that dragging a window makes. */
module Damage {
  import opened Words
  import opened Options
  import opened LinePath
  import opened Pixels
  import opened Cursor

  datatype Rect = Rect(x: int, y: int, w: int, h: int)
  {
    ghost function Points(): set<Point> {
      Box(x, y, x + w, y + h)
    }

    predicate Holds(p: Point) {
      x <= p.x < x + w && y <= p.y < y + h
    }
  }

  /** The part of a marked rectangle that is on the screen. */
  ghost function Area(mode: Mode, r: Rect): set<Point> {
    set u, v | 0 <= u < mode.width && 0 <= v < mode.height && r.Holds(Point(u, v)) :: Point(u, v)
  }

  /** The clipping at the head of `wm_mark_dirty`, with its `uint32_t` additions. */
  function Clip(mode: Mode, m: Rect): Option<Rect> {
    if m.w == 0 || m.h == 0 then None
    else if m.x < 0 && -m.x >= m.w then None
    else if m.y < 0 && -m.y >= m.h then None
    else
      var x, w := if m.x < 0 then 0 else m.x, if m.x < 0 then m.w + m.x else m.w;
      var y, h := if m.y < 0 then 0 else m.y, if m.y < 0 then m.h + m.y else m.h;
      if x >= mode.width || y >= mode.height then None
      else
        Some(Rect(x, y, if Wrap(x + w) > mode.width then mode.width - x else w,
                        if Wrap(y + h) > mode.height then mode.height - y else h))
  }

  predicate Screenlike(mode: Mode) {
    mode.width < 0x7FFF_FF00 && mode.height < 0x7FFF_FF00
  }

  /** Arguments of `wm_mark_dirty`; the most negative coordinate has no negation. */
  predicate Markable(m: Rect) {
    && -0x8000_0000 < m.x < 0x8000_0000 && -0x8000_0000 < m.y < 0x8000_0000
    && 0 <= m.w < TWO_TO_32 && 0 <= m.h < TWO_TO_32
  }

  /** The far edges of the mark are below 2^32. */
  predicate Bounded(m: Rect) {
    m.x + m.w < TWO_TO_32 && m.y + m.h < TWO_TO_32
  }

  lemma InRect(r: Rect, p: Point)
    ensures p in r.Points() <==> r.Holds(p)
  {
    assert p == Point(p.x, p.y);
  }

  lemma InArea(mode: Mode, r: Rect, p: Point)
    ensures p in Area(mode, r) <==> mode.On(p.x, p.y) && r.Holds(p)
  {
    assert p == Point(p.x, p.y);
  }

  /** Clipping drops a mark exactly if nothing of it is on the screen, and what it keeps is the
      visible part exactly if the far edges do not wrap around. */
  lemma ClipExact(mode: Mode, m: Rect)
    requires Markable(m) && Screenlike(mode)
    ensures Clip(mode, m).None? <==> Area(mode, m) == {}
    ensures Clip(mode, m).Some? ==> (Clip(mode, m).value.Points() == Area(mode, m) <==> Bounded(m))
  {
    var c := Clip(mode, m);
    if c.None? {
      forall p: Point ensures p !in Area(mode, m) { InArea(mode, m, p); }
    } else {
      var r := c.value;
      InArea(mode, m, Point(r.x, r.y));
      if Bounded(m) {
        forall p: Point ensures p in r.Points() <==> p in Area(mode, m) {
          InRect(r, p);
          InArea(mode, m, p);
        }
      } else {
        var far := Point(r.x + r.w - 1, r.y + r.h - 1);
        InRect(r, far);
        InArea(mode, m, far);
      }
    }
  }

  // ----- the dirty rectangle -----

  /** `g_dirty` */
  datatype Dirty = Clean | Pending(r: Rect)
  {
    ghost predicate Shown(p: Point) {
      Pending? && r.Holds(p)
    }
  }

  /** The expansion at the end of `wm_mark_dirty`. */
  function Join(d: Dirty, m: Option<Rect>): Dirty {
    if m.None? then d
    else if d.Clean? then Pending(m.value)
    else
      var a, b := d.r, m.value;
      var x, y := if b.x < a.x then b.x else a.x, if b.y < a.y then b.y else a.y;
      var right := if b.x + b.w > a.x + a.w then b.x + b.w else a.x + a.w;
      var bottom := if b.y + b.h > a.y + a.h then b.y + b.h else a.y + a.h;
      Pending(Rect(x, y, right - x, bottom - y))
  }

  /** The rectangle holds all the marked points, and each of its sides touches one. */
  ghost predicate Tight(d: Dirty, marked: set<Point>) {
    match d
    case Clean => marked == {}
    case Pending(r) =>
      && (forall p | p in marked :: r.Holds(p))
      && (exists p :: p in marked && p.x == r.x)
      && (exists p :: p in marked && p.y == r.y)
      && (exists p :: p in marked && p.x == r.x + r.w - 1)
      && (exists p :: p in marked && p.y == r.y + r.h - 1)
  }

  /** Tight means least: every rectangle that holds the marked points holds the dirty rectangle. */
  lemma TightIsLeast(d: Dirty, marked: set<Point>, other: Rect)
    requires Tight(d, marked) && (forall p | p in marked :: other.Holds(p))
    ensures forall p: Point :: d.Shown(p) ==> other.Holds(p)
  {
  }

  lemma JoinTight(mode: Mode, d: Dirty, marked: set<Point>, m: Rect)
    requires Markable(m) && Screenlike(mode) && Bounded(m) && Tight(d, marked)
    ensures Tight(Join(d, Clip(mode, m)), marked + Area(mode, m))
  {
    ClipExact(mode, m);
    var c := Clip(mode, m);
    if c.None? {
      assert marked + Area(mode, m) == marked;
    } else {
      var r := c.value;
      var lo, hi := Point(r.x, r.y), Point(r.x + r.w - 1, r.y + r.h - 1);
      InRect(r, lo);
      InRect(r, hi);
      RectTight(r);
      hide Clip;
      TightUnion(d, Pending(r), marked, r.Points());
    }
  }

  lemma RectTight(r: Rect)
    requires r.w > 0 && r.h > 0
    ensures Tight(Pending(r), r.Points())
  {
    var lo, hi := Point(r.x, r.y), Point(r.x + r.w - 1, r.y + r.h - 1);
    assert lo in r.Points() && hi in r.Points();
  }

  lemma TightUnion(d: Dirty, e: Dirty, marked: set<Point>, more: set<Point>)
    requires Tight(d, marked) && e.Pending? && Tight(e, more)
    ensures Tight(Join(d, Some(e.r)), marked + more)
  {
    if d.Clean? {
      assert marked + more == more;
    } else {
      var a, b := d.r, e.r;
      var p1 :| p1 in marked && p1.x == a.x;
      var p2 :| p2 in marked && p2.y == a.y;
      var p3 :| p3 in marked && p3.x == a.x + a.w - 1;
      var p4 :| p4 in marked && p4.y == a.y + a.h - 1;
      var q1 :| q1 in more && q1.x == b.x;
      var q2 :| q2 in more && q2.y == b.y;
      var q3 :| q3 in more && q3.x == b.x + b.w - 1;
      var q4 :| q4 in more && q4.y == b.y + b.h - 1;
      var all := marked + more;
      assert p1 in all && p2 in all && p3 in all && p4 in all;
      assert q1 in all && q2 in all && q3 in all && q4 in all;
    }
  }

  // ----- runs of marks and snapshots -----

  /** Marks come from the mouse interrupt and snapshots from the idle loop.  Both are atomic:
      interrupts do not nest, and the snapshot is taken between `cli` and `sti`. */
  datatype Event = Mark(m: Rect) | Snapshot

  predicate WellFormed(e: Event) {
    e.Mark? ==> Markable(e.m) && Bounded(e.m)
  }

  function After(mode: Mode, es: seq<Event>): Dirty {
    if es == [] then Clean
    else
      var n := |es| - 1;
      match es[n]
      case Mark(m) => Join(After(mode, es[..n]), Clip(mode, m))
      case Snapshot => Clean
  }

  /** What has been marked since the last snapshot. */
  ghost function Marked(mode: Mode, es: seq<Event>): set<Point> {
    if es == [] then {}
    else
      var n := |es| - 1;
      match es[n]
      case Mark(m) => Marked(mode, es[..n]) + Area(mode, m)
      case Snapshot => {}
  }

  /** Over every interleaving the dirty rectangle is the least one around the visible parts of
      all marks since the last snapshot. */
  lemma {:induction false} AlwaysTight(mode: Mode, es: seq<Event>)
    requires Screenlike(mode) && forall e | e in es :: WellFormed(e)
    ensures Tight(After(mode, es), Marked(mode, es))
    decreases |es|
  {
    if es != [] {
      var n := |es| - 1;
      AlwaysTight(mode, es[..n]);
      assert WellFormed(es[n]);
      match es[n]
      case Mark(m) =>
        hide Tight, Join, Clip, Area;
        JoinTight(mode, After(mode, es[..n]), Marked(mode, es[..n]), m);
      case Snapshot =>
    }
  }

  /** The snapshot at position j takes p with it. */
  ghost predicate TakenAt(mode: Mode, es: seq<Event>, j: nat, p: Point) {
    j < |es| && es[j].Snapshot? && After(mode, es[..j]).Shown(p)
  }

  /** No mark is lost: every visible point of every mark is inside the rectangle of a later
      snapshot, or inside the rectangle that is still pending. */
  lemma {:induction false} NeverLost(mode: Mode, es: seq<Event>, i: nat, p: Point)
    requires Screenlike(mode) && forall e | e in es :: WellFormed(e)
    requires i < |es| && es[i].Mark? && p in Area(mode, es[i].m)
    ensures After(mode, es).Shown(p) || exists j :: i < j && TakenAt(mode, es, j, p)
    decreases |es|
  {
    var n := |es| - 1;
    AlwaysTight(mode, es);
    if i < n {
      var before := es[..n];
      NeverLost(mode, before, i, p);
      if j :| i < j && TakenAt(mode, before, j, p) {
        assert es[..j] == before[..j];
        assert TakenAt(mode, es, j, p);
      } else if es[n].Snapshot? {
        assert TakenAt(mode, es, n, p);
      } else {
        JoinGrows(After(mode, before), Clip(mode, es[n].m), p);
      }
    } else {
      assert p in Marked(mode, es);
    }
  }

  lemma JoinGrows(d: Dirty, m: Option<Rect>, p: Point)
    requires d.Shown(p)
    ensures Join(d, m).Shown(p)
  {
  }

  // ----- the window manager's state -----

  lemma NothingJoined(d: Dirty)
    ensures Join(d, None) == d
  {
  }

  class Tracker {
    const mode: Mode
    var valid: bool
    var x: Int32
    var y: Int32
    var w: Word
    var h: Word

    /** `g_dirty` as a value */
    function Value(): Dirty
      reads this
    {
      if valid then Pending(Rect(x, y, w, h)) else Clean
    }

    /** What is pending lies on the screen. */
    ghost predicate Valid()
      reads this
    {
      Screenlike(mode) && (valid ==> 0 <= x && 0 <= y && x + w <= mode.width && y + h <= mode.height)
    }

    constructor (m: Mode)
      requires Screenlike(m)
      ensures Valid() && mode == m && Value() == Clean
    {
      mode := m;
      valid := false;
      x, y, w, h := 0, 0, 0, 0;
    }

    /** The end of `wm_mark_dirty`: the clipped mark joins the dirty rectangle. */
    method Include(x1: Int32, y1: Int32, w1: Word, h1: Word)
      requires Valid() && 0 <= x1 && 0 <= y1 && x1 + w1 <= mode.width && y1 + h1 <= mode.height
      modifies this
      ensures Valid() && Value() == Join(old(Value()), Some(Rect(x1, y1, w1, h1)))
    {
      if !valid {
        x, y, w, h := x1, y1, w1, h1;
        valid := true;
        return;
      }
      var dr: Int32 := x + w;
      var db: Int32 := y + h;
      var nr: Int32 := x1 + w1;
      var nb: Int32 := y1 + h1;
      if x1 < x { x := x1; }
      if y1 < y { y := y1; }
      if nr > dr { dr := nr; }
      if nb > db { db := nb; }
      w := dr - x;
      h := db - y;
    }

    /** `wm_mark_dirty` */
    method MarkDirty(mx: Int32, my: Int32, mw: Word, mh: Word)
      requires Valid() && Markable(Rect(mx, my, mw, mh)) && Bounded(Rect(mx, my, mw, mh))
      modifies this
      ensures Valid() && Value() == Join(old(Value()), Clip(mode, Rect(mx, my, mw, mh)))
    {
      hide Join;
      NothingJoined(Value());
      if mw == 0 || mh == 0 { return; }
      var x1, y1, w1, h1 := mx, my, mw, mh;
      if x1 < 0 {
        var adj: Word := -x1;
        if adj >= w1 { return; }
        w1 := w1 - adj;
        x1 := 0;
      }
      if y1 < 0 {
        var adj: Word := -y1;
        if adj >= h1 { return; }
        h1 := h1 - adj;
        y1 := 0;
      }
      if x1 >= mode.width || y1 >= mode.height { return; }
      if Wrap(x1 + w1) > mode.width { w1 := mode.width - x1; }
      if Wrap(y1 + h1) > mode.height { h1 := mode.height - y1; }
      if w1 == 0 || h1 == 0 { return; }
      ghost var m := Rect(mx, my, mw, mh);
      assert Clip(mode, m) == Some(Rect(x1, y1, w1, h1));
      Include(x1, y1, w1, h1);
    }

    /** The section of `wm_flush_dirty` between the first `cli` and `sti`. */
    method TakeSnapshot() returns (snap: Dirty)
      requires Valid()
      modifies this
      ensures Valid() && snap == old(Value()) && Value() == Clean
    {
      snap := Value();
      if valid { valid := false; }
    }

    /** `wm_flush_dirty` up to the windows: the whole snapshot is repainted under the hidden
        cursor, and nothing outside it changes. */
    method FlushDesktop(mouse: Mouse, desktop: Word, ghost base: Image)
      requires Valid() && mouse.screen.mode == mode && mouse.Shows(base)
      modifies this, mouse, mouse.backup, mouse.screen.px, mouse.screen`img
      ensures Valid() && Value() == Clean
      ensures mouse.Shows(if old(Value()).Clean? then base else Paint(base, mode, old(Value()).r.Points(), desktop))
      ensures old(Value()).Pending? ==> mouse.Drawn(Paint(base, mode, old(Value()).r.Points(), desktop))
    {
      hide Mouse.Shows, Mouse.Drawn, Paint;
      mouse.BaseFits(base);
      var snap := TakeSnapshot();
      if snap.Clean? { return; }
      mouse.Hide(base);
      mouse.screen.FillRect(snap.r.x, snap.r.y, snap.r.w, snap.r.h, desktop);
      mouse.Show();
    }
  }

  // ----- dragging a window -----

  const MIN_GRIP := 30
  const TITLE_BAR_H := 26

  /** The w + 1 by h + 1 pixels of a window at (x, y) and its border. */
  ghost function Frame(win: Rect): Rect {
    Rect(win.x, win.y, win.w + 1, win.h + 1)
  }

  class Drag {
    const tracker: Tracker
    var x: Int32
    var y: Int32
    const w: Word
    const h: Word

    function Window(): Rect
      reads this
    {
      Rect(x, y, w, h)
    }

    /** The window's position and size as the drag keeps them. */
    ghost predicate Valid()
      reads this, tracker
    {
      && tracker.Valid()
      && -0x4000_0000 < x < 0x7FFF_FF00 && -0x4000_0000 < y < 0x7FFF_FF00
      && w < 0x7FFF_FF00 && h < 0x7FFF_FF00
    }

    constructor (t: Tracker, win: Rect)
      requires t.Valid() && -0x4000_0000 < win.x < 0x7FFF_FF00 && -0x4000_0000 < win.y < 0x7FFF_FF00
      requires 0 <= win.w < 0x7FFF_FF00 && 0 <= win.h < 0x7FFF_FF00
      ensures Valid() && tracker == t && Window() == win
    {
      tracker := t;
      x, y, w, h := win.x, win.y, win.w, win.h;
    }

    /** `on_mouse_move` while a window is dragged: the window follows the mouse within its limits,
        and both the frame it leaves and the frame it takes are marked. */
    method OnMouseMove(dx: int, dy: int)
      requires Valid() && -128 <= dx < 128 && -128 <= dy < 128
      modifies this`x, this`y, tracker
      ensures Valid()
      ensures x == Clamp(old(x) + dx, tracker.mode.width - MIN_GRIP) && y == Clamp(old(y) - dy, tracker.mode.height - TITLE_BAR_H)
      ensures tracker.Value() == Join(Join(old(tracker.Value()), Clip(tracker.mode, Frame(old(Window())))),
                                      Clip(tracker.mode, Frame(Window())))
    {
      hide Join, Clip;
      var oldX, oldY := x, y;
      x := x + dx;
      y := y - dy;
      var maxX: Int32 := tracker.mode.width - MIN_GRIP;
      var maxY: Int32 := tracker.mode.height - TITLE_BAR_H;
      if x < 0 { x := 0; }
      if x > maxX { x := maxX; }
      if y < 0 { y := 0; }
      if y > maxY { y := maxY; }
      tracker.MarkDirty(oldX, oldY, w + 1, h + 1);
      tracker.MarkDirty(x, y, w + 1, h + 1);
    }
  }

  // ----- what `window_draw` paints -----

  const CLOSE_BTN_SIZE := 18
  const CLOSE_BTN_MARGIN := 4
  const FONT_WIDTH := 8
  const FONT_HEIGHT := 16

  /** What `fill_rect` paints when it is called with the 32-bit values of x and y. */
  ghost function Filled(x: int, y: int, w: Word, h: Word): set<Point> {
    Box(Wrap(x), Wrap(y), Wrap(Wrap(x) + w), Wrap(Wrap(y) + h))
  }

  predicate Printable(c: char) {
    ' ' <= c <= '~'
  }

  /** The cells over which `draw_string` goes; which of their pixels it sets is up to the font. */
  ghost function Cells(left: int, x: int, y: int, text: string): set<Point>
    decreases |text|
  {
    if text == "" then {}
    else if text[0] == '\n' then Cells(left, left, y + FONT_HEIGHT, text[1..])
    else if !Printable(text[0]) then Cells(left, x, y, text[1..])
    else Box(x, y, x + FONT_WIDTH, y + FONT_HEIGHT) + Cells(left, x + FONT_WIDTH, y, text[1..])
  }

  function Glyphs(text: string): nat {
    if text == "" then 0 else Glyphs(text[1..]) + if Printable(text[0]) then 1 else 0
  }

  /** A text of one line takes one box, 8 pixels wide for each glyph. */
  lemma {:induction false} CellsOfLine(left: int, x: int, y: int, text: string)
    requires '\n' !in text
    ensures Cells(left, x, y, text) == Box(x, y, x + FONT_WIDTH * Glyphs(text), y + FONT_HEIGHT)
    decreases |text|
  {
    if text == "" {
      assert Box(x, y, x, y + FONT_HEIGHT) == {};
    } else if Printable(text[0]) {
      CellsOfLine(left, x + FONT_WIDTH, y, text[1..]);
      var n := FONT_WIDTH * Glyphs(text);
      assert Box(x, y, x + FONT_WIDTH, y + FONT_HEIGHT) + Box(x + FONT_WIDTH, y, x + n, y + FONT_HEIGHT) == Box(x, y, x + n, y + FONT_HEIGHT);
    } else {
      CellsOfLine(left, x, y, text[1..]);
    }
  }

  ghost function Button(win: Rect): set<Point> {
    Filled(win.x + win.w - CLOSE_BTN_SIZE - CLOSE_BTN_MARGIN, win.y + CLOSE_BTN_MARGIN, CLOSE_BTN_SIZE, CLOSE_BTN_SIZE)
  }

  ghost function TitleCells(win: Rect, title: string): set<Point> {
    Cells(win.x + 4, win.x + 4, win.y + 1 + (TITLE_BAR_H - FONT_HEIGHT) / 2, title)
  }

  ghost function CrossCells(win: Rect): set<Point> {
    var x, y := win.x + win.w - CLOSE_BTN_SIZE - CLOSE_BTN_MARGIN + (CLOSE_BTN_SIZE - 8) / 2, win.y + CLOSE_BTN_MARGIN + (CLOSE_BTN_SIZE - FONT_HEIGHT) / 2;
    Cells(x, x, y, "X")
  }

  /** All that `window_draw` can paint. */
  ghost function WindowPixels(mode: Mode, win: Rect, title: string): set<Point> {
    FourSides(mode, Point(win.x, win.y), Point(win.x + win.w, win.y + win.h))
    + Filled(win.x + 1, win.y + 1, Wrap(win.w - 2), TITLE_BAR_H)
    + TitleCells(win, title) + Button(win) + CrossCells(win)
    + Filled(win.x + 1, win.y + TITLE_BAR_H + 1, Wrap(win.w - 2), Wrap(win.h - TITLE_BAR_H - 2))
  }

  /** Coordinates that additions do not carry out of 32 bits. */
  predicate Placeable(win: Rect) {
    -0x4000_0000 < win.x < 0x4000_0000 && -0x4000_0000 < win.y < 0x4000_0000 && 0 <= win.w < 0x4000_0000 && 0 <= win.h < 0x4000_0000
  }

  /** The visible part of a filled rectangle lies where it was meant to be; for coordinates that are
      not negative it is all of it. */
  lemma FilledVisible(mode: Mode, x: int, y: int, w: Word, h: Word, p: Point)
    requires Screenlike(mode) && mode.On(p.x, p.y)
    requires -0x8000_0000 < x < 0x8000_0000 && -0x8000_0000 < y < 0x8000_0000 && w < 0x8000_0000 && h < 0x8000_0000
    ensures p in Filled(x, y, w, h) <==> 0 <= x && 0 <= y && x <= p.x < x + w && y <= p.y < y + h
  {
    WrapSigned(x);
    WrapSigned(y);
    if 0 <= x { WrapSigned(x + w - 0x8000_0000); }
    assert p == Point(p.x, p.y);
  }

  lemma WrapSigned(x: int)
    requires -0x8000_0000 <= x < 0x8000_0000
    ensures Wrap(x) == if 0 <= x then x else x + TWO_TO_32
  {
  }

  /** The close button stays in the frame exactly if the window is at least 22 wide, or the button
      does not show. */
  lemma ButtonInFrame(mode: Mode, win: Rect)
    requires Screenlike(mode) && Placeable(win) && 0 <= win.x && 0 <= win.y < mode.height - CLOSE_BTN_MARGIN && win.h >= TITLE_BAR_H + 2
    ensures (forall p | p in Button(win) && mode.On(p.x, p.y) :: Frame(win).Holds(p)) <==>
            22 <= win.w || win.x + win.w < 22 || mode.width <= win.x + win.w - 22
  {
    var x, y := win.x + win.w - 22, win.y + CLOSE_BTN_MARGIN;
    forall p: Point | mode.On(p.x, p.y)
      ensures p in Button(win) <==> 0 <= x && x <= p.x < x + CLOSE_BTN_SIZE && y <= p.y < y + CLOSE_BTN_SIZE
    {
      FilledVisible(mode, x, y, CLOSE_BTN_SIZE, CLOSE_BTN_SIZE, p);
    }
    hide Button;
    if 0 <= x < mode.width {
      assert mode.On(Point(x, y).x, Point(x, y).y);
    }
  }

  /** The title stays in the frame exactly if its cells fit the width, or the rest does not show. */
  lemma TitleInFrame(mode: Mode, win: Rect, title: string)
    requires Screenlike(mode) && Placeable(win) && 0 <= win.x && 0 <= win.y < mode.height - 6 && win.w >= 3 && win.h >= TITLE_BAR_H + 2
    requires '\n' !in title
    ensures (forall p | p in TitleCells(win, title) && mode.On(p.x, p.y) :: Frame(win).Holds(p)) <==>
            4 + FONT_WIDTH * Glyphs(title) <= win.w + 1 || mode.width <= win.x + win.w + 1
  {
    var x, y, n := win.x + 4, win.y + 6, FONT_WIDTH * Glyphs(title);
    CellsOfLine(x, x, y, title);
    hide Cells;
    var p := Point(win.x + win.w + 1, y);
    if 4 + n > win.w + 1 && p.x < mode.width {
      assert p in Box(x, y, x + n, y + FONT_HEIGHT) && mode.On(p.x, p.y) && !Frame(win).Holds(p);
    }
  }

  /** Windows whose parts all fit. */
  predicate Roomy(win: Rect, title: string) {
    Placeable(win) && 22 <= win.w && TITLE_BAR_H + 2 <= win.h && '\n' !in title && 4 + FONT_WIDTH * Glyphs(title) <= win.w + 1
  }

  /** Such a window paints nothing visible outside the frame that a drag marks.  A mark of only w by
      h pixels would leave the last column and the last row behind. */
  lemma WindowInFrame(mode: Mode, win: Rect, title: string, p: Point)
    requires Screenlike(mode) && Roomy(win, title)
    ensures p in WindowPixels(mode, win, title) && mode.On(p.x, p.y) ==> Frame(win).Holds(p)
    ensures mode.On(win.x, win.y) && mode.On(win.x + win.w, win.y + win.h) ==>
      var corner := Point(win.x + win.w, win.y + win.h);
      corner in WindowPixels(mode, win, title) && !win.Holds(corner)
  {
    hide FourSides, Cells, Filled;
    var lo, hi := Point(win.x, win.y), Point(win.x + win.w, win.y + win.h);
    FourSidesInBox(mode, lo, hi);
    CellsOfLine(win.x + 4, win.x + 4, win.y + 6, title);
    CellsOfLine(win.x + win.w - 17, win.x + win.w - 17, win.y + 5, "X");
    if mode.On(p.x, p.y) {
      FilledVisible(mode, win.x + 1, win.y + 1, win.w - 2, TITLE_BAR_H, p);
      FilledVisible(mode, win.x + win.w - 22, win.y + 4, CLOSE_BTN_SIZE, CLOSE_BTN_SIZE, p);
      FilledVisible(mode, win.x + 1, win.y + TITLE_BAR_H + 1, win.w - 2, win.h - TITLE_BAR_H - 2, p);
    }
    if mode.On(lo.x, lo.y) && mode.On(hi.x, hi.y) { CornerPainted(mode, win, title); }
  }

  lemma CornerPainted(mode: Mode, win: Rect, title: string)
    requires 0 <= win.w && 0 <= win.h && mode.On(win.x, win.y) && mode.On(win.x + win.w, win.y + win.h)
    ensures Point(win.x + win.w, win.y + win.h) in WindowPixels(mode, win, title)
  {
    hide FourSides, Cells, Filled;
    var lo, hi := Point(win.x, win.y), Point(win.x + win.w, win.y + win.h);
    FourSidesAreTheBorder(mode, lo, hi);
    assert hi in Border(lo.x, lo.y, hi.x, hi.y);
  }

  /** What such a window paints when all of it is on the screen: its frame but for the column and the
      row inside the right and the lower border, where `win->w - 2` and `body_h` stop one short of a
      frame that is w + 1 pixels wide and h + 1 pixels high.  There what lies below shows through. */
  lemma WindowPaints(mode: Mode, win: Rect, title: string, p: Point)
    requires Screenlike(mode) && Roomy(win, title) && 4 + FONT_WIDTH * Glyphs(title) < win.w
    requires mode.On(win.x, win.y) && mode.On(win.x + win.w, win.y + win.h)
    ensures var right, bottom := win.x + win.w, win.y + win.h;
            p in WindowPixels(mode, win, title) <==>
              Frame(win).Holds(p) && !(p.x == right - 1 && win.y < p.y < bottom) && !(p.y == bottom - 1 && win.x < p.x < right)
  {
    hide FourSides, Cells, Filled;
    var lo, hi := Point(win.x, win.y), Point(win.x + win.w, win.y + win.h);
    FourSidesAreTheBorder(mode, lo, hi);
    InBorder(lo, hi, p);
    CellsOfLine(win.x + 4, win.x + 4, win.y + 6, title);
    CellsOfLine(win.x + win.w - 17, win.x + win.w - 17, win.y + 5, "X");
    FilledAt(win.x + 1, win.y + 1, win.w - 2, TITLE_BAR_H, p);
    FilledAt(win.x + win.w - 22, win.y + 4, CLOSE_BTN_SIZE, CLOSE_BTN_SIZE, p);
    FilledAt(win.x + 1, win.y + TITLE_BAR_H + 1, win.w - 2, win.h - TITLE_BAR_H - 2, p);
  }

  lemma InBorder(lo: Point, hi: Point, p: Point)
    ensures p in Border(lo.x, lo.y, hi.x, hi.y) <==>
            lo.x <= p.x <= hi.x && lo.y <= p.y <= hi.y && (p.x == lo.x || p.x == hi.x || p.y == lo.y || p.y == hi.y)
  {
    assert p == Point(p.x, p.y);
  }

  lemma FilledAt(x: int, y: int, w: Word, h: Word, p: Point)
    requires 0 <= x && 0 <= y && x + w < TWO_TO_32 && y + h < TWO_TO_32
    ensures p in Filled(x, y, w, h) <==> x <= p.x < x + w && y <= p.y < y + h
  {
    assert p == Point(p.x, p.y);
  }

  /** Over any interleaving of drags and flushes, every visible pixel that a window painted before or
      after a drag ends up in a flushed rectangle or is still pending. */
  lemma DragNeverLost(mode: Mode, es: seq<Event>, i: nat, before: Rect, after: Rect, title: string, p: Point)
    requires Screenlike(mode) && forall e | e in es :: WellFormed(e)
    requires i + 1 < |es| && es[i] == Mark(Frame(before)) && es[i + 1] == Mark(Frame(after))
    requires Roomy(before, title) && Roomy(after, title) && mode.On(p.x, p.y)
    requires p in WindowPixels(mode, before, title) || p in WindowPixels(mode, after, title)
    ensures After(mode, es).Shown(p) || exists j :: i < j && TakenAt(mode, es, j, p)
  {
    hide WindowPixels, TakenAt, After;
    WindowInFrame(mode, before, title, p);
    WindowInFrame(mode, after, title, p);
    InArea(mode, Frame(before), p);
    InArea(mode, Frame(after), p);
    if p in WindowPixels(mode, before, title) { NeverLost(mode, es, i, p); } else { NeverLost(mode, es, i + 1, p); }
  }

  // ----- which windows a flush repaints -----

  datatype Window = Window(place: Rect, title: string)

  predicate Meets(a: Rect, b: Rect) {
    a.x < b.x + b.w && b.x < a.x + a.w && a.y < b.y + b.h && b.y < a.y + a.h
  }

  /** The test of `wm_flush_dirty`, which leaves out the last column and row of the frame. */
  predicate Repainted(win: Window, snap: Rect) {
    !(win.place.x >= snap.x + snap.w || win.place.x + win.place.w <= snap.x
      || win.place.y >= snap.y + snap.h || win.place.y + win.place.h <= snap.y)
  }

  /** Who is to be seen at p when the first n windows are drawn in their order: the last one that
      paints p, or -1 for the desktop. */
  ghost function Owner(mode: Mode, ws: seq<Window>, n: nat, p: Point): int
    requires n <= |ws|
  {
    if n == 0 then -1
    else if p in WindowPixels(mode, ws[n - 1].place, ws[n - 1].title) then n - 1
    else Owner(mode, ws, n - 1, p)
  }

  /** Who is seen at p after a flush, if `was` was seen before: the desktop is filled in, and the
      windows that pass the test are drawn whole. */
  ghost function Flushed(mode: Mode, ws: seq<Window>, n: nat, snap: Rect, was: int, p: Point): int
    requires n <= |ws|
  {
    if n == 0 then (if snap.Holds(p) then -1 else was)
    else if Repainted(ws[n - 1], snap) && p in WindowPixels(mode, ws[n - 1].place, ws[n - 1].title) then n - 1
    else Flushed(mode, ws, n - 1, snap, was, p)
  }

  /** A repainted window below the owner paints over it. */
  ghost predicate Overpaints(mode: Mode, ws: seq<Window>, i: int, snap: Rect, p: Point) {
    0 <= i < |ws| && Repainted(ws[i], snap) && p in WindowPixels(mode, ws[i].place, ws[i].title)
  }

  lemma {:induction false} OwnerIs(mode: Mode, ws: seq<Window>, n: nat, p: Point)
    requires n <= |ws|
    ensures var t := Owner(mode, ws, n, p);
            && -1 <= t < n
            && (t >= 0 ==> p in WindowPixels(mode, ws[t].place, ws[t].title))
            && forall i | t < i < n :: p !in WindowPixels(mode, ws[i].place, ws[i].title)
  {
    hide WindowPixels;
    if n > 0 { OwnerIs(mode, ws, n - 1, p); }
  }

  lemma {:induction false} FlushedIs(mode: Mode, ws: seq<Window>, n: nat, snap: Rect, was: int, p: Point)
    requires n <= |ws|
    ensures var t := Flushed(mode, ws, n, snap, was, p);
            if (forall i | 0 <= i < n :: !Overpaints(mode, ws, i, snap, p)) then t == if snap.Holds(p) then -1 else was
            else 0 <= t < n && Overpaints(mode, ws, t, snap, p) && forall i | t < i < n :: !Overpaints(mode, ws, i, snap, p)
  {
    hide WindowPixels, Repainted;
    if n > 0 {
      FlushedIs(mode, ws, n - 1, snap, was, p);
      assert Overpaints(mode, ws, n - 1, snap, p) <==> Flushed(mode, ws, n, snap, was, p) == n - 1 && Overpaints(mode, ws, n - 1, snap, p);
    }
  }

  /** When a flush leaves the right window at p, where everything outside the snapshot was right
      before: exactly if p belongs to the desktop, or its window is repainted, or p lies outside the
      snapshot and no window below is repainted there. */
  lemma FlushExactly(mode: Mode, ws: seq<Window>, snap: Rect, was: int, p: Point)
    requires !snap.Holds(p) ==> was == Owner(mode, ws, |ws|, p)
    ensures var t := Owner(mode, ws, |ws|, p);
            -1 <= t < |ws| &&
            (Flushed(mode, ws, |ws|, snap, was, p) == t <==>
               t == -1 || Repainted(ws[t], snap)
               || (!snap.Holds(p) && forall i | 0 <= i < t :: !Overpaints(mode, ws, i, snap, p)))
  {
    hide WindowPixels, Repainted;
    OwnerIs(mode, ws, |ws|, p);
    FlushedIs(mode, ws, |ws|, snap, was, p);
    var t := Owner(mode, ws, |ws|, p);
    if t >= 0 && Repainted(ws[t], snap) {
      assert Overpaints(mode, ws, t, snap, p);
    }
  }

  /** Inside the snapshot this goes wrong exactly on borders: a frame that the snapshot meets is not
      repainted exactly if it is met only in its last column or only in its last row. */
  lemma BorderErased(win: Window, snap: Rect)
    requires win.place.w > 0 && win.place.h > 0 && snap.w > 0 && snap.h > 0
    ensures Meets(Frame(win.place), snap) && !Repainted(win, snap) <==>
            Meets(Frame(win.place), snap) && (snap.x == win.place.x + win.place.w || snap.y == win.place.y + win.place.h)
    ensures !Repainted(win, snap) ==>
            forall p: Point | Frame(win.place).Holds(p) && snap.Holds(p) :: p.x == win.place.x + win.place.w || p.y == win.place.y + win.place.h
  {
  }

  /** A window is dragged away from the right border of another one: the column of that border that
      it had touched is filled with the desktop and stays so. */
  lemma BorderStaysErased(mode: Mode, b: Window, c: Window, was: int)
    requires Screenlike(mode) && 300 <= mode.width && 300 <= mode.height
    requires b == Window(Rect(20, 40, 100, 100), "") && c == Window(Rect(121, 60, 50, 50), "")
    ensures var snap := Rect(120, 60, 52, 51);
            && After(mode, [Mark(Frame(Rect(120, 60, 50, 50))), Mark(Frame(c.place))]) == Pending(snap)
            && Owner(mode, [b, c], 2, Point(120, 80)) == 0 && Flushed(mode, [b, c], 2, snap, was, Point(120, 80)) == -1
  {
    hide WindowPixels, After;
    var p := Point(120, 80);
    DragMarks(mode, Rect(120, 60, 50, 50), c.place);
    WindowInFrame(mode, c.place, "", p);
    OnBorder(mode, b.place, "", p);
    OwnerTwo(mode, [b, c], p);
    FlushedTwo(mode, [b, c], Rect(120, 60, 52, 51), was, p);
  }

  lemma DragMarks(mode: Mode, before: Rect, after: Rect)
    ensures After(mode, [Mark(Frame(before)), Mark(Frame(after))]) == Join(Join(Clean, Clip(mode, Frame(before))), Clip(mode, Frame(after)))
  {
    hide Join, Clip, Frame;
    var es := [Mark(Frame(before)), Mark(Frame(after))];
    assert es[..1] == [es[0]] && es[..1][..0] == [];
    assert After(mode, es[..1][..0]) == Clean;
    assert After(mode, es[..1]) == Join(Clean, Clip(mode, Frame(before)));
  }

  lemma OnBorder(mode: Mode, win: Rect, title: string, p: Point)
    requires 0 <= win.x && 0 <= win.y && win.x + win.w < mode.width && win.y + win.h < mode.height && 0 <= win.w && 0 <= win.h
    requires p in Border(win.x, win.y, win.x + win.w, win.y + win.h)
    ensures p in WindowPixels(mode, win, title)
  {
    hide FourSides, Filled, Cells, Border;
    FourSidesAreTheBorder(mode, Point(win.x, win.y), Point(win.x + win.w, win.y + win.h));
  }

  lemma OwnerTwo(mode: Mode, ws: seq<Window>, p: Point)
    requires |ws| == 2
    ensures Owner(mode, ws, 2, p) ==
            if p in WindowPixels(mode, ws[1].place, ws[1].title) then 1
            else if p in WindowPixels(mode, ws[0].place, ws[0].title) then 0
            else -1
  {
    hide WindowPixels;
    assert Owner(mode, ws, 1, p) == if p in WindowPixels(mode, ws[0].place, ws[0].title) then 0 else Owner(mode, ws, 0, p);
  }

  lemma FlushedTwo(mode: Mode, ws: seq<Window>, snap: Rect, was: int, p: Point)
    requires |ws| == 2
    ensures Flushed(mode, ws, 2, snap, was, p) ==
            if Overpaints(mode, ws, 1, snap, p) then 1
            else if Overpaints(mode, ws, 0, snap, p) then 0
            else if snap.Holds(p) then -1
            else was
  {
    hide WindowPixels, Repainted;
    assert Flushed(mode, ws, 1, snap, was, p) == if Overpaints(mode, ws, 0, snap, p) then 0 else Flushed(mode, ws, 0, snap, was, p);
  }

  /** A flush that reaches only the lower one of two windows draws it over the upper one. */
  lemma LowerWindowOnTop(mode: Mode, a: Window, b: Window, snap: Rect)
    requires Screenlike(mode) && 300 <= mode.width && 300 <= mode.height
    requires a == Window(Rect(20, 40, 100, 100), "") && b == Window(Rect(80, 40, 100, 100), "") && snap == Rect(0, 40, 40, 10)
    ensures var p := Point(100, 40);
            && Owner(mode, [a, b], 2, p) == 1 && !snap.Holds(p)
            && Flushed(mode, [a, b], 2, snap, 1, p) == 0
  {
    var p := Point(100, 40);
    hide WindowPixels;
    OnBorder(mode, a.place, "", p);
    OnBorder(mode, b.place, "", p);
    OwnerTwo(mode, [a, b], p);
    FlushedTwo(mode, [a, b], snap, 1, p);
  }
}
