/** The software cursor of drivers/mouse.c. */
module Cursor {
  import opened Words
  import opened LinePath
  import opened Pixels

  const CURSOR_W := 12
  const CURSOR_H := 20
  const CURSOR_AREA := 240

  /** The `int8_t` with the bits of b. */
  function Signed(b: Byte): (r: int)
    ensures -128 <= r < 128 && (r - b) % 256 == 0
  {
    if b < 128 then b else b - 256
  }

  // ----- what the backup buffer is worth -----

  /** The value `get_pixel` reports. */
  ghost function Seen(img: Image, mode: Mode, x: int, y: int): Word
    requires Fits(img, mode)
  {
    if mode.On(x, y) && mode.Supported() then img[x][y] else 0
  }

  /** The first n cells of the backup hold what was under the cursor at (x, y). */
  ghost predicate Saved(backup: seq<Word>, n: nat, img: Image, mode: Mode, x: int, y: int)
    requires Fits(img, mode) && n <= |backup|
  {
    forall i | 0 <= i < n :: backup[i] == Seen(img, mode, x + i % CURSOR_W, y + i / CURSOR_W)
  }

  predicate InCursor(u: int, v: int, x: int, y: int) {
    x <= u < x + CURSOR_W && y <= v < y + CURSOR_H
  }

  /** `img` differs from `base` at most in the cursor cells whose index is n or more. */
  ghost predicate Halfway(img: Image, base: Image, mode: Mode, x: int, y: int, n: nat)
    requires Fits(img, mode) && Fits(base, mode)
  {
    forall u, v | mode.On(u, v) ::
      img[u][v] == base[u][v] || (InCursor(u, v, x, y) && (v - y) * CURSOR_W + (u - x) >= n)
  }

  /** Writing the backup back over the cursor at (x, y) turns `img` into `base`. */
  ghost predicate Covers(img: Image, base: Image, mode: Mode, x: int, y: int, backup: seq<Word>) {
    && Fits(img, mode) && Fits(base, mode) && InDepth(base, mode)
    && |backup| == CURSOR_AREA && Saved(backup, CURSOR_AREA, base, mode, x, y)
    && Halfway(img, base, mode, x, y, 0)
    && (!mode.Supported() ==> img == base)
  }

  /** Coordinates at which no cursor cell is wrapped back onto the screen. */
  predicate Near(mode: Mode, x: int, y: int) {
    && mode.width < 0x7FFF_FF00 && mode.height < 0x7FFF_FF00
    && -CURSOR_W <= x <= mode.width && -CURSOR_H <= y <= mode.height
  }

  lemma RestoreOne(img: Image, base: Image, mode: Mode, x: int, y: int, n: nat, c: Word)
    requires Fits(img, mode) && Fits(base, mode) && InDepth(base, mode) && mode.Supported()
    requires Near(mode, x, y)
    requires n < CURSOR_AREA && Halfway(img, base, mode, x, y, n)
    requires c == Seen(base, mode, x + n % CURSOR_W, y + n / CURSOR_W)
    ensures Halfway(Paint(img, mode, {Point(Wrap(x + n % CURSOR_W), Wrap(y + n / CURSOR_W))}, c), base, mode, x, y, n + 1)
  {
  }

  lemma SaveOne(backup: seq<Word>, n: nat, img: Image, mode: Mode, x: int, y: int, c: Word)
    requires Fits(img, mode) && n < |backup| && Saved(backup, n, img, mode, x, y)
    requires c == Seen(img, mode, x + n % CURSOR_W, y + n / CURSOR_W)
    ensures Saved(backup[n := c], n + 1, img, mode, x, y)
  {
  }

  lemma SavedAt(backup: seq<Word>, n: nat, img: Image, mode: Mode, x: int, y: int, i: nat)
    requires Fits(img, mode) && i < n <= |backup| && Saved(backup, n, img, mode, x, y)
    ensures backup[i] == Seen(img, mode, x + i % CURSOR_W, y + i / CURSOR_W)
  {
  }

  /** What `get_pixel` reports at wrapped coordinates is what is seen at the signed ones. */
  lemma SeenWrapped(img: Image, mode: Mode, x: int, y: int, dx: nat, dy: nat)
    requires Fits(img, mode) && Near(mode, x, y) && dx < CURSOR_W && dy < CURSOR_H
    ensures var u, v := Wrap(x + dx), Wrap(y + dy);
            Seen(img, mode, x + (dy * CURSOR_W + dx) % CURSOR_W, y + (dy * CURSOR_W + dx) / CURSOR_W)
            == if mode.On(u, v) && mode.Supported() then img[u][v] else 0
    ensures (dy * CURSOR_W + dx) % CURSOR_W == dx && (dy * CURSOR_W + dx) / CURSOR_W == dy
  {
  }

  lemma NothingPainted(img: Image, mode: Mode, points: set<Point>, c: Word)
    requires Fits(img, mode) && !mode.Supported()
    ensures Paint(img, mode, points, c) == img
  {
    SameImage(Paint(img, mode, points, c), img, mode);
  }

  lemma AllRestored(img: Image, base: Image, mode: Mode, x: int, y: int)
    requires Fits(img, mode) && Fits(base, mode) && Halfway(img, base, mode, x, y, CURSOR_AREA)
    ensures img == base
  {
    SameImage(img, base, mode);
  }

  // ----- what the cursor looks like -----

  /** The colours that `make_color` packs for the cursor. */
  datatype Colours = Colours(white: Word, black: Word)

  ghost function FillArea(x: int, y: int): set<Point> {
    Box(Wrap(x), Wrap(y), Wrap(Wrap(x) + CURSOR_W - 1), Wrap(Wrap(y) + CURSOR_H - 1))
  }

  ghost function FrameArea(mode: Mode, x: int, y: int): set<Point> {
    FourSides(mode, Point(x, y), Point(x + CURSOR_W - 1, y + CURSOR_H - 1))
  }

  /** `base` with the cursor drawn at (x, y). */
  ghost function WithCursor(base: Image, mode: Mode, x: int, y: int, colours: Colours): (r: Image)
    requires Fits(base, mode)
    ensures Fits(r, mode)
  {
    Paint(Paint(base, mode, FillArea(x, y), colours.white), mode, FrameArea(mode, x, y), colours.black)
  }

  predicate OnScreen(mode: Mode, x: int, y: int) {
    0 <= x <= mode.width - CURSOR_W && 0 <= y <= mode.height - CURSOR_H
  }

  ghost function CursorPixel(base: Image, mode: Mode, x: int, y: int, colours: Colours, u: int, v: int): Word
    requires Fits(base, mode) && mode.On(u, v)
  {
    if !InCursor(u, v, x, y) then base[u][v]
    else if u == x || u == x + CURSOR_W - 1 || v == y || v == y + CURSOR_H - 1 then mode.Kept(colours.black)
    else mode.Kept(colours.white)
  }

  /** On the screen the cursor is a white area with a black frame, and fills the saved area exactly. */
  lemma CursorShape(base: Image, mode: Mode, x: int, y: int, colours: Colours)
    requires Fits(base, mode) && OnScreen(mode, x, y) && mode.Supported()
    requires mode.width < 0x8000_0000 && mode.height < 0x8000_0000
    ensures forall u, v | mode.On(u, v) :: 
      WithCursor(base, mode, x, y, colours)[u][v] == CursorPixel(base, mode, x, y, colours, u, v)
  {
    hide FourSides;
    FourSidesAreTheBorder(mode, Point(x, y), Point(x + CURSOR_W - 1, y + CURSOR_H - 1));
  }

  /** Wherever the screen ends, drawing the cursor leaves everything outside its cells alone. */
  lemma CursorStaysInside(base: Image, mode: Mode, x: Int32, y: Int32, colours: Colours)
    requires Fits(base, mode) && Near(mode, x, y)
    ensures Halfway(WithCursor(base, mode, x, y, colours), base, mode, x, y, 0)
    ensures !mode.Supported() ==> WithCursor(base, mode, x, y, colours) == base
  {
    hide FourSides;
    FourSidesInBox(mode, Point(x, y), Point(x + CURSOR_W - 1, y + CURSOR_H - 1));
    if !mode.Supported() {
      NothingPainted(base, mode, FillArea(x, y), colours.white);
      NothingPainted(base, mode, FrameArea(mode, x, y), colours.black);
    }
  }

  // ----- movement and packets -----

  function Clamp(v: int, extent: int): int {
    var w := if v < 0 then 0 else v;
    if w > extent then extent else w
  }

  /** On a screen that is large enough, clamping picks the allowed coordinate next to v. */
  lemma ClampNearest(v: int, extent: nat, z: nat)
    requires z <= extent
    ensures 0 <= Clamp(v, extent) <= extent && Abs(Clamp(v, extent) - v) <= Abs(z - v)
  {
  }

  /** The driver's state apart from the pixels: position, bytes of the current packet, and
      whether the first packet is still to be thrown away. */
  datatype Motion = Motion(x: int, y: int, cycle: nat, b0: Byte, b1: Byte, first: bool)

  function Start(mode: Mode): Motion {
    Motion(mode.width / 2, mode.height / 2, 0, 0, 0, true)
  }

  function Moved(mode: Mode, s: Motion, b2: Byte): Motion {
    var dx, dy := Signed(s.b1), Signed(b2);
    if s.first then s.(first := false)
    else if dx == 0 && dy == 0 then s
    else s.(x := Clamp(s.x + dx, mode.width - CURSOR_W), y := Clamp(s.y - dy, mode.height - CURSOR_H))
  }

  /** One interrupt that delivers the byte d. */
  function Feed(mode: Mode, s: Motion, d: Byte): Motion {
    if s.cycle == 0 then if d / 8 % 2 == 0 then s else s.(b0 := d, cycle := 1)
    else if s.cycle == 1 then s.(b1 := d, cycle := 2)
    else Moved(mode, s.(cycle := 0), d)
  }

  function FeedAll(mode: Mode, s: Motion, ds: seq<Byte>): Motion
    decreases |ds|
  {
    if ds == [] then s else Feed(mode, FeedAll(mode, s, ds[..|ds| - 1]), ds[|ds| - 1])
  }

  lemma FeedOneMore(mode: Mode, s: Motion, ds: seq<Byte>, i: nat)
    requires i < |ds|
    ensures FeedAll(mode, s, ds[..i + 1]) == Feed(mode, FeedAll(mode, s, ds[..i]), ds[i])
  {
    hide Feed;
    assert ds[..i + 1][..i] == ds[..i];
  }

  /** Positions whose neighbourhood fits an `int32_t`, on whatever screen. */
  predicate Sane(mode: Mode, s: Motion) {
    s.cycle < 3 && Near(mode, s.x, s.y)
  }

  lemma {:induction false} FeedAllSane(mode: Mode, s: Motion, ds: seq<Byte>)
    requires Sane(mode, s)
    ensures Sane(mode, FeedAll(mode, s, ds))
    decreases |ds|
  {
    if ds != [] { FeedAllSane(mode, s, ds[..|ds| - 1]); }
  }

  /** The cursor starts on the screen exactly if the screen is at least 23 by 39 pixels, */
  lemma StartsOnScreen(mode: Mode)
    ensures OnScreen(mode, Start(mode).x, Start(mode).y) <==> mode.width >= 23 && mode.height >= 39
  {
  }

  /** and whatever bytes arrive it never leaves. */
  lemma {:induction false} StaysOnScreen(mode: Mode, s: Motion, ds: seq<Byte>)
    requires OnScreen(mode, s.x, s.y)
    ensures OnScreen(mode, FeedAll(mode, s, ds).x, FeedAll(mode, s, ds).y)
    decreases |ds|
  {
    if ds != [] { StaysOnScreen(mode, s, ds[..|ds| - 1]); }
  }

  /** A whole packet, read from its first byte: the first of all is thrown away, any other moves
      the cursor by its two signed deltas, and none makes the next one the first again.  A byte that
      cannot start a packet is skipped. */
  lemma PacketMoves(mode: Mode, s: Motion, flags: Byte, dx: Byte, dy: Byte)
    requires s.cycle == 0 && (s.first || OnScreen(mode, s.x, s.y))
    ensures var r := FeedAll(mode, s, [flags, dx, dy]);
      if flags / 8 % 2 == 1 then
        && r.cycle == 0 && !r.first
        && if s.first then r.x == s.x && r.y == s.y
           else r.x == Clamp(s.x + Signed(dx), mode.width - CURSOR_W) && r.y == Clamp(s.y - Signed(dy), mode.height - CURSOR_H)
      else r == FeedAll(mode, s, [dx, dy])
  {
    assert [flags, dx, dy][..2] == [flags, dx] && [flags, dx][..1] == [flags] && [flags][..0] == [];
    assert [dx, dy][..1] == [dx] && [dx][..0] == [];
    assert FeedAll(mode, s, [flags]) == Feed(mode, s, flags);
    assert FeedAll(mode, s, [flags, dx]) == Feed(mode, Feed(mode, s, flags), dx);
    assert FeedAll(mode, s, [dx]) == Feed(mode, s, dx);
  }

  /** Three bytes of which the first one can start a packet. */
  datatype Packet = Packet(flags: Byte, dx: Byte, dy: Byte)
  {
    predicate Ok() {
      flags / 8 % 2 == 1
    }

    function Bytes(): seq<Byte> {
      [flags, dx, dy]
    }
  }

  function BytesOf(ps: seq<Packet>): seq<Byte> {
    if ps == [] then [] else ps[0].Bytes() + BytesOf(ps[1..])
  }

  /** Where the packets lead from (x, y). */
  function Path(mode: Mode, x: int, y: int, ps: seq<Packet>): (int, int)
    decreases |ps|
  {
    if ps == [] then (x, y)
    else Path(mode, Clamp(x + Signed(ps[0].dx), mode.width - CURSOR_W), Clamp(y - Signed(ps[0].dy), mode.height - CURSOR_H), ps[1..])
  }

  lemma {:induction false} FeedBoth(mode: Mode, s: Motion, a: seq<Byte>, b: seq<Byte>)
    ensures FeedAll(mode, s, a + b) == FeedAll(mode, FeedAll(mode, s, a), b)
    decreases |b|
  {
    hide Feed;
    if b == [] {
      assert a + b == a;
    } else {
      FeedBoth(mode, s, a, b[..|b| - 1]);
      assert (a + b)[..|a + b| - 1] == a + b[..|b| - 1];
    }
  }

  lemma NoBytes(mode: Mode, s: Motion)
    ensures FeedAll(mode, s, []) == s
  {
  }

  /** Over every run of packets the cursor follows all of them, but for the very first one after the
      start. */
  lemma {:induction false} PacketsLead(mode: Mode, s: Motion, ps: seq<Packet>)
    requires s.cycle == 0 && OnScreen(mode, s.x, s.y) && forall p | p in ps :: p.Ok()
    ensures var r := FeedAll(mode, s, BytesOf(ps));
            && r.cycle == 0 && (r.first <==> s.first && ps == [])
            && (r.x, r.y) == Path(mode, s.x, s.y, if s.first && ps != [] then ps[1..] else ps)
    decreases |ps|
  {
    hide FeedAll, Feed, Clamp;
    if ps == [] {
      NoBytes(mode, s);
    } else {
      assert ps[0].Ok();
      PacketMoves(mode, s, ps[0].flags, ps[0].dx, ps[0].dy);
      StaysOnScreen(mode, s, ps[0].Bytes());
      FeedBoth(mode, s, ps[0].Bytes(), BytesOf(ps[1..]));
      PacketsLead(mode, FeedAll(mode, s, ps[0].Bytes()), ps[1..]);
    }
  }

  lemma TwoSteps(mode: Mode, x: int, y: int, q: Packet)
    ensures Path(mode, x, y, [q]) == (Clamp(x + Signed(q.dx), mode.width - CURSOR_W), Clamp(y - Signed(q.dy), mode.height - CURSOR_H))
  {
    assert [q][1..] == [];
  }

  /** The first two packets after the start: one is thrown away, the other one moves the cursor. */
  lemma SecondPacketMoves(mode: Mode, p: Packet, q: Packet)
    requires mode.width >= 23 && mode.height >= 39 && p.Ok() && q.Ok()
    ensures var r := FeedAll(mode, Start(mode), p.Bytes() + q.Bytes());
            && !r.first && r.x == Clamp(mode.width / 2 + Signed(q.dx), mode.width - CURSOR_W)
            && r.y == Clamp(mode.height / 2 - Signed(q.dy), mode.height - CURSOR_H)
  {
    hide FeedAll, Clamp;
    StartsOnScreen(mode);
    PacketsLead(mode, Start(mode), [p, q]);
    assert [p, q][1..] == [q] && [q][1..] == [];
    assert BytesOf([q]) == q.Bytes() + BytesOf([]) == q.Bytes() && [p, q][1..] == [q];
    assert BytesOf([p, q]) == p.Bytes() + q.Bytes();
    TwoSteps(mode, mode.width / 2, mode.height / 2, q);
  }

  // ----- the driver -----

  lemma Same(base: Image, mode: Mode, x: int, y: int, n: nat)
    requires Fits(base, mode)
    ensures Halfway(base, base, mode, x, y, n)
  {
  }

  lemma ClampNear(mode: Mode, x: int, y: int)
    requires mode.width < 0x7FFF_FF00 && mode.height < 0x7FFF_FF00
    ensures Near(mode, Clamp(x, mode.width - CURSOR_W), Clamp(y, mode.height - CURSOR_H))
  {
  }

  lemma CursorCorners(x: Int32, y: Int32)
    requires x < 0x7FFF_FF00 && y < 0x7FFF_FF00 && x >= -CURSOR_W && y >= -CURSOR_H
    ensures RectNoOverflow(Wrap(x), Wrap(y), CURSOR_W - 1, CURSOR_H - 1)
    ensures Corner(Wrap(x), Wrap(y)) == Point(x, y)
    ensures Corner(Wrap(Wrap(x) + CURSOR_W - 1), Wrap(Wrap(y) + CURSOR_H - 1)) == Point(x + CURSOR_W - 1, y + CURSOR_H - 1)
  {
    CoordinateWraps(x, CURSOR_W - 1);
    CoordinateWraps(y, CURSOR_H - 1);
    hide ToInt32, Wrap;
  }

  lemma CoordinateWraps(x: Int32, d: nat)
    requires -0x1000 <= x < 0x7FFF_FF00 && d <= 0x20
    ensures ToInt32(Wrap(x)) == x && ToInt32(Wrap(Wrap(x) + d)) == x + d
  {
  }

  class Mouse {
    const screen: Screen
    const colours: Colours
    var x: Int32
    var y: Int32
    var oldX: Int32
    var oldY: Int32
    var visible: bool
    const backup: array<Word>
    var cycle: nat
    const bytes: array<Byte>
    var first: bool

    ghost function State(): Motion
      reads this, bytes
      requires bytes.Length == 3
    {
      Motion(x, y, cycle, bytes[0], bytes[1], first)
    }

    ghost predicate Valid()
      reads this, screen, screen.px, backup, bytes
    {
      && screen.Valid() && backup.Length == CURSOR_AREA && bytes.Length == 3
      && Sane(screen.mode, State())
      && Near(screen.mode, oldX, oldY)
    }

    /** The driver can bring `base` back: the cursor hides nothing else, and the backup holds it. */
    ghost predicate Shows(base: Image)
      reads this, screen, screen.px, backup, bytes
    {
      && Valid() && visible && oldX == x && oldY == y
      && Covers(screen.img, base, screen.mode, x, y, backup[..])
    }

    /** What is shown is the cursor over `base`. */
    ghost predicate Drawn(base: Image)
      reads this, screen
    {
      Fits(base, screen.mode) && screen.img == WithCursor(base, screen.mode, x, y, colours)
    }

    /** `mouse_init`, once the hardware answers */
    constructor (s: Screen, cursorColours: Colours)
      requires s.Valid() && s.mode.width < 0x7FFF_FF00 && s.mode.height < 0x7FFF_FF00
      modifies s.px, s`img
      ensures Shows(old(s.img)) && Drawn(old(s.img)) && State() == Start(s.mode)
      ensures screen == s && colours == cursorColours && fresh(backup) && fresh(bytes)
    {
      screen, colours := s, cursorColours;
      x, y := s.mode.width / 2, s.mode.height / 2;
      oldX, oldY := s.mode.width / 2, s.mode.height / 2;
      visible := false;
      backup := new Word[CURSOR_AREA](_ => 0);
      cycle := 0;
      bytes := new Byte[3](_ => 0);
      first := true;
      new;
      CursorDraw();
    }

    lemma Sizes()
      requires Valid()
      ensures Fits(screen.img, screen.mode) && InDepth(screen.img, screen.mode)
      ensures Near(screen.mode, x, y) && Near(screen.mode, oldX, oldY)
      ensures backup.Length == CURSOR_AREA && bytes.Length == 3 && screen.Valid()
    {
    }

    /** One row of `cursor_save`. */
    method SaveRow(dy: nat)
      requires Valid() && Fits(screen.img, screen.mode) && dy < CURSOR_H
      requires Saved(backup[..], dy * CURSOR_W, screen.img, screen.mode, x, y)
      modifies backup
      ensures Valid()
      ensures Saved(backup[..], dy * CURSOR_W + CURSOR_W, screen.img, screen.mode, x, y)
    {
      hide Screen.Valid, Saved, Seen, Fits, InDepth;
      var dx := 0;
      while dx < CURSOR_W
        invariant 0 <= dx <= CURSOR_W && Valid()
        invariant Saved(backup[..], dy * CURSOR_W + dx, screen.img, screen.mode, x, y)
      {
        Sizes();
        SeenWrapped(screen.img, screen.mode, x, y, dx, dy);
        ghost var before := backup[..];
        var c := screen.GetPixel(Wrap(x + dx), Wrap(y + dy));
        SaveOne(before, dy * CURSOR_W + dx, screen.img, screen.mode, x, y, c);
        backup[dy * CURSOR_W + dx] := c;
        assert backup[..] == before[dy * CURSOR_W + dx := c];
        dx := dx + 1;
      }
    }

    /** `cursor_save` */
    method CursorSave()
      requires Valid()
      modifies backup
      ensures Valid() && Saved(backup[..], CURSOR_AREA, screen.img, screen.mode, x, y)
    {
      var dy := 0;
      while dy < CURSOR_H
        invariant 0 <= dy <= CURSOR_H && Valid()
        invariant Saved(backup[..], dy * CURSOR_W, screen.img, screen.mode, x, y)
      {
        SaveRow(dy);
        dy := dy + 1;
      }
    }

    /** What holds while the first n cells have been put back. */
    ghost predicate Restoring(base: Image, n: nat)
      reads this, screen, screen.px, backup, bytes
    {
      && Valid() && Fits(base, screen.mode) && InDepth(base, screen.mode)
      && Saved(backup[..], CURSOR_AREA, base, screen.mode, oldX, oldY)
      && Halfway(screen.img, base, screen.mode, oldX, oldY, n)
      && (!screen.mode.Supported() ==> screen.img == base)
    }

    /** One cell of `cursor_restore`. */
    method RestoreCell(dx: nat, dy: nat, ghost base: Image)
      requires dx < CURSOR_W && dy < CURSOR_H && Restoring(base, dy * CURSOR_W + dx)
      modifies screen.px, screen`img
      ensures Restoring(base, dy * CURSOR_W + dx + 1)
    {
      hide Screen.Valid, Saved, Seen, Fits, InDepth, Halfway, Paint;
      ghost var n, mode := dy * CURSOR_W + dx, screen.mode;
      Sizes();
      SeenWrapped(base, mode, oldX, oldY, dx, dy);
      SavedAt(backup[..], CURSOR_AREA, base, mode, oldX, oldY, n);
      var c := backup[dy * CURSOR_W + dx];
      if mode.Supported() {
        RestoreOne(screen.img, base, mode, oldX, oldY, n, c);
      } else {
        NothingPainted(screen.img, mode, {Point(Wrap(oldX + dx), Wrap(oldY + dy))}, c);
        Same(base, mode, oldX, oldY, n + 1);
      }
      screen.PutPixel(Wrap(oldX + dx), Wrap(oldY + dy), c);
    }

    /** `cursor_restore` gives back exactly what was under the cursor. */
    method CursorRestore(ghost base: Image)
      requires Valid() && Covers(screen.img, base, screen.mode, oldX, oldY, backup[..])
      modifies this`visible, screen.px, screen`img
      ensures Valid() && !visible
      ensures screen.img == if old(visible) then base else old(screen.img)
    {
      if !visible { return; }
      var dy := 0;
      assert Restoring(base, 0);
      while dy < CURSOR_H
        invariant 0 <= dy <= CURSOR_H && Restoring(base, dy * CURSOR_W)
      {
        hide Restoring;
        var dx := 0;
        while dx < CURSOR_W
          invariant 0 <= dx <= CURSOR_W && Restoring(base, dy * CURSOR_W + dx)
        {
          RestoreCell(dx, dy, base);
          dx := dx + 1;
        }
        dy := dy + 1;
      }
      AllRestored(screen.img, base, screen.mode, oldX, oldY);
      visible := false;
    }

    /** `cursor_draw` */
    method CursorDraw()
      requires Valid()
      modifies this`oldX, this`oldY, this`visible, backup, screen.px, screen`img
      ensures Shows(old(screen.img)) && Drawn(old(screen.img)) && State() == old(State())
    {
      hide Screen.Valid, Saved, Seen, Fits, InDepth, Halfway, Paint, FourSides;
      ghost var base := screen.img;
      Sizes();
      CursorSave();
      CursorStaysInside(base, screen.mode, x, y, colours);
      CursorCorners(x, y);
      screen.FillRect(Wrap(x), Wrap(y), CURSOR_W - 1, CURSOR_H - 1, colours.white);
      screen.DrawRect(Wrap(x), Wrap(y), CURSOR_W - 1, CURSOR_H - 1, colours.black);
      oldX := x;
      oldY := y;
      visible := true;
      Sizes();
    }

    /** The part of `mouse_process_packet` that moves the cursor. */
    method MoveBy(dx: int, dy: int, ghost base: Image)
      requires Shows(base) && -128 <= dx < 128 && -128 <= dy < 128
      modifies this`x, this`y, this`oldX, this`oldY, this`visible, backup, screen.px, screen`img
      ensures Shows(base) && Drawn(base)
      ensures State() == old(State()).(x := Clamp(old(x) + dx, screen.mode.width - CURSOR_W),
                                       y := Clamp(old(y) - dy, screen.mode.height - CURSOR_H))
    {
      hide Screen.Valid, Covers, WithCursor, Clamp;
      CursorRestore(base);
      Sizes();
      ClampNear(screen.mode, x + dx, y - dy);
      x := MoveTo(x + dx, screen.mode.width - CURSOR_W);
      y := MoveTo(y - dy, screen.mode.height - CURSOR_H);
      CursorDraw();
    }

    /** `mouse_process_packet`, without the callbacks of the layers above */
    method ProcessPacket(ghost base: Image)
      requires Shows(base)
      modifies this, backup, screen.px, screen`img
      ensures Shows(base) && (old(Drawn(base)) ==> Drawn(base))
      ensures State() == Moved(screen.mode, old(State()), bytes[2])
    {
      hide Screen.Valid, Covers, WithCursor, Clamp;
      if first {
        first := false;
        return;
      }
      var dx, dy := Signed(bytes[1]), Signed(bytes[2]);
      if dx != 0 || dy != 0 {
        MoveBy(dx, dy, base);
      }
    }

    /** The two tests that keep a coordinate on the screen. */
    static method MoveTo(v: Int32, extent: Int32) returns (r: Int32)
      ensures r == Clamp(v, extent)
    {
      r := v;
      if r < 0 { r := 0; }
      if r > extent { r := extent; }
    }

    /** `mouse_handle_interrupt`: whatever byte arrives, the cursor stays erasable. */
    method HandleInterrupt(data: Byte, ghost base: Image)
      requires Shows(base)
      modifies this, bytes, backup, screen.px, screen`img
      ensures Shows(base) && (old(Drawn(base)) ==> Drawn(base))
      ensures State() == Feed(screen.mode, old(State()), data)
    {
      hide Screen.Valid, Covers, WithCursor, Clamp;
      if cycle == 0 {
        if data / 8 % 2 == 0 { return; }
        bytes[0] := data;
        cycle := 1;
      } else if cycle == 1 {
        bytes[1] := data;
        cycle := 2;
      } else {
        bytes[2] := data;
        cycle := 0;
        ProcessPacket(base);
      }
    }

    /** The interrupts that a stream of bytes raises. */
    method HandleAll(ds: seq<Byte>, ghost base: Image)
      requires Shows(base)
      modifies this, bytes, backup, screen.px, screen`img
      ensures Shows(base) && (old(Drawn(base)) ==> Drawn(base))
      ensures State() == FeedAll(screen.mode, old(State()), ds)
    {
      assert bytes.Length == 3;
      var i := 0;
      while i < |ds|
        invariant 0 <= i <= |ds| && bytes.Length == 3 && Shows(base) && (old(Drawn(base)) ==> Drawn(base))
        invariant State() == FeedAll(screen.mode, old(State()), ds[..i])
      {
        hide Shows, Drawn, State, Feed, FeedAll;
        FeedOneMore(screen.mode, old(State()), ds, i);
        HandleInterrupt(ds[i], base);
        i := i + 1;
      }
      assert ds[..|ds|] == ds;
    }

    /** `mouse_cursor_hide` */
    method Hide(ghost base: Image)
      requires Shows(base)
      modifies this`visible, screen.px, screen`img
      ensures Valid() && !visible && screen.img == base
    {
      CursorRestore(base);
    }

    /** `mouse_cursor_show` */
    method Show()
      requires Valid()
      modifies this`oldX, this`oldY, this`visible, backup, screen.px, screen`img
      ensures Shows(old(screen.img)) && Drawn(old(screen.img)) && State() == old(State())
    {
      CursorDraw();
    }

    lemma BaseFits(base: Image)
      requires Shows(base)
      ensures Fits(base, screen.mode)
    {
    }
  }
}
