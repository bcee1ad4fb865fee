/** Two-level 32-bit page tables as values: the entry format, the hardware walk, and the two
    operations that build a task's address space.

    The entry format and the access rule are those of 32-bit paging, sections 4.3 and 4.6 of the
    Intel SDM, volume 3A.  Physical memory is a sequence of frames of 1024 words; frame f holds
    the physical addresses [f * 4096, (f + 1) * 4096). */
module PageTables {
  import opened Words
  import opened Options
  import opened PageRuns

  const ENTRIES := 1024
  const FLAGS_KERNEL := 3   // P | R/W
  const FLAGS_USER := 7     // P | R/W | U/S
  const FIRST_FRAME := MANAGED_BASE / PAGE_SIZE
  const USER_FRAME := USER_MEM_START / PAGE_SIZE

  /** A page of the linear address space: the directory index (bits 31:22) and the table index
      (bits 21:12) of its addresses. */
  datatype Page = Page(dir: nat, entry: nat)
  {
    ghost predicate Ok() {
      dir < ENTRIES && entry < ENTRIES
    }

    function Number(): nat {
      dir * ENTRIES + entry
    }
  }

  /** `addr >> 22` and `(addr >> 12) & 0x3FF` */
  function PageAt(address: Word): (p: Page)
    ensures p.Ok() && p.Number() == address / PAGE_SIZE
  {
    Page(address / 0x40_0000, address / PAGE_SIZE % ENTRIES)
  }

  type Table = t: seq<Word> | |t| == ENTRIES witness seq(ENTRIES, _ => 0)
  type Phys = seq<Table>

  // ----- entries -----

  predicate Present(e: Word) {
    e % 2 == 1
  }

  predicate Writable(e: Word) {
    e / 2 % 2 == 1
  }

  predicate User(e: Word) {
    e / 4 % 2 == 1
  }

  /** The frame that `e & ~0xFFF` addresses. */
  function FrameOf(e: Word): nat {
    e / PAGE_SIZE
  }

  /** `frame * 4096 | flags` */
  function Entry(frame: nat, flags: nat): (e: Word)
    requires frame < TWO_TO_32 / PAGE_SIZE && flags < PAGE_SIZE
    ensures FrameOf(e) == frame
  {
    frame * PAGE_SIZE + flags
  }

  /** `e | 0x4` */
  function WithUser(e: Word): (r: Word)
  {
    if User(e) then e else e + 4
  }

  /** The entry at index j of table f replaced. */
  function Put(m: Phys, f: nat, j: nat, e: Word): (r: Phys)
    requires f < |m| && j < ENTRIES
    ensures |r| == |m|
  {
    m[f := m[f][j := e]]
  }

  // ----- the hardware walk -----

  datatype Mapping = Mapping(frame: nat, user: bool, writable: bool)

  /** What the processor does with a page under page directory pd (None: page fault).
      A user access needs `user`, a user store also needs `writable`. */
  function Walk(m: Phys, pd: nat, p: Page): Option<Mapping>
    requires p.Ok()
  {
    if pd >= |m| then None
    else
      var pde := m[pd][p.dir];
      if !Present(pde) || FrameOf(pde) >= |m| then None
      else
        var pte := m[FrameOf(pde)][p.entry];
        if !Present(pte) then None
        else Some(Mapping(FrameOf(pte), User(pde) && User(pte), Writable(pde) && Writable(pte)))
  }

  predicate UserMayRead(m: Phys, pd: nat, p: Page)
    requires p.Ok()
  {
    Walk(m, pd, p).Some? && Walk(m, pd, p).value.user
  }

  predicate UserMayWrite(m: Phys, pd: nat, p: Page)
    requires p.Ok()
  {
    UserMayRead(m, pd, p) && Walk(m, pd, p).value.writable
  }

  // ----- the two operations on address spaces -----

  /** The frame the kernel-region allocator answers with, or -1. */
  ghost function FreshFrame(used: seq<bool>): int {
    if Answer(used, KernelPage) == -1 then -1 else FIRST_FRAME + Answer(used, KernelPage)
  }

  /** `paging_clone_kernel_pd`, once a frame was found: all directory entries are copied. */
  ghost function ClonePd(m: Phys, kpd: nat, f: nat): (r: Phys)
    requires kpd < |m| && f < |m|
    ensures |r| == |m|
  {
    m[f := m[kpd]]
  }

  /** The first half of `paging_set_user_accessible_for_task`: a table still shared with the
      kernel is replaced by a private copy in frame f. */
  ghost function Privatise(m: Phys, kpd: nat, pd: nat, i: nat, f: nat): (r: Phys)
    requires kpd < |m| && pd < |m| && f < |m| && i < ENTRIES && FrameOf(m[kpd][i]) < |m|
    requires f < TWO_TO_32 / PAGE_SIZE
    ensures |r| == |m|
  {
    Put(m[f := m[FrameOf(m[kpd][i])]], pd, i, Entry(f, FLAGS_KERNEL))
  }

  /** The second half: the page is entered into the private table, and the directory entry is
      opened to user mode. */
  ghost function OpenPage(m: Phys, pd: nat, p: Page): (r: Phys)
    requires pd < |m| && p.Ok() && FrameOf(m[pd][p.dir]) < |m|
    ensures |r| == |m|
  {
    var m1 := Put(m, FrameOf(m[pd][p.dir]), p.entry, Entry(p.Number(), FLAGS_USER));
    Put(m1, pd, p.dir, WithUser(m1[pd][p.dir]))
  }

  /** The three low bits of an entry in frame q. */
  lemma LowBits(e: Word, q: nat, flags: nat)
    requires e == q * PAGE_SIZE + flags && (flags == FLAGS_KERNEL || flags == FLAGS_USER)
    ensures Present(e) && Writable(e) && (User(e) <==> flags == FLAGS_USER)
  {
    var h := flags / 4;
    assert e == 2 * (2048 * q + 2 * h + 1) + 1 && e / 2 == 2 * (1024 * q + h) + 1;
    assert e == 4 * (1024 * q + h) + 3 && e / 4 == 2 * (512 * q) + h;
  }

  lemma FlagBits(e: Word)
    ensures e % PAGE_SIZE == FLAGS_KERNEL ==> Present(e) && Writable(e) && !User(e)
    ensures e % PAGE_SIZE == FLAGS_USER ==> Present(e) && Writable(e) && User(e)
  {
    hide Present, Writable, User;
    var q := e / PAGE_SIZE;
    if e % PAGE_SIZE == FLAGS_KERNEL || e % PAGE_SIZE == FLAGS_USER { LowBits(e, q, e % PAGE_SIZE); }
  }

  lemma UserBits(f: nat, e: Word)
    requires f < TWO_TO_32 / PAGE_SIZE
    ensures WithUser(Entry(f, FLAGS_KERNEL)) == Entry(f, FLAGS_USER)
    ensures e % PAGE_SIZE == FLAGS_USER ==> WithUser(e) == e
  {
    hide Present, Writable, User;
    LowBits(Entry(f, FLAGS_KERNEL), f, FLAGS_KERNEL);
    FlagBits(e);
  }

  /** Marking a page whose table is private already stores one entry. */
  lemma OpenPrivate(m: Phys, pd: nat, p: Page)
    requires pd < |m| < TWO_TO_32 / PAGE_SIZE && p.Ok()
    requires m[pd][p.dir] % PAGE_SIZE == FLAGS_USER && FrameOf(m[pd][p.dir]) < |m| && FrameOf(m[pd][p.dir]) != pd
    ensures OpenPage(m, pd, p) == Put(m, FrameOf(m[pd][p.dir]), p.entry, Entry(p.Number(), FLAGS_USER))
  {
    var m1 := Put(m, FrameOf(m[pd][p.dir]), p.entry, Entry(p.Number(), FLAGS_USER));
    UserBits(0, m[pd][p.dir]);
    assert m1[pd] == m[pd];
    assert m1[pd][p.dir := m1[pd][p.dir]] == m1[pd];
  }

  /** Marking a page whose table is still shared builds a private table in frame f. */
  lemma OpenShared(m: Phys, kpd: nat, pd: nat, p: Page, f: nat)
    requires pd < |m| < TWO_TO_32 / PAGE_SIZE && kpd < |m| && f < |m| && p.Ok() && f != pd
    requires FrameOf(m[kpd][p.dir]) < |m|
    ensures OpenPage(Privatise(m, kpd, pd, p.dir, f), pd, p) ==
            m[f := m[FrameOf(m[kpd][p.dir])][p.entry := Entry(p.Number(), FLAGS_USER)]]
             [pd := m[pd][p.dir := Entry(f, FLAGS_USER)]]
  {
    var m0 := Privatise(m, kpd, pd, p.dir, f);
    UserBits(f, 0);
    assert m0[pd][p.dir] == Entry(f, FLAGS_KERNEL);
    var m1 := Put(m0, f, p.entry, Entry(p.Number(), FLAGS_USER));
    assert m1[pd] == m0[pd] == m[pd][p.dir := Entry(f, FLAGS_KERNEL)];
    assert m1[pd][p.dir := Entry(f, FLAGS_USER)] == m[pd][p.dir := Entry(f, FLAGS_USER)];
  }
}

/** Isolation of the tasks' address spaces over every run. */
module AddressSpaces {
  import opened Words
  import opened Options
  import opened PageRuns
  import opened PageTables

  /** What a page-table frame is for.  Every such frame has one role, so no table is shared
      between two roles. */
  datatype Role = KernelPd | KernelPt(i: nat) | TaskPd(t: nat) | TaskPt(t: nat, i: nat)

  /** A task's page directory and the pages that were marked for it. */
  datatype Space = Space(pd: nat, pages: set<Page>)

  datatype World = World(m: Phys, used: seq<bool>, kpd: nat, owner: map<nat, Role>, spaces: seq<Space>)

  ghost predicate Touched(pages: set<Page>, i: nat) {
    exists j :: Page(i, j) in pages
  }

  /** A frame of the kernel region that the page allocator has handed out. */
  ghost predicate TakenKernelFrame(used: seq<bool>, f: nat) {
    FIRST_FRAME <= f < USER_FRAME && f - FIRST_FRAME < |used| && used[f - FIRST_FRAME]
  }

  /** A frame of the user region that the page allocator has handed out. */
  ghost predicate TakenUserFrame(used: seq<bool>, f: nat) {
    USER_FRAME <= f < FIRST_FRAME + |used| && used[f - FIRST_FRAME]
  }

  ghost predicate ShapeOk(w: World) {
    && |w.m| == FIRST_FRAME + |w.used| && |w.m| < TWO_TO_32 / PAGE_SIZE
    && (forall f | f in w.owner :: TakenKernelFrame(w.used, f))
    && w.kpd in w.owner && w.owner[w.kpd] == KernelPd
  }

  /** The kernel's entry i is empty or leads to the kernel's own table i, closed to user mode. */
  ghost predicate KernelEntryOk(w: World, i: nat)
    requires ShapeOk(w) && i < ENTRIES
  {
    var e := w.m[w.kpd][i];
    && (e == 0 || (e % PAGE_SIZE == FLAGS_KERNEL && FrameOf(e) in w.owner && w.owner[FrameOf(e)] == KernelPt(i)))
    && (i * ENTRIES < |w.m| ==> e != 0)
  }

  ghost predicate KernelTableOk(w: World, i: nat, j: nat)
    requires ShapeOk(w) && i < ENTRIES && j < ENTRIES && KernelEntryOk(w, i)
  {
    w.m[w.kpd][i] != 0 ==>
      var e := w.m[FrameOf(w.m[w.kpd][i])][j];
      !Present(e) || e == Entry(Page(i, j).Number(), FLAGS_KERNEL)
  }

  ghost predicate KernelOk(w: World) {
    && ShapeOk(w)
    && (forall i | 0 <= i < ENTRIES :: KernelEntryOk(w, i))
    && (forall i, j | 0 <= i < ENTRIES && 0 <= j < ENTRIES :: KernelTableOk(w, i, j))
  }

  /** Entry i of task t: the kernel's own entry, or a private table that differs from the
      kernel's table exactly at the task's pages. */
  ghost predicate TaskEntryOk(w: World, t: nat, i: nat)
    requires ShapeOk(w) && t < |w.spaces| && w.spaces[t].pd < |w.m| && i < ENTRIES
  {
    var e := w.m[w.spaces[t].pd][i];
    if Touched(w.spaces[t].pages, i) then
      e % PAGE_SIZE == FLAGS_USER && FrameOf(e) in w.owner && w.owner[FrameOf(e)] == TaskPt(t, i)
    else
      e == w.m[w.kpd][i]
  }

  ghost predicate TaskTableOk(w: World, t: nat, i: nat, j: nat)
    requires KernelOk(w) && t < |w.spaces| && w.spaces[t].pd < |w.m| && i < ENTRIES && j < ENTRIES && TaskEntryOk(w, t, i)
  {
    Touched(w.spaces[t].pages, i) ==>
      && KernelEntryOk(w, i) && w.m[w.kpd][i] != 0
      && w.m[FrameOf(w.m[w.spaces[t].pd][i])][j] ==
           if Page(i, j) in w.spaces[t].pages then Entry(Page(i, j).Number(), FLAGS_USER)
           else w.m[FrameOf(w.m[w.kpd][i])][j]
  }

  ghost predicate TaskOk(w: World, t: nat)
    requires KernelOk(w) && t < |w.spaces|
  {
    && w.spaces[t].pd in w.owner && w.owner[w.spaces[t].pd] == TaskPd(t)
    && (forall p | p in w.spaces[t].pages :: p.Ok() && TakenUserFrame(w.used, p.Number()))
    && (forall i | 0 <= i < ENTRIES :: TaskEntryOk(w, t, i))
    && (forall i, j | 0 <= i < ENTRIES && 0 <= j < ENTRIES :: TaskTableOk(w, t, i, j))
  }

  /** The invariant of every run. */
  ghost predicate Inv(w: World) {
    KernelOk(w) && forall t | 0 <= t < |w.spaces| :: TaskOk(w, t)
  }

  // ----- what the invariant means to the hardware -----

  /** The kernel's page directory maps pages only to themselves, never for user mode. */
  lemma KernelWalk(w: World, p: Page)
    requires KernelOk(w) && p.Ok()
    ensures var r := Walk(w.m, w.kpd, p); r == None || r == Some(Mapping(p.Number(), false, true))
  {
    assert KernelEntryOk(w, p.dir) && KernelTableOk(w, p.dir, p.entry);
    hide Present, Writable, User;
    EmptyEntry();
    var e := w.m[w.kpd][p.dir];
    FlagBits(e);
    if e != 0 {
      FlagBits(w.m[FrameOf(e)][p.entry]);
    }
  }

  lemma EmptyEntry()
    ensures !Present(0)
  {
  }

  /** Isolation.  In a task's address space exactly its own pages are open to user mode, each
      mapped to itself; every other page is translated as in the kernel's address space. */
  lemma Isolation(w: World, t: nat, p: Page)
    requires Inv(w) && t < |w.spaces| && p.Ok()
    ensures Walk(w.m, w.spaces[t].pd, p) ==
            if p in w.spaces[t].pages then Some(Mapping(p.Number(), true, true)) else Walk(w.m, w.kpd, p)
  {
    assert TaskOk(w, t) && TaskEntryOk(w, t, p.dir) && TaskTableOk(w, t, p.dir, p.entry);
    assert KernelEntryOk(w, p.dir) && KernelTableOk(w, p.dir, p.entry);
    if Touched(w.spaces[t].pages, p.dir) {
      var pde, kpde := w.m[w.spaces[t].pd][p.dir], w.m[w.kpd][p.dir];
      FlagBits(pde);
      FlagBits(kpde);
      var pte := w.m[FrameOf(pde)][p.entry];
      FlagBits(pte);
    } else {
      assert p !in w.spaces[t].pages by { assert p == Page(p.dir, p.entry); }
    }
  }

  // ----- steps -----

  /** Everything that changes physical memory once the kernel's own tables stand. */
  datatype Op =
    | Take(q: Request)                                  // any page allocation, for any purpose
    | Clone                                             // paging_clone_kernel_pd
    | MarkPage(t: nat, p: Page)                         // paging_set_user_accessible_for_task
    | KernelStore(f: nat, j: nat, e: Word)              // kernel data: heap, stacks, buffers, images
    | UserStore(t: nat, p: Page, j: nat, e: Word)       // task t stores a word in user mode

  /** What the callers guarantee: marked pages were granted from the user region, and the kernel's
      stores other than those of paging.c miss the page tables. */
  ghost predicate Enabled(w: World, op: Op) {
    match op
    case Take(q) => true
    case Clone => true
    case MarkPage(t, p) => t < |w.spaces| && p.Ok() && TakenUserFrame(w.used, p.Number())
    case KernelStore(f, j, e) => f < |w.m| && f !in w.owner && j < ENTRIES
    case UserStore(t, p, j, e) => t < |w.spaces| && p.Ok() && j < ENTRIES
  }

  ghost function CloneStep(w: World): World
    requires Inv(w)
  {
    var f := FreshFrame(w.used);
    if f == -1 then w
    else
      World(ClonePd(w.m, w.kpd, f), After(w.used, KernelPage), w.kpd,
            w.owner[f := TaskPd(|w.spaces|)], w.spaces + [Space(f, {})])
  }

  ghost predicate Shared(w: World, t: nat, i: nat)
    requires Inv(w) && t < |w.spaces| && i < ENTRIES
  {
    assert TaskOk(w, t);
    FrameOf(w.m[w.spaces[t].pd][i]) == FrameOf(w.m[w.kpd][i])
  }

  /** Marking page p when the private table goes to frame f and leaves the bitmap `used`. */
  ghost function MarkWith(w: World, t: nat, p: Page, f: nat, used: seq<bool>): World
    requires t < |w.spaces| && p.Ok() && w.kpd < |w.m| && w.spaces[t].pd < |w.m| && f < |w.m| < TWO_TO_32 / PAGE_SIZE
    requires FrameOf(w.m[w.kpd][p.dir]) < |w.m|
  {
    var pd := w.spaces[t].pd;
    World(OpenPage(Privatise(w.m, w.kpd, pd, p.dir, f), pd, p), used, w.kpd,
          w.owner[f := TaskPt(t, p.dir)], w.spaces[t := Space(pd, w.spaces[t].pages + {p})])
  }

  /** None: no frame is left for the private table, and storing through the null pointer that
      the allocator returned faults (page 0 is not mapped), which halts the machine. */
  ghost function MarkStep(w: World, t: nat, p: Page): Option<World>
    requires Inv(w) && Enabled(w, MarkPage(t, p))
  {
    var pd, pages := w.spaces[t].pd, w.spaces[t].pages + {p};
    assert TaskOk(w, t) && KernelEntryOk(w, p.dir) && TaskEntryOk(w, t, p.dir);
    if Shared(w, t, p.dir) then
      var f := FreshFrame(w.used);
      if f == -1 then None
      else
        Some(MarkWith(w, t, p, f, After(w.used, KernelPage)))
    else
      Some(w.(m := OpenPage(w.m, pd, p), spaces := w.spaces[t := Space(pd, pages)]))
  }

  ghost function Step(w: World, op: Op): Option<World>
    requires Inv(w) && Enabled(w, op)
  {
    match op
    case Take(q) => Some(w.(used := After(w.used, q)))
    case Clone => Some(CloneStep(w))
    case MarkPage(t, p) => MarkStep(w, t, p)
    case KernelStore(f, j, e) => Some(w.(m := Put(w.m, f, j, e)))
    case UserStore(t, p, j, e) =>
      if !UserMayWrite(w.m, w.spaces[t].pd, p) then None     // page fault
      else
        var f := Walk(w.m, w.spaces[t].pd, p).value.frame;
        if f >= |w.m| then None else Some(w.(m := Put(w.m, f, j, e)))
  }

  /** f is a frame of the kernel region that had no role and that `used` now marks. */
  ghost predicate Fresh(w: World, f: nat, used: seq<bool>) {
    && f !in w.owner && f < |w.m| && TakenKernelFrame(used, f)
    && |used| == |w.used| && forall i | 0 <= i < |used| && w.used[i] :: used[i]
  }

  lemma FreshFrameOk(w: World)
    requires ShapeOk(w) && FreshFrame(w.used) != -1
    ensures FreshFrame(w.used) >= 0 && Fresh(w, FreshFrame(w.used), After(w.used, KernelPage))
  {
  }

  /** w' keeps every role of w, and the contents of the frames whose role satisfies `keep`. */
  ghost predicate Keeps(w: World, w': World, keep: Role -> bool) {
    && |w'.m| == |w.m| && w'.kpd == w.kpd
    && |w'.used| == |w.used| && (forall i | 0 <= i < |w.used| && w.used[i] :: w'.used[i])
    && (forall f | f in w.owner :: f in w'.owner && w'.owner[f] == w.owner[f])
    && (forall f | f in w.owner && keep(w.owner[f]) && f < |w.m| :: w'.m[f] == w.m[f])
  }

  lemma KernelKept(w: World, w': World, keep: Role -> bool)
    requires KernelOk(w) && ShapeOk(w') && Keeps(w, w', keep)
    requires forall r: Role | r.KernelPd? || r.KernelPt? :: keep(r)
    ensures KernelOk(w')
  {
    forall i | 0 <= i < ENTRIES ensures KernelEntryOk(w', i) {
      assert KernelEntryOk(w, i);
    }
    forall i, j | 0 <= i < ENTRIES && 0 <= j < ENTRIES ensures KernelTableOk(w', i, j) {
      assert KernelTableOk(w, i, j) && KernelEntryOk(w, i);
    }
  }

  lemma TaskKept(w: World, w': World, keep: Role -> bool, t: nat)
    requires KernelOk(w) && t < |w.spaces| && TaskOk(w, t) && KernelOk(w') && Keeps(w, w', keep)
    requires t < |w'.spaces| && w'.spaces[t] == w.spaces[t]
    requires forall r: Role | r.KernelPd? || r.KernelPt? || r == TaskPd(t) || (r.TaskPt? && r.t == t) :: keep(r)
    ensures TaskOk(w', t)
  {
    forall i | 0 <= i < ENTRIES ensures TaskEntryOk(w', t, i) {
      assert TaskEntryOk(w, t, i) && KernelEntryOk(w, i);
    }
    forall i, j | 0 <= i < ENTRIES && 0 <= j < ENTRIES ensures TaskTableOk(w', t, i, j) {
      assert TaskTableOk(w, t, i, j) && TaskEntryOk(w, t, i) && KernelEntryOk(w, i);
    }
  }

  /** Whatever leaves the frames with a role alone keeps the invariant. */
  lemma OutsideTables(w: World, m: Phys, used: seq<bool>)
    requires Inv(w) && |m| == |w.m| && |used| == |w.used|
    requires forall f | f in w.owner :: m[f] == w.m[f]
    requires forall i | 0 <= i < |used| :: w.used[i] ==> used[i]
    ensures Inv(w.(m := m, used := used))
  {
    var w' := w.(m := m, used := used);
    KernelKept(w, w', _ => true);
    forall t | 0 <= t < |w'.spaces| ensures TaskOk(w', t) {
      TaskKept(w, w', _ => true, t);
    }
  }

  /** Cloning adds an address space without user pages. */
  lemma CloneKeepsInv(w: World)
    requires Inv(w)
    ensures Inv(CloneStep(w))
  {
    var f := FreshFrame(w.used);
    if f != -1 {
      FreshFrameOk(w);
      var w' := CloneStep(w);
      assert ShapeOk(w');
      KernelKept(w, w', _ => true);
      forall t | 0 <= t < |w.spaces| ensures TaskOk(w', t) {
        TaskKept(w, w', _ => true, t);
      }
      var n := |w.spaces|;
      assert w'.spaces[n] == Space(f, {});
      assert forall i | 0 <= i < ENTRIES :: TaskEntryOk(w', n, i);
      assert TaskOk(w', n);
    }
  }

  /** A task shares the kernel's table exactly where none of its pages lies. */
  lemma SharedIffUntouched(w: World, t: nat, i: nat)
    requires Inv(w) && t < |w.spaces| && i < ENTRIES
    ensures Shared(w, t, i) <==> !Touched(w.spaces[t].pages, i)
  {
    assert TaskOk(w, t) && TaskEntryOk(w, t, i) && KernelEntryOk(w, i);
  }

  /** Both directory entries lead to frames of physical memory. */
  lemma EntryFrames(w: World, t: nat, i: nat)
    requires Inv(w) && t < |w.spaces| && i < ENTRIES
    ensures w.kpd < |w.m| && w.spaces[t].pd < |w.m| && w.kpd != w.spaces[t].pd
    ensures FrameOf(w.m[w.kpd][i]) < |w.m| && FrameOf(w.m[w.spaces[t].pd][i]) < |w.m|
  {
    assert TaskOk(w, t) && KernelEntryOk(w, i) && TaskEntryOk(w, t, i);
  }

  /** What marking a page of task t writes: directory entry i, and one table with role TaskPt(t, i). */
  ghost predicate Marked(w: World, w': World, t: nat, p: Page)
    requires Inv(w) && Enabled(w, MarkPage(t, p))
  {
    var pd, kpt := w.spaces[t].pd, FrameOf(w.m[w.kpd][p.dir]);
    var touched := Touched(w.spaces[t].pages, p.dir);
    && ShapeOk(w') && w'.spaces == w.spaces[t := Space(pd, w.spaces[t].pages + {p})]
    && pd < |w.m| && kpt < |w.m| && w.m[w.kpd][p.dir] != 0
    && Keeps(w, w', r => r != TaskPd(t) && r != TaskPt(t, p.dir))
    && var e := w'.m[pd][p.dir];
    && w'.m[pd] == w.m[pd][p.dir := e] && e % PAGE_SIZE == FLAGS_USER
    && FrameOf(e) in w'.owner && w'.owner[FrameOf(e)] == TaskPt(t, p.dir)
    && (touched ==> e == w.m[pd][p.dir])
    && w'.m[FrameOf(e)] == w.m[if touched then FrameOf(e) else kpt][p.entry := Entry(p.Number(), FLAGS_USER)]
  }

  lemma MarkTouched(w: World, t: nat, p: Page)
    requires Inv(w) && Enabled(w, MarkPage(t, p)) && Touched(w.spaces[t].pages, p.dir)
    ensures MarkStep(w, t, p).Some? && Marked(w, MarkStep(w, t, p).value, t, p)
  {
    assert TaskOk(w, t) && TaskEntryOk(w, t, p.dir) && TaskTableOk(w, t, p.dir, p.entry) && KernelEntryOk(w, p.dir);
    SharedIffUntouched(w, t, p.dir);
    OpenPrivate(w.m, w.spaces[t].pd, p);
  }

  lemma MarkUntouched(w: World, t: nat, p: Page, f: nat, used: seq<bool>)
    requires Inv(w) && Enabled(w, MarkPage(t, p)) && !Touched(w.spaces[t].pages, p.dir)
    requires Fresh(w, f, used)
    ensures w.spaces[t].pd < |w.m| && FrameOf(w.m[w.kpd][p.dir]) < |w.m|
    ensures Marked(w, MarkWith(w, t, p, f, used), t, p)
  {
    assert TaskOk(w, t) && TaskEntryOk(w, t, p.dir) && KernelEntryOk(w, p.dir);
    OpenShared(w.m, w.kpd, w.spaces[t].pd, p, f);
  }

  /** The entries of the marked task after a page was opened. */
  lemma MarkedEntriesOk(w: World, w': World, t: nat, p: Page, i: nat)
    requires Inv(w) && Enabled(w, MarkPage(t, p)) && Marked(w, w', t, p) && KernelOk(w') && i < ENTRIES
    ensures Touched(w'.spaces[t].pages, i) <==> Touched(w.spaces[t].pages, i) || i == p.dir
    ensures TaskEntryOk(w', t, i)
  {
    assert TaskOk(w, t) && TaskEntryOk(w, t, i) && KernelEntryOk(w, i);
    assert Page(p.dir, p.entry) in w'.spaces[t].pages;
    if i != p.dir {
      assert Touched(w'.spaces[t].pages, i) ==> Touched(w.spaces[t].pages, i);
    }
  }

  /** Tables of the marked task other than the one that was written. */
  lemma OtherTableOk(w: World, w': World, t: nat, p: Page, i: nat, j: nat)
    requires Inv(w) && Enabled(w, MarkPage(t, p)) && Marked(w, w', t, p) && KernelOk(w')
    requires i < ENTRIES && j < ENTRIES && TaskEntryOk(w', t, i) && i != p.dir
    ensures TaskTableOk(w', t, i, j)
  {
    assert TaskOk(w, t) && TaskTableOk(w, t, i, j) && TaskEntryOk(w, t, i) && KernelEntryOk(w, i);
    MarkedEntriesOk(w, w', t, p, i);
  }

  lemma MarkedTablesOk(w: World, w': World, t: nat, p: Page, i: nat, j: nat)
    requires Inv(w) && Enabled(w, MarkPage(t, p)) && Marked(w, w', t, p) && KernelOk(w')
    requires i < ENTRIES && j < ENTRIES && TaskEntryOk(w', t, i)
    ensures TaskTableOk(w', t, i, j)
  {
    if i != p.dir {
      hide Inv, Marked, KernelOk, TaskTableOk;
      OtherTableOk(w, w', t, p, i, j);
    } else {
      assert TaskOk(w, t) && TaskTableOk(w, t, i, j) && TaskEntryOk(w, t, i) && KernelEntryOk(w, i);
      MarkedEntriesOk(w, w', t, p, i);
      if !Touched(w.spaces[t].pages, i) {
        assert Page(i, j) !in w.spaces[t].pages;
      }
    }
  }

  lemma MarkKeepsInv(w: World, t: nat, p: Page)
    requires Inv(w) && Enabled(w, MarkPage(t, p)) && MarkStep(w, t, p).Some?
    ensures Inv(MarkStep(w, t, p).value)
  {
    var w' := MarkStep(w, t, p).value;
    assert Marked(w, w', t, p) by {
      SharedIffUntouched(w, t, p.dir);
      if Shared(w, t, p.dir) {
        FreshFrameOk(w);
        MarkUntouched(w, t, p, FreshFrame(w.used), After(w.used, KernelPage));
      } else {
        MarkTouched(w, t, p);
      }
    }
    MarkedKeepsInv(w, w', t, p);
  }

  /** The outcome of a marking apart from the tables: it fails only without a frame, and takes at
      most one. */
  ghost predicate MarkOutcome(w: World, r: Option<World>, t: nat, p: Page)
    requires t < |w.spaces|
  {
    if r.None? then FreshFrame(w.used) == -1
    else
      && r.value.spaces == w.spaces[t := Space(w.spaces[t].pd, w.spaces[t].pages + {p})]
      && (r.value.used == w.used || r.value.used == After(w.used, KernelPage))
      && r.value.kpd == w.kpd && |r.value.m| == |w.m|
  }

  lemma MarkGives(w: World, t: nat, p: Page)
    requires Inv(w) && Enabled(w, MarkPage(t, p))
    ensures MarkOutcome(w, MarkStep(w, t, p), t, p)
  {
    hide OpenPage, Privatise, After, FreshFrame;
  }

  lemma MarkedKeepsInv(w: World, w': World, t: nat, p: Page)
    requires Inv(w) && Enabled(w, MarkPage(t, p)) && Marked(w, w', t, p)
    ensures Inv(w')
  {
    var keep := r => r != TaskPd(t) && r != TaskPt(t, p.dir);
    KernelKept(w, w', keep);
    forall u | 0 <= u < |w'.spaces| ensures TaskOk(w', u) {
      assert TaskOk(w, u);
      if u != t {
        TaskKept(w, w', keep, u);
      } else {
        forall i | 0 <= i < ENTRIES ensures TaskEntryOk(w', t, i) { MarkedEntriesOk(w, w', t, p, i); }
        forall i, j | 0 <= i < ENTRIES && 0 <= j < ENTRIES ensures TaskTableOk(w', t, i, j) { MarkedTablesOk(w, w', t, p, i, j); }
      }
    }
  }

  /** A user store that does not fault hits one of the task's own pages, hence no page table. */
  lemma UserStoreConfined(w: World, t: nat, p: Page, j: nat, e: Word)
    requires Inv(w) && Enabled(w, UserStore(t, p, j, e)) && Step(w, UserStore(t, p, j, e)).Some?
    ensures var w' := Step(w, UserStore(t, p, j, e)).value;
            && p in w.spaces[t].pages && USER_FRAME <= p.Number() < |w.m|
            && p.Number() !in w.owner
            && w' == w.(m := Put(w.m, p.Number(), j, e))
    ensures p in w.spaces[t].pages <==> UserMayWrite(w.m, w.spaces[t].pd, p)
  {
    Isolation(w, t, p);
    KernelWalk(w, p);
    assert TaskOk(w, t);
  }

  lemma StepKeepsInv(w: World, op: Op)
    requires Inv(w) && Enabled(w, op) && Step(w, op).Some?
    ensures Inv(Step(w, op).value)
  {
    match op
    case Take(q) => OutsideTables(w, w.m, After(w.used, q));
    case Clone => CloneKeepsInv(w);
    case MarkPage(t, p) => MarkKeepsInv(w, t, p);
    case KernelStore(f, j, e) => OutsideTables(w, Put(w.m, f, j, e), w.used);
    case UserStore(t, p, j, e) =>
      UserStoreConfined(w, t, p, j, e);
      OutsideTables(w, Put(w.m, p.Number(), j, e), w.used);
  }

  // ----- runs -----

  /** The state after a run of steps; None when a step is not enabled or faults. */
  ghost function Run(w: World, ops: seq<Op>): (r: Option<World>)
    requires Inv(w)
    ensures r.Some? ==> Inv(r.value)
    decreases |ops|
  {
    if ops == [] then Some(w)
    else if !Enabled(w, ops[0]) || Step(w, ops[0]).None? then None
    else
      StepKeepsInv(w, ops[0]);
      Run(Step(w, ops[0]).value, ops[1..])
  }

  ghost function PagesOf(w: World, t: nat): set<Page> {
    if t < |w.spaces| then w.spaces[t].pages else {}
  }

  lemma StepGives(w: World, op: Op, t: nat, p: Page)
    requires Inv(w) && Enabled(w, op) && Step(w, op).Some?
    ensures p in PagesOf(Step(w, op).value, t) <==> p in PagesOf(w, t) || op == MarkPage(t, p)
  {
  }

  /** A task's pages after a run are those it had and those marked for it in the run. */
  lemma {:induction false} RunGives(w: World, ops: seq<Op>, t: nat, p: Page)
    requires Inv(w) && Run(w, ops).Some?
    ensures p in PagesOf(Run(w, ops).value, t) <==> p in PagesOf(w, t) || MarkPage(t, p) in ops
    decreases |ops|
  {
    hide Inv, Step, Enabled, PagesOf;
    if ops != [] {
      StepKeepsInv(w, ops[0]);
      StepGives(w, ops[0], t, p);
      var w1 := Step(w, ops[0]).value;
      RunGives(w1, ops[1..], t, p);
      assert ops == [ops[0]] + ops[1..];
    }
  }

  lemma InvKernel(w: World)
    requires Inv(w)
    ensures KernelOk(w)
  {
  }

  lemma PageInRegion(w: World, t: nat, p: Page)
    requires Inv(w) && t < |w.spaces| && p in w.spaces[t].pages
    ensures p.Ok() && USER_FRAME <= p.Number()
  {
    assert TaskOk(w, t);
  }

  /** Isolation over every run: whatever is created, allocated and stored, in whatever order, a
      page is open to a task's user-mode code exactly if it was marked for that task, it is then
      mapped to itself, it lies in the user region, and all other pages are the kernel's own
      supervisor mapping of the page to itself, or fault. */
  lemma IsolationOverRuns(w: World, ops: seq<Op>, t: nat, p: Page)
    requires Inv(w) && w.spaces == [] && Run(w, ops).Some?
    requires t < |Run(w, ops).value.spaces| && p.Ok()
    ensures var w' := Run(w, ops).value;
            var r := Walk(w'.m, w'.spaces[t].pd, p);
            if MarkPage(t, p) in ops then
              r == Some(Mapping(p.Number(), true, true)) && USER_MEM_START <= p.Number() * PAGE_SIZE
            else
              r == Walk(w'.m, w'.kpd, p) && (r == None || r == Some(Mapping(p.Number(), false, true)))
  {
    hide Inv, Walk, Run, Step, Enabled;
    var w' := Run(w, ops).value;
    RunGives(w, ops, t, p);
    Isolation(w', t, p);
    InvKernel(w');
    KernelWalk(w', p);
    if p in w'.spaces[t].pages { PageInRegion(w', t, p); }
  }

  /** Two tasks see each other's private pages neither for reading nor for writing: a user store
      of one task leaves every page that is not its own unchanged, in particular all page
      tables, so it cannot change any task's translations either. */
  lemma TasksCannotInterfere(w: World, t: nat, p: Page, j: nat, e: Word, u: nat, q: Page)
    requires Inv(w) && Enabled(w, UserStore(t, p, j, e)) && Step(w, UserStore(t, p, j, e)).Some?
    requires u < |w.spaces| && q.Ok() && q.Number() < |w.m|
    ensures var w' := Step(w, UserStore(t, p, j, e)).value;
            && (q !in w.spaces[t].pages ==> w'.m[q.Number()] == w.m[q.Number()])
            && Walk(w'.m, w.spaces[u].pd, q) == Walk(w.m, w.spaces[u].pd, q)
            && Walk(w'.m, w.kpd, q) == Walk(w.m, w.kpd, q)
  {
    hide Inv, TaskOk, Walk, Step;
    UserStoreConfined(w, t, p, j, e);
    StepKeepsInv(w, UserStore(t, p, j, e));
    var w' := Step(w, UserStore(t, p, j, e)).value;
    Isolation(w, u, q);
    Isolation(w', u, q);
    InvKernel(w);
    SameKernelWalk(w, p.Number(), j, e, q);
  }

  /** A store outside the page tables keeps the kernel's translations. */
  lemma SameKernelWalk(w: World, f: nat, j: nat, e: Word, q: Page)
    requires KernelOk(w) && f < |w.m| && j < ENTRIES && f !in w.owner && q.Ok()
    ensures Walk(Put(w.m, f, j, e), w.kpd, q) == Walk(w.m, w.kpd, q)
  {
    assert KernelEntryOk(w, q.dir);
  }
}
