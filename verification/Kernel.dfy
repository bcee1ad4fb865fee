/** The components together: the processor runs each task in its own address space, and the two
    allocators deliver what task creation needs. */
module Kernel {
  import opened Words
  import opened PageRuns
  import opened PageTables
  import opened UserCopy
  import A = AddressSpaces
  import S = Switching
  import H = HeapState

  // ----- page directories and the scheduler -----

  datatype Machine = Machine(spaces: A.World, tasks: S.World)

  /** A CR3 value of some task's address space. */
  ghost predicate IsSpace(a: A.World, cr3: Word, i: nat) {
    i < |a.spaces| && cr3 == a.spaces[i].pd * PAGE_SIZE
  }

  ghost predicate SomeSpace(a: A.World, cr3: Word) {
    exists i: nat :: IsSpace(a, cr3, i)
  }

  ghost predicate TaskSpaceOk(k: Machine, t: Word) {
    t + S.TCB_SIZE <= |k.tasks.mem| && (k.tasks.mem[t + S.CR3] == 0 || SomeSpace(k.spaces, k.tasks.mem[t + S.CR3]))
  }

  /** Control blocks name page directories that exist, and so does the processor's CR3. */
  ghost predicate Coherent(k: Machine) {
    && A.Inv(k.spaces) && S.Inv(k.tasks)
    && (forall t {:trigger TaskSpaceOk(k, t)} | t in k.tasks.ring :: TaskSpaceOk(k, t))
    && (k.tasks.cr3 == k.spaces.kpd * PAGE_SIZE || SomeSpace(k.spaces, k.tasks.cr3))
  }

  /** The current task's `cr3` field. */
  ghost function CurrentCr3(k: Machine): Word
    requires Coherent(k)
  {
    assert k.tasks.ring[0] in k.tasks.ring && TaskSpaceOk(k, k.tasks.ring[0]);
    k.tasks.mem[k.tasks.ring[0] + S.CR3]
  }

  /** What `page_is_user_accessible` decides: it walks the current task's directory, or the
      kernel's if the task has none. */
  ghost predicate Checker(k: Machine, p: Page)
    requires Coherent(k) && p.Ok()
  {
    UserMayRead(k.spaces.m, if CurrentCr3(k) != 0 then FrameOf(CurrentCr3(k)) else k.spaces.kpd, p)
  }

  /** What the processor decides. */
  ghost predicate Hardware(k: Machine, p: Page)
    requires Coherent(k) && p.Ok()
  {
    UserMayRead(k.spaces.m, FrameOf(k.tasks.cr3), p)
  }

  lemma FrameOfBase(f: int)
    requires 0 <= f * PAGE_SIZE < TWO_TO_32
    ensures FrameOf(f * PAGE_SIZE) == f
  {
  }

  /** A page of an address space is open to user mode exactly if it was given to the task. */
  lemma OpenIffOwned(k: Machine, i: nat, p: Page)
    requires A.Inv(k.spaces) && i < |k.spaces.spaces| && p.Ok()
    ensures UserMayRead(k.spaces.m, k.spaces.spaces[i].pd, p) <==> p in k.spaces.spaces[i].pages
    ensures !UserMayRead(k.spaces.m, k.spaces.kpd, p)
  {
    hide A.Inv, Walk;
    A.Isolation(k.spaces, i, p);
    A.InvKernel(k.spaces);
    A.KernelWalk(k.spaces, p);
  }

  /** The pages of the address space that the processor has loaded; none for the kernel's. */
  ghost predicate LoadedPage(k: Machine, p: Page) {
    exists i: nat :: IsSpace(k.spaces, k.tasks.cr3, i) && p in k.spaces.spaces[i].pages
  }

  lemma HardwareOpen(k: Machine, p: Page)
    requires Coherent(k) && p.Ok()
    ensures Hardware(k, p) <==> LoadedPage(k, p)
  {
    hide A.Inv, S.Inv, UserMayRead, TaskSpaceOk;
    A.InvKernel(k.spaces);
    if k.tasks.cr3 == k.spaces.kpd * PAGE_SIZE {
      FrameOfBase(k.spaces.kpd);
      KernelClosed(k, p);
      forall i: nat | IsSpace(k.spaces, k.tasks.cr3, i) ensures p !in k.spaces.spaces[i].pages {
        OpenIffOwned(k, i, p);
      }
    } else {
      var j: nat :| IsSpace(k.spaces, k.tasks.cr3, j);
      FrameOfBase(k.spaces.spaces[j].pd);
      forall i: nat | IsSpace(k.spaces, k.tasks.cr3, i)
        ensures UserMayRead(k.spaces.m, FrameOf(k.tasks.cr3), p) <==> p in k.spaces.spaces[i].pages
      {
        OpenIffOwned(k, i, p);
      }
    }
  }

  lemma KernelClosed(k: Machine, p: Page)
    requires A.Inv(k.spaces) && p.Ok()
    ensures !UserMayRead(k.spaces.m, k.spaces.kpd, p)
  {
    hide Walk;
    A.KernelWalk(k.spaces, p);
  }

  /** The pages of a space are proper pages. */
  lemma PagesOk(k: Machine, i: nat, p: Page)
    requires A.Inv(k.spaces) && i < |k.spaces.spaces| && p in k.spaces.spaces[i].pages
    ensures p.Ok()
  {
    assert A.TaskOk(k.spaces, i);
  }

  /** The software check agrees with the hardware on every page exactly if the current task has a
      page directory of its own, or the directory that is still loaded opens no page at all.
      (`switch_to` does not touch CR3 when it switches to a task whose `cr3` is 0.) */
  lemma CheckerAgrees(k: Machine)
    requires Coherent(k)
    ensures (forall p: Page | p.Ok() :: Checker(k, p) == Hardware(k, p)) <==>
            CurrentCr3(k) != 0 || !exists p: Page :: LoadedPage(k, p)
    ensures CurrentCr3(k) != 0 ==> k.tasks.cr3 == CurrentCr3(k)
  {
    hide UserMayRead, A.Inv, FrameOf;
    assert CurrentCr3(k) != 0 ==> k.tasks.cr3 == CurrentCr3(k) by { CurrentLoaded(k); }
    if CurrentCr3(k) == 0 {
      forall p: Page | p.Ok() ensures !Checker(k, p) && (Hardware(k, p) <==> LoadedPage(k, p)) {
        KernelClosed(k, p);
        HardwareOpen(k, p);
      }
      if p: Page :| LoadedPage(k, p) {
        var i: nat :| IsSpace(k.spaces, k.tasks.cr3, i) && p in k.spaces.spaces[i].pages;
        PagesOk(k, i, p);
        assert Checker(k, p) != Hardware(k, p);
      }
    }
  }

  /** CR3 and TSS.esp0 belong to the current task, as far as it has a directory and a stack. */
  lemma CurrentLoaded(k: Machine)
    requires Coherent(k)
    ensures CurrentCr3(k) != 0 ==> k.tasks.cr3 == CurrentCr3(k)
    ensures var t := k.tasks.ring[0];
            t + S.TCB_SIZE <= |k.tasks.mem| && (k.tasks.mem[t + S.KSTACK] != 0 ==> k.tasks.esp0 == k.tasks.mem[t + S.KSTACK])
  {
    assert S.TaskPlaced(k.tasks, k.tasks.ring[0]) && S.CurrentOk(k.tasks, k.tasks.ring[0]);
  }

  /** No page below 0x800000 is open to user mode, for the checker or for the hardware, whatever task
      runs.  In particular page 0 is closed, which the copy functions rely on. */
  lemma NoLowPages(k: Machine, p: Page)
    requires Coherent(k) && p.Ok() && p.Number() < USER_FRAME
    ensures !Checker(k, p) && !Hardware(k, p)
  {
    hide UserMayRead, A.Inv, S.Inv, TaskSpaceOk;
    HardwareOpen(k, p);
    forall i: nat | i < |k.spaces.spaces| ensures p !in k.spaces.spaces[i].pages {
      if p in k.spaces.spaces[i].pages { A.PageInRegion(k.spaces, i, p); }
    }
    KernelClosed(k, p);
    if CurrentCr3(k) != 0 {
      CurrentLoaded(k);
    }
  }

  // ----- the copy functions -----

  /** The check that the copy functions of UserCopy use for the current task: the answer of
      `page_is_user_accessible` for the number of a page. */
  ghost function Accessible(k: Machine): nat -> bool
    requires Coherent(k)
  {
    (n: nat) => n < ENTRIES * ENTRIES && Checker(k, PageNumbered(n))
  }

  function PageNumbered(n: nat): (p: Page)
    ensures p.Number() == n && (n < ENTRIES * ENTRIES ==> p.Ok())
  {
    Page(n / ENTRIES, n % ENTRIES)
  }

  lemma SamePage(p: Page)
    requires p.Ok()
    ensures p.Number() < ENTRIES * ENTRIES && PageNumbered(p.Number()) == p
  {
  }

  /** It is what the walk of `page_is_user_accessible` (`Paging.Mmu.PageIsUserAccessible`) answers for an
      address, and it meets the one demand of the copy functions: page 0 is closed. */
  lemma AccessibleIs(k: Machine, address: Word)
    requires Coherent(k)
    ensures Accessible(k)(address / PAGE_SIZE) <==>
            UserMayRead(k.spaces.m, if CurrentCr3(k) != 0 then FrameOf(CurrentCr3(k)) else k.spaces.kpd, PageAt(address))
    ensures !Accessible(k)(0)
  {
    hide Coherent, UserMayRead;
    SamePage(PageAt(address));
    SamePage(PageNumbered(0));
    NoLowPages(k, PageNumbered(0));
  }

  /** So a copy succeeds on a range exactly if the current task holds all its pages (and the range ends at
      or below 0xFFFFF000); a task without a directory holds none. */
  lemma CopiesReachOwnPages(k: Machine, i: nat, start: Word, size: Word)
    requires Coherent(k) && (CurrentCr3(k) == 0 || IsSpace(k.spaces, CurrentCr3(k), i))
    ensures CurrentCr3(k) == 0 && size > 0 ==> !AllAccessible(Accessible(k), start, size)
    ensures CurrentCr3(k) != 0 ==>
              (AllAccessible(Accessible(k), start, size) <==>
                 start + size <= TWO_TO_32 && forall a: Word | start <= a < start + size :: PageAt(a) in k.spaces.spaces[i].pages)
  {
    hide Coherent, A.Inv, UserMayRead;
    CoherentInv(k);
    forall a: Word
      ensures Accessible(k)(a / PAGE_SIZE) <==> CurrentCr3(k) != 0 && PageAt(a) in k.spaces.spaces[i].pages
    {
      AccessibleIs(k, a);
      KernelClosed(k, PageAt(a));
      if CurrentCr3(k) != 0 {
        FrameOfBase(k.spaces.spaces[i].pd);
        OpenIffOwned(k, i, PageAt(a));
      }
    }
    if CurrentCr3(k) == 0 && size > 0 && start + size <= TWO_TO_32 {
      assert !Accessible(k)(start / PAGE_SIZE);
    }
  }

  lemma CoherentInv(k: Machine)
    requires Coherent(k)
    ensures A.Inv(k.spaces)
  {
  }

  // ----- the scheduler's steps -----

  /** The `cr3` field of task t after a step of the scheduler: what it was, or what it was created with. */
  lemma FieldStays(w: S.World, op: S.Op, t: Word)
    requires S.Inv(w) && S.Enabled(w, op) && t in S.Step(w, op).ring
    ensures t + S.TCB_SIZE <= |S.Step(w, op).mem|
    ensures if op.DoCreate? && t == op.n.t then S.Step(w, op).mem[t + S.CR3] == op.n.cr3
            else t in w.ring && t + S.TCB_SIZE <= |w.mem| && S.Step(w, op).mem[t + S.CR3] == w.mem[t + S.CR3]
  {
    if op.DoCreate? && t == op.n.t {
      S.CreateStores(w, op.n);
    } else {
      assert t in w.ring;
      assert S.TaskPlaced(w, t);
      hide S.YieldMem, S.CreateMem;
      if op.DoYield? && |w.ring| > 1 {
        S.YieldKeepsTcb(w, op.ret, t, S.CR3);
      } else if op.DoCreate? {
        S.CreatePlaces(w, op.n, t);
        S.CreateKeeps(w, op.n, t);
      }
    }
  }

  lemma LoadedStays(w: S.World, op: S.Op)
    requires S.Inv(w) && S.Enabled(w, op)
    ensures |w.ring| > 0 && w.ring[if |w.ring| > 1 then 1 else 0] + S.TCB_SIZE <= |w.mem|
    ensures S.Step(w, op).cr3 == w.cr3 || exists t {:trigger S.TaskPlaced(w, t)} :: t in w.ring && S.TaskPlaced(w, t) && S.Step(w, op).cr3 == w.mem[t + S.CR3] != 0
  {
    var t := w.ring[if |w.ring| > 1 then 1 else 0];
    assert S.TaskPlaced(w, t);
    hide S.YieldMem, S.CreateMem;
  }

  /** Control blocks keep naming page directories that exist, and the processor uses one of them, if new
      tasks get a directory that `paging_clone_kernel_pd` has made, or none. */
  lemma ScheduleOk(k: Machine, op: S.Op)
    requires Coherent(k) && S.Enabled(k.tasks, op) && (op.DoCreate? ==> op.n.cr3 == 0 || SomeSpace(k.spaces, op.n.cr3))
    ensures Coherent(Machine(k.spaces, S.Step(k.tasks, op)))
  {
    var k1 := Machine(k.spaces, S.Step(k.tasks, op));
    hide A.Inv, S.Inv, S.Step, S.Enabled;
    S.StepKeepsInv(k.tasks, op);
    forall t | t in k1.tasks.ring ensures TaskSpaceOk(k1, t) {
      FieldStays(k.tasks, op, t);
      assert t in k.tasks.ring ==> TaskSpaceOk(k, t);
    }
    LoadedStays(k.tasks, op);
    if k1.tasks.cr3 != k.tasks.cr3 {
      var t :| t in k.tasks.ring && S.TaskPlaced(k.tasks, t) && k1.tasks.cr3 == k.tasks.mem[t + S.CR3] != 0;
      assert TaskSpaceOk(k, t);
    }
  }

  // ----- the allocators and task creation -----

  const KSTACK_SIZE := 2 * PAGE_SIZE

  /** Every page that meets [lo, hi) is in use. */
  ghost predicate RangeUsed(used: seq<bool>, lo: int, hi: int) {
    forall p | 0 <= p < |used| && PageAddress(p) < hi && lo < PageAddress(p + 1) :: used[p]
  }

  ghost predicate OutsideHeap(h: H.Heap, lo: int, hi: int) {
    forall s | s in h.spans :: hi <= s.lo || s.hi <= lo
  }

  /** The control block is the payload of a live heap block; the kernel stack lies outside the heap,
      in pages that are in use or below the managed memory. */
  ghost predicate TaskBacked(w: S.World, h: H.Heap, used: seq<bool>, t: Word) {
    && t in w.stacks && h.IsLive(t - H.HEADER_SIZE)
    && t + S.TCB_SIZE <= h.End(t - H.HEADER_SIZE)
    && RangeUsed(used, w.stacks[t].lo, w.stacks[t].hi)
    && OutsideHeap(h, w.stacks[t].lo, w.stacks[t].hi)
  }

  ghost predicate AllBacked(w: S.World, h: H.Heap, used: seq<bool>) {
    && H.Tiled(h)
    && (forall s | s in h.spans :: RangeUsed(used, s.lo, s.hi))
    && (forall t {:trigger TaskBacked(w, h, used, t)} | t in w.ring :: TaskBacked(w, h, used, t))
  }

  /** The two pages from lo on are a kernel stack for a task that is still being created. */
  ghost predicate StackReady(w: S.World, h: H.Heap, used: seq<bool>, lo: int) {
    && MANAGED_BASE <= lo && lo + KSTACK_SIZE <= USER_MEM_START && lo % PAGE_SIZE == 0
    && RangeUsed(used, lo, lo + KSTACK_SIZE) && OutsideHeap(h, lo, lo + KSTACK_SIZE)
    && forall u | u in w.ring && u in w.stacks :: w.stacks[u].hi <= lo || lo + KSTACK_SIZE <= w.stacks[u].lo
  }

  /** A range that an allocator grants misses everything that is in use, and is in use afterwards. */
  lemma GrantMisses(used: seq<bool>, q: Request, lo: int, hi: int)
    requires Answer(used, q) != -1 && RangeUsed(used, lo, hi)
    ensures var i, n := Answer(used, q), q.Count();
            && 0 <= i && i + n <= |used| && n > 0 && MANAGED_BASE <= PageAddress(i)
            && (!q.ForUser() ==> PageAddress(i + n) <= USER_MEM_START)
            && (hi <= lo || hi <= PageAddress(i) || PageAddress(i + n) <= lo)
            && RangeUsed(After(used, q), PageAddress(i), PageAddress(i + n))
    ensures RangeUsed(After(used, q), lo, hi)
  {
    MeetsPage(Answer(used, q), q.Count(), lo, hi);
  }

  ghost predicate Meets(p: int, lo: int, hi: int) {
    PageAddress(p) < hi && lo < PageAddress(p + 1)
  }

  /** A range that meets a run of pages meets one of its pages. */
  lemma MeetsPage(i: int, n: nat, lo: int, hi: int)
    requires n > 0
    ensures hi <= lo || hi <= PageAddress(i) || PageAddress(i + n) <= lo || exists p :: i <= p < i + n && Meets(p, lo, hi)
  {
    if lo < hi && PageAddress(i) < hi && lo < PageAddress(i + n) {
      var p := if PageAddress(i) > lo then i else (lo - MANAGED_BASE) / PAGE_SIZE;
      assert i <= p < i + n && Meets(p, lo, hi);
    }
  }

  lemma StillUsed(used: seq<bool>, q: Request, lo: int, hi: int)
    requires RangeUsed(used, lo, hi)
    ensures RangeUsed(After(used, q), lo, hi)
  {
  }

  /** First the kernel stack: the pages that `pmm_alloc_contiguous_pages(2)` grants are nobody
      else's, neither a task's nor the heap's. */
  lemma StackGranted(w: S.World, h: H.Heap, used: seq<bool>)
    requires S.Inv(w) && AllBacked(w, h, used) && Answer(used, KernelRun(2)) != -1
    ensures StackReady(w, h, After(used, KernelRun(2)), Reply(used, KernelRun(2)))
    ensures AllBacked(w, h, After(used, KernelRun(2)))
  {
    hide S.Inv, H.Tiled, Answer, After, RangeUsed;
    var q := KernelRun(2);
    var lo := Reply(used, q);
    EmptyRange(used);
    GrantMisses(used, q, 0, 0);
    forall s | s in h.spans ensures lo + KSTACK_SIZE <= s.lo || s.hi <= lo {
      SpanFacts(h, s);
      GrantMisses(used, q, s.lo, s.hi);
    }
    forall u | u in w.ring && u in w.stacks ensures w.stacks[u].hi <= lo || lo + KSTACK_SIZE <= w.stacks[u].lo {
      OldTask(w, h, used, u);
      GrantMisses(used, q, w.stacks[u].lo, w.stacks[u].hi);
    }
    StillAllBacked(w, h, used, q);
  }

  lemma EmptyRange(used: seq<bool>)
    ensures RangeUsed(used, 0, 0)
  {
  }

  lemma SpanFacts(h: H.Heap, s: H.Span)
    requires H.Tiled(h) && s in h.spans
    ensures s.lo < s.hi && |h.mem| == USER_MEM_START
  {
    assert H.SpanOk(h, s);
  }

  lemma OldTask(w: S.World, h: H.Heap, used: seq<bool>, u: Word)
    requires S.Inv(w) && AllBacked(w, h, used) && u in w.ring
    ensures TaskBacked(w, h, used, u) && w.stacks[u].lo < w.stacks[u].hi
    ensures RangeUsed(used, w.stacks[u].lo, w.stacks[u].hi)
  {
    assert S.TaskPlaced(w, u);
  }

  lemma StillAllBacked(w: S.World, h: H.Heap, used: seq<bool>, q: Request)
    requires AllBacked(w, h, used)
    ensures AllBacked(w, h, After(used, q))
  {
    hide H.Tiled, After, RangeUsed;
    forall lo, hi | RangeUsed(used, lo, hi) ensures RangeUsed(After(used, q), lo, hi) { StillUsed(used, q, lo, hi); }
    forall t | t in w.ring ensures TaskBacked(w, h, After(used, q), t) {
      assert TaskBacked(w, h, used, t);
    }
  }

  /** The heap may have changed, as long as every live block is still there. */
  ghost predicate KeepsLive(h: H.Heap, h1: H.Heap) {
    forall x | h.IsLive(x) :: h1.IsLive(x) && h1.End(x) == h.End(x)
  }

  /** The spans are the same, or the heap has grown by what request q was granted. */
  ghost predicate GrownBy(h: H.Heap, h1: H.Heap, used: seq<bool>, q: Request) {
    || h1.spans == h.spans
    || (Answer(used, q) != -1 && h1.spans == h.spans + [H.Span(PageAddress(Answer(used, q)), PageAddress(Answer(used, q) + q.Count()))])
  }

  /** Other pages are allocated: for a page directory, for private page tables, for user pages, or for the
      heap, which may grow by what it is granted. */
  lemma AllocationsKeep(w: S.World, h: H.Heap, h1: H.Heap, used: seq<bool>, q: Request)
    requires S.Inv(w) && AllBacked(w, h, used) && H.Tiled(h1) && KeepsLive(h, h1) && GrownBy(h, h1, used, q)
    ensures AllBacked(w, h1, After(used, q))
  {
    hide S.Inv, H.Tiled, Answer, After, RangeUsed;
    var used1 := After(used, q);
    forall a, b | RangeUsed(used, a, b) ensures RangeUsed(used1, a, b) { StillUsed(used, q, a, b); }
    EmptyRange(used);
    if Answer(used, q) != -1 { GrantMisses(used, q, 0, 0); }
    forall s | s in h1.spans ensures RangeUsed(used1, s.lo, s.hi) {
      assert s in h.spans ==> RangeUsed(used, s.lo, s.hi);
    }
    forall t | t in w.ring ensures TaskBacked(w, h1, used1, t) {
      OldTask(w, h, used, t);
      StillOutside(h, h1, used, q, w.stacks[t].lo, w.stacks[t].hi);
    }
  }

  /** A kernel stack that is waiting for its task stays nobody else's. */
  lemma StackStaysReady(w: S.World, h: H.Heap, h1: H.Heap, used: seq<bool>, q: Request, lo: int)
    requires StackReady(w, h, used, lo) && GrownBy(h, h1, used, q)
    ensures StackReady(w, h1, After(used, q), lo)
  {
    hide After, RangeUsed, GrownBy;
    StillUsed(used, q, lo, lo + KSTACK_SIZE);
    StillOutside(h, h1, used, q, lo, lo + KSTACK_SIZE);
  }

  lemma StillOutside(h: H.Heap, h1: H.Heap, used: seq<bool>, q: Request, lo: int, hi: int)
    requires OutsideHeap(h, lo, hi) && RangeUsed(used, lo, hi) && lo < hi
    requires GrownBy(h, h1, used, q)
    ensures OutsideHeap(h1, lo, hi)
  {
    hide Answer;
    if h1.spans != h.spans { GrantMisses(used, q, lo, hi); }
  }

  /** Two blocks do not overlap. */
  lemma BlocksMiss(h: H.Heap, x: int, y: int)
    requires H.Tiled(h) && x in h.starts && y in h.starts
    ensures H.BlockOk(h, x) && H.BlockOk(h, y) && (x != y ==> h.End(x) <= y || h.End(y) <= x)
  {
    H.TiledBlock(h, x);
    H.TiledBlock(h, y);
    if x < y { H.TiledPrecedes(h, x, y); } else if y < x { H.TiledPrecedes(h, y, x); }
  }

  /** No block meets a range outside the heap. */
  lemma BlockMisses(h: H.Heap, b: int, lo: int, hi: int)
    requires H.Tiled(h) && b in h.starts && OutsideHeap(h, lo, hi)
    ensures H.BlockOk(h, b) && (h.End(b) <= lo || hi <= b)
  {
    H.TiledBlock(h, b);
  }

  /** The control block n.t is the payload of the live block b, and the stack is the one at lo. */
  ghost predicate Gets(h: H.Heap, b: Word, lo: int, n: S.NewTask) {
    && h.IsLive(b) && n.t == b + H.HEADER_SIZE && n.t + S.TCB_SIZE <= h.End(b)
    && n.stack == S.Stack(lo, lo + KSTACK_SIZE)
  }

  /** Last the control block: with the stack and a block that `kmalloc` has just returned, the
      premise of the creation step holds, and afterwards all tasks are backed again. */
  lemma AllocationsSuffice(w: S.World, h: H.Heap, used: seq<bool>, lo: int, b: Word, n: S.NewTask)
    requires S.Inv(w) && AllBacked(w, h, used) && StackReady(w, h, used, lo)
    requires Gets(h, b, lo, n) && n.t !in w.ring
    ensures S.CanCreate(w, n)
    ensures AllBacked(S.Create(w, n), h, used)
  {
    hide S.Inv, H.Tiled, S.CreateMem, TaskBacked, OutsideHeap, RangeUsed;
    MayCreate(w, h, used, lo, b, n);
    InvSize(w);
    NewBacked(w, h, used, lo, b, n);
    var w1 := S.Create(w, n);
    forall t | t in w1.ring ensures TaskBacked(w1, h, used, t) {
      if t != n.t {
        assert t in w.ring;
        OldBacked(w, h, used, n, t);
      }
    }
  }

  lemma NewBacked(w: S.World, h: H.Heap, used: seq<bool>, lo: int, b: Word, n: S.NewTask)
    requires S.CanCreate(w, n) && StackReady(w, h, used, lo) && Gets(h, b, lo, n)
    ensures TaskBacked(S.Create(w, n), h, used, n.t)
  {
    hide S.CreateMem, S.Inv;
  }

  lemma OldBacked(w: S.World, h: H.Heap, used: seq<bool>, n: S.NewTask, t: Word)
    requires S.CanCreate(w, n) && AllBacked(w, h, used) && t in w.ring && t != n.t
    ensures TaskBacked(S.Create(w, n), h, used, t)
  {
    hide S.CreateMem, S.Inv, H.Tiled;
    assert TaskBacked(w, h, used, t);
  }

  lemma InvSize(w: S.World)
    requires S.Inv(w)
    ensures |w.mem| == USER_MEM_START && |w.ring| > 0
  {
  }

  lemma MayCreate(w: S.World, h: H.Heap, used: seq<bool>, lo: int, b: Word, n: S.NewTask)
    requires S.Inv(w) && AllBacked(w, h, used) && StackReady(w, h, used, lo)
    requires Gets(h, b, lo, n) && n.t !in w.ring
    ensures S.CanCreate(w, n)
  {
    hide S.Inv, S.Apart, H.Tiled, TaskBacked, RangeUsed;
    InvSize(w);
    BlockMisses(h, b, lo, lo + KSTACK_SIZE);
    var w1 := w.(stacks := w.stacks[n.t := n.stack]);
    assert S.TaskPlaced(w1, n.t) && S.Apart(w1, n.t, n.t) by { NewPlaced(w, h, lo, b, n); }
    forall u | u in w.ring && u in w1.stacks ensures S.Apart(w1, n.t, u) && S.Apart(w1, u, n.t) {
      OldTask(w, h, used, u);
      ApartFromOld(w, h, used, lo, b, n, u);
    }
  }

  lemma NewPlaced(w: S.World, h: H.Heap, lo: int, b: Word, n: S.NewTask)
    requires |w.mem| == USER_MEM_START && MANAGED_BASE <= lo && lo + KSTACK_SIZE <= USER_MEM_START && lo % PAGE_SIZE == 0
    requires Gets(h, b, lo, n) && H.Tiled(h) && OutsideHeap(h, lo, lo + KSTACK_SIZE)
    ensures var w1 := w.(stacks := w.stacks[n.t := n.stack]); S.TaskPlaced(w1, n.t) && S.Apart(w1, n.t, n.t)
  {
    hide H.Tiled, OutsideHeap, H.BlockOk;
    BlockMisses(h, b, lo, lo + KSTACK_SIZE);
    BlockBounds(h, b);
    Multiple(lo);
  }

  lemma BlockBounds(h: H.Heap, b: int)
    requires H.Tiled(h) && b in h.starts
    ensures h.Has(b) && b % 8 == 0 && h.End(b) <= |h.mem| == USER_MEM_START
  {
    H.TiledBlock(h, b);
  }

  lemma Multiple(lo: int)
    requires lo % PAGE_SIZE == 0
    ensures lo % 4 == 0 && (lo + KSTACK_SIZE) % 4 == 0
  {
    var q := lo / PAGE_SIZE;
    assert lo == 4 * (1024 * q) && lo + KSTACK_SIZE == 4 * (1024 * q + 2048);
  }

  lemma ApartFromOld(w: S.World, h: H.Heap, used: seq<bool>, lo: int, b: Word, n: S.NewTask, u: Word)
    requires H.Tiled(h) && TaskBacked(w, h, used, u) && StackReady(w, h, used, lo) && u in w.ring
    requires Gets(h, b, lo, n) && n.t != u
    ensures var w1 := w.(stacks := w.stacks[n.t := n.stack]); S.Apart(w1, n.t, u) && S.Apart(w1, u, n.t)
  {
    hide H.Tiled, OutsideHeap, RangeUsed;
    var c := u - H.HEADER_SIZE;
    BlocksMiss(h, b, c);
    BlockMisses(h, b, lo, lo + KSTACK_SIZE);
    BlockMisses(h, c, lo, lo + KSTACK_SIZE);
    BlockMisses(h, b, w.stacks[u].lo, w.stacks[u].hi);
    BlockMisses(h, c, w.stacks[u].lo, w.stacks[u].hi);
  }
}
